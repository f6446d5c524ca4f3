/** The database object itself: request methods, notification, and the refresh that rewrites the spare page. */
module Database {
  import opened Bytes
  import opened Properties
  import opened PingPong
  import opened PingPongTheorems
  import PingPongInvariants
  import opened Requests
  import opened PageReader

  class DatabaseObj {
    const types: Types
    var props: Properties
    var pending: bool
    var state: StatesPair
    var pages: Pages
    ghost var readers: map<nat, Reader>
    ghost var published: seq<string>
    ghost var truncations: nat
    ghost var sets: nat

    ghost predicate Valid()
      reads this
    {
      Distinct(props) && state.second == !state.first
    }

    /** The protocol state this object is in, given where its threads stand. */
    ghost function View(mutator: Mutator, waiting: nat, renderer: Renderer): State
      reads this
    {
      State(props, mutator, pending, waiting, renderer, state, pages, readers, published, truncations, sets)
    }

    constructor (types: Types, bytes0: string, bytes1: string)
      ensures Valid() && this.types == types
      ensures View(Idle, 0, Free) == Init(bytes0, bytes1)
    {
      this.types := types;
      props, pending, state := [], false, StatesPair(true, false);
      pages := Pages(PageFile(bytes0, 0, 0, 0, 0), PageFile(bytes1, 0, 0, 0, 0));
      readers, published, truncations, sets := map[], [bytes0], 0, 0;
    }

    /** binary_semaphore::release, taken to saturate at one: Notify of the protocol, wherever its threads stand. */
    method NotifyRefresh()
      modifies this`pending
      ensures forall w, r :: View(Idle, w, r) == Apply(AS_WRITTEN, old(View(Notifying, w, r)), Mutate(Notify))
    {
      pending := true;
    }

    /** A successful request is one Set followed by one Notify of the protocol, wherever the refresh threads stand. */
    twostate predicate ChangedBy(change: Option<Change>)
      reads this
    {
      match change
      case None =>
        forall w, r :: View(Idle, w, r) == old(View(Idle, w, r))
      case Some(c) =>
        forall w, r :: View(Idle, w, r) == Mutated(Mutated(old(View(Idle, w, r)), Set(c.name, c.value)), Notify)
    }

    method SetPropertyAndNotify(name: string, value: Option<Variant>)
      requires Valid()
      modifies this`props, this`pending, this`sets
      ensures Valid() && ChangedBy(Some(Change(name, value)))
    {
      SetPropertyKeepsDistinct(props, name, value);
      props := SetProperty(props, name, value);
      sets := sets + 1;
      NotifyRefresh();
    }

    method AddProperty(params: Params) returns (reply: Reply)
      requires Valid()
      modifies this`props, this`pending, this`sets
      ensures Valid()
      ensures reply == AddEffect(types, old(props), params).reply
      ensures ChangedBy(AddEffect(types, old(props), params).change)
    {
      var name := ExtractParamStr(params, "name");
      if name.None? {
        return Reply("", InvalidParams);
      }
      if Has(props, name.value) {
        return Reply("", InvalidParams);
      }
      var typeName := ExtractParamStr(params, "type");
      if typeName.None? {
        return Reply("", InvalidParams);
      }
      if typeName.value !in types {
        return Reply("", InvalidParams);
      }
      var value := types[typeName.value];
      if value.None? {
        return Reply("", InvalidParams);
      }
      SetPropertyAndNotify(name.value, value);
      reply := Reply("Property <" + name.value + "> type <" + typeName.value + "> added", NoError);
    }

    method DeleteProperty(params: Params) returns (reply: Reply)
      requires Valid()
      modifies this`props, this`pending, this`sets
      ensures Valid()
      ensures reply == DeleteEffect(old(props), params).reply
      ensures ChangedBy(DeleteEffect(old(props), params).change)
    {
      var name := ExtractParamStr(params, "name");
      if name.None? {
        return Reply("", InvalidParams);
      }
      if !Has(props, name.value) {
        return Reply("", InvalidParams);
      }
      SetPropertyAndNotify(name.value, None);
      reply := Reply("Property <" + name.value + "> deleted", NoError);
    }

    method ListProperties(params: Params) returns (reply: Reply)
      ensures reply == Reply(ListText(props), NoError)
    {
      var text := "";
      var names := Names(props);
      var i := 0;
      while i < |names|
        invariant 0 <= i <= |names|
        invariant text == Appended(EntryTexts(props)[..i])
      {
        AppendedSnoc(EntryTexts(props)[..i], EntryTexts(props)[i]);
        assert EntryTexts(props)[..i + 1] == EntryTexts(props)[..i] + [EntryTexts(props)[i]];
        text := text + EntryText(props[i]);
        i := i + 1;
      }
      assert EntryTexts(props)[..i] == EntryTexts(props);
      reply := Reply(text, NoError);
    }

    method SetPropertyAttr(params: Params, level: int) returns (reply: Reply)
      requires Valid() && Accepted(props, SetAttr(params, level))
      modifies this`props, this`pending, this`sets
      ensures Valid()
      ensures reply == SetAttrEffect(old(props), params, level).reply
      ensures ChangedBy(SetAttrEffect(old(props), params, level).change)
    {
      var property := ExtractParamStr(params, "property");
      if property.None? {
        return Reply("", InvalidParams);
      }
      var attribute := ExtractParamStr(params, "attribute");
      if attribute.None? {
        return Reply("", InvalidParams);
      }
      if "data" !in params {
        return Reply("", InvalidParams);
      }
      var copy := Lookup(props, property.value).value;
      copy := copy.(element := WithAttribute(copy.element, attribute.value, params["data"], level));
      SetPropertyAndNotify(property.value, Some(copy));
      reply := Reply("Attribute " + attribute.value + " set to " + ByteArray(params["data"]), NoError);
    }

    /**
     * The whole of getHTMLFile when nothing comes between its steps. The accessor is registered, and
     * has a length, whether or not fopen succeeds.
     */
    method GetHtmlFile(ghost r: nat) returns (page: PageIx, length: nat)
      requires r !in readers
      modifies this`pages, this`readers
      ensures page == state.Current() && length == |pages.Get(page).bytes|
      ensures forall i: PageIx :: pages.Get(i).bytes == old(pages.Get(i).bytes)
      ensures Reaches(AS_WRITTEN, old(View(Idle, 0, Free)), View(Idle, 0, Free))
      ensures readers == old(readers)[r := Reader(page, |published| - 1, Some(length), true)]
    {
      ghost var s := View(Idle, 0, Free);
      page := state.Current();
      length := |pages.Get(page).bytes|;
      pages := Released(pages, page);
      readers := readers[r := Reader(page, |published| - 1, Some(length), true)];
      ghost var a := Apply(AS_WRITTEN, s, Read(LoadState(r)));
      ReachesStep(AS_WRITTEN, s, Read(LoadState(r)));
      ghost var b := Apply(AS_WRITTEN, a, Read(OpenPage(r)));
      ReachesStep(AS_WRITTEN, a, Read(OpenPage(r)));
      ReachesStep(AS_WRITTEN, b, Read(Register(r)));
      ReachesTransitive(AS_WRITTEN, s, a, b);
      ReachesTransitive(AS_WRITTEN, s, b, Apply(AS_WRITTEN, b, Read(Register(r))));
      assert Apply(AS_WRITTEN, b, Read(Register(r))) == View(Idle, 0, Free);
    }

    /** One label of the lock holder added to the run so far. */
    ghost method Took(start: State, s: State, f: RefreshStep) returns (t: State)
      requires Reaches(AS_WRITTEN, start, s) && RefreshEnabled(AS_WRITTEN, s, f)
      ensures t == Refreshed(AS_WRITTEN, s, f) && Reaches(AS_WRITTEN, start, t)
    {
      t := Refreshed(AS_WRITTEN, s, f);
      ReachesStep(AS_WRITTEN, s, Refresh(f));
      ReachesTransitive(AS_WRITTEN, start, s, t);
    }

    /** Takes every permit of a page. */
    method DrainPermits(page: PageIx, ghost start: State)
      requires page == state.Spare() && Reaches(AS_WRITTEN, start, View(Idle, 0, Draining(state)))
      modifies this`pages
      ensures Reaches(AS_WRITTEN, start, View(Idle, 0, Draining(state)))
      ensures pages == old(pages.Put(page, pages.Get(page).(count := 0,
                drained := pages.Get(page).drained + pages.Get(page).count)))
    {
      while pages.Get(page).count > 0
        invariant Reaches(AS_WRITTEN, start, View(Idle, 0, Draining(state)))
        invariant pages == old(pages).Put(page, pages.Get(page))
        invariant pages.Get(page).drained + pages.Get(page).count
          == old(pages.Get(page).drained + pages.Get(page).count)
        invariant pages.Get(page).bytes == old(pages.Get(page).bytes)
        invariant pages.Get(page).released == old(pages.Get(page).released)
        invariant pages.Get(page).acquired == old(pages.Get(page).acquired)
        decreases pages.Get(page).count
      {
        ghost var t := Took(start, View(Idle, 0, Draining(state)), Drain);
        var p := pages.Get(page);
        pages := pages.Put(page, p.(count := p.count - 1, drained := p.drained + 1));
        assert t == View(Idle, 0, Draining(state));
      }
    }

    /** Clears the drained page and writes its head. */
    method BeginPage(page: PageIx, ghost start: State)
      requires page == state.Spare() && pages.Get(page).count == 0
      requires Reaches(AS_WRITTEN, start, View(Idle, 0, Draining(state)))
      modifies this`pages, this`truncations
      ensures Reaches(AS_WRITTEN, start, View(Idle, 0, Rendering(state, Names(props), 0)))
      ensures pages == old(pages.Put(page, pages.Get(page).(bytes := HEAD)))
      ensures truncations == old(truncations) + 1
    {
      ghost var t := Took(start, View(Idle, 0, Draining(state)), DrainEnd);
      t := Took(start, t, Truncate);
      pages := pages.Put(page, pages.Get(page).(bytes := ""));
      truncations := truncations + 1;
      assert t == View(Idle, 0, Truncated(state));
      t := Took(start, t, WriteHead);
      assert "" + HEAD == HEAD;
      pages := Append(pages, page, HEAD);
      t := Took(start, t, ListNames);
      assert t == View(Idle, 0, Rendering(state, Names(props), 0));
    }

    /** Writes the listed properties one by one. */
    method RenderProperties(page: PageIx, ghost start: State)
      requires Valid() && page == state.Spare() && pages.Get(page).bytes == HEAD
      requires Reaches(AS_WRITTEN, start, View(Idle, 0, Rendering(state, Names(props), 0)))
      modifies this`pages
      ensures Reaches(AS_WRITTEN, start, View(Idle, 0, Rendering(state, Names(props), |props|)))
      ensures pages == old(pages.Put(page, pages.Get(page).(bytes := HEAD + SaveAll(Values(props)))))
    {
      var names := Names(props);
      var k := 0;
      assert HEAD == HEAD + SaveAll(Values(props)[..0]);
      while k < |names|
        invariant 0 <= k <= |names|
        invariant Reaches(AS_WRITTEN, start, View(Idle, 0, Rendering(state, names, k)))
        invariant pages == old(pages.Put(page, pages.Get(page).(bytes := HEAD + SaveAll(Values(props)[..k]))))
      {
        ghost var t := Took(start, View(Idle, 0, Rendering(state, names, k)), RenderNext);
        PingPongInvariants.RenderedNext(HEAD, props, k);
        pages := Append(pages, page, RenderedText(props, names[k]));
        k := k + 1;
        assert t == View(Idle, 0, Rendering(state, names, k));
      }
      assert Values(props)[..k] == Values(props);
    }

    /** Ends the page and flips the state that readers load. */
    method PublishPage(loaded: StatesPair, ghost start: State)
      requires loaded == state
      requires Reaches(AS_WRITTEN, start, View(Idle, 0, Rendering(state, Names(props), |props|)))
      modifies this`pages, this`state, this`published
      ensures Reaches(AS_WRITTEN, start, View(Idle, 0, Free))
      ensures state == loaded.Flip()
      ensures pages == Append(old(pages), loaded.Spare(), TAIL)
      ensures published == old(published) + [pages.Get(loaded.Spare()).bytes]
    {
      ghost var t := Took(start, View(Idle, 0, Rendering(state, Names(props), |props|)), WriteTail);
      pages := Append(pages, loaded.Spare(), TAIL);
      assert t == View(Idle, 0, Closed(state));
      t := Took(start, t, Store);
      published := published + [pages.Get(loaded.Spare()).bytes];
      state := loaded.Flip();
      assert t == View(Idle, 0, Free);
    }

    /** Drains, truncates, renders and publishes; run without interruption it is a run of the protocol. */
    method RefreshHtml()
      requires Valid()
      modifies this`pages, this`state, this`published, this`truncations
      ensures Valid() && state == old(state.Flip())
      ensures pages.Get(state.Current()).bytes == Page(props)
      ensures ReadableAll(props) ==> Shows(pages.Get(state.Current()).bytes, props)
      ensures pages.Get(state.Current()).count == 0
      ensures pages.Get(state.Spare()) == old(pages.Get(state.Current()))
      ensures published == old(published) + [Page(props)] && truncations == old(truncations) + 1
      ensures Reaches(AS_WRITTEN, old(View(Idle, 1, Free)), View(Idle, 0, Free))
    {
      ghost var start := View(Idle, 1, Free);
      assert Reaches(AS_WRITTEN, start, start) by {
        assert PingPong.Valid(AS_WRITTEN, start, []) && Run(AS_WRITTEN, start, []) == start;
      }
      ghost var t := Took(start, start, Lock);
      assert t == View(Idle, 0, Locked);
      t := Took(start, t, Load);
      assert t == View(Idle, 0, Draining(state));
      var loaded := state;
      var page := loaded.Spare();
      DrainPermits(page, start);
      BeginPage(page, start);
      RenderProperties(page, start);
      PublishPage(loaded, start);
      if ReadableAll(props) {
        PageReadsBack(props);
      }
    }

    /** The timer of the refresh thread: a pending notification is consumed and the page published anew. */
    method OnTimeout()
      requires Valid()
      modifies this`pending, this`pages, this`state, this`published, this`truncations
      ensures Valid() && !pending
      ensures old(pending) ==> pages.Get(state.Current()).bytes == Page(props) && state == old(state.Flip())
      ensures !old(pending) ==> pages == old(pages) && state == old(state)
      ensures Reaches(AS_WRITTEN, old(View(Idle, 0, Free)), View(Idle, 0, Free))
    {
      ghost var start := View(Idle, 0, Free);
      if pending {
        pending := false;
        ReachesStep(AS_WRITTEN, start, Refresh(TryAcquire));
        assert Apply(AS_WRITTEN, start, Refresh(TryAcquire)) == View(Idle, 1, Free);
        ghost var taken := View(Idle, 1, Free);
        RefreshHtml();
        ReachesTransitive(AS_WRITTEN, start, taken, View(Idle, 0, Free));
      } else {
        assert PingPong.Valid(AS_WRITTEN, start, []) && Run(AS_WRITTEN, start, []) == start;
      }
    }
  }
}
