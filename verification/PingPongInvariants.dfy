/** What every step of the publication protocol keeps, for any configuration. */
module PingPongInvariants {
  import opened Bytes
  import opened Properties
  import opened PingPong

  /** The number of the publication that readers currently load. */
  function Publication(s: State): int {
    |s.published| - 1
  }

  predicate Writing(s: State) {
    s.renderer.Truncated? || s.renderer.HeadWritten? || s.renderer.Rendering? || s.renderer.Closed?
  }

  /** The two flags stay opposite, name the page of the last publication, and only the lock holder moves them. */
  ghost predicate Shape(s: State) {
    && |s.published| >= 1
    && s.state.second == !s.state.first
    && s.state.Current() == Publication(s) % 2
    && (s.renderer.Draining? || s.renderer.Drained? || Writing(s) ==> s.renderer.state == s.state)
    && s.truncations == Publication(s) + (if Writing(s) then 1 else 0)
    && (forall r :: r in s.readers ==>
      0 <= s.readers[r].version <= Publication(s) && s.readers[r].page == s.readers[r].version % 2)
    && Distinct(s.props)
    && (s.renderer.Rendering? ==> s.renderer.k <= |s.renderer.names|)
  }

  lemma ShapeKeptByRefresh(cfg: Config, s: State, f: RefreshStep)
    requires Shape(s) && RefreshEnabled(cfg, s, f)
    ensures Shape(Refreshed(cfg, s, f))
  {
  }

  lemma ShapeKeptByReader(cfg: Config, s: State, q: ReaderStep)
    requires Shape(s) && ReaderEnabled(s, q)
    ensures Shape(AfterReader(cfg, s, q))
  {
    var t := AfterReader(cfg, s, q);
    assert t == s.(readers := t.readers, pages := t.pages);
  }

  lemma ShapeKept(cfg: Config, s: State, a: Step)
    requires Shape(s) && Enabled(cfg, s, a)
    ensures Shape(Apply(cfg, s, a))
  {
    match a {
      case Mutate(m) =>
        if m.Set? { SetPropertyKeepsDistinct(s.props, m.name, m.value); }
      case Refresh(f) => ShapeKeptByRefresh(cfg, s, f);
      case Read(q) => ShapeKeptByReader(cfg, s, q);
    }
  }

  /** Nothing has been asked for that no caller has taken up yet. */
  predicate Quiet(s: State) {
    !s.pending && s.mutator.Idle? && s.waiting == 0
  }

  /** Readers and mutators leave the page contents, the renderer and the publications alone. */
  lemma OnlyRefreshWrites(cfg: Config, s: State, a: Step)
    requires Enabled(cfg, s, a) && !a.Refresh?
    ensures var t := Apply(cfg, s, a);
      && t.renderer == s.renderer && t.state == s.state && t.published == s.published && t.truncations == s.truncations
      && t.pages.page0.bytes == s.pages.page0.bytes && t.pages.page1.bytes == s.pages.page1.bytes
      && (a.Read? ==> t.props == s.props && t.sets == s.sets && (Quiet(t) <==> Quiet(s)))
      && (a.Mutate? ==> !Quiet(t))
  {
  }

  lemma ReadersKept(cfg: Config, s: State, f: RefreshStep)
    requires RefreshEnabled(cfg, s, f)
    ensures Refreshed(cfg, s, f).readers == s.readers && Refreshed(cfg, s, f).props == s.props
    ensures Refreshed(cfg, s, f).sets == s.sets && Refreshed(cfg, s, f).mutator == s.mutator
  {
  }

  /** The last publication is intact, and so is the one before it until the next truncation. */
  ghost predicate Intact(s: State)
    requires Shape(s)
  {
    && s.pages.Get(s.state.Current()).bytes == s.published[Publication(s)]
    && (!Writing(s) && Publication(s) >= 1 ==>
      s.pages.Get(s.state.Spare()).bytes == s.published[Publication(s) - 1])
  }

  lemma IntactKeptByRefresh(cfg: Config, s: State, f: RefreshStep)
    requires Shape(s) && Intact(s) && RefreshEnabled(cfg, s, f)
    requires Shape(Refreshed(cfg, s, f))
    ensures Intact(Refreshed(cfg, s, f))
  {
  }

  lemma IntactKept(cfg: Config, s: State, a: Step)
    requires Shape(s) && Intact(s) && Enabled(cfg, s, a)
    ensures Shape(Apply(cfg, s, a)) && Intact(Apply(cfg, s, a))
  {
    ShapeKept(cfg, s, a);
    if a.Refresh? {
      IntactKeptByRefresh(cfg, s, a.f);
    } else {
      OnlyRefreshWrites(cfg, s, a);
    }
  }

  /** A page that consists of a head and some elements. */
  ghost predicate Elements(bytes: string) {
    exists vs: seq<Variant> :: bytes == HEAD + SaveAll(vs)
  }

  /** Every publication after the first is a complete page, and the page being written grows towards one. */
  ghost predicate Complete(s: State)
    requires Shape(s)
  {
    && (forall i :: 1 <= i < |s.published| ==> CompletePage(s.published[i]))
    && var bytes := s.pages.Get(s.state.Spare()).bytes;
      match s.renderer
      case Truncated(_) => bytes == ""
      case HeadWritten(_) => bytes == HEAD
      case Rendering(_, _, _) => Elements(bytes)
      case Closed(_) => CompletePage(bytes)
      case _ => true
  }

  lemma SaveAllSnoc(vs: seq<Variant>, v: Variant)
    ensures SaveAll(vs + [v]) == SaveAll(vs) + Save(v)
  {
    assert (vs + [v])[..|vs|] == vs;
  }

  lemma ElementsAppend(head: string, vs: seq<Variant>, v: Variant)
    ensures head + SaveAll(vs) + Save(v) == head + SaveAll(vs + [v])
  {
    SaveAllSnoc(vs, v);
    Assoc(head, SaveAll(vs), Save(v));
  }

  /** One more rendered property keeps the page a head followed by elements. */
  lemma ElementsGrow(bytes: string, props: Properties, name: string)
    requires Elements(bytes)
    ensures Elements(bytes + RenderedText(props, name))
  {
    if Lookup(props, name).Some? {
      var vs: seq<Variant> :| bytes == HEAD + SaveAll(vs);
      ElementsAppend(HEAD, vs, Lookup(props, name).value);
    } else {
      assert bytes + "" == bytes;
    }
  }

  lemma CompleteKeptByRefresh(cfg: Config, s: State, f: RefreshStep)
    requires Shape(s) && Complete(s) && RefreshEnabled(cfg, s, f)
    requires Shape(Refreshed(cfg, s, f))
    ensures Complete(Refreshed(cfg, s, f))
  {
    if f.ListNames? {
      assert HEAD == HEAD + SaveAll([]);
    } else if f.RenderNext? {
      ElementsGrow(s.pages.Get(s.state.Spare()).bytes, s.props, s.renderer.names[s.renderer.k]);
    }
  }

  lemma CompleteKept(cfg: Config, s: State, a: Step)
    requires Shape(s) && Complete(s) && Enabled(cfg, s, a)
    ensures Shape(Apply(cfg, s, a)) && Complete(Apply(cfg, s, a))
  {
    ShapeKept(cfg, s, a);
    if a.Refresh? {
      CompleteKeptByRefresh(cfg, s, a.f);
    } else {
      OnlyRefreshWrites(cfg, s, a);
    }
  }

  /** In a quiet state a finished page shows the current properties and a running refresh agrees with them so far. */
  ghost predicate UpToDate(s: State)
    requires Shape(s)
  {
    Quiet(s) ==>
      var spare := s.pages.Get(s.state.Spare()).bytes;
      match s.renderer
      case Free =>
        s.sets > 0 || Publication(s) > 0 ==> s.pages.Get(s.state.Current()).bytes == Page(s.props)
      case HeadWritten(_) => spare == HEAD
      case Rendering(_, names, k) => names == Names(s.props) && spare == HEAD + SaveAll(Values(s.props)[..k])
      case Closed(_) => spare == Page(s.props)
      case _ => true
  }

  /** Rendering the next listed property of an unchanged list adds exactly its value. */
  lemma RenderedNext(head: string, props: Properties, k: nat)
    requires Distinct(props) && k < |props|
    ensures head + SaveAll(Values(props)[..k]) + RenderedText(props, Names(props)[k])
      == head + SaveAll(Values(props)[..k + 1])
  {
    LookupOfName(props, k);
    var vs, v := Values(props)[..k], Values(props)[k];
    assert RenderedText(props, Names(props)[k]) == Save(v);
    ElementsAppend(head, vs, v);
    assert Values(props)[..k + 1] == vs + [v];
  }

  lemma UpToDateKeptByRefresh(cfg: Config, s: State, f: RefreshStep)
    requires Shape(s) && Complete(s) && UpToDate(s) && RefreshEnabled(cfg, s, f)
    requires Shape(Refreshed(cfg, s, f))
    ensures UpToDate(Refreshed(cfg, s, f))
  {
    if Quiet(s) {
      if f.ListNames? {
        assert Values(s.props)[..0] == [];
        assert HEAD == HEAD + SaveAll([]);
      } else if f.RenderNext? {
        RenderedNext(HEAD, s.props, s.renderer.k);
      } else if f.WriteTail? {
        assert Values(s.props)[..|s.props|] == Values(s.props);
      }
    }
  }

  lemma UpToDateKept(cfg: Config, s: State, a: Step)
    requires Shape(s) && Complete(s) && UpToDate(s) && Enabled(cfg, s, a)
    ensures Shape(Apply(cfg, s, a)) && UpToDate(Apply(cfg, s, a))
  {
    ShapeKept(cfg, s, a);
    if a.Refresh? {
      UpToDateKeptByRefresh(cfg, s, a.f);
    } else {
      OnlyRefreshWrites(cfg, s, a);
    }
  }

  /** The accessors that have registered on a page and have not finished. */
  function LiveIn(readers: map<nat, Reader>, i: PageIx): set<nat> {
    set r | r in readers && readers[r].registered && readers[r].page == i
  }

  function Live(s: State, i: PageIx): set<nat> {
    LiveIn(s.readers, i)
  }

  lemma LiveOfUpdate(readers: map<nat, Reader>, r: nat, reader: Reader, i: PageIx)
    ensures LiveIn(readers[r := reader], i)
      == if reader.registered && reader.page == i then LiveIn(readers, i) + {r} else LiveIn(readers, i) - {r}
    ensures LiveIn(readers - {r}, i) == LiveIn(readers, i) - {r}
  {
  }

  /** Releases are acquires plus drained permits plus the count; live accessors are releases not yet acquired. */
  ghost predicate PermitsOn(s: State, i: PageIx) {
    var page := s.pages.Get(i);
    page.released == page.acquired + page.drained + page.count && |Live(s, i)| == page.released - page.acquired
  }

  ghost predicate Permits(s: State) {
    PermitsOn(s, 0) && PermitsOn(s, 1)
  }

  /** Each reader step moves the live set of a page together with its counts. */
  lemma PermitsKeptByReader(cfg: Config, s: State, q: ReaderStep, i: PageIx)
    requires PermitsOn(s, i) && ReaderEnabled(s, q)
    ensures PermitsOn(AfterReader(cfg, s, q), i)
  {
    var t := AfterReader(cfg, s, q);
    match q {
      case LoadState(r) => LiveOfUpdate(s.readers, r, t.readers[r], i);
      case OpenPage(r) => LiveOfUpdate(s.readers, r, t.readers[r], i);
      case Register(r) => LiveOfUpdate(s.readers, r, t.readers[r], i);
      case Finish(r) => LiveOfUpdate(s.readers, r, s.readers[r], i);
    }
  }

  lemma PermitsKeptByRefresh(cfg: Config, s: State, f: RefreshStep)
    requires Permits(s) && RefreshEnabled(cfg, s, f)
    ensures Permits(Refreshed(cfg, s, f))
  {
    ReadersKept(cfg, s, f);
  }

  lemma PermitsKept(cfg: Config, s: State, a: Step)
    requires Permits(s) && Enabled(cfg, s, a)
    ensures Permits(Apply(cfg, s, a))
  {
    match a {
      case Read(q) =>
        PermitsKeptByReader(cfg, s, q, 0);
        PermitsKeptByReader(cfg, s, q, 1);
      case Refresh(f) => PermitsKeptByRefresh(cfg, s, f);
      case Mutate(m) =>
    }
  }

  /**
   * With both corrections: no permit is ever drained, past the drain the spare page has no
   * accessor, and so no reader ever leaves its window.
   */
  ghost predicate Isolated(cfg: Config, s: State)
    requires Shape(s)
  {
    cfg.waits && cfg.atomicOpen ==>
      && s.pages.page0.drained == 0 && s.pages.page1.drained == 0
      && (forall r :: r in s.readers ==> s.readers[r].registered && s.truncations <= s.readers[r].version + 1)
      && (s.renderer.Drained? || Writing(s) ==> Live(s, s.state.Spare()) == {})
  }

  lemma IsolatedKeptByRefresh(cfg: Config, s: State, f: RefreshStep)
    requires Shape(s) && Permits(s) && Isolated(cfg, s) && RefreshEnabled(cfg, s, f)
    requires Shape(Refreshed(cfg, s, f))
    ensures Isolated(cfg, Refreshed(cfg, s, f))
  {
    ReadersKept(cfg, s, f);
    if f.DrainEnd? {
      assert |Live(s, s.state.Spare())| == s.pages.Get(s.state.Spare()).drained;
    } else if f.Truncate? && cfg.waits && cfg.atomicOpen {
      forall r | r in s.readers ensures s.readers[r].version == Publication(s) {
        assert r !in Live(s, s.state.Spare());
      }
    }
  }

  lemma IsolatedKeptByReader(cfg: Config, s: State, q: ReaderStep)
    requires Shape(s) && Isolated(cfg, s) && ReaderEnabled(s, q)
    requires Shape(AfterReader(cfg, s, q))
    ensures Isolated(cfg, AfterReader(cfg, s, q))
  {
    if cfg.waits && cfg.atomicOpen {
      assert Live(AfterReader(cfg, s, q), s.state.Spare()) <= Live(s, s.state.Spare());
    }
  }

  lemma IsolatedKept(cfg: Config, s: State, a: Step)
    requires Shape(s) && Permits(s) && Isolated(cfg, s) && Enabled(cfg, s, a)
    ensures Shape(Apply(cfg, s, a)) && Isolated(cfg, Apply(cfg, s, a))
  {
    ShapeKept(cfg, s, a);
    match a {
      case Read(q) => IsolatedKeptByReader(cfg, s, q);
      case Refresh(f) => IsolatedKeptByRefresh(cfg, s, f);
      case Mutate(m) =>
    }
  }

  /** Inside its window a reader's page is the publication it loaded, and so is the length it read. */
  ghost predicate Lengths(s: State)
    requires Shape(s)
  {
    forall r :: r in s.readers && s.readers[r].length.Some? && s.truncations <= s.readers[r].version + 1 ==>
      s.readers[r].length.value == |s.published[s.readers[r].version]|
  }

  /** History is only ever extended. */
  ghost predicate Grows(s: State, t: State) {
    s.published <= t.published && s.truncations <= t.truncations && s.sets <= t.sets
    && s.pages.page0.drained <= t.pages.page0.drained && s.pages.page1.drained <= t.pages.page1.drained
  }

  lemma HistoryGrows(cfg: Config, s: State, a: Step)
    requires Enabled(cfg, s, a)
    ensures Grows(s, Apply(cfg, s, a))
  {
  }

  lemma LengthsKeptByReader(cfg: Config, s: State, q: ReaderStep)
    requires Shape(s) && Intact(s) && Lengths(s) && ReaderEnabled(s, q)
    requires Shape(AfterReader(cfg, s, q))
    ensures Lengths(AfterReader(cfg, s, q))
  {
    var t := AfterReader(cfg, s, q);
    assert t.published == s.published && t.truncations == s.truncations;
    forall r | r in t.readers && t.readers[r].length.Some? && s.truncations <= t.readers[r].version + 1
      ensures t.readers[r].length.value == |s.published[t.readers[r].version]|
    {
      if q == OpenPage(r) {
        assert s.pages.Get(s.readers[r].page).bytes == s.published[s.readers[r].version];
      }
    }
  }

  lemma LengthsOfLater(s: State, t: State)
    requires Shape(s) && Lengths(s) && Shape(t) && Grows(s, t) && t.readers == s.readers
    ensures Lengths(t)
  {
  }

  lemma LengthsKept(cfg: Config, s: State, a: Step)
    requires Shape(s) && Intact(s) && Lengths(s) && Enabled(cfg, s, a)
    ensures Shape(Apply(cfg, s, a)) && Lengths(Apply(cfg, s, a))
  {
    ShapeKept(cfg, s, a);
    match a {
      case Read(q) => LengthsKeptByReader(cfg, s, q);
      case Refresh(f) =>
        HistoryGrows(cfg, s, a);
        ReadersKept(cfg, s, f);
        LengthsOfLater(s, Refreshed(cfg, s, f));
      case Mutate(m) => LengthsOfLater(s, Mutated(s, m));
    }
  }

  ghost predicate Inv(cfg: Config, s: State) {
    Shape(s) && Intact(s) && Complete(s) && UpToDate(s) && Permits(s) && Isolated(cfg, s) && Lengths(s)
  }

  lemma InvInit(cfg: Config, bytes0: string, bytes1: string)
    ensures Inv(cfg, Init(bytes0, bytes1))
  {
    var s := Init(bytes0, bytes1);
    assert forall i: PageIx :: Live(s, i) == {};
  }

  lemma InvKept(cfg: Config, s: State, a: Step)
    requires Inv(cfg, s) && Enabled(cfg, s, a)
    ensures Inv(cfg, Apply(cfg, s, a))
  {
    IntactKept(cfg, s, a);
    CompleteKept(cfg, s, a);
    UpToDateKept(cfg, s, a);
    PermitsKept(cfg, s, a);
    IsolatedKept(cfg, s, a);
    LengthsKept(cfg, s, a);
  }

  lemma {:induction false} InvAlongRun(cfg: Config, s: State, steps: seq<Step>)
    requires Inv(cfg, s) && Valid(cfg, s, steps)
    ensures Inv(cfg, Run(cfg, s, steps))
    decreases |steps|
  {
    if steps != [] {
      InvKept(cfg, s, steps[0]);
      InvAlongRun(cfg, Apply(cfg, s, steps[0]), steps[1..]);
    }
  }

  /** The invariant holds in every reachable state. */
  lemma InvOfReachable(cfg: Config, s: State)
    requires Reachable(cfg, s)
    ensures Inv(cfg, s)
  {
    var b0, b1, steps :| Valid(cfg, Init(b0, b1), steps) && Run(cfg, Init(b0, b1), steps) == s;
    InvInit(cfg, b0, b1);
    InvAlongRun(cfg, Init(b0, b1), steps);
  }
}
