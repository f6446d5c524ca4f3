/** What the publication protocol guarantees over all runs, and which guarantees need a correction. */
module PingPongTheorems {
  import opened Bytes
  import opened Properties
  import opened PingPong
  import opened PingPongInvariants

  lemma {:induction false} RunConcat(cfg: Config, s: State, steps: seq<Step>, more: seq<Step>)
    requires Valid(cfg, s, steps) && Valid(cfg, Run(cfg, s, steps), more)
    ensures Valid(cfg, s, steps + more) && Run(cfg, s, steps + more) == Run(cfg, Run(cfg, s, steps), more)
    decreases |steps|
  {
    if steps == [] {
      assert [] + more == more;
    } else {
      RunConcat(cfg, Apply(cfg, s, steps[0]), steps[1..], more);
      assert (steps + more)[1..] == steps[1..] + more;
    }
  }

  lemma ReachesStep(cfg: Config, s: State, a: Step)
    requires Enabled(cfg, s, a)
    ensures Reaches(cfg, s, Apply(cfg, s, a))
  {
    assert [a][1..] == [];
    assert Valid(cfg, Apply(cfg, s, a), []);
    assert Valid(cfg, s, [a]) && Run(cfg, s, [a]) == Apply(cfg, s, a);
  }

  lemma ReachesTransitive(cfg: Config, s: State, t: State, u: State)
    requires Reaches(cfg, s, t) && Reaches(cfg, t, u)
    ensures Reaches(cfg, s, u)
  {
    var first :| Valid(cfg, s, first) && Run(cfg, s, first) == t;
    var second :| Valid(cfg, t, second) && Run(cfg, t, second) == u;
    RunConcat(cfg, s, first, second);
  }

  lemma ReachableStep(cfg: Config, s: State, a: Step)
    requires Reachable(cfg, s) && Enabled(cfg, s, a)
    ensures Reachable(cfg, Apply(cfg, s, a))
  {
    var b0, b1, steps :| Valid(cfg, Init(b0, b1), steps) && Run(cfg, Init(b0, b1), steps) == s;
    ReachesStep(cfg, s, a);
    var more :| Valid(cfg, s, more) && Run(cfg, s, more) == Apply(cfg, s, a);
    RunConcat(cfg, Init(b0, b1), steps, more);
  }

  lemma {:induction false} ReachableRun(cfg: Config, s: State, steps: seq<Step>)
    requires Reachable(cfg, s) && Valid(cfg, s, steps)
    ensures Reachable(cfg, Run(cfg, s, steps))
    ensures Grows(s, Run(cfg, s, steps))
    decreases |steps|
  {
    if steps != [] {
      ReachableStep(cfg, s, steps[0]);
      HistoryGrows(cfg, s, steps[0]);
      ReachableRun(cfg, Apply(cfg, s, steps[0]), steps[1..]);
    }
  }

  // ---------- no refresh is lost ----------

  /**
   * After the first mutation, a published page that differs from the current properties means that
   * a notification is pending, a mutator is about to post one, or a refresh is asked for or running.
   */
  lemma NoRefreshLost(cfg: Config, s: State)
    requires Reachable(cfg, s) && s.sets > 0
    requires s.pages.Get(s.state.Current()).bytes != Page(s.props)
    ensures s.pending || s.mutator.Notifying? || s.waiting > 0 || !s.renderer.Free?
  {
    InvOfReachable(cfg, s);
  }

  /** A running refresh with nothing else outstanding has written a prefix of the current rendering. */
  lemma RunningRefreshAgrees(cfg: Config, s: State)
    requires Reachable(cfg, s) && Quiet(s) && s.renderer.Rendering?
    ensures s.renderer.names == Names(s.props) && s.renderer.k <= |s.props|
    ensures s.pages.Get(s.state.Spare()).bytes == HEAD + SaveAll(Values(s.props)[..s.renderer.k])
  {
    InvOfReachable(cfg, s);
  }

  /** At quiescence the published page is the full rendering of the current properties. */
  lemma QuiescentPageIsCurrent(cfg: Config, s: State)
    requires Reachable(cfg, s) && s.sets > 0 && Quiet(s) && s.renderer.Free?
    ensures s.pages.Get(s.state.Current()).bytes == Page(s.props)
  {
    InvOfReachable(cfg, s);
  }

  // ---------- there is always one valid page ----------

  /**
   * However many callers contend, the flags stay opposite, no step changes the bytes of the page
   * they name, and after the first publication that page is complete.
   */
  lemma AlwaysOneValidPage(cfg: Config, s: State, a: Step)
    requires Reachable(cfg, s) && Enabled(cfg, s, a)
    ensures s.state.first != s.state.second
    ensures Touched(s, a) != Some(s.state.Current())
    ensures Apply(cfg, s, a).pages.Get(s.state.Current()).bytes == s.pages.Get(s.state.Current()).bytes
    ensures Publication(s) > 0 ==> CompletePage(s.pages.Get(s.state.Current()).bytes)
    ensures a == Refresh(Store) ==> CompletePage(s.pages.Get(Apply(cfg, s, a).state.Current()).bytes)
  {
    PagesOfReachable(cfg, s);
    PublishedIsUntouched(cfg, s, a);
    if a == Refresh(Store) {
      StorePublishes(cfg, s);
    }
    assert Publication(s) > 0 ==> CompletePage(s.published[Publication(s)]);
  }

  lemma PublishedIsUntouched(cfg: Config, s: State, a: Step)
    requires Shape(s) && Enabled(cfg, s, a)
    ensures Touched(s, a) != Some(s.state.Current())
    ensures Apply(cfg, s, a).pages.Get(s.state.Current()).bytes == s.pages.Get(s.state.Current()).bytes
  {
    if !a.Refresh? {
      OnlyRefreshWrites(cfg, s, a);
    }
  }

  lemma StorePublishes(cfg: Config, s: State)
    requires Shape(s) && Complete(s) && RefreshEnabled(cfg, s, Store)
    ensures CompletePage(s.pages.Get(Refreshed(cfg, s, Store).state.Current()).bytes)
  {
  }

  /** Every change of a page's bytes is a write or truncation of that page by the lock holder. */
  lemma WritesAreTouches(cfg: Config, s: State, a: Step, i: PageIx)
    requires Enabled(cfg, s, a)
    requires Apply(cfg, s, a).pages.Get(i).bytes != s.pages.Get(i).bytes
    ensures Touched(s, a) == Some(i)
  {
    if !a.Refresh? {
      OnlyRefreshWrites(cfg, s, a);
    }
  }

  // ---------- what a reader sees ----------

  lemma WindowOfVersion(t: State, version: int)
    requires Shape(t) && Intact(t) && 0 <= version <= Publication(t) && t.truncations <= version + 1
    ensures t.pages.Get(version % 2).bytes == t.published[version]
  {
    if version == Publication(t) {
      assert version % 2 == t.state.Current();
    } else {
      assert version % 2 == t.state.Spare() && !Writing(t);
    }
  }

  /**
   * The page a reader finds at its state load keeps its bytes until the second truncation after
   * that publication began, through any steps of anybody.
   */
  lemma SnapshotWindow(cfg: Config, s: State, later: seq<Step>)
    requires Reachable(cfg, s) && Valid(cfg, s, later)
    requires Run(cfg, s, later).truncations <= Publication(s) + 1
    ensures Run(cfg, s, later).pages.Get(s.state.Current()).bytes == s.pages.Get(s.state.Current()).bytes
  {
    ReachableRun(cfg, s, later);
    InvOfReachable(cfg, s);
    InvOfReachable(cfg, Run(cfg, s, later));
    WindowOfVersion(Run(cfg, s, later), Publication(s));
    assert Run(cfg, s, later).published[Publication(s)] == s.published[Publication(s)];
  }

  /** The same for an accessor: inside the window it holds exactly the publication it loaded, and its length. */
  lemma ReaderSeesItsPublication(cfg: Config, s: State, r: nat)
    requires Reachable(cfg, s) && r in s.readers
    requires s.truncations <= s.readers[r].version + 1
    ensures 0 <= s.readers[r].version < |s.published|
    ensures s.pages.Get(s.readers[r].page).bytes == s.published[s.readers[r].version]
    ensures s.readers[r].length.Some? ==> s.readers[r].length.value == |s.published[s.readers[r].version]|
  {
    InvOfReachable(cfg, s);
    WindowOfVersion(s, s.readers[r].version);
  }

  lemma LaterPublicationIsText(s: State, version: nat)
    requires Shape(s) && Complete(s) && 1 <= version < |s.published|
    ensures s.published[version] != ""
  {
    assert CompletePage(s.published[version]);
  }

  lemma TruncateEmpties(cfg: Config, s: State)
    requires s.renderer.Drained?
    ensures Touched(s, Refresh(Truncate)) == Some(s.renderer.state.Spare())
    ensures Apply(cfg, s, Refresh(Truncate)).pages.Get(s.renderer.state.Spare()).bytes == ""
  {
  }

  /** The reader whose window ends is on the spare page. */
  lemma ReaderOnSpare(s: State, r: nat)
    requires Shape(s) && Intact(s) && s.renderer.Drained? && r in s.readers
    requires s.truncations == s.readers[r].version + 1
    ensures s.readers[r].page == s.renderer.state.Spare()
    ensures s.pages.Get(s.readers[r].page).bytes == s.published[s.readers[r].version]
  {
    WindowOfVersion(s, s.readers[r].version);
  }

  /** The part of the invariant that is about the pages. */
  lemma PagesOfReachable(cfg: Config, s: State)
    requires Reachable(cfg, s)
    ensures Shape(s) && Intact(s) && Complete(s)
  {
    InvOfReachable(cfg, s);
  }

  /**
   * The window is exact: the truncation that ends it empties the page under the reader, and so
   * changes it exactly when the publication it loaded was not empty already.
   */
  lemma WindowEnds(cfg: Config, s: State, r: nat)
    requires Reachable(cfg, s) && r in s.readers
    requires s.renderer.Drained? && s.truncations == s.readers[r].version + 1
    ensures 0 <= s.readers[r].version < |s.published|
    ensures Touched(s, Refresh(Truncate)) == Some(s.readers[r].page)
    ensures var after := Apply(cfg, s, Refresh(Truncate)).pages.Get(s.readers[r].page).bytes;
      && after == ""
      && (after != s.pages.Get(s.readers[r].page).bytes <==> s.published[s.readers[r].version] != "")
    ensures s.readers[r].version >= 1 ==> s.published[s.readers[r].version] != ""
  {
    PagesOfReachable(cfg, s);
    ReaderOnSpare(s, r);
    TruncateEmpties(cfg, s);
    if s.readers[r].version >= 1 {
      LaterPublicationIsText(s, s.readers[r].version);
    }
  }

  // ---------- permits ----------

  /** Permits are accounted for, so at least as many accessors are live as permits were ever drained. */
  lemma PermitAccounting(cfg: Config, s: State, i: PageIx)
    requires Reachable(cfg, s)
    ensures var page := s.pages.Get(i);
      && page.released == page.acquired + page.drained + page.count
      && |Live(s, i)| == page.drained + page.count
  {
    InvOfReachable(cfg, s);
  }

  /** The readers that have not read the length of their page yet. */
  function Unopened(s: State): set<nat> {
    set r | r in s.readers && s.readers[r].length.None?
  }

  function Other(i: PageIx): PageIx {
    if i == 0 then 1 else 0
  }

  /** One accessor gets closer to its end: it reads the length, or takes a permit that is there. */
  lemma FinishOne(cfg: Config, s: State, i: PageIx, r: nat) returns (a: Step)
    requires Reachable(cfg, s) && s.pages.Get(i).count > 0 && r in Live(s, i)
    ensures Enabled(cfg, s, a)
    ensures var t := Apply(cfg, s, a);
      && t.pages.page0.drained == s.pages.page0.drained && t.pages.page1.drained == s.pages.page1.drained
      && Live(t, Other(i)) == Live(s, Other(i))
      && (|Live(t, i)| < |Live(s, i)| || (Live(t, i) == Live(s, i) && |Unopened(t)| < |Unopened(s)|))
  {
    if s.readers[r].length.None? {
      a := Read(OpenPage(r));
      var t := Apply(cfg, s, a);
      LiveOfUpdate(s.readers, r, t.readers[r], i);
      LiveOfUpdate(s.readers, r, t.readers[r], Other(i));
      assert Unopened(t) == Unopened(s) - {r};
    } else {
      a := Read(Finish(r));
      LiveOfUpdate(s.readers, r, s.readers[r], i);
      LiveOfUpdate(s.readers, r, s.readers[r], Other(i));
    }
  }

  /** On both pages the live accessors are down to the permits that were ever drained. */
  ghost predicate AtFloor(s: State) {
    |Live(s, 0)| == s.pages.page0.drained && |Live(s, 1)| == s.pages.page1.drained
  }

  /**
   * That is all that is lost: readers that finish one after the other bring both pages down to the
   * permits drained so far, with no permit drained on the way.
   */
  lemma FinishToFloor(cfg: Config, s: State) returns (later: seq<Step>)
    requires Reachable(cfg, s)
    ensures Valid(cfg, s, later) && AtFloor(Run(cfg, s, later))
    ensures forall i: PageIx :: |Live(Run(cfg, s, later), i)| == s.pages.Get(i).drained
    ensures Run(cfg, s, later).pages.page0.drained == s.pages.page0.drained
    ensures Run(cfg, s, later).pages.page1.drained == s.pages.page1.drained
    decreases |Live(s, 0)| + |Live(s, 1)|, |Unopened(s)|
  {
    PermitAccounting(cfg, s, 0);
    PermitAccounting(cfg, s, 1);
    if AtFloor(s) {
      later := [];
    } else {
      var i: PageIx := if s.pages.page0.count > 0 then 0 else 1;
      assert |Live(s, i)| > 0;
      var r :| r in Live(s, i);
      var a := FinishOne(cfg, s, i, r);
      ReachableStep(cfg, s, a);
      later := FinishToFloor(cfg, Apply(cfg, s, a));
      assert ([a] + later)[1..] == later;
      later := [a] + later;
    }
  }

  /** A drained permit never comes back: no continuation leaves fewer live accessors of a page than that. */
  lemma LiveAccessorsFloor(cfg: Config, s: State, later: seq<Step>, i: PageIx)
    requires Reachable(cfg, s) && Valid(cfg, s, later)
    ensures |Live(Run(cfg, s, later), i)| >= s.pages.Get(i).drained
  {
    ReachableRun(cfg, s, later);
    PermitAccounting(cfg, Run(cfg, s, later), i);
  }

  /** Some continuation lets every accessor of the page finish. */
  ghost predicate CanRelease(cfg: Config, s: State, i: PageIx) {
    exists later :: Valid(cfg, s, later) && Live(Run(cfg, s, later), i) == {}
  }

  /**
   * The accessors of a page can all be released from here on exactly when no permit of that page
   * has been drained.
   */
  lemma ReleasableIffNothingDrained(cfg: Config, s: State, i: PageIx)
    requires Reachable(cfg, s)
    ensures CanRelease(cfg, s, i) <==> s.pages.Get(i).drained == 0
  {
    if CanRelease(cfg, s, i) {
      var later :| Valid(cfg, s, later) && Live(Run(cfg, s, later), i) == {};
      LiveAccessorsFloor(cfg, s, later, i);
    } else {
      var later := FinishToFloor(cfg, s);
      assert Live(Run(cfg, s, later), i) != {};
    }
  }

  // ---------- completing a refresh ----------

  /** What the lock holder leaves alone while it works. */
  ghost predicate SameRequests(s: State, t: State) {
    t.props == s.props && t.readers == s.readers && t.sets == s.sets
    && t.mutator == s.mutator && t.pending == s.pending && t.waiting == s.waiting
  }

  /** The steps the lock holder still has before it reaches the truncation, or the end. */
  ghost function Remaining(s: State): int {
    match s.renderer
    case Free => 0
    case Locked => 9
    case Draining(st) => 8
    case Drained(_) => 7
    case Truncated(_) => 6
    case HeadWritten(_) => 5
    case Rendering(_, names, k) => if k < |names| then 4 else 3
    case Closed(_) => 1
  }

  ghost function Loop(s: State): int {
    match s.renderer
    case Draining(st) => s.pages.Get(st.Spare()).count
    case Rendering(_, names, k) => |names| - k
    case _ => 0
  }

  /** The next step of the lock holder. */
  function Next(s: State): RefreshStep
    requires !s.renderer.Free?
  {
    match s.renderer
    case Locked => Load
    case Draining(st) => if s.pages.Get(st.Spare()).count > 0 then Drain else DrainEnd
    case Drained(_) => Truncate
    case Truncated(_) => WriteHead
    case HeadWritten(_) => ListNames
    case Rendering(_, names, k) => if k < |names| then RenderNext else WriteTail
    case Closed(_) => Store
  }

  /** The lock holder can always go on, unless it waits for accessors of the page it wants to rewrite. */
  lemma NextEnabled(cfg: Config, s: State)
    requires Shape(s) && !s.renderer.Free?
    requires !(cfg.waits && s.renderer.Draining? && s.pages.Get(s.state.Spare()).count > 0)
    ensures RefreshEnabled(cfg, s, Next(s))
    ensures var t := Refreshed(cfg, s, Next(s));
      && SameRequests(s, t)
      && (Remaining(t) < Remaining(s) || (Remaining(t) == Remaining(s) && 0 <= Loop(t) < Loop(s)))
      && (t.state == s.state || (t.renderer.Free? && t.state == s.state.Flip()))
  {
  }

  /** The lock holder alone brings its refresh to the end. */
  lemma FinishRefresh(cfg: Config, s: State) returns (t: State)
    requires Reachable(cfg, s)
    requires !s.renderer.Free? && (cfg.waits ==> s.pages.Get(s.state.Spare()).count == 0)
    ensures Reachable(cfg, t) && t.renderer.Free? && SameRequests(s, t) && t.state == s.state.Flip()
    ensures Reaches(cfg, s, t)
    decreases Remaining(s), Loop(s)
  {
    InvOfReachable(cfg, s);
    NextEnabled(cfg, s);
    var u := Refreshed(cfg, s, Next(s));
    ReachableStep(cfg, s, Refresh(Next(s)));
    ReachesStep(cfg, s, Refresh(Next(s)));
    if u.renderer.Free? {
      t := u;
    } else {
      t := FinishRefresh(cfg, u);
      ReachesTransitive(cfg, s, u, t);
    }
  }

  /**
   * From every reachable state the code as written can settle without any reader's or mutator's
   * help, and then the published page shows the current properties.
   */
  lemma RefreshCompletes(s: State) returns (t: State)
    requires Reachable(AS_WRITTEN, s)
    ensures Reachable(AS_WRITTEN, t) && Reaches(AS_WRITTEN, s, t)
    ensures Quiet(t) && t.renderer.Free?
    ensures t.props == s.props && t.readers == s.readers && t.sets == s.sets
    ensures s.sets > 0 ==> t.pages.Get(t.state.Current()).bytes == Page(s.props)
    decreases s.mutator.Notifying?, s.pending, s.waiting, !s.renderer.Free?
  {
    var u := s;
    if !s.renderer.Free? {
      u := FinishRefresh(AS_WRITTEN, s);
    } else if s.mutator.Notifying? {
      u := Settling(s, Mutate(Notify));
    } else if s.pending {
      u := Settling(s, Refresh(TryAcquire));
    } else if s.waiting > 0 {
      u := Settling(s, Refresh(Lock));
    } else {
      assert Valid(AS_WRITTEN, s, []) && Run(AS_WRITTEN, s, []) == s;
      if s.sets > 0 { QuiescentPageIsCurrent(AS_WRITTEN, s); }
      return s;
    }
    t := RefreshCompletes(u);
    ReachesTransitive(AS_WRITTEN, s, u, t);
  }

  lemma Settling(s: State, a: Step) returns (u: State)
    requires Reachable(AS_WRITTEN, s) && Enabled(AS_WRITTEN, s, a)
    ensures u == Apply(AS_WRITTEN, s, a) && Reachable(AS_WRITTEN, u) && Reaches(AS_WRITTEN, s, u)
  {
    u := Apply(AS_WRITTEN, s, a);
    ReachableStep(AS_WRITTEN, s, a);
    ReachesStep(AS_WRITTEN, s, a);
  }

  // ---------- reader isolation ----------

  /** Over all runs, no live accessor's page is ever truncated or written. */
  ghost predicate ReadersIsolated(cfg: Config) {
    forall s, a ::
      Reachable(cfg, s) && Enabled(cfg, s, a) && Touched(s, a).Some? ==> Live(s, Touched(s, a).value) == {}
  }

  /** The lock is taken and the drain is done, with no property or reader changed. */
  lemma ReachDrained(cfg: Config, s: State) returns (t: State)
    requires Reachable(cfg, s) && s.renderer.Free?
    requires cfg.waits ==> s.pages.Get(s.state.Spare()).count == 0
    ensures Reachable(cfg, t) && t.renderer.Drained? && t.state == s.state && t.readers == s.readers
    ensures t.pages.Get(s.state.Spare()).count == 0
  {
    InvOfReachable(cfg, s);
    var u := Apply(cfg, s, Refresh(Call));
    ReachableStep(cfg, s, Refresh(Call));
    var v := Apply(cfg, u, Refresh(Lock));
    ReachableStep(cfg, u, Refresh(Lock));
    var w := Apply(cfg, v, Refresh(Load));
    ReachableStep(cfg, v, Refresh(Load));
    t := DrainOut(cfg, w);
  }

  lemma DrainOut(cfg: Config, s: State) returns (t: State)
    requires Reachable(cfg, s) && s.renderer.Draining? && s.renderer.state == s.state
    requires cfg.waits ==> s.pages.Get(s.state.Spare()).count == 0
    ensures Reachable(cfg, t) && t.renderer.Drained? && t.state == s.state && t.readers == s.readers
    ensures t.pages.Get(s.state.Spare()).count == 0
    decreases s.pages.Get(s.state.Spare()).count
  {
    var f := if s.pages.Get(s.state.Spare()).count > 0 then Drain else DrainEnd;
    ReachableStep(cfg, s, Refresh(f));
    t := Refreshed(cfg, s, f);
    if f.Drain? {
      t := DrainOut(cfg, t);
    }
  }

  lemma NoLiveNoCount(cfg: Config, s: State, i: PageIx)
    requires Reachable(cfg, s) && Live(s, i) == {}
    ensures s.pages.Get(i).count == 0
  {
    PermitAccounting(cfg, s, i);
  }

  /** A reader loads the first state, and registers if the code lets it do so before the page is at risk. */
  lemma EarlyReader(cfg: Config) returns (s: State)
    ensures Reachable(cfg, s) && s.renderer.Free? && s.state == StatesPair(true, false) && s.pages.page1.count == 0
    ensures s.readers.Keys == {0} && s.readers[0].page == 0 && s.readers[0].length.Some?
    ensures s.readers[0].registered <==> cfg.atomicOpen || !cfg.waits
  {
    s := Init("", "");
    assert Valid(cfg, s, []) && Run(cfg, s, []) == s;
    ReachableStep(cfg, s, Read(LoadState(0)));
    s := Apply(cfg, s, Read(LoadState(0)));
    ReachableStep(cfg, s, Read(OpenPage(0)));
    s := Apply(cfg, s, Read(OpenPage(0)));
    if cfg == AS_WRITTEN {
      ReachableStep(cfg, s, Read(Register(0)));
      s := Apply(cfg, s, Read(Register(0)));
    }
  }

  /**
   * One reader and two refreshes: with draining permits the registered reader does not hold the
   * second refresh up, and with a separate registration the reader registers behind its drain.
   */
  lemma ReaderOvertaken(cfg: Config) returns (s: State)
    requires !(cfg.waits && cfg.atomicOpen)
    ensures Reachable(cfg, s) && Enabled(cfg, s, Refresh(Truncate))
    ensures Touched(s, Refresh(Truncate)) == Some(0) && 0 in Live(s, 0)
  {
    s := EarlyReader(cfg);
    s := ReachDrained(cfg, s);
    NoLiveNoCount(cfg, s, 1);
    s := FinishRefresh(cfg, s);
    if cfg.waits {
      NoLiveNoCount(cfg, s, 0);
    }
    s := ReachDrained(cfg, s);
    if cfg.waits {
      ReachableStep(cfg, s, Read(Register(0)));
      s := Apply(cfg, s, Read(Register(0)));
    }
    InvOfReachable(cfg, s);
  }

  /**
   * It happens in the code as written: a reader registers, two refreshes follow, and the second
   * takes the reader's permit, so that its page can never be released by all its accessors.
   */
  lemma PermitIsLost() returns (s: State)
    ensures Reachable(AS_WRITTEN, s) && 0 in Live(s, 0)
    ensures s.pages.Get(0).drained > 0 && !CanRelease(AS_WRITTEN, s, 0)
  {
    s := EarlyReader(AS_WRITTEN);
    s := ReachDrained(AS_WRITTEN, s);
    s := FinishRefresh(AS_WRITTEN, s);
    s := ReachDrained(AS_WRITTEN, s);
    PermitAccounting(AS_WRITTEN, s, 0);
    InvOfReachable(AS_WRITTEN, s);
    assert 0 in Live(s, 0);
    ReleasableIffNothingDrained(AS_WRITTEN, s, 0);
  }

  /**
   * The promise that a refresh blocks while readers of the page remain holds over all runs exactly
   * when the drain waits without taking permits and load plus registration is one step.
   */
  lemma IsolatedIffBothCorrections(cfg: Config)
    ensures ReadersIsolated(cfg) <==> cfg.waits && cfg.atomicOpen
  {
    if cfg.waits && cfg.atomicOpen {
      forall s, a | Reachable(cfg, s) && Enabled(cfg, s, a) && Touched(s, a).Some?
        ensures Live(s, Touched(s, a).value) == {}
      {
        InvOfReachable(cfg, s);
      }
    } else {
      var s := ReaderOvertaken(cfg);
    }
  }

  /** With both corrections an accessor sees one unchanged page for as long as it lives. */
  lemma CorrectedReadersKeepTheirPage(s: State, r: nat)
    requires Reachable(Config(true, true), s) && r in s.readers
    ensures 0 <= s.readers[r].version < |s.published|
    ensures s.pages.Get(s.readers[r].page).bytes == s.published[s.readers[r].version]
  {
    InvOfReachable(Config(true, true), s);
    WindowOfVersion(s, s.readers[r].version);
  }
}
