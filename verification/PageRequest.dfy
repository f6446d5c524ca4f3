/** A GET from the reader's state load to the client: the publication protocol and the send loops together. */
module PageRequest {
  import opened Bytes
  import opened HttpHead
  import opened HtmlServer
  import opened Properties
  import opened PingPong
  import opened PingPongInvariants
  import opened PingPongTheorems
  import Connections

  /** The publication a reader loaded, as the history records it. */
  function Loaded(s: State, r: nat): string
    requires r in s.readers && 0 <= s.readers[r].version < |s.published|
  {
    s.published[s.readers[r].version]
  }

  /** t comes after s, and the refresh that would rewrite the reader's page has not begun to truncate it. */
  ghost predicate InWindow(cfg: Config, s: State, r: nat, t: State)
    requires r in s.readers
  {
    Reaches(cfg, s, t) && t.truncations <= s.readers[r].version + 1
  }

  /** Inside the window the page of an accessor keeps the loaded publication, whoever runs in between. */
  lemma PageAtMoment(cfg: Config, s: State, r: nat, t: State)
    requires Reachable(cfg, s) && r in s.readers && InWindow(cfg, s, r, t)
    ensures 0 <= s.readers[r].version < |s.published|
    ensures t.pages.Get(s.readers[r].page).bytes == Loaded(s, r)
    ensures s.readers[r].length.Some? ==> s.readers[r].length.value == |Loaded(s, r)|
  {
    var steps :| Valid(cfg, s, steps) && Run(cfg, s, steps) == t;
    ReachableRun(cfg, s, steps);
    InvOfReachable(cfg, s);
    InvOfReachable(cfg, t);
    ReaderSeesItsPublication(cfg, s, r);
    WindowOfVersion(t, s.readers[r].version);
    assert t.published[s.readers[r].version] == s.published[s.readers[r].version];
  }

  /** What the turns of the send loops find in the page file, moment by moment of a run. */
  ghost predicate Observed(cfg: Config, s: State, r: nat, turns: seq<Turn>, moments: seq<State>)
    requires r in s.readers
  {
    && |turns| == |moments|
    && forall i :: 0 <= i < |turns| ==>
      InWindow(cfg, s, r, moments[i]) && turns[i].page == moments[i].pages.Get(s.readers[r].page).bytes
  }

  lemma OnePage(cfg: Config, s: State, r: nat, turns: seq<Turn>, moments: seq<State>)
    requires Reachable(cfg, s) && r in s.readers && s.truncations <= s.readers[r].version + 1
    requires Observed(cfg, s, r, turns, moments)
    ensures 0 <= s.readers[r].version < |s.published| && SamePage(turns, Loaded(s, r))
    ensures s.readers[r].length.Some? ==> s.readers[r].length.value == |Loaded(s, r)|
  {
    ReaderSeesItsPublication(cfg, s, r);
    forall i | 0 <= i < |turns| ensures turns[i].page == Loaded(s, r) {
      PageAtMoment(cfg, s, r, moments[i]);
    }
  }

  lemma CompleteStartsWithMarkup(page: string)
    requires CompletePage(page)
    ensures page != "" && page[0] == '<'
  {
    var vs: seq<Variant> :| page == HEAD + SaveAll(vs) + TAIL;
    assert page[0] == HEAD[0];
  }

  /** What processRequestGET does with an accessor: the page, or NOT_FOUND and a throw when its file did not open. */
  method SendAccessor(length: nat, opens: bool, close: bool, turns: seq<Turn>, ghost page: string)
    returns (result: Result, wire: string)
    ensures result == Returned && length == |page| && SamePage(turns, page) ==>
      && (PageOnce(OK, close, length, turns) ==>
           wire == PageMessage(OK, close, page) && ReadBody(wire) == Some(page) && ReadsHead(wire, OK, close))
      && (page == "" || page[0] == '<' ==>
           (wire == PageMessage(OK, close, page) <==> PageOnce(OK, close, length, turns)))
    ensures NoAgain(turns) && length == |page| ==> PageOnce(OK, close, length, turns)
    ensures (opens && length == |page| && SamePage(turns, page) && Flowing(turns)
        && |turns| >= |PageMessage(OK, close, page)|) ==>
      result == Returned
    ensures !opens ==> result != Returned
    ensures !opens && Flowing(turns) && |turns| >= |Head(ErrorHead(NotFound, close))| ==>
      result == Threw && wire == Head(ErrorHead(NotFound, close)) && ReadsHead(wire, NotFound, close)
  {
    if opens {
      result, wire := SendResponse(OK, close, Some(length), turns, page);
    } else {
      result, wire := SendNotFound(close, turns);
    }
    if NoAgain(turns) {
      NoAgainOnce(Head(PageHead(OK, close, length)), length, turns);
    }
  }

  method SendNotFound(close: bool, turns: seq<Turn>) returns (result: Result, wire: string)
    ensures result != Returned
    ensures Flowing(turns) && |turns| >= |Head(ErrorHead(NotFound, close))| ==>
      result == Threw && wire == Head(ErrorHead(NotFound, close)) && ReadsHead(wire, NotFound, close)
  {
    result, wire := SendResponse(NotFound, close, None, turns, "");
    if result == Returned {
      result := Threw;
    }
  }

  /**
   * processRequestGET with an accessor r, as seen from any state s of the run in which the accessor
   * has read its length. While it stays inside its window, a normal return has sent the head and
   * then every byte of the one publication the reader loaded exactly when the EAGAIN turns leave
   * the message intact; and when every turn moves at least one byte, that end is reached. The
   * client reads status 200. An accessor whose file did not open gets the NOT_FOUND head instead, with
   * status 404, and the request ends by a throw.
   */
  method ServePage(ghost cfg: Config, ghost s: State, ghost r: nat, ghost moments: seq<State>,
                   length: nat, opens: bool, close: bool, turns: seq<Turn>)
    returns (result: Result, wire: string)
    requires Reachable(cfg, s) && r in s.readers && s.readers[r].length == Some(length)
    requires s.truncations <= s.readers[r].version + 1
    requires Observed(cfg, s, r, turns, moments)
    ensures 0 <= s.readers[r].version < |s.published|
    ensures result == Returned && PageOnce(OK, close, length, turns) ==>
      && wire == PageMessage(OK, close, Loaded(s, r))
      && ReadBody(wire) == Some(Loaded(s, r)) && ReadsHead(wire, OK, close)
    ensures result == Returned && s.readers[r].version >= 1 ==>
      (wire == PageMessage(OK, close, Loaded(s, r)) <==> PageOnce(OK, close, length, turns))
    ensures NoAgain(turns) ==> PageOnce(OK, close, length, turns)
    ensures opens && Flowing(turns) && |turns| >= |PageMessage(OK, close, Loaded(s, r))| ==> result == Returned
    ensures !opens ==> result != Returned
    ensures !opens && Flowing(turns) && |turns| >= |Head(ErrorHead(NotFound, close))| ==>
      result == Threw && wire == Head(ErrorHead(NotFound, close)) && ReadsHead(wire, NotFound, close)
    ensures s.readers[r].version >= 1 ==> CompletePage(Loaded(s, r))
  {
    OnePage(cfg, s, r, turns, moments);
    if s.readers[r].version >= 1 {
      InvOfReachable(cfg, s);
      CompleteStartsWithMarkup(Loaded(s, r));
    }
    result, wire := SendAccessor(length, opens, close, turns, Loaded(s, r));
  }

  // ---------- request threads that cannot end ----------

  /** Every live accessor is held by a request thread; serving says which reader a thread's connection is. */
  ghost predicate Held(net: Connections.Net, s: State, serving: map<int, nat>) {
    forall r :: r in Live(s, 0) || r in Live(s, 1) ==>
      exists c :: c in net.threads && c in serving && serving[c] == r
  }

  lemma {:induction false} AtLeastAsMany(held: set<nat>, threads: set<int>, serving: map<int, nat>)
    requires forall r :: r in held ==> exists c :: c in threads && c in serving && serving[c] == r
    ensures |threads| >= |held|
  {
    if held != {} {
      var r :| r in held;
      var c :| c in threads && c in serving && serving[c] == r;
      forall q | q in held - {r} ensures exists d :: d in threads - {c} && d in serving && serving[d] == q {
        var d :| d in threads && d in serving && serving[d] == q;
        assert d in threads - {c};
      }
      AtLeastAsMany(held - {r}, threads - {c}, serving);
      assert |held| == |held - {r}| + 1;
      assert |threads| == |threads - {c}| + 1;
    }
  }

  /**
   * In every continuation at least as many connections as permits were drained so far, on both
   * pages together, sit in a request thread: accepted, not dropped, and not closed.
   */
  lemma DrainedPermitsKeepConnectionsOpen(
      cfg: Config, s: State, later: seq<Step>,
      steps: seq<Connections.Step>, net: Connections.Net, serving: map<int, nat>)
    requires Reachable(cfg, s) && Valid(cfg, s, later)
    requires Connections.Run(Connections.EMPTY, steps, net) && Held(net, Run(cfg, s, later), serving)
    ensures |net.threads| >= s.pages.page0.drained + s.pages.page1.drained
    ensures forall c :: c in net.threads ==> 0 <= c < net.accepted && c !in net.dropped && c !in net.closed
  {
    var t := Run(cfg, s, later);
    LiveAccessorsFloor(cfg, s, later, 0);
    LiveAccessorsFloor(cfg, s, later, 1);
    assert Live(t, 0) !! Live(t, 1);
    AtLeastAsMany(Live(t, 0) + Live(t, 1), net.threads, serving);
    Connections.RunConserves(Connections.EMPTY, steps, net);
    forall c | c in net.threads ensures 0 <= c < net.accepted && c !in net.dropped && c !in net.closed {
      assert Connections.Places(net, c) == 1;
    }
  }
}
