/**
 * Who owns an accepted connection, over every interleaving of the accept loop, the client loops and
 * the request threads. Each accepted connection gets a fresh number, because descriptors are reused.
 */
module Connections {
  import opened Sockets

  /**
   * polled is servers_, arrays is clients_map_ with a client array per server; a slot holds a
   * connection or INVALID. home records on which server a connection was accepted.
   */
  datatype Net = Net(
    polled: seq<int>,
    listening: set<int>,
    arrays: map<int, seq<int>>,
    accepted: nat,
    home: map<int, int>,
    threads: set<int>,
    dropped: set<int>,
    closed: set<int>)

  const EMPTY := Net([], {}, map[], 0, map[], {}, {}, {})

  datatype Step =
    | AddServer(server: nat, listens: bool)
    | Accept(i: nat)
    | HandOff(fd: int, k: nat)
    | HangUp(fd: int, k: nat)
    | EraseClient(fd: int, k: nat)
    | Finish(c: int)
    | ServerGone(i: nat)
    | EraseServer(i: nat)

  predicate Occupied(net: Net, fd: int, k: nat) {
    fd in net.arrays && k < |net.arrays[fd]| && net.arrays[fd][k] != INVALID
  }

  /** A connection arrives only at a polled socket that listens. */
  predicate Enabled(net: Net, a: Step) {
    match a
    case AddServer(_, _) => true
    case Accept(i) => i < |net.polled| && net.polled[i] in net.listening
    case HandOff(fd, k) => Occupied(net, fd, k)
    case HangUp(fd, k) => Occupied(net, fd, k)
    case EraseClient(fd, k) => fd in net.arrays && k < |net.arrays[fd]| && net.arrays[fd][k] == INVALID
    case Finish(c) => c in net.threads
    case ServerGone(i) => i < |net.polled|
    case EraseServer(i) => i < |net.polled| && net.polled[i] == INVALID
  }

  /** addOneServer: a polled socket is left as it is, and a failed listen leaves it without a client array. */
  function Added(net: Net, fd: nat, listens: bool): Net {
    if fd in net.polled then net
    else if !listens then net.(polled := net.polled + [fd])
    else net.(polled := net.polled + [fd], listening := net.listening + {fd},
              arrays := if fd in net.arrays then net.arrays else net.arrays[fd := []])
  }

  function Vacated(net: Net, fd: int, k: nat): Net
    requires fd in net.arrays && k < |net.arrays[fd]|
  {
    net.(arrays := net.arrays[fd := net.arrays[fd][k := INVALID]])
  }

  /** The lookup of the accept loop throws when the map has no entry. */
  predicate LookupFails(net: Net, a: Step)
    requires Enabled(net, a)
  {
    a.Accept? && net.polled[a.i] !in net.arrays
  }

  function Apply(net: Net, a: Step): Net
    requires Enabled(net, a) && !LookupFails(net, a)
  {
    match a
    case AddServer(fd, listens) => Added(net, fd, listens)
    case Accept(i) =>
      var fd, c := net.polled[i], net.accepted;
      net.(accepted := c + 1, home := net.home[c := fd], arrays := net.arrays[fd := net.arrays[fd] + [c]])
    case HandOff(fd, k) => Vacated(net, fd, k).(threads := net.threads + {net.arrays[fd][k]})
    case HangUp(fd, k) => Vacated(net, fd, k).(dropped := net.dropped + {net.arrays[fd][k]})
    case EraseClient(fd, k) =>
      net.(arrays := net.arrays[fd := net.arrays[fd][..k] + net.arrays[fd][k + 1..]])
    case Finish(c) => net.(threads := net.threads - {c}, closed := net.closed + {c})
    case ServerGone(i) => net.(polled := net.polled[i := INVALID])
    case EraseServer(i) => net.(polled := net.polled[..i] + net.polled[i + 1..])
  }

  /** In how many places a connection is found: slots of its server's array, threads, dropped, closed. */
  function Places(net: Net, c: int): nat
    requires c in net.home && net.home[c] in net.arrays
  {
    multiset(net.arrays[net.home[c]])[c] + (if c in net.threads then 1 else 0)
    + (if c in net.dropped then 1 else 0) + (if c in net.closed then 1 else 0)
  }

  ghost predicate Known(net: Net) {
    && net.listening <= net.arrays.Keys
    && (forall c :: c in net.home <==> 0 <= c < net.accepted)
    && (forall c :: c in net.home ==> net.home[c] in net.arrays)
    && (forall c :: c in net.threads || c in net.dropped || c in net.closed ==> c in net.home)
  }

  /** Every accepted connection is in exactly one place, and a client array holds only its own server's connections. */
  ghost predicate Conserved(net: Net) {
    && Known(net)
    && (forall c :: c in net.home ==> Places(net, c) == 1)
    && (forall fd, c :: fd in net.arrays && c in net.arrays[fd] && c != INVALID ==> c in net.home && net.home[c] == fd)
  }

  lemma SlotCount(slots: seq<int>, k: nat, c: int)
    requires k < |slots| && slots[k] == INVALID && c != INVALID
    ensures multiset(slots[..k] + slots[k + 1..])[c] == multiset(slots)[c]
  {
    assert slots == slots[..k] + [slots[k]] + slots[k + 1..];
  }

  lemma VacatedCount(slots: seq<int>, k: nat, x: int)
    requires k < |slots| && x != INVALID
    ensures multiset(slots[k := INVALID])[x] == multiset(slots)[x] - (if slots[k] == x then 1 else 0)
    ensures x in slots[k := INVALID] ==> x in slots
  {
    assert multiset(slots[k := INVALID]) == multiset(slots) - multiset{slots[k]} + multiset{INVALID};
  }

  /** Vacating a slot takes its connection out of the array and moves no other. */
  lemma Vacates(net: Net, fd: int, k: nat)
    requires Conserved(net) && Occupied(net, fd, k)
    ensures var c, t := net.arrays[fd][k], Vacated(net, fd, k);
      && Known(t) && c in net.home && c !in net.threads && c !in net.dropped && c !in net.closed
      && Places(t, c) == 0 && (forall x :: x in net.home && x != c ==> Places(t, x) == 1)
      && (forall f, x :: f in t.arrays && x in t.arrays[f] && x != INVALID ==> x in t.home && t.home[x] == f)
  {
    var slots, t := net.arrays[fd], Vacated(net, fd, k);
    var c := slots[k];
    assert c in slots && net.home[c] == fd && Places(net, c) == 1;
    VacatedCount(slots, k, c);
    forall x | x in net.home && x != c ensures Places(t, x) == 1 {
      assert Places(net, x) == 1;
      VacatedCount(slots, k, x);
    }
    forall f, x | f in t.arrays && x in t.arrays[f] && x != INVALID ensures x in t.home && t.home[x] == f {
      VacatedCount(slots, k, x);
      assert x in net.arrays[f];
    }
  }

  /** The vacated connection goes to one new place. */
  ghost predicate Placed(u: Net, t: Net, c: int) {
    t == u.(threads := u.threads + {c}) || t == u.(dropped := u.dropped + {c})
  }

  lemma ConservedByPlacing(u: Net, t: Net, c: int)
    requires Known(u) && c in u.home && c !in u.threads && c !in u.dropped && c !in u.closed && Places(u, c) == 0
    requires forall x :: x in u.home && x != c ==> Places(u, x) == 1
    requires forall f, x :: f in u.arrays && x in u.arrays[f] && x != INVALID ==> x in u.home && u.home[x] == f
    requires Placed(u, t, c)
    ensures Conserved(t)
  {
    forall x | x in t.home ensures Places(t, x) == 1 {
      assert x != c ==> Places(u, x) == 1;
    }
  }

  lemma ConservedByVacating(net: Net, a: Step)
    requires Conserved(net) && Enabled(net, a) && (a.HandOff? || a.HangUp?)
    ensures Conserved(Apply(net, a))
  {
    Vacates(net, a.fd, a.k);
    ConservedByPlacing(Vacated(net, a.fd, a.k), Apply(net, a), net.arrays[a.fd][a.k]);
  }

  lemma ConservedByErase(net: Net, a: Step)
    requires Conserved(net) && Enabled(net, a) && a.EraseClient?
    ensures Conserved(Apply(net, a))
  {
    var t := Apply(net, a);
    forall x | x in t.home ensures Places(t, x) == 1 {
      assert Places(net, x) == 1;
      SlotCount(net.arrays[a.fd], a.k, x);
    }
  }

  lemma ConservedByAccept(net: Net, a: Step)
    requires Conserved(net) && Enabled(net, a) && a.Accept? && !LookupFails(net, a)
    ensures Conserved(Apply(net, a))
  {
    var t := Apply(net, a);
    var fd, c := net.polled[a.i], net.accepted;
    assert c !in net.home;
    assert c !in net.arrays[fd];
    forall x | x in t.home ensures Places(t, x) == 1 {
      if x != c {
        assert Places(net, x) == 1;
      }
    }
  }

  lemma ConservedByRest(net: Net, a: Step)
    requires Conserved(net) && Enabled(net, a) && (a.AddServer? || a.Finish? || a.ServerGone? || a.EraseServer?)
    ensures Conserved(Apply(net, a))
  {
    var t := Apply(net, a);
    forall x | x in t.home ensures Places(t, x) == 1 {
      assert Places(net, x) == 1;
    }
  }

  /** On a listening server the lookup succeeds, and every step keeps the connections. */
  lemma StepConserves(net: Net, a: Step)
    requires Conserved(net) && Enabled(net, a)
    ensures !LookupFails(net, a)
    ensures Conserved(Apply(net, a))
  {
    match a
    case HandOff(_, _) => ConservedByVacating(net, a);
    case HangUp(_, _) => ConservedByVacating(net, a);
    case EraseClient(_, _) => ConservedByErase(net, a);
    case Accept(_) => ConservedByAccept(net, a);
    case _ => ConservedByRest(net, a);
  }

  /** A run: each step is enabled and none of them throws. */
  predicate Run(net: Net, steps: seq<Step>, end: Net)
    decreases |steps|
  {
    if steps == [] then net == end
    else Enabled(net, steps[0]) && !LookupFails(net, steps[0]) && Run(Apply(net, steps[0]), steps[1..], end)
  }

  lemma {:induction false} RunConserves(net: Net, steps: seq<Step>, end: Net)
    requires Conserved(net) && Run(net, steps, end)
    ensures Conserved(end) && net.dropped <= end.dropped && net.closed <= end.closed
    decreases |steps|
  {
    if steps != [] {
      StepConserves(net, steps[0]);
      RunConserves(Apply(net, steps[0]), steps[1..], end);
    }
  }

  /** In every reachable state every accepted connection is in exactly one place and every lookup succeeds. */
  lemma EveryConnectionInOnePlace(steps: seq<Step>, end: Net, a: Step)
    requires Run(EMPTY, steps, end)
    ensures forall c :: 0 <= c < end.accepted ==> c in end.home && end.home[c] in end.arrays && Places(end, c) == 1
    ensures Enabled(end, a) ==> !LookupFails(end, a)
  {
    RunConserves(EMPTY, steps, end);
    if Enabled(end, a) {
      StepConserves(end, a);
    }
  }

  /** A connection that hung up is forgotten, not closed: no continuation ever closes it. */
  lemma HungUpIsNeverClosed(steps: seq<Step>, net: Net, later: seq<Step>, end: Net, c: int)
    requires Run(EMPTY, steps, net) && Run(net, later, end) && c in net.dropped
    ensures c in end.dropped && c !in end.closed
  {
    RunConserves(EMPTY, steps, net);
    RunConserves(net, later, end);
    assert Places(end, c) == 1;
  }

  /** By construction a socket is in the map exactly when a listen on it succeeded; polling it is not enough. */
  ghost predicate MapIsListening(net: Net) {
    net.arrays.Keys == net.listening
  }

  lemma {:induction false} MapHoldsListeners(net: Net, steps: seq<Step>, end: Net)
    requires MapIsListening(net) && Run(net, steps, end)
    ensures MapIsListening(end)
    decreases |steps|
  {
    if steps != [] {
      MapHoldsListeners(Apply(net, steps[0]), steps[1..], end);
    }
  }

  /** The servers that are polled and not gone. */
  function Polled(net: Net): seq<int> {
    ValidOnly(net.polled)
  }

  lemma {:induction false} ValidExtended(slots: seq<int>, k: nat, fd: int)
    requires k <= |slots|
    ensures ValidUpTo(slots + [fd], k) == ValidUpTo(slots, k)
  {
    ValidAgree(slots + [fd], slots, k);
  }

  /**
   * A server that is added is polled from then on, and gets a client array exactly if its listen
   * succeeded or it had one; nothing but its going changes which servers are polled, or their order.
   */
  lemma PolledServers(net: Net, a: Step)
    requires Enabled(net, a) && !LookupFails(net, a)
    ensures a.AddServer? ==>
      && Polled(Apply(net, a)) == (if a.server in net.polled then Polled(net) else Polled(net) + [a.server])
      && (a.server !in net.polled ==> (a.server in Apply(net, a).arrays <==> a.listens || a.server in net.arrays))
      && (a.server in net.arrays ==> Apply(net, a).arrays == net.arrays)
    ensures !a.AddServer? && !a.ServerGone? ==> Polled(Apply(net, a)) == Polled(net)
  {
    if a.AddServer? {
      ValidExtended(net.polled, |net.polled|, a.server);
    } else if a.EraseServer? {
      ValidWithout(net.polled, a.i, |net.polled|);
    }
  }

  // ---------- a sweep of the client loop is a run ----------

  ghost predicate Leads(net: Net, end: Net) {
    exists steps :: Run(net, steps, end)
  }

  lemma LeadsNowhere(net: Net)
    ensures Leads(net, net)
  {
    assert Run(net, [], net);
  }

  lemma {:induction false} LeadsOn(net: Net, steps: seq<Step>, mid: Net, a: Step)
    requires Run(net, steps, mid) && Enabled(mid, a) && !LookupFails(mid, a)
    ensures Run(net, steps + [a], Apply(mid, a))
    decreases |steps|
  {
    if steps == [] {
      assert [a][1..] == [] && [] + [a] == [a];
      assert Run(Apply(mid, a), [], Apply(mid, a));
    } else {
      LeadsOn(Apply(net, steps[0]), steps[1..], mid, a);
      assert (steps + [a])[1..] == steps[1..] + [a];
    }
  }

  lemma LeadsByStep(net: Net, mid: Net, a: Step)
    requires Leads(net, mid) && Enabled(mid, a) && !LookupFails(mid, a)
    ensures Leads(net, Apply(mid, a))
  {
    var steps :| Run(net, steps, mid);
    LeadsOn(net, steps, mid, a);
  }

  function Members(s: seq<int>): set<int> {
    set x | x in s
  }

  /** The array after the first k slots were looked at, and before the clean-up. */
  function Emptied(slots: seq<int>, events: seq<Event>, k: nat): (r: seq<int>)
    requires k <= |slots| == |events|
    ensures |r| == |slots| && forall m :: k <= m < |slots| ==> r[m] == slots[m]
  {
    if k == 0 then slots
    else
      var r := Emptied(slots, events, k - 1);
      if events[k - 1] == Quiet then r else r[k - 1 := INVALID]
  }

  lemma {:induction false} EmptiedKeepsQuiet(slots: seq<int>, events: seq<Event>, k: nat)
    requires k <= |slots| == |events|
    ensures ValidUpTo(Emptied(slots, events, k), k) == Picked(slots, events, k, Quiet)
  {
    if k > 0 {
      EmptiedKeepsQuiet(slots, events, k - 1);
      ValidAgree(Emptied(slots, events, k), Emptied(slots, events, k - 1), k - 1);
    }
  }

  /** The net after the first k slots of a client array were looked at. */
  function Swept(net: Net, fd: int, events: seq<Event>, k: nat): Net
    requires fd in net.arrays && k <= |net.arrays[fd]| == |events|
  {
    var slots := net.arrays[fd];
    net.(arrays := net.arrays[fd := Emptied(slots, events, k)],
         threads := net.threads + Members(Picked(slots, events, k, Readable)),
         dropped := net.dropped + Members(Picked(slots, events, k, HungUp)))
  }

  lemma MembersSnoc(s: seq<int>, c: int)
    ensures Members(s + [c]) == Members(s) + {c}
  {
  }

  lemma SweptHandOff(net: Net, fd: int, events: seq<Event>, k: nat)
    requires fd in net.arrays && k < |net.arrays[fd]| == |events|
    requires net.arrays[fd][k] != INVALID && events[k] == Readable
    ensures Enabled(Swept(net, fd, events, k), HandOff(fd, k))
    ensures Apply(Swept(net, fd, events, k), HandOff(fd, k)) == Swept(net, fd, events, k + 1)
  {
    var slots := net.arrays[fd];
    MembersSnoc(Picked(slots, events, k, Readable), slots[k]);
    assert Picked(slots, events, k + 1, HungUp) == Picked(slots, events, k, HungUp) + [];
  }

  lemma SweptHangUp(net: Net, fd: int, events: seq<Event>, k: nat)
    requires fd in net.arrays && k < |net.arrays[fd]| == |events| && net.arrays[fd][k] != INVALID && events[k] == HungUp
    ensures Enabled(Swept(net, fd, events, k), HangUp(fd, k))
    ensures Apply(Swept(net, fd, events, k), HangUp(fd, k)) == Swept(net, fd, events, k + 1)
  {
    var slots := net.arrays[fd];
    MembersSnoc(Picked(slots, events, k, HungUp), slots[k]);
    assert Picked(slots, events, k + 1, Readable) == Picked(slots, events, k, Readable) + [];
  }

  lemma SweptQuiet(net: Net, fd: int, events: seq<Event>, k: nat)
    requires fd in net.arrays && k < |net.arrays[fd]| == |events| && events[k] == Quiet
    ensures Swept(net, fd, events, k) == Swept(net, fd, events, k + 1)
  {
    var slots := net.arrays[fd];
    assert Picked(slots, events, k + 1, Readable) == Picked(slots, events, k, Readable) + [];
    assert Picked(slots, events, k + 1, HungUp) == Picked(slots, events, k, HungUp) + [];
  }

  lemma SweptNext(net: Net, fd: int, events: seq<Event>, k: nat)
    requires fd in net.arrays && k < |net.arrays[fd]| == |events| && INVALID !in net.arrays[fd]
    requires Leads(net, Swept(net, fd, events, k))
    ensures Leads(net, Swept(net, fd, events, k + 1))
  {
    assert net.arrays[fd][k] in net.arrays[fd];
    match events[k]
    case Quiet =>
      SweptQuiet(net, fd, events, k);
    case Readable =>
      SweptHandOff(net, fd, events, k);
      LeadsByStep(net, Swept(net, fd, events, k), HandOff(fd, k));
    case HungUp =>
      SweptHangUp(net, fd, events, k);
      LeadsByStep(net, Swept(net, fd, events, k), HangUp(fd, k));
  }

  lemma {:induction false} SweptRun(net: Net, fd: int, events: seq<Event>, k: nat)
    requires fd in net.arrays && k <= |net.arrays[fd]| == |events| && INVALID !in net.arrays[fd]
    ensures Leads(net, Swept(net, fd, events, k))
  {
    if k == 0 {
      LeadsNowhere(net);
      assert Swept(net, fd, events, 0) == net;
    } else {
      SweptRun(net, fd, events, k - 1);
      SweptNext(net, fd, events, k - 1);
    }
  }

  /** The clean-up erases empty slots one by one. */
  lemma CompactedRun(start: Net, net: Net, fd: int)
    requires fd in net.arrays && Leads(start, net)
    ensures Leads(start, net.(arrays := net.arrays[fd := ValidOnly(net.arrays[fd])]))
    decreases |net.arrays[fd]|
  {
    var slots := net.arrays[fd];
    if INVALID in slots {
      var k: nat :| k < |slots| && slots[k] == INVALID;
      LeadsByStep(start, net, EraseClient(fd, k));
      var next := Apply(net, EraseClient(fd, k));
      ValidWithout(slots, k, |slots|);
      CompactedRun(start, next, fd);
      assert next.arrays[fd := ValidOnly(slots)] == net.arrays[fd := ValidOnly(slots)];
    } else {
      NoneInvalid(slots);
      assert net.arrays[fd := slots] == net.arrays;
    }
  }

  /**
   * What SocketFdsArray.Sweep computes is a run of the system: the readable connections become
   * request threads, the hung-up ones are dropped, the others stay in order.
   */
  lemma SweepIsRun(net: Net, fd: int, events: seq<Event>)
    requires fd in net.arrays && |net.arrays[fd]| == |events| && INVALID !in net.arrays[fd]
    ensures var slots, n := net.arrays[fd], |events|;
      Leads(net, net.(arrays := net.arrays[fd := Picked(slots, events, n, Quiet)],
                      threads := net.threads + Members(Picked(slots, events, n, Readable)),
                      dropped := net.dropped + Members(Picked(slots, events, n, HungUp))))
  {
    var n := |events|;
    var mid := Swept(net, fd, events, n);
    SweptRun(net, fd, events, n);
    CompactedRun(net, mid, fd);
    EmptiedKeepsQuiet(net.arrays[fd], events, n);
    var kept := Picked(net.arrays[fd], events, n, Quiet);
    assert mid.arrays[fd := kept] == net.arrays[fd := kept];
  }

  // ---------- which connections can still be closed ----------

  /** Some continuation closes the connection. */
  ghost predicate CanClose(net: Net, c: int) {
    exists end :: Leads(net, end) && c in end.closed
  }

  /** A connection in a slot is closed by a hand-off and the end of its request thread. */
  lemma WaitingCanClose(net: Net, c: int)
    requires Conserved(net) && c in net.home && c in net.arrays[net.home[c]]
    ensures CanClose(net, c)
  {
    var fd := net.home[c];
    var k: nat :| k < |net.arrays[fd]| && net.arrays[fd][k] == c;
    LeadsNowhere(net);
    LeadsByStep(net, net, HandOff(fd, k));
    var mid := Apply(net, HandOff(fd, k));
    LeadsByStep(net, mid, Finish(c));
    assert c in Apply(mid, Finish(c)).closed;
  }

  lemma RunningCanClose(net: Net, c: int)
    requires c in net.threads || c in net.closed
    ensures CanClose(net, c)
  {
    LeadsNowhere(net);
    if c in net.threads {
      LeadsByStep(net, net, Finish(c));
      assert c in Apply(net, Finish(c)).closed;
    }
  }

  /**
   * In every reachable state an accepted connection can still be closed exactly when it was not
   * dropped on hang-up. This takes for granted that every request thread can end.
   */
  lemma ClosableIffNotDropped(steps: seq<Step>, net: Net, c: int)
    requires Run(EMPTY, steps, net) && 0 <= c < net.accepted
    ensures CanClose(net, c) <==> c !in net.dropped
  {
    RunConserves(EMPTY, steps, net);
    if c in net.dropped {
      forall end | Leads(net, end) ensures c !in end.closed {
        var later :| Run(net, later, end);
        HungUpIsNeverClosed(steps, net, later, end, c);
      }
    } else {
      assert Places(net, c) == 1;
      if c in net.threads || c in net.closed {
        RunningCanClose(net, c);
      } else {
        WaitingCanClose(net, c);
      }
    }
  }

  /** It happens: a server is added, a connection accepted, and its idle client hangs up. */
  lemma IdleHangUpLeaks(fd: nat) returns (net: Net)
    ensures Run(EMPTY, [AddServer(fd, true), Accept(0), HangUp(fd, 0)], net)
    ensures 0 in net.dropped && !CanClose(net, 0)
  {
    var a, b, c := AddServer(fd, true), Accept(0), HangUp(fd, 0);
    var first := Apply(EMPTY, a);
    assert first == Net([fd], {fd}, map[fd := []], 0, map[], {}, {}, {});
    var second := Apply(first, b);
    assert second.arrays[fd] == [0];
    net := Apply(second, c);
    assert Run(net, [], net);
    assert [c][1..] == [] && [b, c][1..] == [c] && [a, b, c][1..] == [b, c];
    assert Run(second, [c], net);
    assert Run(first, [b, c], net);
    ClosableIffNotDropped([a, b, c], net, 0);
  }
}
