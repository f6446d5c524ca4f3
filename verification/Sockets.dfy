/** The arrays of owned descriptors, their erase by left shift, and the sweep of a server's client array. */
module Sockets {

  const INVALID := -1

  function OneIf(b: bool, x: int): seq<int> {
    if b then [x] else []
  }

  /** The descriptors the first k slots still own, in order. */
  function ValidUpTo(slots: seq<int>, k: nat): seq<int>
    requires k <= |slots|
  {
    if k == 0 then [] else ValidUpTo(slots, k - 1) + OneIf(slots[k - 1] != INVALID, slots[k - 1])
  }

  function ValidOnly(slots: seq<int>): seq<int> {
    ValidUpTo(slots, |slots|)
  }

  lemma {:induction false} ValidAgree(a: seq<int>, b: seq<int>, k: nat)
    requires k <= |a| && k <= |b| && forall m :: 0 <= m < k ==> a[m] == b[m]
    ensures ValidUpTo(a, k) == ValidUpTo(b, k)
  {
    if k > 0 {
      ValidAgree(a, b, k - 1);
    }
  }

  /** Taking an empty slot out does not change what is owned. */
  lemma {:induction false} ValidWithout(slots: seq<int>, i: nat, k: nat)
    requires i < k <= |slots| && slots[i] == INVALID
    ensures ValidUpTo(slots[..i] + slots[i + 1..], k - 1) == ValidUpTo(slots, k)
  {
    var t := slots[..i] + slots[i + 1..];
    if k == i + 1 {
      ValidAgree(t, slots, i);
    } else {
      ValidWithout(slots, i, k - 1);
      assert t[k - 2] == slots[k - 1];
    }
  }

  lemma {:induction false} AllValid(slots: seq<int>, k: nat)
    requires k <= |slots| && INVALID !in slots
    ensures ValidUpTo(slots, k) == slots[..k]
  {
    if k > 0 {
      AllValid(slots, k - 1);
      assert slots[k - 1] in slots;
    }
  }

  lemma NoneInvalid(slots: seq<int>)
    requires INVALID !in slots
    ensures ValidOnly(slots) == slots
  {
    AllValid(slots, |slots|);
    assert slots[..|slots|] == slots;
  }

  datatype Event = Quiet | Readable | HungUp

  class SocketFdsArray {
    var slots: seq<int>
    /** The valid descriptors that were passed to close, in order. */
    var closed: seq<int>

    constructor ()
      ensures slots == [] && closed == []
    {
      slots, closed := [], [];
    }

    /** Move assignment takes the descriptor and invalidates its source; what the target held is not closed. */
    method MoveAssign(target: nat, source: nat)
      requires target < |slots| && source < |slots| && target != source
      modifies this`slots
      ensures slots == old(slots)[target := old(slots)[source]][source := INVALID]
    {
      slots := slots[target := slots[source]];
      slots := slots[source := INVALID];
    }

    /** The destructor of the last element. */
    method PopBack()
      requires slots != []
      modifies this
      ensures slots == old(slots)[..|old(slots)| - 1]
      ensures closed == old(closed) + OneIf(old(slots)[|old(slots)| - 1] != INVALID, old(slots)[|old(slots)| - 1])
    {
      var fd := slots[|slots| - 1];
      if fd != INVALID {
        closed := closed + [fd];
      }
      slots := slots[..|slots| - 1];
    }

    /** vector::erase: every later element is moved one to the left and the last one is destroyed. */
    method Erase(i: nat)
      requires i < |slots| && slots[i] == INVALID
      modifies this
      ensures slots == old(slots)[..i] + old(slots)[i + 1..]
      ensures closed == old(closed)
    {
      ghost var before := slots;
      var j := i;
      while j + 1 < |slots|
        invariant i <= j < |slots| == |before| && closed == old(closed)
        invariant forall m :: 0 <= m < i || j < m < |slots| ==> slots[m] == before[m]
        invariant forall m :: i <= m < j ==> slots[m] == before[m + 1]
        invariant slots[j] == INVALID
      {
        MoveAssign(j, j + 1);
        j := j + 1;
      }
      PopBack();
      assert closed == old(closed) + [];
      assert slots == before[..i] + before[i + 1..];
    }

    /** std::find of an empty slot: its index, or the length. */
    method FindInvalid() returns (i: nat)
      ensures i <= |slots| && (i < |slots| ==> slots[i] == INVALID) && INVALID !in slots[..i]
    {
      i := 0;
      while i < |slots| && slots[i] != INVALID
        invariant i <= |slots| && INVALID !in slots[..i]
      {
        i := i + 1;
      }
    }

    /**
     * The clean-up with its evident intent: it ends when the search finds nothing. No descriptor is
     * closed, lost or duplicated, and the order is kept.
     */
    method EraseInvalid()
      modifies this
      ensures slots == ValidOnly(old(slots)) && closed == old(closed) && INVALID !in slots
    {
      while true
        invariant ValidOnly(slots) == ValidOnly(old(slots)) && closed == old(closed)
        decreases |slots|
      {
        var i := FindInvalid();
        if i == |slots| {
          assert slots[..i] == slots;
          NoneInvalid(slots);
          return;
        }
        ValidWithout(slots, i, |slots|);
        Erase(i);
      }
    }

    /**
     * The loop of clientsListeningLoop as written, which tests its iterator before it searches. It
     * comes to erase the end exactly when a valid slot remains.
     */
    method EraseInvalidFromStart() returns (erasesEnd: bool)
      modifies this
      ensures slots == ValidOnly(old(slots)) && closed == old(closed) && INVALID !in slots
      ensures erasesEnd <==> ValidOnly(old(slots)) != []
    {
      while slots != []
        invariant ValidOnly(slots) == ValidOnly(old(slots)) && closed == old(closed)
        decreases |slots|
      {
        var i := FindInvalid();
        if i == |slots| {
          assert slots[..i] == slots;
          NoneInvalid(slots);
          return true;
        }
        ValidWithout(slots, i, |slots|);
        Erase(i);
      }
      erasesEnd := false;
    }

    /**
     * The loop of serversListeningLoop as written, which goes on behind the erased slot. It ends
     * without erasing the end exactly when the array was empty or its last slot was.
     */
    method EraseInvalidOnward() returns (erasesEnd: bool)
      modifies this
      ensures slots == ValidOnly(old(slots)) && closed == old(closed)
      ensures !erasesEnd <==> old(slots) == [] || old(slots)[|old(slots)| - 1] == INVALID
    {
      var iter := 0;
      while iter != |slots|
        invariant 0 <= iter <= |slots| && closed == old(closed)
        invariant ValidOnly(slots) == ValidOnly(old(slots))
        invariant INVALID !in slots[..iter]
        invariant iter < |slots| ==> old(slots) != [] && slots[|slots| - 1] == old(slots)[|old(slots)| - 1]
        invariant iter == |slots| ==> old(slots) == [] || old(slots)[|old(slots)| - 1] == INVALID
        decreases |slots|
      {
        var i := FindInvalid();
        if i == |slots| {
          assert slots[..i] == slots;
          NoneInvalid(slots);
          assert slots[|slots| - 1] in slots;
          return true;
        }
        ValidWithout(slots, i, |slots|);
        Erase(i);
        iter := i;
      }
      assert slots[..iter] == slots;
      NoneInvalid(slots);
      erasesEnd := false;
    }

    /**
     * One turn of clientsListeningLoop after poll: readable clients go to a request thread each,
     * hung-up ones are forgotten, and the array keeps the others in order. With the clean-up as
     * written it then comes to erase the end exactly when a slot was emptied and another was not.
     */
    method Sweep(events: seq<Event>) returns (handed: seq<int>, dropped: seq<int>, erasesEnd: bool)
      requires INVALID !in slots && |events| == |slots|
      modifies this
      ensures INVALID !in slots
      ensures slots == Picked(old(slots), events, |events|, Quiet)
      ensures handed == Picked(old(slots), events, |events|, Readable)
      ensures dropped == Picked(old(slots), events, |events|, HungUp)
      ensures closed == old(closed)
      ensures erasesEnd <==> slots != [] && exists k :: 0 <= k < |events| && events[k] != Quiet
    {
      ghost var before := slots;
      handed, dropped := [], [];
      var k := 0;
      var hang := false;
      while k < |slots|
        invariant k <= |slots| == |before| && closed == old(closed)
        invariant handed == Picked(before, events, k, Readable)
        invariant dropped == Picked(before, events, k, HungUp)
        invariant ValidUpTo(slots, k) == Picked(before, events, k, Quiet)
        invariant forall m :: k <= m < |slots| ==> slots[m] == before[m]
        invariant !hang ==> slots == before
        invariant hang <==> exists j :: 0 <= j < k && events[j] != Quiet
      {
        ghost var earlier := slots;
        if events[k] == Readable {
          handed := handed + [slots[k]];
          slots := slots[k := INVALID];
          hang := true;
        } else if events[k] == HungUp {
          dropped := dropped + [slots[k]];
          slots := slots[k := INVALID];
          hang := true;
        }
        assert before[k] in before;
        ValidAgree(earlier, slots, k);
        k := k + 1;
      }
      erasesEnd := false;
      if hang {
        erasesEnd := EraseInvalidFromStart();
      } else {
        NoneInvalid(slots);
      }
    }
  }

  /** The valid ones of the first k slots whose poll reported the given event, in order. */
  function Picked(slots: seq<int>, events: seq<Event>, k: nat, e: Event): seq<int>
    requires k <= |slots| == |events|
  {
    if k == 0 then []
    else Picked(slots, events, k - 1, e) + OneIf(slots[k - 1] != INVALID && events[k - 1] == e, slots[k - 1])
  }

  function CountUpTo(s: seq<int>, k: nat, x: int): nat
    requires k <= |s|
  {
    if k == 0 then 0 else CountUpTo(s, k - 1, x) + (if s[k - 1] == x then 1 else 0)
  }

  /** How often x occurs in s. */
  function Count(s: seq<int>, x: int): nat {
    CountUpTo(s, |s|, x)
  }

  lemma {:induction false} CountAgree(a: seq<int>, b: seq<int>, k: nat, x: int)
    requires k <= |a| && k <= |b| && forall m :: 0 <= m < k ==> a[m] == b[m]
    ensures CountUpTo(a, k, x) == CountUpTo(b, k, x)
  {
    if k > 0 {
      CountAgree(a, b, k - 1, x);
    }
  }

  lemma CountOneMore(s: seq<int>, b: bool, y: int, x: int)
    ensures Count(s + OneIf(b, y), x) == Count(s, x) + (if b && y == x then 1 else 0)
  {
    CountAgree(s + OneIf(b, y), s, |s|, x);
  }

  ghost predicate Balanced(v: seq<int>, q: seq<int>, r: seq<int>, h: seq<int>, x: int) {
    Count(v, x) == Count(q, x) + Count(r, x) + Count(h, x)
  }

  lemma BalancedOneMore(v: seq<int>, q: seq<int>, r: seq<int>, h: seq<int>, x: int, y: int, valid: bool, e: Event)
    requires Balanced(v, q, r, h, x)
    ensures Balanced(v + OneIf(valid, y), q + OneIf(valid && e == Quiet, y), r + OneIf(valid && e == Readable, y),
                     h + OneIf(valid && e == HungUp, y), x)
  {
    CountOneMore(v, valid, y, x);
    CountOneMore(q, valid && e == Quiet, y, x);
    CountOneMore(r, valid && e == Readable, y, x);
    CountOneMore(h, valid && e == HungUp, y, x);
  }

  /** A sweep loses no connection and puts none in two places: what the slots own is what the three parts hold. */
  lemma {:induction false} SweepConserves(slots: seq<int>, events: seq<Event>, k: nat, x: int)
    requires k <= |slots| == |events|
    ensures Balanced(ValidUpTo(slots, k), Picked(slots, events, k, Quiet), Picked(slots, events, k, Readable),
                     Picked(slots, events, k, HungUp), x)
  {
    if k > 0 {
      SweepConserves(slots, events, k - 1, x);
      BalancedOneMore(ValidUpTo(slots, k - 1),
                      Picked(slots, events, k - 1, Quiet), Picked(slots, events, k - 1, Readable),
                      Picked(slots, events, k - 1, HungUp), x, slots[k - 1], slots[k - 1] != INVALID, events[k - 1]);
    }
  }
}
