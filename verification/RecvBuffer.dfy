/** The receive buffer: a zeroed array whose write position is found with strnlen, cleaned in place. */
module RecvBuffer {
  import opened Bytes

  // ---------- the greedy scan that resumes four bytes after each match ----------

  /** What follows the last terminator the scan finds. */
  function Rest(s: string): string {
    var r := Find(s);
    if r < 0 then s else Rest(s[r + 4..])
  }

  /** How many terminators the scan passes. */
  function Discards(s: string): nat {
    var r := Find(s);
    if r < 0 then 0 else 1 + Discards(s[r + 4..])
  }

  lemma {:induction false} RestIsSuffix(s: string)
    ensures |Rest(s)| <= |s| && Rest(s) == s[|s| - |Rest(s)|..]
  {
    var r := Find(s);
    if r >= 0 {
      var t := s[r + 4..];
      RestIsSuffix(t);
      var n := |t| - |Rest(t)|;
      SuffixOfSuffix(s, r + 4, n);
      assert Rest(s) == Rest(t);
      assert r + 4 + n == |s| - |Rest(t)|;
    }
  }

  lemma {:induction false} RestHasNone(s: string)
    ensures Find(Rest(s)) < 0
  {
    var r := Find(s);
    if r >= 0 {
      RestHasNone(s[r + 4..]);
    }
  }

  /** The rest stands behind a terminator when there was one, and is everything otherwise. */
  lemma {:induction false} RestIsBehind(s: string)
    ensures Discards(s) == 0 <==> |Rest(s)| == |s|
    ensures Discards(s) > 0 ==> |Rest(s)| + 4 <= |s| && TerminatorAt(s, |s| - |Rest(s)| - 4)
  {
    var r := Find(s);
    if r >= 0 {
      var t := s[r + 4..];
      assert Rest(s) == Rest(t) && Discards(s) == 1 + Discards(t);
      RestIsBehind(t);
      if Discards(t) > 0 {
        TerminatorInSuffix(s, r + 4, |t| - |Rest(t)| - 4);
      }
    }
  }

  /** The rest is the suffix behind a terminator, or everything, and holds no terminator itself. */
  lemma {:induction false} RestIsLastSuffix(s: string)
    ensures Find(Rest(s)) < 0
    ensures |Rest(s)| <= |s| && Rest(s) == s[|s| - |Rest(s)|..]
    ensures Discards(s) == 0 <==> Rest(s) == s
    ensures Discards(s) > 0 ==> |Rest(s)| + 4 <= |s| && TerminatorAt(s, |s| - |Rest(s)| - 4)
  {
    RestIsSuffix(s);
    RestHasNone(s);
    RestIsBehind(s);
  }

  lemma SuffixOfSuffix(s: string, i: nat, j: nat)
    requires i + j <= |s|
    ensures s[i..][j..] == s[i + j..]
  {
  }

  lemma TerminatorInSuffix(s: string, from: nat, i: nat)
    requires from <= |s| && TerminatorAt(s[from..], i)
    ensures TerminatorAt(s, from + i)
  {
  }

  lemma ScanOnward(s: string, tail: string)
    requires Find(s) >= 0 && tail == s[Find(s) + 4..]
    ensures Rest(s) == Rest(tail) && Discards(s) == 1 + Discards(tail) && |tail| < |s|
  {
  }

  /** Cleaning the leftover of a again after b arrived is cleaning a followed by b once. */
  lemma {:induction false} IncrementalCleaning(a: string, b: string)
    ensures Rest(Rest(a) + b) == Rest(a + b)
    ensures Discards(a) + Discards(Rest(a) + b) == Discards(a + b)
    decreases |a|
  {
    var r := Find(a);
    if r >= 0 {
      var tail := a[r + 4..];
      FindInPrefix(a, b);
      assert (a + b)[r + 4..] == tail + b;
      ScanOnward(a, tail);
      ScanOnward(a + b, tail + b);
      IncrementalCleaning(tail, b);
    }
  }

  /** The leftover and the number of discards when every chunk is followed by a cleaning. */
  function CleanEach(leftover: string, chunks: seq<string>): (string, nat)
    decreases |chunks|
  {
    if chunks == [] then (leftover, 0)
    else
      var (rest, n) := CleanEach(Rest(leftover + chunks[0]), chunks[1..]);
      (rest, Discards(leftover + chunks[0]) + n)
  }

  /** However the bytes are split, cleaning after every chunk ends where one cleaning of the whole ends. */
  lemma {:induction false} CleaningIsChunkIndependent(leftover: string, chunks: seq<string>)
    requires Find(leftover) < 0
    ensures CleanEach(leftover, chunks) == (Rest(leftover + Concat(chunks)), Discards(leftover + Concat(chunks)))
    decreases |chunks|
  {
    if chunks == [] {
      assert leftover + "" == leftover;
    } else {
      var next, more := leftover + chunks[0], Concat(chunks[1..]);
      Assoc(leftover, chunks[0], more);
      RestHasNone(next);
      CleaningIsChunkIndependent(Rest(next), chunks[1..]);
      IncrementalCleaning(next, more);
    }
  }

  // ---------- the buffer ----------

  /**
   * strstr of the terminator from an offset. The scan ends at a zero byte. The source sets it no
   * other bound; here it ends at the end of the memory too, and ScanLeaves says when that matters.
   */
  function StrStr(mem: string, from: nat): (r: int)
    requires from <= |mem|
    ensures -1 <= r <= |mem| - 4 || r == -1
    ensures r >= 0 ==> from <= r
  {
    var r := Find(CStr(mem[from..]));
    if r < 0 then -1 else from + r
  }

  /** The unbounded scan finds neither a terminator nor a zero byte in the memory and reads on behind it. */
  predicate ScanLeaves(mem: string, from: nat)
    requires from <= |mem|
  {
    StrStr(mem, from) < 0 && NulFree(mem[from..])
  }

  lemma CStrOfSuffix(mem: string, from: nat)
    requires from <= StrnLen(mem)
    ensures CStr(mem[from..]) == CStr(mem)[from..]
  {
    var n := StrnLen(mem);
    assert forall i :: 0 <= i < n - from ==> mem[from..][i] == mem[from + i];
    StrnLenOfPadded(mem[from..], n - from);
  }

  /** One turn of the search loop: the scan goes on behind the match, with the same rest. */
  lemma RestOnward(text: string, from: nat)
    requires from <= |text| && Find(text[from..]) >= 0
    ensures from + Find(text[from..]) + 4 <= |text|
    ensures Rest(text[from..]) == Rest(text[from + Find(text[from..]) + 4..])
  {
    SuffixOfSuffix(text, from, Find(text[from..]) + 4);
  }

  class HttpRecvBuffer {
    const mem: array<char>

    /** A buffer taken from the pool is zeroed. */
    constructor (size: nat)
      ensures fresh(mem) && mem.Length == size
      ensures forall i :: 0 <= i < size ==> mem[i] == '\0'
    {
      mem := new char[size];
      new;
      forall i | 0 <= i < size {
        mem[i] := '\0';
      }
    }

    /** The conversion to a pointer: where the next bytes are received. */
    function Position(): (p: nat)
      reads mem
      ensures p <= mem.Length
    {
      StrnLen(mem[..])
    }

    /** A forward copy to the front; right also when the areas overlap. */
    method MoveToFront(from: nat, len: nat)
      requires from + len <= mem.Length
      modifies mem
      ensures mem[..] == old(mem[..])[from..from + len] + old(mem[..])[len..]
    {
      var i := 0;
      while i < len
        invariant 0 <= i <= len
        invariant forall k :: 0 <= k < i ==> mem[k] == old(mem[from + k])
        invariant forall k :: i <= k < mem.Length ==> mem[k] == old(mem[k])
      {
        mem[i] := mem[from + i];
        i := i + 1;
      }
    }

    /** memcpy, which may only be called on disjoint areas. */
    method CopyToFront(from: nat, len: nat)
      requires from + len <= mem.Length && len <= from
      modifies mem
      ensures mem[..] == old(mem[..])[from..from + len] + old(mem[..])[len..]
    {
      var block := mem[from..from + len];
      forall i | 0 <= i < len {
        mem[i] := block[i];
      }
    }

    /**
     * The search loop of cleanBuffer: the end of the last terminator found, or 0. Some scan leaves
     * the memory exactly when there is no zero byte in it.
     */
    method LastTerminatorEnd() returns (leftover: nat, leaves: bool)
      ensures leftover <= StrnLen(mem[..])
      ensures leftover == |CStr(mem[..])| - |Rest(CStr(mem[..]))|
      ensures leftover > 0 <==> Discards(CStr(mem[..])) > 0
      ensures leaves <==> NulFree(mem[..])
    {
      ghost var text := CStr(mem[..]);
      leftover := 0;
      assert text[0..] == text && mem[0..] == mem[..];
      CStrOfSuffix(mem[..], 0);
      var temp := StrStr(mem[..], 0);
      leaves := ScanLeaves(mem[..], 0);
      while temp >= 0
        invariant 0 <= leftover <= |text| == StrnLen(mem[..])
        invariant Rest(text) == Rest(text[leftover..])
        invariant temp == (if Find(text[leftover..]) < 0 then -1 else leftover + Find(text[leftover..]))
        invariant leaves <==> temp < 0 && NulFree(mem[..])
        decreases |text| - leftover
      {
        RestOnward(text, leftover);
        leftover := temp + 4;
        CStrOfSuffix(mem[..], leftover);
        temp := StrStr(mem[..], leftover);
        leaves := leaves || ScanLeaves(mem[..], leftover);
        NulFreeBehind(mem[..], leftover);
      }
      RestIsLastSuffix(text);
    }

    /**
     * Discards everything up to the last terminator of the text. The bytes behind the moved
     * block keep their old values. leaves tells that the source's scan would have read on behind
     * the memory, which is so exactly for a buffer without a zero byte; what is said of such a
     * buffer is said of the bounded scan.
     */
    method CleanBuffer() returns (removed: nat, leaves: bool)
      modifies mem
      ensures removed == |CStr(old(mem[..]))| - |Rest(CStr(old(mem[..])))| <= mem.Length
      ensures removed > 0 <==> Discards(CStr(old(mem[..]))) > 0
      ensures mem[..] == old(mem[..])[removed..] + old(mem[..])[mem.Length - removed..]
      ensures leaves <==> NulFree(old(mem[..]))
    {
      ghost var before := mem[..];
      var leftover;
      leftover, leaves := LastTerminatorEnd();
      if leftover == 0 {
        SplitEnds(before);
        return 0, leaves;
      }
      var len := mem.Length - leftover;
      assert before[leftover..leftover + len] == before[leftover..];
      if len < mem.Length / 2 {
        CopyToFront(leftover, len);
      } else {
        MoveToFront(leftover, len);
      }
      removed := leftover;
    }
  }

  /** The text of a memory up to an offset has no zero byte, so whether the rest has one decides. */
  lemma NulFreeBehind(mem: string, from: nat)
    requires from <= StrnLen(mem)
    ensures NulFree(mem) <==> NulFree(mem[from..])
  {
    if NulFree(mem[from..]) {
      forall i | 0 <= i < |mem| ensures mem[i] != '\0' {
        assert i >= from ==> mem[from..][i - from] == mem[i];
      }
    }
  }

  /** The memory after a cleaning. */
  ghost predicate Cleaned(before: string, after: string, removed: nat) {
    && removed == |CStr(before)| - |Rest(CStr(before))| <= |before|
    && after == before[removed..] + before[|before| - removed..]
  }

  /**
   * Where the next bytes are received after a cleaning: behind the rest of the text if the buffer
   * was not full, and still at the end if it was, because the kept tail of the memory is text.
   */
  lemma PositionAfterCleaning(before: string, after: string, removed: nat)
    requires Cleaned(before, after, removed)
    ensures StrnLen(after) == if NulFree(before) then |before| else StrnLen(before) - removed
  {
    var n := StrnLen(before);
    RestIsLastSuffix(CStr(before));
    if NulFree(before) {
      CStrOfNulFree(before);
      assert forall i :: 0 <= i < |after| ==> after[i] in before;
      StrnLenOfPadded(after, |after|);
    } else {
      assert n < |before|;
      assert forall i :: 0 <= i <= n - removed ==> after[i] == before[removed + i];
      StrnLenStops(after, n - removed);
    }
  }

  /** A cleaning makes room exactly when it removes something and the buffer was not full. */
  lemma CleaningMakesRoomIff(before: string, after: string, removed: nat)
    requires Cleaned(before, after, removed)
    ensures StrnLen(after) < StrnLen(before) <==> Discards(CStr(before)) > 0 && !NulFree(before)
  {
    RestIsLastSuffix(CStr(before));
    PositionAfterCleaning(before, after, removed);
  }

  lemma SplitEnds(s: string)
    ensures s == s[0..] + s[|s| - 0..]
  {
  }

  /**
   * What cleaning leaves of a full buffer of text under the bounded scan: at the front its part
   * behind the last terminator, and no room behind it.
   */
  lemma FullBufferKeepsRest(before: string, after: string, removed: nat)
    requires NulFree(before) && Cleaned(before, after, removed)
    ensures after[..|before| - removed] == Rest(before) && Find(after[..|before| - removed]) < 0
    ensures removed == 0 <==> Find(before) < 0
    ensures removed == 0 ==> after == before
    ensures StrnLen(after) == |before|
  {
    CStrOfNulFree(before);
    RestIsLastSuffix(before);
    PositionAfterCleaning(before, after, removed);
    assert after[..|before| - removed] == before[removed..];
  }
}
