/** Byte strings, one char per byte, and the C library views of them that the server relies on. */
module Bytes {

  datatype Option<+T> = None | Some(value: T)

  /** strnlen: the index of the first zero byte, or the length of the memory when there is none. */
  function StrnLen(s: string): (n: nat)
    ensures n <= |s|
    ensures forall i :: 0 <= i < n ==> s[i] != '\0'
    ensures n < |s| ==> s[n] == '\0'
  {
    ZeroFrom(s, 0)
  }

  function ZeroFrom(s: string, from: nat): (n: nat)
    requires from <= |s|
    ensures from <= n <= |s|
    ensures forall i :: from <= i < n ==> s[i] != '\0'
    ensures n < |s| ==> s[n] == '\0'
    decreases |s| - from
  {
    if from == |s| || s[from] == '\0' then from else ZeroFrom(s, from + 1)
  }

  /** The C string that starts at the beginning of s. */
  function CStr(s: string): string {
    s[..StrnLen(s)]
  }

  predicate NulFree(s: string) {
    forall i :: 0 <= i < |s| ==> s[i] != '\0'
  }

  lemma CStrOfNulFree(s: string)
    requires NulFree(s)
    ensures CStr(s) == s
  {
  }

  /** The first n bytes are text, the rest of the memory is zero. */
  lemma StrnLenOfPadded(s: string, n: nat)
    requires n <= |s| && NulFree(s[..n])
    requires n < |s| ==> s[n] == '\0'
    ensures StrnLen(s) == n && CStr(s) == s[..n]
  {
    forall i | 0 <= i < n ensures s[i] != '\0' {
      assert s[..n][i] != '\0';
    }
  }

  /** The first zero byte is what strnlen finds. */
  lemma StrnLenStops(s: string, n: nat)
    requires n < |s| && s[n] == '\0' && forall i :: 0 <= i < n ==> s[i] != '\0'
    ensures StrnLen(s) == n
  {
  }

  /** The four bytes CR LF CR LF that end an HTTP head stand at index i. */
  predicate TerminatorAt(s: string, i: nat) {
    i + 4 <= |s| && s[i] == '\r' && s[i + 1] == '\n' && s[i + 2] == '\r' && s[i + 3] == '\n'
  }

  /** strstr(s, "\r\n\r\n"): the first terminator, or -1. */
  function Find(s: string): (r: int)
    ensures -1 <= r
    ensures r < 0 ==> forall i: nat :: !TerminatorAt(s, i)
    ensures r >= 0 ==> TerminatorAt(s, r) && forall i: nat :: i < r ==> !TerminatorAt(s, i)
  {
    FindFrom(s, 0)
  }

  function FindFrom(s: string, from: nat): (r: int)
    requires from <= |s|
    ensures r == -1 || from <= r
    ensures r < 0 ==> forall i: nat :: from <= i ==> !TerminatorAt(s, i)
    ensures r >= 0 ==> TerminatorAt(s, r) && forall i: nat :: from <= i < r ==> !TerminatorAt(s, i)
    decreases |s| - from
  {
    if from + 4 > |s| then -1 else if TerminatorAt(s, from) then from else FindFrom(s, from + 1)
  }

  /** What follows does not move the first terminator. */
  lemma FindInPrefix(s: string, t: string)
    requires Find(s) >= 0
    ensures Find(s + t) == Find(s)
  {
    var i := Find(s);
    assert TerminatorAt(s + t, i);
    forall j: nat | j < i ensures !TerminatorAt(s + t, j) {
      assert !TerminatorAt(s, j);
    }
  }

  /** Concatenation of a list of chunks. */
  function Concat(chunks: seq<string>): string {
    if chunks == [] then "" else chunks[0] + Concat(chunks[1..])
  }

  /** The same, built from the back as a loop that appends does. */
  function Appended(chunks: seq<string>): string {
    if chunks == [] then "" else Appended(chunks[..|chunks| - 1]) + chunks[|chunks| - 1]
  }

  lemma Assoc(a: string, b: string, c: string)
    ensures (a + b) + c == a + (b + c)
  {
  }

  lemma AppendedSnoc(chunks: seq<string>, last: string)
    ensures Appended(chunks + [last]) == Appended(chunks) + last
  {
    assert (chunks + [last])[..|chunks|] == chunks;
  }

  lemma {:induction false} AppendedIsConcat(chunks: seq<string>, more: seq<string>)
    ensures Appended(chunks) + Concat(more) == Concat(chunks + more)
    decreases |chunks|
  {
    if chunks == [] {
      assert [] + more == more;
      assert "" + Concat(more) == Concat(more);
    } else {
      var front, last := chunks[..|chunks| - 1], chunks[|chunks| - 1];
      AppendedIsConcat(front, [last] + more);
      assert front + ([last] + more) == chunks + more;
      assert ([last] + more)[1..] == more;
      Assoc(Appended(front), last, Concat(more));
    }
  }

  lemma AppendedAll(chunks: seq<string>)
    ensures Appended(chunks) == Concat(chunks)
  {
    AppendedIsConcat(chunks, []);
    assert chunks + [] == chunks;
    assert Appended(chunks) + "" == Appended(chunks);
  }
}
