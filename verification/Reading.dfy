/** How a client reads fields out of text that fixed marks surround. */
module Reading {
  import opened Bytes

  /** The first index from a given one on with a given character, or the length. */
  function IndexOf(s: string, c: char, from: nat): (n: nat)
    requires from <= |s|
    ensures from <= n <= |s| && (n < |s| ==> s[n] == c)
    ensures forall i :: from <= i < n ==> s[i] != c
    decreases |s| - from
  {
    if from == |s| || s[from] == c then from else IndexOf(s, c, from + 1)
  }

  /** A field and what follows its closing mark. */
  datatype Span = Span(text: string, rest: string)

  /**
   * The field that stands behind an opening mark at the front of the text and ends at the first
   * character of a closing mark, which has to stand there in full.
   */
  function ReadField(s: string, open: string, close: string): (r: Option<Span>)
    requires close != ""
    ensures r.Some? ==> |r.value.rest| < |s|
  {
    if open <= s then
      var t := s[|open|..];
      var n := IndexOf(t, close[0], 0);
      if close <= t[n..] then Some(Span(t[..n], t[n..][|close|..])) else None
    else None
  }

  /** A text without the first character of the closing mark is read back, and so is what follows. */
  lemma FieldReadsBack(open: string, text: string, close: string, rest: string)
    requires close != "" && close[0] !in text
    ensures ReadField(open + text + close + rest, open, close) == Some(Span(text, rest))
  {
    var s, t := open + text + close + rest, text + close + rest;
    assert s == open + t;
    assert s[..|open|] == open && s[|open|..] == t;
    var n := IndexOf(t, close[0], 0);
    assert t[|text|] == close[0];
    assert forall i :: 0 <= i < |text| ==> t[i] == text[i];
    assert n == |text|;
    assert t[n..] == close + rest;
    assert t[..n] == text;
    assert (close + rest)[|close|..] == rest;
  }
}
