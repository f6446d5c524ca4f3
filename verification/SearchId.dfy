/** The escape code of the documentation search and the prefix test that relies on it. */
module SearchId {

  /** A UTF-16 code unit. */
  type Unit = u: int | 0 <= u < 0x1_0000

  const UNDERSCORE: Unit := 0x5f

  /** The class [a-z0-9\u0080-\uFFFF], whose members stand for themselves. */
  predicate Plain(c: Unit) {
    (0x61 <= c <= 0x7a) || (0x30 <= c <= 0x39) || 0x80 <= c
  }

  function HexDigit(d: int): Unit
    requires 0 <= d < 16
  {
    if d < 10 then 0x30 + d else 0x61 + d - 10
  }

  /** cn.toString(16) of a number below 0x80. */
  function Hex(cn: int): seq<Unit>
    requires 0 <= cn < 0x80
  {
    if cn < 16 then [HexDigit(cn)] else [HexDigit(cn / 16), HexDigit(cn % 16)]
  }

  function Code(c: Unit): seq<Unit> {
    if Plain(c) then [c]
    else if c < 16 then [UNDERSCORE, 0x30] + Hex(c)
    else [UNDERSCORE] + Hex(c)
  }

  function Flat(words: seq<seq<Unit>>): seq<Unit> {
    if words == [] then [] else Flat(words[..|words| - 1]) + words[|words| - 1]
  }

  function Words(s: seq<Unit>): (words: seq<seq<Unit>>)
    ensures |words| == |s|
    ensures forall i :: 0 <= i < |s| ==> words[i] == Code(s[i])
  {
    seq(|s|, i requires 0 <= i < |s| => Code(s[i]))
  }

  /** The code words of a string, one after the other. */
  function Encoded(s: seq<Unit>): seq<Unit> {
    Flat(Words(s))
  }

  lemma EncodedLast(s: seq<Unit>, c: Unit)
    ensures Encoded(s + [c]) == Encoded(s) + Code(c)
  {
    assert Words(s + [c])[..|s|] == Words(s);
  }

  method ConvertToId(search: seq<Unit>) returns (result: seq<Unit>)
    ensures result == Encoded(search)
  {
    result := [];
    var i := 0;
    while i < |search|
      invariant 0 <= i <= |search| && result == Encoded(search[..i])
    {
      assert search[..i + 1] == search[..i] + [search[i]];
      EncodedLast(search[..i], search[i]);
      var c := search[i];
      if Plain(c) {
        result := result + [c];
      } else if c < 16 {
        result := result + ([UNDERSCORE, 0x30] + Hex(c));
      } else {
        result := result + ([UNDERSCORE] + Hex(c));
      }
      i := i + 1;
    }
    assert search[..i] == search;
  }

  lemma {:induction false} FlatConcat(a: seq<seq<Unit>>, b: seq<seq<Unit>>)
    ensures Flat(a + b) == Flat(a) + Flat(b)
    decreases |b|
  {
    if b == [] {
      assert a + b == a;
    } else {
      var front, last := b[..|b| - 1], b[|b| - 1];
      FlatConcat(a, front);
      assert (a + b)[..|a + b| - 1] == a + front;
      assert (Flat(a) + Flat(front)) + last == Flat(a) + (Flat(front) + last);
    }
  }

  lemma EncodedFirst(s: seq<Unit>)
    requires s != []
    ensures Encoded(s) == Code(s[0]) + Encoded(s[1..])
  {
    var first := [Code(s[0])];
    assert Words(s) == first + Words(s[1..]);
    FlatConcat(first, Words(s[1..]));
    assert first[..0] == [] && [] + Code(s[0]) == Code(s[0]);
  }

  lemma HexDigitInjective(a: int, b: int)
    requires 0 <= a < 16 && 0 <= b < 16 && HexDigit(a) == HexDigit(b)
    ensures a == b
  {
  }

  /** No code word is a proper prefix of another, and different units have different words. */
  lemma CodeIsPrefixFree(a: Unit, b: Unit, x: seq<Unit>, y: seq<Unit>)
    requires Code(a) + x <= Code(b) + y
    ensures a == b && x <= y
  {
    var s, t := Code(a) + x, Code(b) + y;
    assert s[0] == t[0] == Code(a)[0] == Code(b)[0];
    if Plain(a) {
      assert a == b;
      assert x == s[1..] && y == t[1..];
    } else {
      assert |Code(a)| == 3 && |Code(b)| == 3;
      assert s[1] == t[1] && s[2] == t[2];
      assert Code(a)[1] == HexDigit(a / 16) && Code(a)[2] == HexDigit(a % 16);
      assert Code(b)[1] == HexDigit(b / 16) && Code(b)[2] == HexDigit(b % 16);
      HexDigitInjective(a / 16, b / 16);
      HexDigitInjective(a % 16, b % 16);
      assert x == s[3..] && y == t[3..];
    }
  }

  lemma {:induction false} PrefixOfEncoded(s: seq<Unit>, t: seq<Unit>)
    requires Encoded(s) <= Encoded(t)
    ensures s <= t
    decreases |s|
  {
    if s != [] {
      EncodedFirst(s);
      assert t == [] ==> Encoded(t) == [];
      if t != [] {
        EncodedFirst(t);
        CodeIsPrefixFree(s[0], t[0], Encoded(s[1..]), Encoded(t[1..]));
        PrefixOfEncoded(s[1..], t[1..]);
        ConsPrefix(s, t);
      }
    }
  }

  lemma ConsPrefix(s: seq<Unit>, t: seq<Unit>)
    requires s != [] && t != [] && s[0] == t[0] && s[1..] <= t[1..]
    ensures s <= t
  {
    assert s == [s[0]] + s[1..] && t == [t[0]] + t[1..];
  }

  lemma EncodedOfPrefix(s: seq<Unit>, t: seq<Unit>)
    requires s <= t
    ensures Encoded(s) <= Encoded(t)
  {
    assert Words(t) == Words(s) + Words(t[|s|..]);
    FlatConcat(Words(s), Words(t[|s|..]));
  }

  /** The encoding of one string is a prefix of the encoding of another exactly when the strings are. */
  lemma PrefixIffPrefix(s: seq<Unit>, t: seq<Unit>)
    ensures Encoded(s) <= Encoded(t) <==> s <= t
  {
    if Encoded(s) <= Encoded(t) {
      PrefixOfEncoded(s, t);
    }
    if s <= t {
      EncodedOfPrefix(s, t);
    }
  }

  lemma EncodingIsInjective(s: seq<Unit>, t: seq<Unit>)
    requires Encoded(s) == Encoded(t)
    ensures s == t
  {
    PrefixIffPrefix(s, t);
    PrefixIffPrefix(t, s);
  }

  // ---------- reading a code back ----------

  function HexValue(c: Unit): int {
    if '0' as int <= c <= '9' as int then c - '0' as int
    else if 'a' as int <= c <= 'f' as int then c - 'a' as int + 10
    else 0
  }

  /** An underscore and two hexadecimal digits stand for the unit with that number, anything else for itself. */
  function Decoded(code: seq<Unit>): seq<int> {
    if code == [] then []
    else if code[0] == '_' as int && |code| >= 3 then
      [16 * HexValue(code[1]) + HexValue(code[2])] + Decoded(code[3..])
    else [code[0]] + Decoded(code[1..])
  }

  /** Exactly lower case letters, digits and everything from 0x80 on stand for themselves. */
  lemma StandsForItselfIff(c: Unit)
    ensures Code(c) == [c] <==> 'a' as int <= c <= 'z' as int || '0' as int <= c <= '9' as int || c >= 0x80
  {
  }

  lemma DecodedWord(c: Unit, rest: seq<Unit>)
    ensures Decoded(Code(c) + rest) == [c] + Decoded(rest)
  {
    var code := Code(c) + rest;
    if Plain(c) {
      assert code[1..] == rest;
    } else {
      assert |Code(c)| == 3 && code[..3] == Code(c);
      assert code[1] == Code(c)[1] && code[2] == Code(c)[2];
      assert HexValue(code[1]) == c / 16 && HexValue(code[2]) == c % 16;
      assert code[3..] == rest;
    }
  }

  /** The encoding is read back, so every word is the number of its unit in two hexadecimal digits. */
  lemma {:induction false} DecodesBack(s: seq<Unit>)
    ensures Decoded(Encoded(s)) == s
  {
    if s != [] {
      EncodedFirst(s);
      DecodedWord(s[0], Encoded(s[1..]));
      DecodesBack(s[1..]);
      assert s == [s[0]] + s[1..];
    }
  }

  // ---------- the search ----------

  datatype Display = Unset | Block | Hidden

  class Row {
    const isResult: bool
    const id: seq<Unit>
    var display: Display

    constructor (isResult: bool, id: seq<Unit>)
      ensures this.isResult == isResult && this.id == id && display == Unset
    {
      this.isResult, this.id, display := isResult, id, Unset;
    }
  }

  predicate Digit(c: Unit) {
    0x30 <= c <= 0x39
  }

  function DropDigits(s: seq<Unit>): seq<Unit> {
    if s != [] && Digit(s[0]) then DropDigits(s[1..]) else s
  }

  /** id.replace(/^sr\d*_/, ''), on an id in lower case. */
  function Stripped(id: seq<Unit>): seq<Unit> {
    if |id| >= 2 && id[0] == 0x73 && id[1] == 0x72
    then
      var rest := DropDigits(id[2..]);
      if rest != [] && rest[0] == UNDERSCORE then rest[1..] else id
    else id
  }

  /** The id the generator gives to the row of a name. */
  function RowId(digits: seq<Unit>, name: seq<Unit>): seq<Unit> {
    [0x73, 0x72] + digits + [UNDERSCORE] + Encoded(name)
  }

  lemma {:induction false} DropDigitsOf(digits: seq<Unit>, rest: seq<Unit>)
    requires (forall i :: 0 <= i < |digits| ==> Digit(digits[i])) && rest != [] && !Digit(rest[0])
    ensures DropDigits(digits + rest) == rest
  {
    if digits == [] {
      assert digits + rest == rest;
    } else {
      DropDigitsOf(digits[1..], rest);
      assert (digits + rest)[1..] == digits[1..] + rest;
    }
  }

  lemma StrippedRowId(digits: seq<Unit>, name: seq<Unit>)
    requires forall i :: 0 <= i < |digits| ==> Digit(digits[i])
    ensures Stripped(RowId(digits, name)) == Encoded(name)
  {
    var rest := [UNDERSCORE] + Encoded(name);
    assert RowId(digits, name)[2..] == digits + rest;
    DropDigitsOf(digits, rest);
  }

  /** id is sr, some digits, an underscore, and the rest. */
  ghost predicate Prefixed(id: seq<Unit>, digits: seq<Unit>, rest: seq<Unit>) {
    && (forall i :: 0 <= i < |digits| ==> '0' as int <= digits[i] <= '9' as int)
    && id == ['s' as int, 'r' as int] + digits + ['_' as int] + rest
  }

  lemma {:induction false} DropsDigits(s: seq<Unit>) returns (digits: seq<Unit>)
    ensures s == digits + DropDigits(s)
    ensures forall i :: 0 <= i < |digits| ==> Digit(digits[i])
  {
    if s != [] && Digit(s[0]) {
      var more := DropsDigits(s[1..]);
      digits := [s[0]] + more;
      var rest := DropDigits(s[1..]);
      assert s == [s[0]] + s[1..];
      assert digits + rest == [s[0]] + (more + rest);
    } else {
      digits := [];
    }
  }

  lemma TakesPrefixOff(id: seq<Unit>, digits: seq<Unit>, rest: seq<Unit>)
    requires Prefixed(id, digits, rest)
    ensures Stripped(id) == rest
  {
    var more := ['_' as int] + rest;
    assert id[2..] == digits + more;
    DropDigitsOf(digits, more);
    assert more[1..] == rest;
  }

  lemma OnlyPrefixes(id: seq<Unit>) returns (digits: seq<Unit>, rest: seq<Unit>)
    requires Stripped(id) != id
    ensures Prefixed(id, digits, rest)
  {
    digits := DropsDigits(id[2..]);
    var more := DropDigits(id[2..]);
    rest := more[1..];
    assert id == id[..2] + id[2..];
    assert more == [more[0]] + more[1..];
  }

  /** The pattern takes off such a prefix, whatever the rest, and leaves any other id alone. */
  lemma StrippedIsExact(id: seq<Unit>)
    ensures forall digits, rest :: Prefixed(id, digits, rest) ==> Stripped(id) == rest
    ensures (forall digits, rest :: !Prefixed(id, digits, rest)) ==> Stripped(id) == id
  {
    forall digits, rest | Prefixed(id, digits, rest) ensures Stripped(id) == rest {
      TakesPrefixOff(id, digits, rest);
    }
    if Stripped(id) != id {
      var digits, rest := OnlyPrefixes(id);
    }
  }

  /** A result row whose name starts with the search text, as the script tests it. */
  predicate Wanted(row: Row, search: seq<Unit>) {
    row.isResult && Encoded(search) <= Stripped(row.id)
  }

  /** The rows that are wanted. */
  function WantedRows(rows: seq<Row>, search: seq<Unit>): set<int> {
    set i | 0 <= i < |rows| && Wanted(rows[i], search)
  }

  /** For each row whether it is wanted. */
  ghost function Wanting(rows: seq<Row>, search: seq<Unit>): (flags: seq<bool>)
    ensures |flags| == |rows|
    ensures forall i :: 0 <= i < |rows| ==> flags[i] == Wanted(rows[i], search)
  {
    seq(|rows|, i requires 0 <= i < |rows| => Wanted(rows[i], search))
  }

  function TrueIndices(flags: seq<bool>, k: nat): set<int>
    requires k <= |flags|
  {
    set i | 0 <= i < k && flags[i]
  }

  lemma OneMoreFlag(flags: seq<bool>, k: nat)
    requires k < |flags|
    ensures |TrueIndices(flags, k + 1)| == |TrueIndices(flags, k)| + (if flags[k] then 1 else 0)
  {
    assert k !in TrueIndices(flags, k);
    assert TrueIndices(flags, k + 1) == TrueIndices(flags, k) + (if flags[k] then {k} else {});
  }

  lemma WantedAreSet(rows: seq<Row>, search: seq<Unit>, flags: seq<bool>)
    requires flags == Wanting(rows, search)
    ensures WantedRows(rows, search) == TrueIndices(flags, |rows|)
  {
  }

  /** key is the encoded search text, and the flags say which rows are wanted. */
  ghost predicate Prepared(key: seq<Unit>, search: seq<Unit>, rows: seq<Row>, flags: seq<bool>) {
    key == Encoded(search) && flags == Wanting(rows, search)
  }

  /** The test of the script on one row, with the encoded search text and the stripped id. */
  method TestRow(rows: seq<Row>, i: nat, key: seq<Unit>, ghost search: seq<Unit>, ghost flags: seq<bool>)
    returns (hit: bool)
    requires i < |rows| == |flags| && Prepared(key, search, rows, flags)
    ensures hit == flags[i]
  {
    var name := Stripped(rows[i].id);
    hit := rows[i].isResult && |key| <= |name| && name[..|key|] == key;
  }

  /** The loop of Search over the rows of the page, with a search text in lower case and without outer spaces. */
  method Search(search: seq<Unit>, rows: seq<Row>) returns (matches: nat)
    requires forall i, j :: 0 <= i < j < |rows| ==> rows[i] != rows[j]
    modifies rows
    ensures forall i :: 0 <= i < |rows| && rows[i].isResult ==>
      rows[i].display == (if Wanted(rows[i], search) then Block else Hidden)
    ensures forall i :: 0 <= i < |rows| && !rows[i].isResult ==> rows[i].display == old(rows[i].display)
    ensures matches == |WantedRows(rows, search)|
  {
    var key := ConvertToId(search);
    ghost var flags := Wanting(rows, search);
    matches := ShowRows(key, search, rows, flags);
    WantedAreSet(rows, search, flags);
  }

  method ShowRows(key: seq<Unit>, ghost search: seq<Unit>, rows: seq<Row>, ghost flags: seq<bool>)
    returns (matches: nat)
    requires forall i, j :: 0 <= i < j < |rows| ==> rows[i] != rows[j]
    requires |rows| == |flags| && Prepared(key, search, rows, flags)
    modifies rows
    ensures forall i :: 0 <= i < |rows| && rows[i].isResult ==>
      rows[i].display == (if flags[i] then Block else Hidden)
    ensures forall i :: 0 <= i < |rows| && !rows[i].isResult ==> rows[i].display == old(rows[i].display)
    ensures matches == |TrueIndices(flags, |rows|)|
  {
    matches := 0;
    var i := 0;
    while i < |rows|
      invariant 0 <= i <= |rows| && matches == |TrueIndices(flags, i)|
      invariant forall k :: 0 <= k < i && rows[k].isResult ==>
        rows[k].display == (if flags[k] then Block else Hidden)
      invariant forall k :: 0 <= k < |rows| && (k >= i || !rows[k].isResult) ==> rows[k].display == old(rows[k].display)
    {
      var row := rows[i];
      OneMoreFlag(flags, i);
      var hit := TestRow(rows, i, key, search, flags);
      if row.isResult {
        if hit {
          row.display := Block;
          matches := matches + 1;
        } else {
          row.display := Hidden;
        }
      }
      i := i + 1;
    }
  }

  /** On the rows of encoded names the test is exact: it holds for the names that start with the search text. */
  lemma SearchIsExact(search: seq<Unit>, digits: seq<Unit>, name: seq<Unit>)
    requires forall i :: 0 <= i < |digits| ==> Digit(digits[i])
    ensures Encoded(search) <= Stripped(RowId(digits, name)) <==> search <= name
  {
    StrippedRowId(digits, name);
    PrefixIffPrefix(search, name);
  }
}
