/** What a client gets out of the JSON text of an answer. Strings with escapes are not read. */
module JsonText {
  import opened Bytes
  import opened Decimal
  import opened Reading

  datatype Json = Str(s: string) | Num(n: int) | Obj(members: seq<Member>)

  datatype Member = Member(name: string, value: Json)

  datatype Value = Value(json: Json, rest: string)

  datatype Members = Members(members: seq<Member>, rest: string)

  predicate Unescaped(s: string) {
    '"' !in s && '\\' !in s
  }

  function ReadString(s: string): (r: Option<Value>)
    ensures r.Some? ==> |r.value.rest| < |s|
  {
    match ReadField(s, "\"", "\"")
    case None => None
    case Some(f) => if Unescaped(f.text) then Some(Value(Str(f.text), f.rest)) else None
  }

  predicate InNumber(c: char) {
    c == '-' || '0' <= c <= '9'
  }

  /** The first index from a given one on that is no part of a number. */
  function NumberEnd(s: string, from: nat): (n: nat)
    requires from <= |s|
    ensures from <= n <= |s| && (n < |s| ==> !InNumber(s[n]))
    ensures forall i :: from <= i < n ==> InNumber(s[i])
    decreases |s| - from
  {
    if from == |s| || !InNumber(s[from]) then from else NumberEnd(s, from + 1)
  }

  function ReadNumber(s: string): (r: Option<Value>)
    ensures r.Some? ==> |r.value.rest| < |s|
  {
    var n := NumberEnd(s, 0);
    var number := ParseInt(s[..n]);
    if n > 0 && number.Some? then Some(Value(Num(number.value), s[n..])) else None
  }

  function ReadValue(s: string): (r: Option<Value>)
    ensures r.Some? ==> |r.value.rest| < |s|
    decreases |s|
  {
    if s == "" then None
    else if s[0] == '"' then ReadString(s)
    else if s[0] == '{' then
      match ReadMembers(s[1..])
      case None => None
      case Some(m) => Some(Value(Obj(m.members), m.rest))
    else ReadNumber(s)
  }

  /** The members up to a closing brace. */
  function ReadMembers(s: string): (r: Option<Members>)
    ensures r.Some? ==> |r.value.rest| < |s|
    decreases |s|
  {
    match ReadField(s, "\"", "\": ")
    case None => None
    case Some(name) =>
      match ReadValue(name.rest)
      case None => None
      case Some(v) =>
        if "}" <= v.rest then Some(Members([Member(name.text, v.json)], v.rest[1..]))
        else if ", " <= v.rest then
          match ReadMembers(v.rest[2..])
          case None => None
          case Some(more) => Some(Members([Member(name.text, v.json)] + more.members, more.rest))
        else None
  }

  function ReadJson(s: string): Option<Json> {
    match ReadValue(s)
    case None => None
    case Some(v) => if v.rest == "" then Some(v.json) else None
  }

  lemma StringReadsBack(text: string, rest: string)
    requires Unescaped(text)
    ensures ReadValue("\"" + text + "\"" + rest) == Some(Value(Str(text), rest))
  {
    FieldReadsBack("\"", text, "\"", rest);
    assert ("\"" + text + "\"" + rest)[0] == '"';
  }

  lemma DigitsOnly(i: int)
    ensures forall k :: 0 <= k < |DecInt(i)| ==> InNumber(DecInt(i)[k])
  {
  }

  lemma NumberReadsBack(i: int, rest: string)
    requires rest != "" && !InNumber(rest[0])
    ensures ReadValue(DecInt(i) + rest) == Some(Value(Num(i), rest))
  {
    var s := DecInt(i) + rest;
    DigitsOnly(i);
    assert InNumber(DecInt(i)[0]) && s[0] == DecInt(i)[0];
    var n := NumberEnd(s, 0);
    assert s[|DecInt(i)|] == rest[0];
    assert forall k :: 0 <= k < |DecInt(i)| ==> s[k] == DecInt(i)[k];
    assert n == |DecInt(i)|;
    assert s[..n] == DecInt(i) && s[n..] == rest;
    ParseOfInt(i);
  }

  /** value is the text of a value when something that ends a member follows it. */
  ghost predicate IsValue(value: string, json: Json) {
    forall rest :: rest != "" && !InNumber(rest[0]) ==> ReadValue(value + rest) == Some(Value(json, rest))
  }

  lemma IsString(text: string)
    requires Unescaped(text)
    ensures IsValue("\"" + text + "\"", Str(text))
  {
    forall rest | rest != "" && !InNumber(rest[0])
      ensures ReadValue("\"" + text + "\"" + rest) == Some(Value(Str(text), rest))
    {
      StringReadsBack(text, rest);
    }
  }

  lemma IsNumber(i: int)
    ensures IsValue(DecInt(i), Num(i))
  {
    forall rest | rest != "" && !InNumber(rest[0]) ensures ReadValue(DecInt(i) + rest) == Some(Value(Num(i), rest)) {
      NumberReadsBack(i, rest);
    }
  }

  /** s is the text of members and the brace that closes them. */
  ghost predicate IsMembers(s: string, members: seq<Member>) {
    forall rest :: ReadMembers(s + rest) == Some(Members(members, rest))
  }

  lemma LastReads(t: string, name: string, v: string, json: Json, rest: string)
    requires ReadField(t, "\"", "\": ") == Some(Span(name, v)) && ReadValue(v) == Some(Value(json, "}" + rest))
    ensures ReadMembers(t) == Some(Members([Member(name, json)], rest))
  {
    assert ("}" + rest)[1..] == rest;
  }

  lemma RegroupedLast(a: string, name: string, b: string, value: string, c: string, rest: string)
    ensures a + name + b + value + c + rest == a + name + b + (value + (c + rest))
  {
  }

  lemma LastMember(name: string, value: string, json: Json)
    requires '"' !in name && IsValue(value, json)
    ensures IsMembers("\"" + name + "\": " + value + "}", [Member(name, json)])
  {
    forall rest
      ensures ReadMembers("\"" + name + "\": " + value + "}" + rest) == Some(Members([Member(name, json)], rest))
    {
      var more := "}" + rest;
      RegroupedLast("\"", name, "\": ", value, "}", rest);
      FieldReadsBack("\"", name, "\": ", value + more);
      assert more[0] == '}';
      LastReads("\"" + name + "\": " + value + "}" + rest, name, value + more, json, rest);
    }
  }

  lemma NextReads(t: string, name: string, v: string, json: Json, more: string, members: seq<Member>, rest: string)
    requires ReadField(t, "\"", "\": ") == Some(Span(name, v)) && ReadValue(v) == Some(Value(json, ", " + more))
    requires ReadMembers(more) == Some(Members(members, rest))
    ensures ReadMembers(t) == Some(Members([Member(name, json)] + members, rest))
  {
    assert (", " + more)[2..] == more && (", " + more)[0] == ',';
  }

  lemma Regrouped(a: string, name: string, b: string, value: string, c: string, s: string, rest: string)
    ensures a + name + b + value + c + s + rest == a + name + b + (value + (c + (s + rest)))
  {
  }

  lemma NextMember(name: string, value: string, json: Json, s: string, members: seq<Member>)
    requires '"' !in name && IsValue(value, json) && IsMembers(s, members)
    ensures IsMembers("\"" + name + "\": " + value + ", " + s, [Member(name, json)] + members)
  {
    forall rest
      ensures ReadMembers("\"" + name + "\": " + value + ", " + s + rest)
        == Some(Members([Member(name, json)] + members, rest))
    {
      var more := ", " + (s + rest);
      Regrouped("\"", name, "\": ", value, ", ", s, rest);
      FieldReadsBack("\"", name, "\": ", value + more);
      assert more[0] == ',';
      NextReads("\"" + name + "\": " + value + ", " + s + rest, name, value + more, json, s + rest, members, rest);
    }
  }

  lemma IsObject(s: string, members: seq<Member>)
    requires IsMembers(s, members)
    ensures IsValue("{" + s, Obj(members))
    ensures ReadJson("{" + s) == Some(Obj(members))
  {
    forall rest ensures ReadValue("{" + s + rest) == Some(Value(Obj(members), rest)) {
      assert ("{" + s + rest)[1..] == s + rest;
    }
    assert "{" + s + "" == "{" + s;
  }
}
