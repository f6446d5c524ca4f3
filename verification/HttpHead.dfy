/** HTTP heads as lines that end in CRLF, and a client that reads a message by its Content-Length. */
module HttpHead {
  import opened Bytes
  import opened Decimal
  import opened Reading

  predicate Line(s: string) {
    s != "" && '\r' !in s
  }

  function Joined(lines: seq<string>): string {
    if lines == [] then "" else lines[0] + "\r\n" + Joined(lines[1..])
  }

  function Head(lines: seq<string>): string {
    Joined(lines) + "\r\n"
  }

  /** The first CRLF, or -1. */
  function FindLineEnd(s: string): (r: int)
    ensures -1 <= r
    ensures r >= 0 ==> r + 2 <= |s|
  {
    if |s| < 2 then -1
    else if s[0] == '\r' && s[1] == '\n' then 0
    else var r := FindLineEnd(s[1..]); if r < 0 then -1 else r + 1
  }

  /** The value of the first field with the given name. */
  function Field(head: string, name: string): Option<string>
    decreases |head|
  {
    var e := FindLineEnd(head);
    if e < 0 then None
    else if |name| <= e && head[..|name|] == name then Some(head[|name|..e])
    else Field(head[e + 2..], name)
  }

  const CONTENT_LENGTH := "Content-Length: "

  /** The announced number of bytes from the front of a stream. */
  function Cut(stream: string, digits: string): Option<string> {
    var n := ParseDec(digits);
    if 0 <= n <= |stream| then Some(stream[..n]) else None
  }

  function ReadNamed(stream: string, name: string): Option<string> {
    var h := Find(stream);
    if h < 0 then None
    else
      match Field(stream[..h + 2], name)
      case None => None
      case Some(digits) => Cut(stream[h + 4..], digits)
  }

  /** What a client takes as the body of the first message of a stream. */
  function ReadBody(stream: string): Option<string> {
    ReadNamed(stream, CONTENT_LENGTH)
  }

  lemma {:induction false} LineEndOfLine(line: string, rest: string)
    requires '\r' !in line
    ensures FindLineEnd(line + "\r\n" + rest) == |line|
  {
    var s := line + "\r\n" + rest;
    if line == "" {
      assert s == "\r\n" + rest;
    } else {
      LineEndOfLine(line[1..], rest);
      assert s[1..] == line[1..] + "\r\n" + rest;
      assert s[0] == line[0];
    }
  }

  lemma FindShift(front: string, rest: string)
    requires forall i: nat :: i < |front| ==> !TerminatorAt(front + rest, i)
    requires Find(rest) >= 0
    ensures Find(front + rest) == |front| + Find(rest)
  {
    var r := Find(rest);
    assert TerminatorAt(front + rest, |front| + r);
    forall i: nat | i < |front| + r ensures !TerminatorAt(front + rest, i) {
      if |front| <= i {
        assert !TerminatorAt(rest, i - |front|);
      }
    }
  }

  lemma {:induction false} NotInHead(lines: seq<string>, c: char)
    requires c != '\r' && c != '\n' && forall i :: 0 <= i < |lines| ==> c !in lines[i]
    ensures c !in Head(lines)
  {
    if lines != [] {
      NotInHead(lines[1..], c);
      assert c !in Joined(lines[1..]) by {
        forall i | 0 <= i < |Joined(lines[1..])| ensures Joined(lines[1..])[i] != c {
          assert Head(lines[1..])[i] == Joined(lines[1..])[i];
        }
      }
    }
  }

  /** The first terminator of a message is the end of its head. */
  lemma {:induction false} FindOfHead(lines: seq<string>, body: string)
    requires lines != [] && forall i :: 0 <= i < |lines| ==> Line(lines[i])
    ensures |Joined(lines)| >= 2
    ensures Find(Head(lines) + body) == |Joined(lines)| - 2
  {
    var line, more := lines[0], lines[1..];
    var rest := Head(more) + body;
    var front := line + "\r\n";
    assert Head(lines) + body == front + rest;
    if more == [] {
      assert rest == "\r\n" + body;
      assert TerminatorAt(front + rest, |line|);
      forall i: nat | i < |line| ensures !TerminatorAt(front + rest, i) {
        assert (front + rest)[i] == line[i];
      }
      assert Joined(lines) == front;
    } else {
      FindOfHead(more, body);
      assert rest[0] == more[0][0];
      assert more[0][0] != '\r' by { assert Line(more[0]); }
      forall i: nat | i < |front| ensures !TerminatorAt(front + rest, i) {
        if i < |line| { assert (front + rest)[i] == line[i]; }
      }
      FindShift(front, rest);
    }
  }

  predicate Named(line: string, name: string) {
    |name| <= |line| && line[..|name|] == name
  }

  /** Looking a field up in the joined lines finds the first line that carries its name. */
  lemma {:induction false} FieldOfLines(lines: seq<string>, k: nat, name: string)
    requires k < |lines| && Named(lines[k], name)
    requires forall i :: 0 <= i < |lines| ==> Line(lines[i])
    requires forall i :: 0 <= i < k ==> !Named(lines[i], name)
    ensures Field(Joined(lines), name) == Some(lines[k][|name|..])
  {
    var line, rest := lines[0], Joined(lines[1..]);
    assert Line(line);
    LineEndOfLine(line, rest);
    assert Joined(lines)[..|line|] == line;
    if |name| <= |line| {
      assert Joined(lines)[..|name|] == line[..|name|];
      assert Joined(lines)[|name|..|line|] == line[|name|..];
    }
    if k > 0 {
      assert Joined(lines)[|line| + 2..] == rest;
      FieldOfLines(lines[1..], k - 1, name);
    }
  }

  /** Splitting a message at its first terminator gives back its lines and what follows them. */
  lemma SplitOfMessage(lines: seq<string>, rest: string)
    requires lines != [] && forall i :: 0 <= i < |lines| ==> Line(lines[i])
    ensures var stream, h := Head(lines) + rest, Find(Head(lines) + rest);
      h >= 0 && stream[..h + 2] == Joined(lines) && stream[h + 4..] == rest
  {
    FindOfHead(lines, rest);
    var front := Joined(lines);
    var stream := front + "\r\n" + rest;
    assert stream == Head(lines) + rest;
    assert Find(stream) == |front| - 2;
    SplitBehind(front, "\r\n", rest);
    assert stream[..|front|] == front;
    assert stream[|front| + 2..] == rest;
  }

  lemma SplitBehind(front: string, mark: string, rest: string)
    ensures (front + mark + rest)[..|front|] == front
    ensures (front + mark + rest)[|front| + |mark|..] == rest
  {
  }

  lemma NamedLine(name: string, value: string)
    ensures Named(name + value, name) && (name + value)[|name|..] == value
  {
  }

  lemma CutOf(body: string, more: string)
    ensures Cut(body + more, Dec(|body|)) == Some(body)
  {
    ParseOfDec(|body|);
  }

  /** A message whose k-th line carries its length under a name is read back exactly, whatever follows it. */
  lemma ReadNamedOfMessage(lines: seq<string>, k: nat, name: string, body: string, more: string)
    requires k < |lines| && lines[k] == name + Dec(|body|)
    requires forall i :: 0 <= i < |lines| ==> Line(lines[i])
    requires forall i :: 0 <= i < k ==> !Named(lines[i], name)
    ensures ReadNamed(Head(lines) + body + more, name) == Some(body)
  {
    var stream, rest := Head(lines) + body + more, body + more;
    assert stream == Head(lines) + rest;
    SplitOfMessage(lines, rest);
    FieldOfMessage(lines, k, name, Dec(|body|));
    ReadNamedFrom(stream, name, Joined(lines), rest, Dec(|body|));
    CutOf(body, more);
  }

  lemma FieldOfMessage(lines: seq<string>, k: nat, name: string, value: string)
    requires k < |lines| && lines[k] == name + value
    requires forall i :: 0 <= i < |lines| ==> Line(lines[i])
    requires forall i :: 0 <= i < k ==> !Named(lines[i], name)
    ensures Field(Joined(lines), name) == Some(value)
  {
    NamedLine(name, value);
    FieldOfLines(lines, k, name);
  }

  lemma ReadNamedFrom(stream: string, name: string, head: string, rest: string, digits: string)
    requires Find(stream) >= 0 && stream[..Find(stream) + 2] == head && stream[Find(stream) + 4..] == rest
    requires Field(head, name) == Some(digits)
    ensures ReadNamed(stream, name) == Cut(rest, digits)
  {
  }

  /** The message of a head with a Content-Length line. */
  lemma ReadBodyOfMessage(lines: seq<string>, k: nat, body: string, more: string)
    requires k < |lines| && lines[k] == CONTENT_LENGTH + Dec(|body|)
    requires forall i :: 0 <= i < |lines| ==> Line(lines[i])
    requires forall i :: 0 <= i < k ==> !Named(lines[i], CONTENT_LENGTH)
    ensures ReadBody(Head(lines) + body + more) == Some(body)
  {
    ReadNamedOfMessage(lines, k, CONTENT_LENGTH, body, more);
  }

  /** Text without CR around a number makes a line, and one that starts differently carries another name. */
  lemma NumberedLine(front: string, n: nat, back: string)
    requires Line(front) && '\r' !in back
    ensures Line(front + Dec(n) + back) && (front + Dec(n) + back)[0] == front[0]
  {
  }

  lemma ContentLengthLine(n: nat)
    ensures Line(CONTENT_LENGTH + Dec(n))
  {
    NumberedLine(CONTENT_LENGTH, n, "");
    assert CONTENT_LENGTH + Dec(n) + "" == CONTENT_LENGTH + Dec(n);
  }

  lemma OtherFirst(line: string)
    requires line != "" && line[0] != 'C'
    ensures !Named(line, CONTENT_LENGTH)
  {
    assert CONTENT_LENGTH[0] == 'C';
  }

  lemma OtherNinth(line: string)
    requires |line| > 8 && line[8] != 'L'
    ensures !Named(line, CONTENT_LENGTH)
  {
    assert CONTENT_LENGTH[8] == 'L';
    assert |CONTENT_LENGTH| <= |line| ==> line[..|CONTENT_LENGTH|][8] == line[8];
  }

  // ---------- what else a client reads from a head ----------

  datatype Status = Status(code: int, phrase: string)

  /** The number and the phrase of the status line at the front of a message. */
  function ReadStatus(wire: string): Option<Status> {
    match ReadField(wire, "HTTP/1.1 ", " ")
    case None => None
    case Some(digits) =>
      match ReadField(digits.rest, "", "\r\n")
      case None => None
      case Some(phrase) => Some(Status(ParseDec(digits.text), phrase.text))
  }

  lemma StatusReadsBack(code: nat, phrase: string, rest: string)
    requires '\r' !in phrase
    ensures ReadStatus("HTTP/1.1 " + Dec(code) + " " + phrase + "\r\n" + rest) == Some(Status(code, phrase))
  {
    var more := "" + phrase + "\r\n" + rest;
    assert "HTTP/1.1 " + Dec(code) + " " + phrase + "\r\n" + rest == "HTTP/1.1 " + Dec(code) + " " + more;
    FieldReadsBack("HTTP/1.1 ", Dec(code), " ", more);
    FieldReadsBack("", phrase, "\r\n", rest);
    ParseOfDec(code);
  }

  /** The status of a message is that of its first line. */
  lemma StatusOfHead(lines: seq<string>, code: nat, phrase: string, rest: string)
    requires lines != [] && lines[0] == "HTTP/1.1 " + Dec(code) + " " + phrase && '\r' !in phrase
    ensures ReadStatus(Head(lines) + rest) == Some(Status(code, phrase))
  {
    var more := Joined(lines[1..]) + "\r\n" + rest;
    assert Head(lines) + rest == lines[0] + "\r\n" + more;
    StatusReadsBack(code, phrase, more);
  }

  /** The value of a field in the head of a message. */
  function ReadHeadField(wire: string, name: string): Option<string> {
    var h := Find(wire);
    if h < 0 then None else Field(wire[..h + 2], name)
  }

  lemma HeadFieldReadsBack(lines: seq<string>, k: nat, name: string, value: string, rest: string)
    requires k < |lines| && lines[k] == name + value
    requires forall i :: 0 <= i < |lines| ==> Line(lines[i])
    requires forall i :: 0 <= i < k ==> !Named(lines[i], name)
    ensures ReadHeadField(Head(lines) + rest, name) == Some(value)
  {
    SplitOfMessage(lines, rest);
    FieldOfMessage(lines, k, name, value);
  }

  /** A line that differs from a name at some place carries another name. */
  lemma OtherAt(line: string, name: string, k: nat)
    requires k < |line| && k < |name| && line[k] != name[k]
    ensures !Named(line, name)
  {
    assert |name| <= |line| ==> line[..|name|][k] == line[k];
  }
}
