/** How an HTML page is sent: two loops over partial sends, and what arrives at the client. */
module HtmlServer {
  import opened Bytes
  import opened Decimal
  import opened HttpHead

  /** One turn of a send loop: the poll, and if the socket is writable what send or sendfile returned. */
  datatype Io = HungUp | NotReady | TimedOut | PollFailed | Moved(n: nat) | Again | Failed

  /** page is what the file holds when the turn reads it. */
  datatype Turn = Turn(io: Io, page: string)

  /** OutOfBuffer stands for a send that starts in front of the head. */
  datatype Result = Returned | Threw | OutOfBuffer | Starved

  /** The turns in which send or sendfile reported EAGAIN; the code then moves its counter back by one. */
  function Agains(turns: seq<Turn>): nat {
    if turns == [] then 0 else Agains(turns[..|turns| - 1]) + (if turns[|turns| - 1].io.Again? then 1 else 0)
  }

  lemma AgainsOfNext(turns: seq<Turn>, k: nat)
    requires k < |turns|
    ensures Agains(turns[..k + 1]) == Agains(turns[..k]) + (if turns[k].io.Again? then 1 else 0)
  {
    assert turns[..k + 1][..k] == turns[..k];
  }

  function Min(a: int, b: int): int {
    if a < b then a else b
  }

  /** Every turn finds the socket writable and moves at least one byte. */
  ghost predicate Flowing(turns: seq<Turn>) {
    forall i :: 0 <= i < |turns| ==> turns[i].io.Moved? && turns[i].io.n > 0
  }

  /** The first loop told on its input alone: the result, the bytes on the wire, and the number of turns used. */
  function Sending(data: string, turns: seq<Turn>, sent: int, wire: string, used: nat): (r: (Result, string, nat))
    requires -1 <= sent <= |data| && used <= |turns|
    ensures used <= r.2 <= |turns|
    decreases |turns| - used
  {
    if sent == |data| then (Returned, wire, used)
    else if used == |turns| then (Starved, wire, used)
    else
      match turns[used].io
      case NotReady => Sending(data, turns, sent, wire, used + 1)
      case Again =>
        if sent < 0 then (OutOfBuffer, wire, used + 1) else Sending(data, turns, sent - 1, wire, used + 1)
      case Moved(n) =>
        if sent < 0 then (OutOfBuffer, wire, used + 1)
        else
          var m := Min(n, |data| - sent);
          if m == 0 then (Threw, wire, used + 1)
          else Sending(data, turns, sent + m, wire + data[sent..sent + m], used + 1)
      case _ => (Threw, wire, used + 1)
  }

  function BytesRun(data: string, turns: seq<Turn>): (r: (Result, string, nat))
    ensures r.2 <= |turns|
  {
    Sending(data, turns, 0, "", 0)
  }

  /** No turn that the first loop used reported EAGAIN. */
  predicate BytesOnce(data: string, turns: seq<Turn>) {
    Agains(turns[..BytesRun(data, turns).2]) == 0
  }

  /**
   * The first loop, which the JSON-RPC server repeats for its responses. A normal end has put the
   * bytes on the wire exactly, unless a turn reported EAGAIN: each such turn repeats one byte.
   */
  method SendBytes(data: string, turns: seq<Turn>) returns (result: Result, wire: string, used: nat)
    ensures (result, wire, used) == BytesRun(data, turns)
    ensures used <= |turns|
    ensures result == Returned ==> |wire| == |data| + Agains(turns[..used])
    ensures result == Returned ==> (wire == data <==> Agains(turns[..used]) == 0)
    ensures forall c :: c in wire ==> c in data
    ensures Flowing(turns) && |turns| >= |data| ==> result == Returned && used <= |data|
  {
    var sent := 0;
    wire, used := "", 0;
    while sent < |data|
      invariant -1 <= sent <= |data| && used <= |turns|
      invariant |wire| == sent + Agains(turns[..used])
      invariant Agains(turns[..used]) == 0 ==> sent >= 0 && wire == data[..sent]
      invariant BytesRun(data, turns) == Sending(data, turns, sent, wire, used)
      invariant forall c :: c in wire ==> c in data
      invariant Flowing(turns) ==> used <= sent
      decreases |turns| - used
    {
      if used == |turns| {
        return Starved, wire, used;
      }
      var io := turns[used].io;
      AgainsOfNext(turns, used);
      used := used + 1;
      match io {
        case HungUp => return Threw, wire, used;
        case TimedOut => return Threw, wire, used;
        case PollFailed => return Threw, wire, used;
        case Failed => return Threw, wire, used;
        case NotReady =>
        case Again =>
          if sent < 0 { return OutOfBuffer, wire, used; }
          sent := sent - 1;
        case Moved(n) =>
          if sent < 0 { return OutOfBuffer, wire, used; }
          var m := Min(n, |data| - sent);
          if m == 0 { return Threw, wire, used; }
          wire := wire + data[sent..sent + m];
          sent := sent + m;
      }
    }
    result := Returned;
  }

  /** Every turn saw the same page. */
  ghost predicate SamePage(turns: seq<Turn>, page: string) {
    forall i :: 0 <= i < |turns| ==> turns[i].page == page
  }

  /** The second loop told on its input alone; offset is the position of the file, which EAGAIN does not move. */
  function Filing(len: nat, turns: seq<Turn>, sent: int, offset: nat, wire: string, used: nat)
    : (r: (Result, string, nat))
    requires used <= |turns| && sent <= len
    ensures used <= r.2 <= |turns|
    decreases |turns| - used
  {
    if !(0 <= sent < len) then (Returned, wire, used)
    else if used == |turns| then (Starved, wire, used)
    else
      match turns[used].io
      case NotReady => Filing(len, turns, sent, offset, wire, used + 1)
      case Again => Filing(len, turns, sent - 1, offset, wire, used + 1)
      case Moved(n) =>
        var page := turns[used].page;
        var m := Min(n, Min(len - sent, |page| - offset));
        if m <= 0 then (Threw, wire, used + 1)
        else Filing(len, turns, sent + m, offset + m, wire + page[offset..offset + m], used + 1)
      case _ => (Threw, wire, used + 1)
  }

  function FileRun(len: nat, turns: seq<Turn>): (r: (Result, string, nat))
    ensures r.2 <= |turns|
  {
    Filing(len, turns, 0, 0, "", 0)
  }

  /** The number of EAGAIN turns of the second loop that leaves the file intact on the wire. */
  predicate FileOnce(len: nat, turns: seq<Turn>) {
    var again := Agains(turns[..FileRun(len, turns).2]);
    again == 0 || again == len + 1
  }

  /** Where a run of the second loop stands while the file keeps one content. */
  ghost predicate MidFile(turns: seq<Turn>, page: string, sent: int, offset: nat, wire: string, used: nat) {
    && SamePage(turns, page) && used <= |turns|
    && -1 <= sent && offset <= |page| && wire == page[..offset] && offset == sent + Agains(turns[..used])
  }

  /** What the end of a run says about the bytes on the wire. */
  ghost predicate FileEnd(turns: seq<Turn>, page: string, end: (Result, string, nat)) {
    && end.0 != OutOfBuffer && end.2 <= |turns|
    && (end.0 == Returned ==>
      (end.1 == page <==> Agains(turns[..end.2]) == 0 || Agains(turns[..end.2]) == |page| + 1))
  }

  lemma MidFileEnds(turns: seq<Turn>, page: string, sent: int, offset: nat, wire: string, used: nat)
    requires MidFile(turns, page, sent, offset, wire, used) && (sent == |page| || sent == -1)
    ensures FileEnd(turns, page, (Returned, wire, used))
  {
    assert wire == page <==> offset == |page|;
  }

  lemma MidFileMoves(turns: seq<Turn>, page: string, sent: int, offset: nat, wire: string, used: nat, m: nat)
    requires MidFile(turns, page, sent, offset, wire, used) && used < |turns| && turns[used].io.Moved?
    requires offset + m <= |page|
    ensures MidFile(turns, page, sent + m, offset + m, wire + page[offset..offset + m], used + 1)
  {
    AgainsOfNext(turns, used);
    assert page[..offset] + page[offset..offset + m] == page[..offset + m];
  }

  lemma {:induction false} FilingExact(
      turns: seq<Turn>, page: string, sent: int, offset: nat, wire: string, used: nat)
    requires MidFile(turns, page, sent, offset, wire, used) && sent <= |page|
    ensures FileEnd(turns, page, Filing(|page|, turns, sent, offset, wire, used))
    decreases |turns| - used
  {
    if !(0 <= sent < |page|) {
      MidFileEnds(turns, page, sent, offset, wire, used);
    } else if used < |turns| {
      AgainsOfNext(turns, used);
      assert turns[used].page == page;
      match turns[used].io {
        case NotReady => FilingExact(turns, page, sent, offset, wire, used + 1);
        case Again => FilingExact(turns, page, sent - 1, offset, wire, used + 1);
        case Moved(n) =>
          var m := Min(n, Min(|page| - sent, |page| - offset));
          if m > 0 {
            MidFileMoves(turns, page, sent, offset, wire, used, m);
            FilingExact(turns, page, sent + m, offset + m, wire + page[offset..offset + m], used + 1);
          }
        case _ =>
      }
    }
  }

  lemma {:induction false} FilingFlows(turns: seq<Turn>, page: string, sent: nat, wire: string, used: nat)
    requires SamePage(turns, page) && Flowing(turns) && used <= sent <= |page| <= |turns|
    ensures Filing(|page|, turns, sent, sent, wire, used).0 == Returned
    decreases |turns| - used
  {
    if sent < |page| {
      var m := Min(turns[used].io.n, |page| - sent);
      assert turns[used].page == page;
      FilingFlows(turns, page, sent + m, wire + page[sent..sent + m], used + 1);
    }
  }

  /**
   * The second loop. The counter is signed and the length is not, so a counter of -1 ends the
   * loop too. While the file keeps one content of the announced length, a normal end has sent all
   * of it exactly when no turn reported EAGAIN, or one more than the page has bytes.
   */
  method SendFile(len: nat, turns: seq<Turn>, ghost page: string) returns (result: Result, wire: string, used: nat)
    ensures (result, wire, used) == FileRun(len, turns)
    ensures used <= |turns| && result != OutOfBuffer
    ensures len == 0 ==> result == Returned && wire == ""
    ensures SamePage(turns, page) && |page| == len && result == Returned ==>
      (wire == page <==> Agains(turns[..used]) == 0 || Agains(turns[..used]) == len + 1)
    ensures SamePage(turns, page) && |page| == len && Flowing(turns) && |turns| >= len ==> result == Returned
  {
    var sent, offset := 0, 0;
    wire, used := "", 0;
    if SamePage(turns, page) && |page| == len {
      FilingExact(turns, page, 0, 0, "", 0);
      if Flowing(turns) && |turns| >= len {
        FilingFlows(turns, page, 0, "", 0);
      }
    }
    while 0 <= sent < len
      invariant sent <= len && used <= |turns| && 0 <= offset
      invariant len == 0 ==> wire == ""
      invariant FileRun(len, turns) == Filing(len, turns, sent, offset, wire, used)
      decreases |turns| - used
    {
      if used == |turns| {
        return Starved, wire, used;
      }
      var turn := turns[used];
      used := used + 1;
      match turn.io {
        case HungUp => return Threw, wire, used;
        case TimedOut => return Threw, wire, used;
        case PollFailed => return Threw, wire, used;
        case Failed => return Threw, wire, used;
        case NotReady =>
        case Again => sent := sent - 1;
        case Moved(n) =>
          var m := Min(n, Min(len - sent, |turn.page| - offset));
          if m <= 0 { return Threw, wire, used; }
          wire := wire + turn.page[offset..offset + m];
          sent, offset := sent + m, offset + m;
      }
    }
    result := Returned;
  }

  /** An input that repeats a byte: whatever the data, one EAGAIN after k bytes sends byte k - 1 again. */
  lemma AgainRepeatsByte(data: string, k: nat, page: string)
    requires 0 < k < |data|
    ensures var turns := [Turn(Moved(k), page), Turn(Again, page), Turn(Moved(|data|), page)];
      BytesRun(data, turns) == (Returned, data[..k] + data[k - 1..], 3)
  {
    var turns := [Turn(Moved(k), page), Turn(Again, page), Turn(Moved(|data|), page)];
    assert "" + data[0..k] == data[..k];
    assert Sending(data, turns, 0, "", 0) == Sending(data, turns, k, data[..k], 1);
    assert Sending(data, turns, k, data[..k], 1) == Sending(data, turns, k - 1, data[..k], 2);
    assert data[k - 1..|data|] == data[k - 1..];
    assert Sending(data, turns, k - 1, data[..k], 2) == Sending(data, turns, |data|, data[..k] + data[k - 1..], 3);
  }

  /** An input that loses a file: when the first turn reports EAGAIN, nothing of it is sent, and the end is normal. */
  lemma AgainLosesFile(len: nat, turns: seq<Turn>)
    requires len > 0 && turns != [] && turns[0].io == Again
    ensures FileRun(len, turns) == (Returned, "", 1)
  {
    assert Filing(len, turns, 0, 0, "", 0) == Filing(len, turns, -1, 0, "", 1);
  }

  datatype StatusCode = OK | BadRequest | NotFound | MethodNotAllowed | InternalServerError

  function Status(code: StatusCode): nat {
    match code
    case OK => 200
    case BadRequest => 400
    case NotFound => 404
    case MethodNotAllowed => 405
    case InternalServerError => 500
  }

  function ReasonPhrase(code: StatusCode): string {
    match code
    case OK => "OK"
    case BadRequest => "Bad Request"
    case NotFound => "Not Found"
    case MethodNotAllowed => "Method Not Allowed"
    case InternalServerError => "Internal Server Error"
  }

  function StatusLine(code: StatusCode): string {
    "HTTP/1.1 " + Dec(Status(code)) + " " + ReasonPhrase(code)
  }

  function Connection(close: bool): string {
    "Connection: " + (if close then "close" else "")
  }

  function PageHead(code: StatusCode, close: bool, len: nat): seq<string> {
    [StatusLine(code), "Version: HTTP/1.1", "Content-Type: text/html; charset=utf-8",
     CONTENT_LENGTH + Dec(len), Connection(close)]
  }

  lemma PhraseIsText(code: StatusCode)
    ensures '\r' !in ReasonPhrase(code)
  {
  }

  lemma StatusLineIsLine(code: StatusCode)
    ensures Line(StatusLine(code)) && StatusLine(code)[0] == 'H'
  {
    PhraseIsText(code);
    NumberedLine("HTTP/1.1 ", Status(code), " " + ReasonPhrase(code));
    assert StatusLine(code) == "HTTP/1.1 " + Dec(Status(code)) + (" " + ReasonPhrase(code));
  }

  lemma FixedLines(close: bool)
    ensures Line("Version: HTTP/1.1") && "Version: HTTP/1.1"[0] == 'V'
    ensures Line("Content-Type: text/html; charset=utf-8") && "Content-Type: text/html; charset=utf-8"[8] == 'T'
    ensures Line(Connection(close))
  {
  }

  lemma PageHeadLines(code: StatusCode, close: bool, len: nat)
    ensures var lines := PageHead(code, close, len);
      && (forall i :: 0 <= i < |lines| ==> Line(lines[i]))
      && (forall i :: 0 <= i < 3 ==> !Named(lines[i], CONTENT_LENGTH))
  {
    var lines := PageHead(code, close, len);
    StatusLineIsLine(code);
    FixedLines(close);
    ContentLengthLine(len);
    OtherFirst(lines[0]);
    OtherFirst(lines[1]);
    OtherNinth(lines[2]);
  }

  /** A client that splits at the first terminator and takes Content-Length bytes gets the page. */
  lemma PageMessageReadsBack(code: StatusCode, close: bool, page: string, more: string)
    ensures ReadBody(Head(PageHead(code, close, |page|)) + page + more) == Some(page)
  {
    PageHeadLines(code, close, |page|);
    ReadBodyOfMessage(PageHead(code, close, |page|), 3, page, more);
  }

  function ErrorHead(code: StatusCode, close: bool): seq<string> {
    [StatusLine(code), "Version: HTTP/1.1", Connection(close)]
  }

  const HEAD_BUFFER := 512

  /** The head fits its buffer for every length a size_t holds, so snprintf never cuts it. */
  lemma PageHeadFits(code: StatusCode, close: bool, len: nat)
    requires len < 0x1_0000_0000_0000_0000
    ensures |Head(PageHead(code, close, len))| < HEAD_BUFFER
  {
    assert Pow10(5) == 100_000;
    Pow10Add(5, 5);
    Pow10Add(10, 10);
    DecLength(len, 20);
    StatusLineLength(code);
    var lines := PageHead(code, close, len);
    assert |lines[0]| <= 35 && |lines[1]| == 17 && |lines[2]| == 38 && |lines[3]| <= 36 && |lines[4]| <= 17;
    assert |Joined(lines[4..])| == |lines[4]| + 2;
    assert |Joined(lines[3..])| == |lines[3]| + 2 + |Joined(lines[4..])| by { assert lines[3..][1..] == lines[4..]; }
    assert |Joined(lines[2..])| == |lines[2]| + 2 + |Joined(lines[3..])| by { assert lines[2..][1..] == lines[3..]; }
    assert |Joined(lines[1..])| == |lines[1]| + 2 + |Joined(lines[2..])| by { assert lines[1..][1..] == lines[2..]; }
  }

  lemma StatusLineLength(code: StatusCode)
    ensures |StatusLine(code)| <= 35
  {
    assert Pow10(3) == 1000;
    DecLength(Status(code), 3);
  }

  ghost predicate NoAgain(turns: seq<Turn>) {
    forall i :: 0 <= i < |turns| ==> !turns[i].io.Again?
  }

  lemma {:induction false} NoAgains(turns: seq<Turn>)
    requires NoAgain(turns)
    ensures Agains(turns) == 0
  {
    if turns != [] {
      NoAgains(turns[..|turns| - 1]);
    }
  }

  function MessageRun(head: string, len: nat, turns: seq<Turn>): (Result, string) {
    var (result, wire, used) := BytesRun(head, turns);
    if result != Returned then (result, wire)
    else
      var (end, tail, _) := FileRun(len, turns[used..]);
      (end, wire + tail)
  }

  /** The EAGAIN turns that both loops used leave the message intact. */
  predicate MessageOnce(head: string, len: nat, turns: seq<Turn>) {
    BytesOnce(head, turns) && FileOnce(len, turns[BytesRun(head, turns).2..])
  }

  lemma NoAgainOnce(head: string, len: nat, turns: seq<Turn>)
    requires NoAgain(turns)
    ensures MessageOnce(head, len, turns)
  {
    var used := BytesRun(head, turns).2;
    NoAgains(turns[..used]);
    NoAgains(turns[used..][..FileRun(len, turns[used..]).2]);
  }

  /** The page cannot pass for a repetition of bytes of the head. */
  predicate Apart(head: string, page: string) {
    page == "" || page[0] !in head
  }

  lemma RepetitionShows(head: string, page: string, first: string, tail: string)
    requires |first| > |head| && (forall c :: c in first ==> c in head) && Apart(head, page)
    ensures first + tail != head + page
  {
    assert (first + tail)[|head|] == first[|head|];
    assert page != "" ==> (head + page)[|head|] == page[0];
  }

  lemma TailDecides(head: string, page: string, tail: string)
    ensures head + tail == head + page <==> tail == page
  {
    assert (head + tail)[|head|..] == tail;
    assert (head + page)[|head|..] == page;
  }

  /**
   * Both loops one after the other, for any head. A normal end has sent head and page exactly when
   * the EAGAIN turns leave the message intact; for that to be told from the joined bytes, the page
   * has to be apart from the head.
   */
  method SendMessage(head: string, len: nat, turns: seq<Turn>, ghost page: string)
    returns (result: Result, wire: string)
    ensures (result, wire) == MessageRun(head, len, turns)
    ensures result == Returned && len == 0 ==> (wire == head <==> MessageOnce(head, len, turns))
    ensures len == 0 && Flowing(turns) && |turns| >= |head| ==> result == Returned
    ensures result == Returned && len == |page| && SamePage(turns, page) ==>
      && (MessageOnce(head, len, turns) ==> wire == head + page)
      && (Apart(head, page) ==> (wire == head + page <==> MessageOnce(head, len, turns)))
    ensures len == |page| && SamePage(turns, page) && Flowing(turns) && |turns| >= |head| + len ==> result == Returned
  {
    var used;
    result, wire, used := SendBytes(head, turns);
    if result != Returned {
      return;
    }
    ghost var first := wire;
    var tail, more;
    result, tail, more := SendFile(len, turns[used..], page);
    wire := wire + tail;
    TailDecides(head, page, tail);
    if |first| > |head| && Apart(head, page) {
      RepetitionShows(head, page, first, tail);
    }
  }

  /**
   * An input that shows why: a page that starts like the end of the head takes the place of bytes
   * the first loop repeated and the second one lost.
   */
  lemma RepetitionPassesForPage(front: string)
    ensures var turns := [Turn(Moved(|front| + 2), "\r\n"), Turn(Again, "\r\n"), Turn(Again, "\r\n"),
                          Turn(Moved(4), "\r\n"), Turn(Again, "\r\n")];
      var head := front + "\r\n\r\n";
      MessageRun(head, 2, turns) == (Returned, head + "\r\n") && !MessageOnce(head, 2, turns)
  {
    var page := "\r\n";
    var turns := [Turn(Moved(|front| + 2), page), Turn(Again, page), Turn(Again, page),
                  Turn(Moved(4), page), Turn(Again, page)];
    var head, n := front + page + page, |front|;
    assert head == front + "\r\n\r\n";
    assert "" + head[0..n + 2] == front + page;
    assert Sending(head, turns, 0, "", 0) == Sending(head, turns, n + 2, front + page, 1);
    assert Sending(head, turns, n + 2, front + page, 1) == Sending(head, turns, n + 1, front + page, 2);
    assert Sending(head, turns, n + 1, front + page, 2) == Sending(head, turns, n, front + page, 3);
    assert head[n..n + 4] == page + page;
    assert (front + page) + (page + page) == head + page;
    assert Sending(head, turns, n, front + page, 3) == Sending(head, turns, n + 4, head + page, 4);
    assert BytesRun(head, turns) == (Returned, head + page, 4);
    AgainLosesFile(2, turns[4..]);
    assert (head + page) + "" == head + page;
    AgainsOfNext(turns, 0);
    AgainsOfNext(turns, 1);
    AgainsOfNext(turns, 2);
    AgainsOfNext(turns, 3);
  }

  /** The message that announces a page and carries it. */
  function PageMessage(code: StatusCode, close: bool, page: string): string {
    Head(PageHead(code, close, |page|)) + page
  }

  /** Every EAGAIN turn of an answer with a page leaves it intact. */
  predicate PageOnce(code: StatusCode, close: bool, len: nat, turns: seq<Turn>) {
    MessageOnce(Head(PageHead(code, close, len)), len, turns)
  }

  /** No head contains a markup character, so a page that starts with one is apart from it. */
  lemma PageIsApart(code: StatusCode, close: bool, page: string)
    requires page == "" || page[0] == '<'
    ensures Apart(Head(PageHead(code, close, |page|)), page)
  {
    var lines := PageHead(code, close, |page|);
    LinesWithoutMarkup(code, close, |page|);
    NotInHead(lines, '<');
  }

  lemma NumberedWithout(front: string, n: nat, back: string, c: char)
    requires c > '9' && c !in front && c !in back
    ensures c !in front + Dec(n) + back
  {
  }

  lemma JoinedWithout(a: string, b: string, c: string, d: string, x: char)
    requires x !in a && x !in b && x !in c && x !in d
    ensures x !in a + b + c + d
  {
  }

  lemma PhraseWithoutMarkup(code: StatusCode)
    ensures '<' !in ReasonPhrase(code)
  {
  }

  lemma StatusWithoutMarkup(code: StatusCode)
    ensures '<' !in StatusLine(code)
  {
    PhraseWithoutMarkup(code);
    JoinedWithout("HTTP/1.1 ", Dec(Status(code)), " ", ReasonPhrase(code), '<');
  }

  lemma FixedWithoutMarkup(close: bool)
    ensures '<' !in "Version: HTTP/1.1" && '<' !in "Content-Type: text/html; charset=utf-8" && '<' !in Connection(close)
  {
  }

  lemma LengthWithoutMarkup(len: nat)
    ensures '<' !in CONTENT_LENGTH + Dec(len)
  {
    NumberedWithout(CONTENT_LENGTH, len, "", '<');
    assert CONTENT_LENGTH + Dec(len) + "" == CONTENT_LENGTH + Dec(len);
  }

  lemma LinesWithoutMarkup(code: StatusCode, close: bool, len: nat)
    ensures forall i :: 0 <= i < |PageHead(code, close, len)| ==> '<' !in PageHead(code, close, len)[i]
  {
    StatusWithoutMarkup(code);
    FixedWithoutMarkup(close);
    LengthWithoutMarkup(len);
  }

  // ---------- what a client reads from a head ----------

  const CONNECTION := "Connection: "

  lemma FieldNames()
    ensures CONNECTION[3] == 'n' && |CONNECTION| == 12
    ensures CONTENT_LENGTH[3] == 't' && "Content-Type: text/html; charset=utf-8"[3] == 't'
  {
  }

  lemma StatusLineStarts(code: StatusCode)
    ensures StatusLine(code) == "HTTP/1.1 " + Dec(Status(code)) + " " + ReasonPhrase(code)
  {
  }

  lemma ConnectionLine(close: bool)
    ensures Connection(close) == CONNECTION + (if close then "close" else "")
  {
  }

  lemma ConnectionOfPage(code: StatusCode, close: bool, len: nat, rest: string)
    ensures ReadHeadField(Head(PageHead(code, close, len)) + rest, CONNECTION) == Some(if close then "close" else "")
  {
    var lines := PageHead(code, close, len);
    PageHeadLines(code, close, len);
    StatusLineIsLine(code);
    FixedLines(close);
    FieldNames();
    OtherAt(lines[0], CONNECTION, 0);
    OtherAt(lines[1], CONNECTION, 0);
    OtherAt(lines[2], CONNECTION, 3);
    OtherAt(lines[3], CONNECTION, 3);
    ConnectionLine(close);
    HeadFieldReadsBack(lines, 4, CONNECTION, if close then "close" else "", rest);
  }

  lemma ConnectionOfError(code: StatusCode, close: bool, rest: string)
    ensures ReadHeadField(Head(ErrorHead(code, close)) + rest, CONNECTION) == Some(if close then "close" else "")
  {
    var lines := ErrorHead(code, close);
    StatusLineIsLine(code);
    FixedLines(close);
    OtherAt(lines[0], CONNECTION, 0);
    OtherAt(lines[1], CONNECTION, 0);
    ConnectionLine(close);
    HeadFieldReadsBack(lines, 2, CONNECTION, if close then "close" else "", rest);
  }

  lemma TypeAndVersion()
    ensures "Version: " + "HTTP/1.1" == "Version: HTTP/1.1" && "Version: "[0] == 'V'
    ensures "Content-Type: " + "text/html; charset=utf-8" == "Content-Type: text/html; charset=utf-8"
    ensures "Content-Type: "[0] == 'C'
  {
  }

  /** A client finds the version and the media type of a page. */
  lemma PageFieldsReadBack(code: StatusCode, close: bool, len: nat, rest: string)
    ensures ReadHeadField(Head(PageHead(code, close, len)) + rest, "Version: ") == Some("HTTP/1.1")
    ensures ReadHeadField(Head(PageHead(code, close, len)) + rest, "Content-Type: ") == Some("text/html; charset=utf-8")
  {
    var lines := PageHead(code, close, len);
    PageHeadLines(code, close, len);
    StatusLineIsLine(code);
    TypeAndVersion();
    OtherAt(lines[0], "Version: ", 0);
    HeadFieldReadsBack(lines, 1, "Version: ", "HTTP/1.1", rest);
    OtherAt(lines[0], "Content-Type: ", 0);
    OtherAt(lines[1], "Content-Type: ", 0);
    HeadFieldReadsBack(lines, 2, "Content-Type: ", "text/html; charset=utf-8", rest);
  }

  /** The status line a client has to find for each code. */
  ghost predicate Announces(wire: string, code: StatusCode) {
    match code
    case OK => ReadStatus(wire) == Some(HttpHead.Status(200, "OK"))
    case BadRequest => ReadStatus(wire) == Some(HttpHead.Status(400, "Bad Request"))
    case NotFound => ReadStatus(wire) == Some(HttpHead.Status(404, "Not Found"))
    case MethodNotAllowed => ReadStatus(wire) == Some(HttpHead.Status(405, "Method Not Allowed"))
    case InternalServerError => ReadStatus(wire) == Some(HttpHead.Status(500, "Internal Server Error"))
  }

  /** Both kinds of head announce their code. */
  lemma StatusReadsBack(code: StatusCode, close: bool, len: nat, rest: string)
    ensures Announces(Head(PageHead(code, close, len)) + rest, code)
    ensures Announces(Head(ErrorHead(code, close)) + rest, code)
  {
    PhraseIsText(code);
    StatusLineStarts(code);
    StatusOfHead(PageHead(code, close, len), Status(code), ReasonPhrase(code), rest);
    StatusOfHead(ErrorHead(code, close), Status(code), ReasonPhrase(code), rest);
  }

  /** A client reads the code of the answer, and whether the connection is to be closed. */
  ghost predicate ReadsHead(wire: string, code: StatusCode, close: bool) {
    Announces(wire, code) && ReadHeadField(wire, CONNECTION) == Some(if close then "close" else "")
  }

  lemma MessageHeadReadsBack(code: StatusCode, close: bool, page: string)
    ensures ReadsHead(PageMessage(code, close, page), code, close)
    ensures ReadsHead(Head(ErrorHead(code, close)), code, close)
  {
    StatusReadsBack(code, close, |page|, page);
    StatusReadsBack(code, close, |page|, "");
    ConnectionOfPage(code, close, |page|, page);
    ConnectionOfError(code, close, "");
    assert Head(ErrorHead(code, close)) + "" == Head(ErrorHead(code, close));
  }

  /** sendResponse; file is None for an error answer, which has no body. */
  method SendResponse(code: StatusCode, close: bool, file: Option<nat>, turns: seq<Turn>, ghost page: string)
    returns (result: Result, wire: string)
    ensures result == Returned && file.None? ==>
      (wire == Head(ErrorHead(code, close)) <==> BytesOnce(Head(ErrorHead(code, close)), turns))
    ensures file.None? && Flowing(turns) && |turns| >= |Head(ErrorHead(code, close))| ==>
      result == Returned && wire == Head(ErrorHead(code, close))
    ensures result == Returned && file == Some(|page|) && SamePage(turns, page) ==>
      && (PageOnce(code, close, |page|, turns) ==>
           wire == PageMessage(code, close, page) && ReadBody(wire) == Some(page))
      && (page == "" || page[0] == '<' ==>
           (wire == PageMessage(code, close, page) <==> PageOnce(code, close, |page|, turns)))
    ensures ReadsHead(PageMessage(code, close, page), code, close)
    ensures ReadsHead(Head(ErrorHead(code, close)), code, close)
    ensures NoAgain(turns) && file == Some(|page|) ==> PageOnce(code, close, |page|, turns)
    ensures (file == Some(|page|) && SamePage(turns, page) && Flowing(turns)
        && |turns| >= |PageMessage(code, close, page)|) ==>
      result == Returned
  {
    MessageHeadReadsBack(code, close, page);
    match file {
      case None => result, wire := SendErrorHead(Head(ErrorHead(code, close)), turns);
      case Some(len) => result, wire := SendPage(code, close, len, turns, page);
    }
  }

  method SendPage(code: StatusCode, close: bool, len: nat, turns: seq<Turn>, ghost page: string)
    returns (result: Result, wire: string)
    ensures result == Returned && len == |page| && SamePage(turns, page) ==>
      && (PageOnce(code, close, len, turns) ==> wire == PageMessage(code, close, page) && ReadBody(wire) == Some(page))
      && (page == "" || page[0] == '<' ==>
           (wire == PageMessage(code, close, page) <==> PageOnce(code, close, len, turns)))
    ensures NoAgain(turns) ==> PageOnce(code, close, len, turns)
    ensures (len == |page| && SamePage(turns, page) && Flowing(turns)
        && |turns| >= |PageMessage(code, close, page)|) ==>
      result == Returned
  {
    if NoAgain(turns) {
      NoAgainOnce(Head(PageHead(code, close, len)), len, turns);
    }
    result, wire := SendMessage(Head(PageHead(code, close, len)), len, turns, page);
    if page == "" || page[0] == '<' {
      PageIsApart(code, close, page);
    }
    PageMessageReadsBack(code, close, page, "");
    assert PageMessage(code, close, page) + "" == PageMessage(code, close, page);
  }

  method SendErrorHead(head: string, turns: seq<Turn>) returns (result: Result, wire: string)
    ensures (result, wire) == MessageRun(head, 0, turns)
    ensures result == Returned ==> (wire == head <==> BytesOnce(head, turns))
    ensures NoAgain(turns) ==> BytesOnce(head, turns)
    ensures Flowing(turns) && |turns| >= |head| ==> result == Returned && wire == head
  {
    if NoAgain(turns) {
      NoAgainOnce(head, 0, turns);
    }
    result, wire := SendMessage(head, 0, turns, "");
    assert FileOnce(0, turns[BytesRun(head, turns).2..]);
  }
}
