/**
 * How the JSON-RPC server receives a request: the header loop, the hand-off to the body loop, and
 * the body it passes on. The socket is a byte stream; what recv and poll do each round is given.
 */
module JsonReceive {
  import opened Bytes
  import opened RecvBuffer

  /** Ready(n): at most n bytes are there to be received. */
  datatype Recv = Ready(size: nat) | PeerClosed | WouldBlock | Failed

  datatype Poll = Readable | HungUp | TimedOut | PollFailed

  /** What the regular expressions make of the text so far; Post carries the declared Content-Length. */
  datatype Match = NoMatch | Post(length: nat) | Answered

  datatype Round = Round(recv: Recv, found: Match, poll: Poll)

  /** OutOfBuffer stands for an access outside the array; Starved for rounds that have run out. */
  datatype Outcome = HandOff(length: nat) | Body(bytes: string) | Ended | OutOfBuffer | Starved

  /** The number of bytes one recv call delivers. */
  function Delivered(recv: Recv, want: nat, left: nat): (n: nat)
    ensures n <= want && n <= left
  {
    if !recv.Ready? then 0
    else if recv.size <= want && recv.size <= left then recv.size
    else if want <= left then want else left
  }

  /** The buffer holds the first n bytes of the stream and zeros behind them. */
  ghost predicate Holds(mem: string, stream: string, n: nat) {
    n <= |mem| && n <= |stream| && mem[..n] == stream[..n] && AllZeroFrom(mem, n)
  }

  ghost predicate AllZeroFrom(mem: string, n: nat) {
    forall i :: n <= i < |mem| ==> mem[i] == '\0'
  }

  lemma PositionOfHeld(mem: string, stream: string, n: nat)
    requires NulFree(stream) && Holds(mem, stream, n)
    ensures StrnLen(mem) == n && CStr(mem) == stream[..n]
  {
    forall i | 0 <= i < n ensures mem[..n][i] != '\0' {
      assert stream[..n][i] == stream[i];
    }
    StrnLenOfPadded(mem, n);
  }

  /** recv into the buffer at its position. */
  method Store(buffer: HttpRecvBuffer, chunk: string)
    requires buffer.Position() + |chunk| <= buffer.mem.Length
    modifies buffer.mem
    ensures var p := old(buffer.Position());
      buffer.mem[..] == old(buffer.mem[..])[..p] + chunk + old(buffer.mem[..])[p + |chunk|..]
  {
    var p := buffer.Position();
    var i := 0;
    while i < |chunk|
      invariant 0 <= i <= |chunk|
      invariant forall k :: 0 <= k < i ==> buffer.mem[p + k] == chunk[k]
      invariant forall k :: 0 <= k < p || p + i <= k < buffer.mem.Length ==> buffer.mem[k] == old(buffer.mem[k])
    {
      buffer.mem[p + i] := chunk[i];
      i := i + 1;
    }
    ghost var before, q := old(buffer.mem[..]), p + |chunk|;
    assert buffer.mem[..p] == before[..p];
    assert buffer.mem[p..q] == chunk;
    assert buffer.mem[q..] == before[q..];
    assert buffer.mem[..] == buffer.mem[..p] + buffer.mem[p..q] + buffer.mem[q..];
  }

  lemma HoldsMore(before: string, after: string, stream: string, n: nat, k: nat)
    requires NulFree(stream) && Holds(before, stream, n) && n + k <= |before| && n + k <= |stream|
    requires after == before[..n] + stream[n..n + k] + before[n + k..]
    ensures Holds(after, stream, n + k)
  {
    assert after[..n + k] == before[..n] + stream[n..n + k];
    assert stream[..n] + stream[n..n + k] == stream[..n + k];
  }

  lemma PositionBound(mem: string, n: nat)
    requires n <= |mem| && AllZeroFrom(mem, n)
    ensures StrnLen(mem) <= n
  {
    assert n < |mem| ==> mem[n] == '\0';
  }

  lemma ZeroBehind(before: string, chunk: string, p: nat, n: nat)
    requires p <= n && n + |chunk| <= |before| && AllZeroFrom(before, n)
    ensures AllZeroFrom(before[..p] + chunk + before[p + |chunk|..], n + |chunk|)
  {
    var after := before[..p] + chunk + before[p + |chunk|..];
    forall i | n + |chunk| <= i < |after| ensures after[i] == '\0' {
      assert after[i] == before[i];
    }
  }

  /** One recv of the header loop, which asks for no more than the unreceived part of the array. */
  method ReceiveInside(buffer: HttpRecvBuffer, stream: string, received: nat, ret: nat)
    requires received + ret <= buffer.mem.Length && received + ret <= |stream|
    requires AllZeroFrom(buffer.mem[..], received)
    modifies buffer.mem
    ensures AllZeroFrom(buffer.mem[..], received + ret)
    ensures NulFree(stream) && Holds(old(buffer.mem[..]), stream, received) ==>
      Holds(buffer.mem[..], stream, received + ret)
  {
    ghost var before := buffer.mem[..];
    PositionBound(before, received);
    Store(buffer, stream[received..received + ret]);
    ZeroBehind(before, stream[received..received + ret], StrnLen(before), received);
    if NulFree(stream) && Holds(before, stream, received) {
      PositionOfHeld(before, stream, received);
      HoldsMore(before, buffer.mem[..], stream, received, ret);
    }
  }

  /**
   * The header loop told on the stream alone: the first round that is done, with what it leads to,
   * the number of bytes received by then and the number of rounds.
   */
  function HeaderRun(size: nat, stream: string, received: nat, rounds: seq<Round>, i: nat): (Outcome, nat, nat)
    requires received <= size && received <= |stream| && i <= |rounds|
    decreases |rounds| - i
  {
    if i == |rounds| then (Starved, received, i)
    else
      var round := rounds[i];
      var ret := Delivered(round.recv, size - received, |stream| - received);
      var n := received + ret;
      if round.recv.Failed? || round.recv.PeerClosed? || (round.recv.Ready? && ret == 0) then (Ended, received, i + 1)
      else if round.recv.Ready? && round.found.Answered? then (Ended, n, i + 1)
      else if round.recv.Ready? && round.found.Post? && Find(stream[..n]) >= 0
      then (HandOff(round.found.length), n, i + 1)
      else if !round.poll.Readable? then (Ended, n, i + 1)
      else HeaderRun(size, stream, n, rounds, i + 1)
  }

  /** The bytes received in the first i rounds when nothing has ended the loop. */
  function Arrived(size: nat, stream: string, rounds: seq<Round>, i: nat): (n: nat)
    requires i <= |rounds|
    ensures n <= size && n <= |stream|
  {
    if i == 0 then 0
    else
      var before := Arrived(size, stream, rounds, i - 1);
      before + Delivered(rounds[i - 1].recv, size - before, |stream| - before)
  }

  /** The bytes that round i delivers. */
  function Brought(size: nat, stream: string, rounds: seq<Round>, i: nat): (n: nat)
    requires i < |rounds|
    ensures Arrived(size, stream, rounds, i) + n == Arrived(size, stream, rounds, i + 1)
  {
    var before := Arrived(size, stream, rounds, i);
    Delivered(rounds[i].recv, size - before, |stream| - before)
  }

  /** Round i matches a POST, with a length, on a text that holds a terminator. */
  predicate Matches(size: nat, stream: string, rounds: seq<Round>, i: nat)
    requires i < |rounds|
  {
    && Brought(size, stream, rounds, i) > 0
    && rounds[i].found.Post?
    && Find(stream[..Arrived(size, stream, rounds, i + 1)]) >= 0
  }

  /** Round i ends the loop without a hand-off. */
  predicate Stops(size: nat, stream: string, rounds: seq<Round>, i: nat)
    requires i < |rounds|
  {
    var round := rounds[i];
    || round.recv.Failed? || round.recv.PeerClosed?
    || (round.recv.Ready? && (Brought(size, stream, rounds, i) == 0 || round.found.Answered?))
    || !round.poll.Readable?
  }

  /** Round k is the first to match, and no earlier one ends the loop. */
  ghost predicate HandsOffAt(size: nat, stream: string, rounds: seq<Round>, k: nat) {
    && k < |rounds| && Matches(size, stream, rounds, k)
    && forall j :: 0 <= j < k ==> !Matches(size, stream, rounds, j) && !Stops(size, stream, rounds, j)
  }

  lemma RoundFrom(size: nat, stream: string, rounds: seq<Round>, received: nat, i: nat, ret: nat)
    requires received <= size && received <= |stream| && i < |rounds|
    requires ret == Delivered(rounds[i].recv, size - received, |stream| - received)
    ensures var run, round := HeaderRun(size, stream, received, rounds, i), rounds[i];
      if ret > 0 && round.found.Post? && Find(stream[..received + ret]) >= 0 then
        run == (HandOff(round.found.length), received + ret, i + 1)
      else if round.recv.Failed? || round.recv.PeerClosed? || !round.poll.Readable?
          || (round.recv.Ready? && (ret == 0 || round.found.Answered?)) then
        run.0 == Ended && run.2 == i + 1
      else run == HeaderRun(size, stream, received + ret, rounds, i + 1)
  {
  }

  lemma BroughtIs(size: nat, stream: string, rounds: seq<Round>, i: nat) returns (received: nat, ret: nat)
    requires i < |rounds|
    ensures received == Arrived(size, stream, rounds, i) && ret == Brought(size, stream, rounds, i)
    ensures received + ret == Arrived(size, stream, rounds, i + 1) && received + ret <= |stream|
    ensures ret == Delivered(rounds[i].recv, size - received, |stream| - received)
    ensures Matches(size, stream, rounds, i) <==>
      ret > 0 && rounds[i].found.Post? && Find(stream[..received + ret]) >= 0
    ensures Stops(size, stream, rounds, i) <==>
      (rounds[i].recv.Failed? || rounds[i].recv.PeerClosed? || !rounds[i].poll.Readable?
       || (rounds[i].recv.Ready? && (ret == 0 || rounds[i].found.Answered?)))
  {
    received, ret := Arrived(size, stream, rounds, i), Brought(size, stream, rounds, i);
  }

  /** What one round of the run comes to. */
  ghost predicate RoundIs(size: nat, stream: string, rounds: seq<Round>, i: nat, next: nat, run: (Outcome, nat, nat))
    requires i < |rounds| && next <= size && next <= |stream|
  {
    if Matches(size, stream, rounds, i) then run == (HandOff(rounds[i].found.length), next, i + 1)
    else if Stops(size, stream, rounds, i) then run.0 == Ended && run.2 == i + 1
    else run == HeaderRun(size, stream, next, rounds, i + 1)
  }

  /** One round of the run, told by what it matches and whether it stops. */
  lemma OneRound(size: nat, stream: string, rounds: seq<Round>, i: nat, run: (Outcome, nat, nat))
    requires i < |rounds| && run == HeaderRun(size, stream, Arrived(size, stream, rounds, i), rounds, i)
    ensures RoundIs(size, stream, rounds, i, Arrived(size, stream, rounds, i + 1), run)
  {
    var received, ret := BroughtIs(size, stream, rounds, i);
    RoundFrom(size, stream, rounds, received, i, ret);
  }

  /** The rounds before i neither match nor stop. */
  ghost predicate Passed(size: nat, stream: string, rounds: seq<Round>, i: nat) {
    && i <= |rounds|
    && forall j :: 0 <= j < i ==> !Matches(size, stream, rounds, j) && !Stops(size, stream, rounds, j)
  }

  lemma PassedOne(size: nat, stream: string, rounds: seq<Round>, i: nat)
    requires Passed(size, stream, rounds, i) && i < |rounds|
    ensures Matches(size, stream, rounds, i) ==> HandsOffAt(size, stream, rounds, i)
    ensures !Matches(size, stream, rounds, i) && !Stops(size, stream, rounds, i) ==> Passed(size, stream, rounds, i + 1)
    ensures !Matches(size, stream, rounds, i) && Stops(size, stream, rounds, i) ==>
      forall k: nat :: !HandsOffAt(size, stream, rounds, k)
  {
  }

  /** What a run says about the rounds: the one that hands off with what it declares, or that none does. */
  ghost predicate Tells(size: nat, stream: string, rounds: seq<Round>, run: (Outcome, nat, nat)) {
    if run.0.HandOff? then
      && 0 < run.2 <= |rounds| && HandsOffAt(size, stream, rounds, run.2 - 1)
      && run.0 == HandOff(rounds[run.2 - 1].found.length) && run.1 == Arrived(size, stream, rounds, run.2)
    else
      (run.0.Ended? || run.0.Starved?) && forall k: nat :: !HandsOffAt(size, stream, rounds, k)
  }

  lemma MatchTells(size: nat, stream: string, rounds: seq<Round>, i: nat, run: (Outcome, nat, nat))
    requires Passed(size, stream, rounds, i) && i < |rounds| && Matches(size, stream, rounds, i)
    requires run == (HandOff(rounds[i].found.length), Arrived(size, stream, rounds, i + 1), i + 1)
    ensures Tells(size, stream, rounds, run)
  {
    PassedOne(size, stream, rounds, i);
  }

  lemma StopTells(size: nat, stream: string, rounds: seq<Round>, i: nat, run: (Outcome, nat, nat))
    requires Passed(size, stream, rounds, i) && i < |rounds|
    requires !Matches(size, stream, rounds, i) && Stops(size, stream, rounds, i) && run.0 == Ended
    ensures Tells(size, stream, rounds, run)
  {
    PassedOne(size, stream, rounds, i);
  }

  lemma StarvedTells(size: nat, stream: string, rounds: seq<Round>, run: (Outcome, nat, nat))
    requires Passed(size, stream, rounds, |rounds|) && run.0 == Starved
    ensures Tells(size, stream, rounds, run)
  {
  }

  lemma {:induction false} RunTells(size: nat, stream: string, rounds: seq<Round>, i: nat, run: (Outcome, nat, nat))
    requires Passed(size, stream, rounds, i)
    requires run == HeaderRun(size, stream, Arrived(size, stream, rounds, i), rounds, i)
    ensures Tells(size, stream, rounds, run)
    decreases |rounds| - i
  {
    if i == |rounds| {
      StarvedTells(size, stream, rounds, run);
    } else {
      OneRound(size, stream, rounds, i, run);
      if Matches(size, stream, rounds, i) {
        MatchTells(size, stream, rounds, i, run);
      } else if Stops(size, stream, rounds, i) {
        StopTells(size, stream, rounds, i, run);
      } else {
        PassedOne(size, stream, rounds, i);
        RunTells(size, stream, rounds, i + 1, run);
      }
    }
  }

  lemma OnlyOneHandsOff(size: nat, stream: string, rounds: seq<Round>, k: nat, l: nat)
    requires HandsOffAt(size, stream, rounds, k) && HandsOffAt(size, stream, rounds, l)
    ensures k == l
  {
  }

  /** What is handed off at round k. */
  ghost predicate Declares(size: nat, stream: string, rounds: seq<Round>, k: nat, run: (Outcome, nat, nat)) {
    && k < |rounds| && rounds[k].found.Post? && run.0 == HandOff(rounds[k].found.length)
    && run.1 == Arrived(size, stream, rounds, k + 1) && run.2 == k + 1
  }

  lemma HandsOffThere(size: nat, stream: string, rounds: seq<Round>, run: (Outcome, nat, nat), k: nat)
    requires Tells(size, stream, rounds, run) && HandsOffAt(size, stream, rounds, k)
    ensures Declares(size, stream, rounds, k, run)
  {
    OnlyOneHandsOff(size, stream, rounds, k, run.2 - 1);
    assert k == run.2 - 1;
  }

  /** Such a run hands off exactly when one of the rounds does, and then with what that round declares. */
  lemma HandOffIsExact(size: nat, stream: string, rounds: seq<Round>, run: (Outcome, nat, nat))
    requires Tells(size, stream, rounds, run)
    ensures run.0.HandOff? <==> exists k: nat :: HandsOffAt(size, stream, rounds, k)
    ensures run.0.HandOff? || run.0.Ended? || run.0.Starved?
    ensures forall k: nat :: HandsOffAt(size, stream, rounds, k) ==> Declares(size, stream, rounds, k, run)
  {
    forall k: nat | HandsOffAt(size, stream, rounds, k) ensures Declares(size, stream, rounds, k, run) {
      HandsOffThere(size, stream, rounds, run, k);
    }
  }

  /** The header loop is such a run. */
  lemma HeaderRunIsExact(size: nat, stream: string, rounds: seq<Round>)
    ensures Tells(size, stream, rounds, HeaderRun(size, stream, 0, rounds, 0))
  {
    RunTells(size, stream, rounds, 0, HeaderRun(size, stream, 0, rounds, 0));
  }

  /**
   * The loop of processRequest. Every write stays inside the array, whatever bytes arrive; of a
   * stream without zero bytes the buffer holds exactly what was received.
   */
  method ReceiveHeader(buffer: HttpRecvBuffer, stream: string, rounds: seq<Round>)
    returns (outcome: Outcome, received: nat, used: nat)
    requires AllZeroFrom(buffer.mem[..], 0)
    modifies buffer.mem
    ensures received <= buffer.mem.Length && received <= |stream| && used <= |rounds|
    ensures AllZeroFrom(buffer.mem[..], received)
    ensures NulFree(stream) ==> Holds(buffer.mem[..], stream, received) && buffer.Position() == received
    ensures outcome.HandOff? || outcome.Ended? || outcome.Starved?
    ensures outcome.HandOff? ==> Find(CStr(buffer.mem[..])) >= 0
    ensures outcome.HandOff? ==> used > 0 && rounds[used - 1].found == Post(outcome.length)
    ensures NulFree(stream) ==> (outcome, received, used) == HeaderRun(buffer.mem.Length, stream, 0, rounds, 0)
  {
    received, used := 0, 0;
    outcome := Starved;
    assert buffer.mem[..][..0] == stream[..0];
    while used < |rounds|
      invariant received <= buffer.mem.Length && received <= |stream| && used <= |rounds|
      invariant AllZeroFrom(buffer.mem[..], received)
      invariant NulFree(stream) ==> Holds(buffer.mem[..], stream, received)
      invariant NulFree(stream) ==>
        HeaderRun(buffer.mem.Length, stream, 0, rounds, 0)
        == HeaderRun(buffer.mem.Length, stream, received, rounds, used)
      invariant outcome == Starved
    {
      var round := rounds[used];
      used := used + 1;
      if round.recv.Failed? || round.recv.PeerClosed? {
        outcome := Ended;
        break;
      }
      if round.recv.Ready? {
        var ret := Delivered(round.recv, buffer.mem.Length - received, |stream| - received);
        if ret == 0 {
          outcome := Ended;
          break;
        }
        ReceiveInside(buffer, stream, received, ret);
        received := received + ret;
        if NulFree(stream) {
          PositionOfHeld(buffer.mem[..], stream, received);
        }
        if round.found.Answered? {
          outcome := Ended;
          break;
        }
        if round.found.Post? && Find(CStr(buffer.mem[..])) >= 0 {
          outcome := HandOff(round.found.length);
          break;
        }
      }
      if !round.poll.Readable? {
        outcome := Ended;
        break;
      }
    }
    if NulFree(stream) {
      PositionOfHeld(buffer.mem[..], stream, received);
    }
  }

  /** Rounds that each bring at least one byte. */
  ghost predicate Productive(rounds: seq<Round>) {
    forall i :: 0 <= i < |rounds| ==> rounds[i].poll.Readable? && rounds[i].recv.Ready? && rounds[i].recv.size > 0
  }

  /** The bytes that section 6.3 of RFC 9112 makes the body: as many as declared, behind the first terminator. */
  function DeclaredBody(stream: string, length: nat): (body: string)
    requires Find(stream) >= 0 && Find(stream) + 4 + length <= |stream|
    ensures |body| == length && stream[..Find(stream) + 4] + body <= stream
  {
    var start := Find(stream) + 4;
    stream[start..start + length]
  }

  /** The conditions of the hand-off under which the code frames the body: text that fits, and a zero left behind it. */
  ghost predicate Fits(stream: string, size: nat, received: nat, length: nat) {
    && NulFree(stream) && received <= |stream| && received < size
    && Find(stream[..received]) >= 0 && Find(stream) >= 0 && Find(stream) + 4 + length <= size
  }

  /** One recv of the body loop, which trusts the declared length; false when it would leave the array. */
  method ReceiveChunk(buffer: HttpRecvBuffer, stream: string, consumed: nat, ret: nat) returns (inside: bool)
    requires consumed + ret <= |stream|
    modifies buffer.mem
    ensures NulFree(stream) && Holds(old(buffer.mem[..]), stream, consumed) ==>
      && (inside <==> consumed + ret <= buffer.mem.Length)
      && (inside ==> Holds(buffer.mem[..], stream, consumed + ret))
  {
    ghost var before := buffer.mem[..];
    ghost var held := NulFree(stream) && Holds(before, stream, consumed);
    if held {
      PositionOfHeld(before, stream, consumed);
    }
    inside := buffer.Position() + ret <= buffer.mem.Length;
    if inside {
      Store(buffer, stream[consumed..consumed + ret]);
      if held {
        HoldsMore(before, buffer.mem[..], stream, consumed, ret);
      }
    }
  }

  /** The bytes behind the first terminator of a buffer that holds enough of the stream. */
  lemma HeldBody(mem: string, stream: string, consumed: nat, length: nat)
    requires Holds(mem, stream, consumed) && Find(stream) >= 0 && Find(stream) + 4 + length <= consumed
    ensures mem[Find(stream) + 4..Find(stream) + 4 + length] == DeclaredBody(stream, length)
  {
    var a, b := Find(stream) + 4, Find(stream) + 4 + length;
    assert mem[a..b] == mem[..consumed][a..b];
    assert stream[a..b] == stream[..consumed][a..b];
  }

  /** Bytes and rounds enough for the declared body keep coming. */
  ghost predicate Flows(stream: string, length: nat, rounds: seq<Round>) {
    Productive(rounds) && |rounds| >= length && Find(stream) >= 0 && Find(stream) + 4 + length <= |stream|
  }

  /** The hand-off left no zero byte for strlen, or the declared length is too much for the array. */
  predicate Overlong(stream: string, size: nat, received: nat, length: nat) {
    received == size || Find(stream) + 4 + length > size
  }

  /**
   * receiveMessageBodyPOST, up to the call of processRequestPOST. It trusts the declared length: an
   * overlong request that keeps coming is stored beyond the array.
   */
  method ReceiveBody(buffer: HttpRecvBuffer, stream: string, received: nat, length: nat, rounds: seq<Round>)
    returns (outcome: Outcome)
    requires received <= |stream|
    requires NulFree(stream) ==> Holds(buffer.mem[..], stream, received)
    modifies buffer.mem
    ensures !outcome.HandOff?
    ensures NulFree(stream) && Find(stream[..received]) >= 0 && received == buffer.mem.Length ==> outcome.OutOfBuffer?
    ensures NulFree(stream) && outcome.Body? ==> Fits(stream, buffer.mem.Length, received, length)
    ensures Fits(stream, buffer.mem.Length, received, length) && outcome.Body? ==>
      Find(stream) + 4 + length <= |stream| && outcome.bytes == DeclaredBody(stream, length)
    ensures NulFree(stream) && outcome.OutOfBuffer? ==> Overlong(stream, buffer.mem.Length, received, length)
    ensures NulFree(stream) && Find(stream[..received]) >= 0 && Flows(stream, length, rounds) ==>
      if Overlong(stream, buffer.mem.Length, received, length) then outcome.OutOfBuffer? else outcome.Body?
  {
    var text := CStr(buffer.mem[..]);
    var end := Find(text);
    ghost var whole := NulFree(stream);
    if whole {
      PositionOfHeld(buffer.mem[..], stream, received);
    }
    if end < 0 {
      return Ended;
    }
    if whole {
      FindInPrefix(stream[..received], stream[received..]);
      assert stream[..received] + stream[received..] == stream;
    }
    if |text| == buffer.mem.Length {
      return OutOfBuffer;  // strlen runs past the array
    }
    var recvLength := |text| - (end + 4);
    var consumed, used := received, 0;
    while recvLength < length && used < |rounds|
      invariant 0 <= recvLength && received <= consumed <= |stream| && used <= |rounds|
      invariant whole ==> Holds(buffer.mem[..], stream, consumed)
      invariant whole ==> end == Find(stream) && recvLength == consumed - (end + 4)
      invariant whole ==> recvLength <= length || consumed == received
      invariant Productive(rounds) && |rounds| >= length ==> |rounds| - used >= length - recvLength
    {
      var round := rounds[used];
      used := used + 1;
      if !round.poll.Readable? || round.recv.Failed? || round.recv.PeerClosed? {
        return Ended;
      }
      if round.recv.Ready? {
        var ret := Delivered(round.recv, length - recvLength, |stream| - consumed);
        if ret == 0 {
          return Ended;
        }
        var inside := ReceiveChunk(buffer, stream, consumed, ret);
        if !inside {
          return OutOfBuffer;
        }
        consumed := consumed + ret;
        recvLength := recvLength + ret;
      }
    }
    if recvLength < length {
      return Starved;
    }
    if end + 4 + length > buffer.mem.Length {
      return OutOfBuffer;
    }
    if whole {
      HeldBody(buffer.mem[..], stream, consumed, length);
      assert buffer.mem[..][end + 4..end + 4 + length] == buffer.mem[end + 4..end + 4 + length];
    }
    outcome := Body(buffer.mem[end + 4..end + 4 + length]);
  }

  /**
   * What both loops together make of a stream: the body passed on is the declared one. While bytes
   * keep coming it is passed on, or stored beyond the array, exactly as the request is overlong.
   */
  ghost predicate FramesBody(
      size: nat, stream: string, received: nat, length: nat, body: seq<Round>, outcome: Outcome) {
    && Find(stream) >= 0
    && (outcome.Body? ==> Find(stream) + 4 + length <= |stream| && outcome.bytes == DeclaredBody(stream, length))
    && (outcome.Body? ==> !Overlong(stream, size, received, length))
    && (outcome.OutOfBuffer? ==> Overlong(stream, size, received, length))
    && (Flows(stream, length, body) ==>
         if Overlong(stream, size, received, length) then outcome.OutOfBuffer? else outcome.Body?)
  }

  /** Both loops, told by the run of the first. */
  method ReceiveRequest(size: nat, stream: string, header: seq<Round>, body: seq<Round>) returns (outcome: Outcome)
    ensures !outcome.HandOff?
    ensures NulFree(stream) ==> Follows(size, stream, HeaderRun(size, stream, 0, header, 0), body, outcome)
  {
    var buffer := new HttpRecvBuffer(size);
    var received, used;
    outcome, received, used := ReceiveHeader(buffer, stream, header);
    if outcome.HandOff? {
      if NulFree(stream) {
        PositionOfHeld(buffer.mem[..], stream, received);
        FindInPrefix(stream[..received], stream[received..]);
        assert stream[..received] + stream[received..] == stream;
      }
      outcome := ReceiveBody(buffer, stream, received, outcome.length, body);
    }
  }

  ghost predicate Follows(size: nat, stream: string, run: (Outcome, nat, nat), body: seq<Round>, outcome: Outcome) {
    if run.0.HandOff? then FramesBody(size, stream, run.1, run.0.length, body, outcome) else outcome == run.0
  }

  /** The same told by the round that hands off: its length, and the bytes that arrived by then. */
  ghost predicate FramesAt(
      size: nat, stream: string, header: seq<Round>, k: nat, body: seq<Round>, outcome: Outcome) {
    && k < |header| && header[k].found.Post?
    && FramesBody(size, stream, Arrived(size, stream, header, k + 1), header[k].found.length, body, outcome)
  }

  lemma FramesThere(size: nat, stream: string, header: seq<Round>, k: nat, run: (Outcome, nat, nat),
                    body: seq<Round>, outcome: Outcome)
    requires Declares(size, stream, header, k, run) && Follows(size, stream, run, body, outcome)
    ensures FramesAt(size, stream, header, k, body, outcome)
  {
  }

  /**
   * Both loops together. Of a stream without zero bytes, whichever round hands off and however recv
   * splits the bytes, a request that fits is passed on with exactly the body declared in that round.
   */
  method ProcessRequest(size: nat, stream: string, header: seq<Round>, body: seq<Round>) returns (outcome: Outcome)
    ensures !outcome.HandOff?
    ensures NulFree(stream) ==> forall k: nat :: HandsOffAt(size, stream, header, k) ==>
      FramesAt(size, stream, header, k, body, outcome)
    ensures NulFree(stream) && (forall k: nat :: !HandsOffAt(size, stream, header, k)) ==>
      outcome.Ended? || outcome.Starved?
  {
    outcome := ReceiveRequest(size, stream, header, body);
    ghost var run := HeaderRun(size, stream, 0, header, 0);
    HeaderRunIsExact(size, stream, header);
    HandOffIsExact(size, stream, header, run);
    if NulFree(stream) {
      forall k: nat | HandsOffAt(size, stream, header, k) ensures FramesAt(size, stream, header, k, body, outcome) {
        FramesThere(size, stream, header, k, run, body, outcome);
      }
    }
  }
}
