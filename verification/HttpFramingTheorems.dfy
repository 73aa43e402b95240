/** What the shared-buffer reader promises for every way the network may cut the stream. */
module HttpFramingTheorems {
  import opened Search
  import opened HttpFraming

  /** The reference reader: it sees the whole remaining stream `s` at once. */
  function FrameOf(s: seq<Byte>): Read {
    match Find(s, HEADER_END, 0)
    case None => Failed(ClosedBeforeHeaders)
    case Some(k) =>
      match ParseHead(s[..k + 4])
      case BadHead(error) => Failed(error)
      case Head(status, length) =>
        if length < 0 then Failed(BadContentLength)
        else if |s| < k + 4 + length then Failed(ClosedBeforeBody)
        else Response(status, k + 4 + length, Summary(status, s[k + 4..k + 4 + length]))
  }

  /** The header at the front of `s`, if any, declares a negative length. */
  predicate NegativeLength(s: seq<Byte>) {
    match Find(s, HEADER_END, 0)
    case None => false
    case Some(k) => var head := ParseHead(s[..k + 4]); head.Head? && head.length < 0
  }

  /** No chunking of `s` can make the 16,384-byte check fire. */
  predicate Fits(s: seq<Byte>) {
    |s| <= HEADER_BOUND ||
    (var k := Find(s, HEADER_END, 0); k.Some? && k.value + 4 <= SAFE_HEADER)
  }

  // ---------------------------------------------------------------- one read

  lemma {:induction false} HeaderLoopOutcome(ch: Channel)
    ensures var s, (e, c) := Unread(ch), HeaderLoop(ch);
            && (e == Some(SocketFault) ==> !FaultFree(ch.plan))
            && (e == Some(HeadersTooLong) ==> !Fits(s))
            && (FaultFree(ch.plan) ==> FaultFree(c.plan))
            && (e != Some(SocketFault) && e != Some(HeadersTooLong) ==>
                  && Unread(c) == s
                  && match Find(s, HEADER_END, 0)
                       case None => e == Some(ClosedBeforeHeaders)
                       case Some(k) => e == None && Find(c.buffer, HEADER_END, 0) == Some(k))
    decreases |ch.incoming|
  {
    hide Recv, Find;
    var s := Unread(ch);
    assert s[..|ch.buffer|] == ch.buffer;
    FindInPrefix(s, |ch.buffer|, HEADER_END);
    if Find(ch.buffer, HEADER_END, 0).None? {
      var (got, next) := Recv(ch, RECV_SIZE);
      if got.Chunk? && got.bytes != [] {
        var grown := next.(buffer := next.buffer + got.bytes);
        assert Unread(grown) == s;
        if |grown.buffer| <= HEADER_BOUND { HeaderLoopOutcome(grown); }
      }
    }
  }

  lemma {:induction false} BodyLoopOutcome(ch: Channel, frameEnd: nat)
    ensures var s, (e, c) := Unread(ch), BodyLoop(ch, frameEnd);
            && (e == Some(SocketFault) ==> !FaultFree(ch.plan))
            && (FaultFree(ch.plan) ==> FaultFree(c.plan))
            && (e != Some(SocketFault) ==>
                  && Unread(c) == s
                  && e == (if |s| < frameEnd then Some(ClosedBeforeBody) else None)
                  && (e == None ==> |c.buffer| == Max(|ch.buffer|, frameEnd)))
    decreases |ch.incoming|
  {
    hide Recv;
    if |ch.buffer| < frameEnd {
      var (got, next) := Recv(ch, Min(RECV_SIZE, frameEnd - |ch.buffer|));
      if got.Chunk? && got.bytes != [] {
        var grown := next.(buffer := next.buffer + got.bytes);
        assert Unread(grown) == Unread(ch);
        BodyLoopOutcome(grown, frameEnd);
      }
    }
  }

  lemma TakeFrameOutcome(ch: Channel, headerEnd: nat, head: Head)
    requires headerEnd <= |ch.buffer| && head.Head? && head.length >= 0
    ensures var s, (r, c) := Unread(ch), TakeFrame(ch, headerEnd, head);
            var frameEnd := headerEnd + head.length;
            && (r == Failed(SocketFault) ==> !FaultFree(ch.plan))
            && (FaultFree(ch.plan) ==> FaultFree(c.plan))
            && (r != Failed(SocketFault) ==>
                  if |s| < frameEnd then r == Failed(ClosedBeforeBody)
                  else
                    && r == Response(head.status, frameEnd, Summary(head.status, s[headerEnd..frameEnd]))
                    && Unread(c) == s[frameEnd..]
                    && |c.buffer| <= |ch.buffer|)
  {
    hide BodyLoop;
    var s := Unread(ch);
    var frameEnd := headerEnd + head.length;
    BodyLoopOutcome(ch, frameEnd);
    var (e, filled) := BodyLoop(ch, frameEnd);
    if e.None? {
      assert filled.buffer[headerEnd..frameEnd] == s[headerEnd..frameEnd];
      assert filled.buffer[frameEnd..] + filled.incoming == s[frameEnd..];
    }
  }

  /** For every chunking and every fault, one read through the shared buffer either reports a
      real socket fault, or trips the header bound on a stream that does not fit, or does what
      the reference reader does on the whole stream; a returned frame leaves exactly the bytes
      after it unread. */
  lemma ReadMatchesReference(ch: Channel)
    requires !NegativeLength(Unread(ch))
    ensures var s, (r, c) := Unread(ch), ReadStep(ch);
            && (r == Failed(SocketFault) ==> !FaultFree(ch.plan))
            && (r == Failed(HeadersTooLong) ==> !Fits(s))
            && (FaultFree(ch.plan) ==> FaultFree(c.plan))
            && (r != Failed(SocketFault) && r != Failed(HeadersTooLong) ==> r == FrameOf(s))
            && (r.Response? ==> 0 <= r.consumed <= |s| && Unread(c) == s[r.consumed..])
  {
    hide ParseHead, HeaderLoop, TakeFrame, Recv, Find;
    HeaderLoopOutcome(ch);
    var s := Unread(ch);
    var (e, filled) := HeaderLoop(ch);
    if e.None? {
      var k := Find(s, HEADER_END, 0).value;
      assert filled.buffer[..k + 4] == s[..k + 4];
      var head := ParseHead(s[..k + 4]);
      HeadErrorKinds(s[..k + 4]);
      if head.Head? { TakeFrameOutcome(filled, k + 4, head); }
    }
  }

  lemma HeadErrorKinds(head: seq<Byte>)
    ensures ParseHead(head).BadHead? ==> ParseHead(head).error in {MalformedStatus, BadContentLength}
  {
  }

  // ---------------------------------------------------------------- many reads

  /** A complete response: a header block of safe size and exactly the body it declares. */
  predicate IsFrame(f: seq<Byte>) {
    var k := Find(f, HEADER_END, 0);
    && k.Some? && k.value + 4 <= SAFE_HEADER
    && FrameOf(f).Response? && FrameOf(f).consumed == |f|
  }

  lemma FrameAtFront(f: seq<Byte>, rest: seq<Byte>)
    requires IsFrame(f)
    ensures FrameOf(f + rest) == FrameOf(f) && Fits(f + rest) && !NegativeLength(f + rest)
  {
    hide ParseHead;
    var s := f + rest;
    assert s[..|f|] == f;
    FindInPrefix(s, |f|, HEADER_END);
    var k := Find(f, HEADER_END, 0).value;
    assert s[..k + 4] == f[..k + 4];
    assert s[k + 4..|f|] == f[k + 4..|f|];
  }

  /** `n` successive reads, stopping at the first failure. */
  function ReadMany(ch: Channel, n: nat): (seq<Read>, Channel)
    decreases n
  {
    if n == 0 then ([], ch)
    else
      var (r, c) := ReadStep(ch);
      if r.Failed? then ([r], c)
      else var (rs, last) := ReadMany(c, n - 1); ([r] + rs, last)
  }

  function Expected(frames: seq<seq<Byte>>): seq<Read> {
    seq(|frames|, i requires 0 <= i < |frames| => FrameOf(frames[i]))
  }

  /** However `recv` cuts the stream, successive reads return the frames one by one, in order,
      and leave exactly what follows them. */
  lemma {:induction false} FramesSurviveChunking(ch: Channel, frames: seq<seq<Byte>>, rest: seq<Byte>)
    requires FaultFree(ch.plan)
    requires forall i :: 0 <= i < |frames| ==> IsFrame(frames[i])
    requires Unread(ch) == Flatten(frames) + rest
    ensures var (rs, c) := ReadMany(ch, |frames|);
            rs == Expected(frames) && Unread(c) == rest && FaultFree(c.plan)
    decreases |frames|
  {
    hide IsFrame, FrameOf, ReadStep, Flatten, FaultFree, Unread;
    if frames == [] {
      NoFrames(ch, rest);
    } else {
      var tail := Flatten(frames[1..]) + rest;
      FlattenFirst(frames, rest);
      FrontRead(ch, frames[0], tail);
      FramesSurviveChunking(ReadStep(ch).1, frames[1..], rest);
      assert Expected(frames) == [FrameOf(frames[0])] + Expected(frames[1..]);
    }
  }

  lemma NoFrames(ch: Channel, rest: seq<Byte>)
    ensures Flatten<Byte>([]) + rest == rest && Expected([]) == [] && ReadMany(ch, 0) == ([], ch)
  {
  }

  lemma FlattenFirst(frames: seq<seq<Byte>>, rest: seq<Byte>)
    requires frames != []
    ensures Flatten(frames) + rest == frames[0] + (Flatten(frames[1..]) + rest)
  {
  }

  /** A frame at the front of the stream is read, and exactly what follows it is left. */
  lemma FrontRead(ch: Channel, f: seq<Byte>, tail: seq<Byte>)
    requires FaultFree(ch.plan) && IsFrame(f) && Unread(ch) == f + tail
    ensures var (r, c) := ReadStep(ch);
            r == FrameOf(f) && r.Response? && Unread(c) == tail && FaultFree(c.plan)
  {
    FrameAtFront(f, tail);
    hide ParseHead, FrameOf, ReadStep, FaultFree, Find, Fits, NegativeLength;
    ReadMatchesReference(ch);
    assert (f + tail)[|f|..] == tail;
  }

  lemma {:induction false} BodyLoopBounds(ch: Channel, frameEnd: int)
    ensures BodyLoop(ch, frameEnd).0 != Some(HeadersTooLong)
    ensures |BodyLoop(ch, frameEnd).1.buffer| <= Max(|ch.buffer|, frameEnd)
    decreases |ch.incoming|
  {
    hide Recv;
    if |ch.buffer| < frameEnd {
      var (got, next) := Recv(ch, Min(RECV_SIZE, frameEnd - |ch.buffer|));
      if got.Chunk? && got.bytes != [] {
        BodyLoopBounds(next.(buffer := next.buffer + got.bytes), frameEnd);
      }
    }
  }

  /** Between reads the shared buffer never holds more than the header bound. */
  lemma BufferStaysBounded(ch: Channel)
    requires |ch.buffer| <= HEADER_BOUND
    ensures ReadStep(ch).0.Response? ==> |ReadStep(ch).1.buffer| <= HEADER_BOUND
  {
    hide ParseHead, HeaderLoop, BodyLoop, Find;
    HeaderLoopBounded(ch);
    var (e, filled) := HeaderLoop(ch);
    if e.None? {
      var headerEnd := Find(filled.buffer, HEADER_END, 0).value + 4;
      var head := ParseHead(filled.buffer[..headerEnd]);
      if head.Head? { BodyLoopBounds(filled, headerEnd + head.length); }
    }
  }

  lemma {:induction false} HeaderLoopBounded(ch: Channel)
    requires |ch.buffer| <= HEADER_BOUND
    ensures HeaderLoop(ch).0.None? ==> |HeaderLoop(ch).1.buffer| <= HEADER_BOUND
    decreases |ch.incoming|
  {
    hide Recv, Find;
    if Find(ch.buffer, HEADER_END, 0).None? {
      var (got, next) := Recv(ch, RECV_SIZE);
      if got.Chunk? && got.bytes != [] {
        var grown := next.(buffer := next.buffer + got.bytes);
        if |grown.buffer| <= HEADER_BOUND { HeaderLoopBounded(grown); }
      }
    }
  }

  // ---------------------------------------------------------------- the exact header bound

  /** The reader's channel after `d` bytes of `s` have arrived. */
  function At(s: seq<Byte>, d: nat, plan: seq<Event>): Channel
    requires d <= |s|
  { Channel(s[..d], s[d..], plan) }

  /** A delivery that does not complete the header and stays within the bound is absorbed. */
  lemma Absorb(s: seq<Byte>, d: nat, n: nat, plan: seq<Event>)
    requires 1 <= n <= RECV_SIZE && d + n <= |s|
    requires Find(s[..d], HEADER_END, 0).None?
    ensures d + n <= HEADER_BOUND ==>
              HeaderLoop(At(s, d, [Deliver(n)] + plan)) == HeaderLoop(At(s, d + n, plan))
    ensures d + n > HEADER_BOUND ==>
              HeaderLoop(At(s, d, [Deliver(n)] + plan)).0 == Some(HeadersTooLong)
  {
    var ch := At(s, d, [Deliver(n)] + plan);
    assert ([Deliver(n)] + plan)[1..] == plan;
    assert Recv(ch, RECV_SIZE) == (Chunk(s[d..d + n]), Channel(s[..d], s[d + n..], plan)) by {
      assert s[d..][..n] == s[d..d + n];
      assert s[d..][n..] == s[d + n..];
    }
    assert s[..d] + s[d..d + n] == s[..d + n];
  }

  /** The cut that trips the check: 12,289 bytes without a blank line, then a full read. */
  const TRIPPING_PLAN: seq<Event> :=
    [Deliver(4096), Deliver(4096), Deliver(4096), Deliver(1), Deliver(4096)]

  lemma UnsafeHeaderTrips(s: seq<Byte>)
    requires !Fits(s)
    ensures ReadStep(Channel([], s, TRIPPING_PLAN)).0 == Failed(HeadersTooLong)
  {
    hide ParseHead, HeaderLoop, Find;
    forall d | 0 <= d < SAFE_HEADER + 1 ensures Find(s[..d], HEADER_END, 0).None? {
      FindInPrefix(s, d, HEADER_END);
    }
    assert At(s, 0, TRIPPING_PLAN) == Channel([], s, TRIPPING_PLAN);
    assert TRIPPING_PLAN == [Deliver(4096)] + [Deliver(4096), Deliver(4096), Deliver(1), Deliver(4096)];
    Absorb(s, 0, 4096, [Deliver(4096), Deliver(4096), Deliver(1), Deliver(4096)]);
    assert [Deliver(4096), Deliver(4096), Deliver(1), Deliver(4096)] ==
           [Deliver(4096)] + [Deliver(4096), Deliver(1), Deliver(4096)];
    Absorb(s, 4096, 4096, [Deliver(4096), Deliver(1), Deliver(4096)]);
    assert [Deliver(4096), Deliver(1), Deliver(4096)] == [Deliver(4096)] + [Deliver(1), Deliver(4096)];
    Absorb(s, 8192, 4096, [Deliver(1), Deliver(4096)]);
    assert [Deliver(1), Deliver(4096)] == [Deliver(1)] + [Deliver(4096)];
    Absorb(s, 12288, 1, [Deliver(4096)]);
    assert [Deliver(4096)] == [Deliver(4096)] + [];
    Absorb(s, 12289, 4096, []);
  }

  /** Only the header loop raises the bound error. */
  lemma TripsInHeader(ch: Channel)
    requires ReadStep(ch).0 == Failed(HeadersTooLong)
    ensures HeaderLoop(ch).0 == Some(HeadersTooLong)
  {
    hide HeaderLoop, BodyLoop, ParseHead, Find;
    var (e, filled) := HeaderLoop(ch);
    if e.None? {
      var headerEnd := Find(filled.buffer, HEADER_END, 0).value + 4;
      HeadErrorKinds(filled.buffer[..headerEnd]);
      var head := ParseHead(filled.buffer[..headerEnd]);
      if head.Head? { BodyLoopBounds(filled, headerEnd + head.length); }
    }
  }

  /** The exact bound: some fault-free chunking of `s` trips the safety check if and only if
      `s` is longer than 16,384 bytes and has no blank line ending within its first 12,289. */
  lemma HeaderBoundIsExact(s: seq<Byte>)
    ensures (exists plan :: FaultFree(plan) && ReadStep(Channel([], s, plan)).0 == Failed(HeadersTooLong))
            <==> !Fits(s)
  {
    if !Fits(s) {
      UnsafeHeaderTrips(s);
      assert FaultFree(TRIPPING_PLAN);
    }
    forall plan | FaultFree(plan) && ReadStep(Channel([], s, plan)).0 == Failed(HeadersTooLong)
      ensures !Fits(s)
    {
      assert Unread(Channel([], s, plan)) == s;
      TripsInHeader(Channel([], s, plan));
      HeaderLoopOutcome(Channel([], s, plan));
    }
  }

  // ---------------------------------------------------------------- negative lengths

  function Ones(n: nat): seq<Event> {
    if n == 0 then [] else [Deliver(1)] + Ones(n - 1)
  }

  lemma {:induction false} OnesAreFaultFree(n: nat)
    ensures FaultFree(Ones(n))
  {
    if n == 0 {
    } else {
      OnesAreFaultFree(n - 1);
    }
  }

  lemma HeaderAlreadyThere(s: seq<Byte>, k: nat, plan: seq<Event>)
    requires Find(s, HEADER_END, 0) == Some(k)
    ensures HeaderLoop(At(s, k + 4, plan)) == (None, At(s, k + 4, plan))
  {
    hide Find;
    FindInPrefix(s, k + 4, HEADER_END);
  }

  /** Fed one byte at a time, the header loop stops exactly at the blank line. */
  lemma {:induction false} ByteAtATime(s: seq<Byte>, d: nat, k: nat)
    requires Find(s, HEADER_END, 0) == Some(k) && d <= k + 4 <= HEADER_BOUND
    ensures HeaderLoop(At(s, d, Ones(k + 4 - d))) == (None, At(s, k + 4, []))
    decreases k + 4 - d
  {
    hide Find, HeaderLoop, At;
    if d < k + 4 {
      FindInPrefix(s, d, HEADER_END);
      Absorb(s, d, 1, Ones(k + 4 - (d + 1)));
      ByteAtATime(s, d + 1, k);
    } else {
      HeaderAlreadyThere(s, k, []);
    }
  }

  /** A read of `s` under `plan` succeeds and leaves exactly what follows byte `frameEnd`. */
  predicate FramedAt(s: seq<Byte>, plan: seq<Event>, frameEnd: nat)
    requires frameEnd <= |s|
  {
    var (r, c) := ReadStep(At(s, 0, plan));
    r.Response? && Unread(c) == s[frameEnd..]
  }

  /** Framing is exact for every chunking if and only if the declared length is not negative:
      a negative one is accepted and the cut then falls inside the header block. */
  lemma ExactFramingIffNonNegative(s: seq<Byte>, k: nat, head: Head)
    requires Find(s, HEADER_END, 0) == Some(k) && k + 4 <= SAFE_HEADER
    requires head == ParseHead(s[..k + 4]) && head.Head? && k + 4 + head.length <= |s|
    ensures head.length >= 0 <==>
            forall plan :: FaultFree(plan) ==>
              FramedAt(s, plan, if head.length < 0 then k + 4 else k + 4 + head.length)
  {
    hide *;
    if head.length >= 0 {
      forall plan | FaultFree(plan) ensures FramedAt(s, plan, k + 4 + head.length) {
        FrontFrame(s, k, head, plan);
      }
    } else {
      OnesAreFaultFree(k + 4);
      NegativeLengthMisframes(s, k, head);
    }
  }

  lemma FrontFrame(s: seq<Byte>, k: nat, head: Head, plan: seq<Event>)
    requires Find(s, HEADER_END, 0) == Some(k) && k + 4 <= SAFE_HEADER && FaultFree(plan)
    requires head == ParseHead(s[..k + 4]) && head.Head? && 0 <= head.length && k + 4 + head.length <= |s|
    ensures FramedAt(s, plan, k + 4 + head.length)
  {
    hide ParseHead, ReadStep, Find, FrameOf, Fits, NegativeLength;
    assert Unread(At(s, 0, plan)) == s;
    FrontResponse(s, k, head);
    ReadMatchesReference(At(s, 0, plan));
  }

  lemma FrontResponse(s: seq<Byte>, k: nat, head: Head)
    requires Find(s, HEADER_END, 0) == Some(k) && k + 4 <= SAFE_HEADER
    requires head == ParseHead(s[..k + 4]) && head.Head? && 0 <= head.length && k + 4 + head.length <= |s|
    ensures FrameOf(s).Response? && FrameOf(s).consumed == k + 4 + head.length && Fits(s) && !NegativeLength(s)
  {
    hide ParseHead, Find;
  }

  lemma ReadAfterHeader(ch: Channel, filled: Channel, k: nat, head: Head)
    requires HeaderLoop(ch) == (None, filled) && Find(filled.buffer, HEADER_END, 0) == Some(k)
    requires ParseHead(filled.buffer[..k + 4]) == head && head.Head?
    ensures ReadStep(ch) == TakeFrame(filled, k + 4, head)
  {
    hide HeaderLoop, Find, ParseHead, TakeFrame;
  }

  lemma TakeNegative(s: seq<Byte>, headerEnd: nat, head: Head)
    requires 0 < headerEnd <= |s| && head.Head? && head.length < 0
    ensures var (r, c) := TakeFrame(At(s, headerEnd, []), headerEnd, head);
            r.Response? && |Unread(c)| > |s| - headerEnd
  {
  }

  /** The header loop has ended with `filled`, whose header block of `headerEnd` bytes says `head`. */
  predicate HeaderRead(ch: Channel, filled: Channel, headerEnd: nat, head: Head) {
    && HeaderLoop(ch) == (None, filled) && 4 <= headerEnd <= |filled.buffer|
    && Find(filled.buffer, HEADER_END, 0) == Some(headerEnd - 4)
    && ParseHead(filled.buffer[..headerEnd]) == head && head.Head?
  }

  lemma ReadOfHeader(ch: Channel, filled: Channel, headerEnd: nat, head: Head)
    requires HeaderRead(ch, filled, headerEnd, head)
    ensures ReadStep(ch) == TakeFrame(filled, headerEnd, head)
  {
    hide HeaderLoop, Find, ParseHead, TakeFrame;
  }

  /** What a read with a negative length does, to the byte. The frame end counts from the front of
      the buffer, so that all from there on stays, the header's own end included; or, when it falls
      before the front, from the end of the buffer, so that as many of its last bytes stay. */
  lemma NegativeLengthOutcome(
    ch: Channel, filled: Channel, headerEnd: nat, head: Head, gone: seq<Byte>, rest: seq<Byte>, body: seq<Byte>)
    requires HeaderRead(ch, filled, headerEnd, head) && head.length < 0 && filled.buffer == gone + rest
    requires var frameEnd := headerEnd + head.length;
             if frameEnd >= 0 then |gone| == frameEnd
             else |rest| == if |filled.buffer| < -frameEnd then |filled.buffer| else -frameEnd
    requires body == if |gone| > headerEnd then gone[headerEnd..] else []
    ensures ReadStep(ch) ==
            (Response(head.status, headerEnd + head.length,
                      if head.status < 400 then None else Some(if |body| > 512 then body[..512] else body)),
             filled.(buffer := rest))
  {
    ReadOfHeader(ch, filled, headerEnd, head);
    hide HeaderLoop, Find, ParseHead, TakeFrame, ReadStep;
    TakeNegativeExact(filled, headerEnd, head, gone, rest, body);
  }

  lemma TakeNegativeExact(
    filled: Channel, headerEnd: nat, head: Head, gone: seq<Byte>, rest: seq<Byte>, body: seq<Byte>)
    requires headerEnd <= |filled.buffer| && head.Head? && head.length < 0 && filled.buffer == gone + rest
    requires var frameEnd := headerEnd + head.length;
             if frameEnd >= 0 then |gone| == frameEnd
             else |rest| == if |filled.buffer| < -frameEnd then |filled.buffer| else -frameEnd
    requires body == if |gone| > headerEnd then gone[headerEnd..] else []
    ensures TakeFrame(filled, headerEnd, head) ==
            (Response(head.status, headerEnd + head.length,
                      if head.status < 400 then None else Some(if |body| > 512 then body[..512] else body)),
             filled.(buffer := rest))
  {
    var frameEnd, buffer := headerEnd + head.length, filled.buffer;
    assert BodyLoop(filled, frameEnd) == (None, filled);
    hide BodyLoop;
    assert PyIndex(frameEnd, |buffer|) == |gone|;
    assert buffer[|gone|..] == rest;
    assert PySlice(buffer, headerEnd, frameEnd) == body by {
      if |gone| > headerEnd { assert buffer[headerEnd..|gone|] == gone[headerEnd..]; }
    }
    assert |body| <= 512 ==> body[..|body|] == body;
  }

  lemma ReadNegative(s: seq<Byte>, k: nat, head: Head)
    requires Find(s, HEADER_END, 0) == Some(k) && k + 4 <= SAFE_HEADER
    requires head == ParseHead(s[..k + 4]) && head.Head? && head.length < 0
    ensures ReadStep(At(s, 0, Ones(k + 4))) == TakeFrame(At(s, k + 4, []), k + 4, head)
  {
    hide ParseHead, HeaderLoop, Find, Ones, TakeFrame, ReadStep;
    ByteAtATime(s, 0, k);
    FindInPrefix(s, k + 4, HEADER_END);
    assert s[..k + 4][..k + 4] == s[..k + 4];
    ReadAfterHeader(At(s, 0, Ones(k + 4)), At(s, k + 4, []), k, head);
  }

  lemma NegativeLengthMisframes(s: seq<Byte>, k: nat, head: Head)
    requires Find(s, HEADER_END, 0) == Some(k) && k + 4 <= SAFE_HEADER
    requires head == ParseHead(s[..k + 4]) && head.Head? && head.length < 0
    ensures !FramedAt(s, Ones(k + 4), k + 4)
  {
    hide ParseHead, Find, Ones, TakeFrame, ReadStep, At;
    ReadNegative(s, k, head);
    TakeNegative(s, k + 4, head);
  }
}
