/** One pipelined HTTP/1.1 response reader: scripts/smoke/admission_capacity_transport.py.
    Responses are framed as in section 6.3 of RFC 9112; several share one receive buffer. */
module HttpFraming {
  import opened Search

  type Byte = x: int | 0 <= x < 256

  const CR: Byte := 13
  const LF: Byte := 10
  const SP: Byte := 32
  const COLON: Byte := 58
  const CRLF: seq<Byte> := [CR, LF]
  const HEADER_END: seq<Byte> := [CR, LF, CR, LF]
  /** "content-length" */
  const CONTENT_LENGTH: seq<Byte> := [99, 111, 110, 116, 101, 110, 116, 45, 108, 101, 110, 103, 116, 104]
  const RECV_SIZE: nat := 4096
  const HEADER_BOUND: nat := 16384
  /** The longest header block that no chunking can push over HEADER_BOUND. */
  const SAFE_HEADER: nat := HEADER_BOUND - RECV_SIZE + 1
  const SUMMARY_SIZE: nat := 512

  // ---------------------------------------------------------------- the channel

  /** What the peer and the network do at one `recv`: hand over some bytes, or fail. */
  datatype Event = Deliver(n: nat) | Fault

  /** `incoming` is everything the peer will still send before it closes; `plan` is how
      the network will cut it up. When the plan runs out, each `recv` fills its request. */
  datatype Channel = Channel(buffer: seq<Byte>, incoming: seq<Byte>, plan: seq<Event>)

  function Unread(ch: Channel): seq<Byte> { ch.buffer + ch.incoming }

  predicate FaultFree(plan: seq<Event>) { forall i :: 0 <= i < |plan| ==> plan[i].Deliver? }

  datatype Received = Chunk(bytes: seq<Byte>) | OsError

  function Min(a: int, b: int): int { if a <= b then a else b }
  function Max(a: int, b: int): int { if a >= b then a else b }

  /** `socket.recv(max)`: between 1 and `max` bytes in order, or none once the peer closed. */
  function Recv(ch: Channel, max: nat): (r: (Received, Channel))
    requires max > 0
    ensures r.1.buffer == ch.buffer
    ensures r.0.OsError? ==> !FaultFree(ch.plan)
    ensures FaultFree(ch.plan) ==> FaultFree(r.1.plan)
    ensures r.0.Chunk? ==> |r.0.bytes| <= max && r.0.bytes + r.1.incoming == ch.incoming
    ensures r.0.Chunk? ==> (r.0.bytes == [] <==> ch.incoming == [])
  {
    var rest := if ch.plan == [] then [] else ch.plan[1..];
    if ch.plan != [] && ch.plan[0].Fault? then (OsError, ch.(plan := rest))
    else
      var offered := if ch.plan == [] then max else Max(1, ch.plan[0].n);
      var size := Min(Min(offered, max), |ch.incoming|);
      (Chunk(ch.incoming[..size]), ch.(incoming := ch.incoming[size..], plan := rest))
  }

  // ---------------------------------------------------------------- header parsing

  /** Python's `bytes.strip()` and `int()` white space. */
  predicate IsSpace(b: Byte) { b == SP || 9 <= b <= 13 }

  /** Python's `str.split()` white space within ASCII. */
  predicate IsFieldSpace(b: Byte) { IsSpace(b) || 28 <= b <= 31 }

  predicate IsDigit(b: Byte) { 48 <= b <= 57 }

  function Lower(b: Byte): Byte { if 65 <= b <= 90 then b + 32 else b }

  /** `name.lower() == pat` for a lower-case `pat`. */
  predicate IsNamed(name: seq<Byte>, pat: seq<Byte>) {
    |name| == |pat| && forall i :: 0 <= i < |pat| ==> Lower(name[i]) == pat[i]
  }

  /** How many leading bytes are (`white` true) or are not (`white` false) field spaces. */
  function Run(s: seq<Byte>, white: bool): (n: nat)
    ensures n <= |s|
    ensures forall i :: 0 <= i < n ==> IsFieldSpace(s[i]) == white
    ensures n < |s| ==> IsFieldSpace(s[n]) != white
  {
    if s == [] || IsFieldSpace(s[0]) != white then 0 else 1 + Run(s[1..], white)
  }

  /** `line.split()[1]`, empty when there are fewer than two fields. */
  function SecondField(line: seq<Byte>): seq<Byte> {
    var a := line[Run(line, true)..];
    var b := a[Run(a, false)..];
    var c := b[Run(b, true)..];
    c[..Run(c, false)]
  }

  predicate AllDigits(s: seq<Byte>) { forall i :: 0 <= i < |s| ==> IsDigit(s[i]) }

  /** The value of the digits of `s`; single underscores between digits are skipped. */
  function DigitValue(s: seq<Byte>): nat {
    if s == [] then 0
    else
      var last := s[|s| - 1];
      if IsDigit(last) then DigitValue(s[..|s| - 1]) * 10 + (last - 48)
      else DigitValue(s[..|s| - 1])
  }

  function TrimLeft(s: seq<Byte>): seq<Byte> {
    if s != [] && IsSpace(s[0]) then TrimLeft(s[1..]) else s
  }

  function TrimRight(s: seq<Byte>): seq<Byte> {
    if s != [] && IsSpace(s[|s| - 1]) then TrimRight(s[..|s| - 1]) else s
  }

  const UNDERSCORE: Byte := 95

  predicate IsNumeral(s: seq<Byte>) {
    && s != [] && IsDigit(s[0]) && IsDigit(s[|s| - 1])
    && (forall i :: 0 <= i < |s| ==> IsDigit(s[i]) || s[i] == UNDERSCORE)
    && (forall i :: 0 < i < |s| ==> s[i] == UNDERSCORE ==> s[i - 1] != UNDERSCORE)
  }

  /** `int(value.strip())`; `None` where Python raises ValueError. */
  function ParseInt(value: seq<Byte>): Option<int> { ParseNumeral(TrimRight(TrimLeft(value))) }

  function ParseNumeral(t: seq<Byte>): Option<int> {
    var signed := t != [] && (t[0] == 43 || t[0] == 45);
    var digits := if signed then t[1..] else t;
    if !IsNumeral(digits) then None
    else var v: int := DigitValue(digits); Some(if signed && t[0] == 45 then -v else v)
  }

  /** `head.split(b"\r\n")`. */
  function Lines(s: seq<Byte>): (r: seq<seq<Byte>>)
    ensures r != []
    decreases |s|
  {
    match Find(s, CRLF, 0)
    case None => [s]
    case Some(k) => [s[..k]] + Lines(s[k + 2..])
  }

  /** One header line: `Some` of its value when it declares the content length. */
  function LengthField(line: seq<Byte>): Option<seq<Byte>> {
    match Find(line, [COLON], 0)
    case None => None
    case Some(k) => if IsNamed(line[..k], CONTENT_LENGTH) then Some(line[k + 1..]) else None
  }

  /** The first Content-Length line decides; none means zero. */
  function DeclaredLength(lines: seq<seq<Byte>>): Option<int> {
    if lines == [] then Some(0)
    else
      match LengthField(lines[0])
      case Some(value) => ParseInt(value)
      case None => DeclaredLength(lines[1..])
  }

  datatype ReadError =
    | ClosedBeforeHeaders | HeadersTooLong | MalformedStatus | ClosedBeforeBody  // SmokeError
    | SocketFault                                                                // OSError
    | BadContentLength                                                           // ValueError

  datatype Head = Head(status: nat, length: int) | BadHead(error: ReadError)

  /** Parse a header block that ends with its blank line. */
  function ParseHead(head: seq<Byte>): Head {
    var lines := Lines(head);
    var field := SecondField(lines[0]);
    if field == [] || !AllDigits(field) then BadHead(MalformedStatus)
    else
      match DeclaredLength(lines[1..])
      case None => BadHead(BadContentLength)
      case Some(n) => Head(DigitValue(field), n)
  }

  // ---------------------------------------------------------------- the reader, step by step

  datatype Read = Response(status: nat, consumed: int, summary: Option<seq<Byte>>) | Failed(error: ReadError)

  /** A Python slice bound: negative counts from the end, and both ends clamp. */
  function PyIndex(i: int, n: nat): (r: nat)
    ensures r <= n
    ensures 0 <= i <= n ==> r == i
  {
    if i < 0 then Max(0, n + i) else Min(i, n)
  }

  function PySlice(s: seq<Byte>, lo: nat, hi: int): seq<Byte>
    requires lo <= |s|
  {
    var h := PyIndex(hi, |s|);
    if h <= lo then [] else s[lo..h]
  }

  function Summary(status: nat, body: seq<Byte>): Option<seq<Byte>> {
    if status >= 400 then Some(body[..Min(SUMMARY_SIZE, |body|)]) else None
  }

  function HeaderLoop(ch: Channel): (r: (Option<ReadError>, Channel))
    ensures r.0.None? ==> Find(r.1.buffer, HEADER_END, 0).Some?
    decreases |ch.incoming|
  {
    if Find(ch.buffer, HEADER_END, 0).Some? then (None, ch)
    else
      var (got, next) := Recv(ch, RECV_SIZE);
      match got
      case OsError => (Some(SocketFault), next)
      case Chunk(bytes) =>
        if bytes == [] then (Some(ClosedBeforeHeaders), next)
        else
          var grown := next.(buffer := next.buffer + bytes);
          if |grown.buffer| > HEADER_BOUND then (Some(HeadersTooLong), grown) else HeaderLoop(grown)
  }

  function BodyLoop(ch: Channel, frameEnd: int): (r: (Option<ReadError>, Channel))
    ensures r.0.None? ==> |r.1.buffer| >= frameEnd
    ensures ch.buffer <= r.1.buffer
    decreases |ch.incoming|
  {
    if |ch.buffer| >= frameEnd then (None, ch)
    else
      var (got, next) := Recv(ch, Min(RECV_SIZE, frameEnd - |ch.buffer|));
      match got
      case OsError => (Some(SocketFault), next)
      case Chunk(bytes) =>
        if bytes == [] then (Some(ClosedBeforeBody), next)
        else BodyLoop(next.(buffer := next.buffer + bytes), frameEnd)
  }

  /** Once the header is parsed: complete the body, cut the frame off the buffer. */
  function TakeFrame(ch: Channel, headerEnd: nat, head: Head): (Read, Channel)
    requires headerEnd <= |ch.buffer| && head.Head?
  {
    var frameEnd := headerEnd + head.length;
    var (e, filled) := BodyLoop(ch, frameEnd);
    if e.Some? then (Failed(e.value), filled)
    else
      var body := PySlice(filled.buffer, headerEnd, frameEnd);
      (Response(head.status, frameEnd, Summary(head.status, body)),
       filled.(buffer := filled.buffer[PyIndex(frameEnd, |filled.buffer|)..]))
  }

  function ReadStep(ch: Channel): (Read, Channel) {
    var (e, filled) := HeaderLoop(ch);
    if e.Some? then (Failed(e.value), filled)
    else
      var headerEnd := Find(filled.buffer, HEADER_END, 0).value + 4;
      var head := ParseHead(filled.buffer[..headerEnd]);
      if head.BadHead? then (Failed(head.error), filled) else TakeFrame(filled, headerEnd, head)
  }

  /** The client's end of one connection, updated in place as the source updates its
      bytearray and its socket. */
  class HttpReader {
    var buffer: seq<Byte>
    var incoming: seq<Byte>
    var plan: seq<Event>

    constructor (incoming: seq<Byte>, plan: seq<Event>)
      ensures View() == Channel([], incoming, plan)
    {
      this.buffer, this.incoming, this.plan := [], incoming, plan;
    }

    function View(): Channel
      reads this
    { Channel(buffer, incoming, plan) }

    method Receive(max: nat) returns (r: Received)
      requires max > 0
      modifies this
      ensures (r, View()) == Recv(old(View()), max)
    {
      if plan != [] && plan[0].Fault? {
        plan := plan[1..];
        return OsError;
      }
      var offered := max;
      if plan != [] {
        offered, plan := Max(1, plan[0].n), plan[1..];
      }
      var size := Min(Min(offered, max), |incoming|);
      r := Chunk(incoming[..size]);
      incoming := incoming[size..];
    }

    /** Lines 320-326: receive until the buffer holds a blank line. */
    method FillHeader() returns (e: Option<ReadError>)
      modifies this
      ensures (e, View()) == HeaderLoop(old(View()))
    {
      while Find(buffer, HEADER_END, 0).None?
        invariant HeaderLoop(View()) == HeaderLoop(old(View()))
        decreases |incoming|
      {
        var got := Receive(RECV_SIZE);
        if got.OsError? { return Some(SocketFault); }
        if got.bytes == [] { return Some(ClosedBeforeHeaders); }
        buffer := buffer + got.bytes;
        if |buffer| > HEADER_BOUND { return Some(HeadersTooLong); }
      }
      e := None;
    }

    /** Lines 332-337: the first Content-Length line wins. */
    static method ScanLength(lines: seq<seq<Byte>>) returns (length: Option<int>)
      requires lines != []
      ensures length == DeclaredLength(lines[1..])
    {
      var i := 1;
      while i < |lines|
        invariant 1 <= i <= |lines|
        invariant DeclaredLength(lines[i..]) == DeclaredLength(lines[1..])
      {
        var value := LengthField(lines[i]);
        if value.Some? { return ParseInt(value.value); }
        assert lines[i..][1..] == lines[i + 1..];
        i := i + 1;
      }
      length := Some(0);
    }

    /** Lines 338-342: receive exactly up to the end of the frame. */
    method FillBody(frameEnd: int) returns (e: Option<ReadError>)
      modifies this
      ensures (e, View()) == BodyLoop(old(View()), frameEnd)
    {
      while |buffer| < frameEnd
        invariant BodyLoop(View(), frameEnd) == BodyLoop(old(View()), frameEnd)
        decreases |incoming|
      {
        var got := Receive(Min(RECV_SIZE, frameEnd - |buffer|));
        if got.OsError? { return Some(SocketFault); }
        if got.bytes == [] { return Some(ClosedBeforeBody); }
        buffer := buffer + got.bytes;
      }
      e := None;
    }

    /** Lines 328-337: the status line and the declared length of a header block. */
    static method Interpret(head: seq<Byte>) returns (r: Head)
      ensures r == ParseHead(head)
    {
      var lines := Lines(head);
      var field := SecondField(lines[0]);
      if field == [] || !AllDigits(field) { return BadHead(MalformedStatus); }
      var length := ScanLength(lines);
      if length.None? { return BadHead(BadContentLength); }
      r := Head(DigitValue(field), length.value);
    }

    /** Lines 338-347: complete the body, then delete the frame from the buffer. */
    method Consume(headerEnd: nat, head: Head) returns (r: Read)
      requires headerEnd <= |buffer| && head.Head?
      modifies this
      ensures (r, View()) == TakeFrame(old(View()), headerEnd, head)
    {
      var frameEnd := headerEnd + head.length;
      var e := FillBody(frameEnd);
      if e.Some? { return Failed(e.value); }
      var body := PySlice(buffer, headerEnd, frameEnd);
      buffer := buffer[PyIndex(frameEnd, |buffer|)..];
      r := Response(head.status, frameEnd, Summary(head.status, body));
    }

    method ReadResponse() returns (r: Read)
      modifies this
      ensures (r, View()) == ReadStep(old(View()))
    {
      hide Find, ParseHead, HeaderLoop, TakeFrame;
      var e := FillHeader();
      if e.Some? { return Failed(e.value); }
      var headerEnd := Find(buffer, HEADER_END, 0).value + 4;
      var head := Interpret(buffer[..headerEnd]);
      if head.BadHead? { return Failed(head.error); }
      r := Consume(headerEnd, head);
    }
  }
}
