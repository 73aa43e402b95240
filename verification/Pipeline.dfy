/** Batched request pipelining over one connection (section 9.3.2 of RFC 9112):
    scripts/smoke/admission_capacity_transport.py, `submit_connection`. */
module Pipeline {
  import opened Search
  import opened HttpFraming
  import opened HttpFramingTheorems
  import HttpReply

  const MAX_IN_FLIGHT: nat := 8

  datatype Request = Request(frame: seq<Byte>, expected: nat)

  datatype Failure = HttpStatus(status: nat, text: Option<seq<Byte>>) | Transport

  datatype Admission = Admission(
    status: nat, failure: Option<Failure>, requestBytes: nat, responseBytes: int, summary: Option<seq<Byte>>)

  const LOST: Admission := Admission(0, Some(Transport), 0, 0, None)

  /** What a run leaves on the wire, in order. */
  datatype Wire = Sent(count: nat) | Answered

  function Outstanding(trace: seq<Wire>): int {
    if trace == [] then 0
    else
      Outstanding(trace[..|trace| - 1]) +
      (match trace[|trace| - 1] case Sent(n) => n case Answered => -1)
  }

  function SentTotal(trace: seq<Wire>): nat {
    if trace == [] then 0
    else SentTotal(trace[..|trace| - 1]) + (match trace[|trace| - 1] case Sent(n) => n case Answered => 0)
  }

  /** At every moment of the run no more than eight requests await their answer. */
  predicate NeverOverfilled(trace: seq<Wire>) {
    forall i :: 0 <= i <= |trace| ==> 0 <= Outstanding(trace[..i]) <= MAX_IN_FLIGHT
  }

  predicate AllResponses(got: seq<Read>) { forall i :: 0 <= i < |got| ==> got[i].Response? }

  function Answer(request: Request, read: Read): Admission {
    match read
    case Response(status, consumed, summary) =>
      Admission(status, if status == request.expected then None else Some(HttpStatus(status, summary)),
                |request.frame|, consumed, summary)
    case Failed(_) => LOST
  }

  /** Request `i` paired with read `i`. */
  function Answers(requests: seq<Request>, got: seq<Read>): (r: seq<Admission>)
    ensures |r| == Min(|requests|, |got|)
    ensures forall i :: 0 <= i < |r| ==> r[i] == Answer(requests[i], got[i])
  {
    seq(Min(|requests|, |got|), i requires 0 <= i < Min(|requests|, |got|) => Answer(requests[i], got[i]))
  }

  /** Either a result list, or the ValueError that a bad Content-Length lets escape. */
  datatype Submission = Results(list: seq<Admission>) | Raised

  /** The stream holds `n` complete responses in a row, namely `got`. */
  ghost predicate Served(ch: Channel, n: nat, got: seq<Read>) {
    got == ReadMany(ch, n).0 && |got| == n && AllResponses(got)
  }

  /** Result `i` answers request `i` with the `i`-th response of the stream; after the answers
      comes at most one transport failure, and none only if every request was answered. */
  ghost predicate Faithful(requests: seq<Request>, ch: Channel, answered: nat, list: seq<Admission>) {
    && answered <= |requests| && answered <= |list|
    && (exists got :: Served(ch, answered, got) && list[..answered] == Answers(requests, got))
    && (list[answered..] == [LOST] || (list[answered..] == [] && answered == |requests|))
  }

  lemma LostMeans()
    ensures LOST == Admission(0, Some(Transport), 0, 0, None)
  {
  }

  lemma TrailingLoss(requests: seq<Request>, ch: Channel, answered: nat, list: seq<Admission>)
    requires Faithful(requests, ch, answered, list)
    ensures |list| > answered ==> list[answered] == LOST
  {
    hide Served;
    if |list| > answered { assert list[answered..][0] == list[answered]; }
  }

  lemma AppendTrace(trace: seq<Wire>, w: Wire)
    requires NeverOverfilled(trace)
    requires match w case Sent(n) => Outstanding(trace) + n <= MAX_IN_FLIGHT case Answered => Outstanding(trace) > 0
    ensures NeverOverfilled(trace + [w])
    ensures Outstanding(trace + [w]) == Outstanding(trace) + (match w case Sent(n) => n case Answered => -1)
    ensures SentTotal(trace + [w]) == SentTotal(trace) + (match w case Sent(n) => n case Answered => 0)
  {
    assert trace[..|trace|] == trace;
    var longer := trace + [w];
    assert longer[..|trace|] == trace;
    forall i | 0 <= i <= |longer| ensures 0 <= Outstanding(longer[..i]) <= MAX_IN_FLIGHT {
      if i <= |trace| { assert longer[..i] == trace[..i]; } else { assert longer[..i] == longer; }
    }
  }

  /** One more read continues a run of successful reads. */
  lemma {:induction false} ReadManySnoc(ch: Channel, n: nat)
    requires |ReadMany(ch, n).0| == n && AllResponses(ReadMany(ch, n).0)
    ensures var (rs, c) := ReadMany(ch, n);
            var (r, c') := ReadStep(c);
            ReadMany(ch, n + 1) == (rs + [r], c')
    decreases n
  {
    hide ReadStep;
    if n > 0 {
      var (r, c) := ReadStep(ch);
      var (rs, last) := ReadMany(ch, n);
      assert rs[0] == r;
      var (tail, last') := ReadMany(c, n - 1);
      assert rs == [r] + tail;
      assert forall i :: 0 <= i < |tail| ==> tail[i] == rs[i + 1];
      ReadManySnoc(c, n - 1);
      assert rs + [ReadStep(last).0] == [r] + (tail + [ReadStep(last).0]);
    } else {
      var (r, c) := ReadStep(ch);
      assert ReadMany(c, 0) == ([], c);
      assert [r] + [] == [] + [r] == [r];
    }
  }

  // ---------------------------------------------------------------- what a submission comes to

  /** How the `sendall` of a batch ends. */
  predicate Succeeds(sends: seq<bool>, batch: nat) { batch < |sends| ==> sends[batch] }

  /** How many of `n` requests go out, eight at a time, before a send fails. */
  function SentBy(sends: seq<bool>, n: nat, batch: nat): (k: nat)
    ensures k <= n
    decreases n - batch
  {
    if batch * MAX_IN_FLIGHT >= n then n
    else if !Succeeds(sends, batch) then batch * MAX_IN_FLIGHT
    else SentBy(sends, n, batch + 1)
  }

  /** Without batches: read one response after the other for as many requests as go out. The first
      failing read ends it; so does a send, or at the end the close, that fails. */
  function Outcome(requests: seq<Request>, ch: Channel, opens: bool, closes: bool, sends: seq<bool>): Submission {
    if !opens then Results([LOST])
    else
      var sent := SentBy(sends, |requests|, 0);
      var got := ReadMany(ch, sent).0;
      if got != [] && got[|got| - 1] == Failed(BadContentLength) then Raised
      else if got != [] && got[|got| - 1].Failed? then Results(Answers(requests, got[..|got| - 1]) + [LOST])
      else if sent < |requests| || !closes then Results(Answers(requests, got) + [LOST])
      else Results(Answers(requests, got))
  }

  /** How many of them are answered. */
  function AnsweredBy(requests: seq<Request>, ch: Channel, opens: bool, sends: seq<bool>): nat {
    if !opens then 0
    else
      var got := ReadMany(ch, SentBy(sends, |requests|, 0)).0;
      if got != [] && got[|got| - 1].Failed? then |got| - 1 else |got|
  }

  /** Eight requests, their eight answers, and so on. */
  function FullTrace(n: nat): seq<Wire> {
    if n == 0 then []
    else
      var k := Min(n, 8);
      [Sent(k)] + Replied(k) + FullTrace(n - k)
  }

  function Replied(n: nat): seq<Wire> { seq(n, _ => Answered) }

  /** The frames of some requests, one after the other. */
  function Joined(requests: seq<Request>): seq<Byte> {
    Flatten(seq(|requests|, i requires 0 <= i < |requests| => requests[i].frame))
  }

  lemma JoinedBatch(requests: seq<Request>, start: nat, stop: nat)
    requires start <= stop <= |requests|
    ensures Joined(requests[..stop]) == Joined(requests[..start]) + Joined(requests[start..stop])
  {
    var all := seq(stop, i requires 0 <= i < stop => requests[..stop][i].frame);
    var a := seq(start, i requires 0 <= i < start => requests[..start][i].frame);
    var b := seq(stop - start, i requires 0 <= i < stop - start => requests[start..stop][i].frame);
    assert all == a + b;
    FlattenConcat(a, b);
  }

  lemma JoinedNone(requests: seq<Request>)
    ensures Joined(requests[..0]) == []
  {
  }

  /** One connection to the daemon. `sends` says which `sendall` calls fail; opening covers connect
      and handshake. `wire` is all that was handed to `sendall`. */
  class Connection {
    const reader: HttpReader
    const opens: bool
    const closes: bool
    const sends: seq<bool>
    var trace: seq<Wire>
    var wire: seq<Byte>
    var answered: nat

    constructor (reader: HttpReader, opens: bool, closes: bool, sends: seq<bool>)
      ensures this.reader == reader && this.opens == opens && this.closes == closes && this.sends == sends
      ensures trace == [] && wire == [] && answered == 0
    {
      this.reader, this.opens, this.closes, this.sends := reader, opens, closes, sends;
      trace, wire, answered := [], [], 0;
    }

    predicate SendSucceeds(batch: nat) { Succeeds(sends, batch) }

    /** Nothing goes wrong on the client's side of the connection. */
    ghost predicate Reliable() { opens && closes && forall b: nat :: SendSucceeds(b) }

    method Submit(requests: seq<Request>) returns (r: Submission)
      requires trace == [] && wire == [] && answered == 0
      modifies this, reader
      ensures NeverOverfilled(trace)
      ensures SentTotal(trace) <= |requests| && Outstanding(trace) == SentTotal(trace) - answered
      ensures r.Results? ==> Faithful(requests, old(reader.View()), answered, r.list)
      ensures r.Raised? ==> answered < |requests| && Poisoned(old(reader.View()), answered)
      ensures forall got :: Reliable() && Served(old(reader.View()), |requests|, got) ==>
                              r == Results(Answers(requests, got))
      ensures Reliable() ==>
                (r.Raised? <==> exists n: nat :: n < |requests| && Poisoned(old(reader.View()), n))
      ensures Reliable() && r.Results? && answered < |requests| ==> BreaksOff(old(reader.View()), answered)
      ensures r == Outcome(requests, old(reader.View()), opens, closes, sends)
      ensures trace <= FullTrace(|requests|)
      ensures wire == Joined(requests[..SentTotal(trace)])
      ensures r.Results? && |r.list| > answered ==> r.list[answered] == Admission(0, Some(Transport), 0, 0, None)
    {
      LostMeans();
      hide *;
      ReliableSends(|requests|);
      OutcomeMeans(requests, reader.View(), opens, closes, sends);
      r := Exchange(requests);
      if r.Results? { TrailingLoss(requests, old(reader.View()), answered, r.list); }
    }

    lemma ReliableSends(n: nat)
      ensures Reliable() ==> opens && closes && SentBy(sends, n, 0) == n
    {
      if Reliable() {
        forall b: nat ensures Succeeds(sends, b) { assert SendSucceeds(b); }
        AllSendsSucceed(sends, n, 0);
      }
    }

    /** The batches, one after the other. */
    method Exchange(requests: seq<Request>) returns (r: Submission)
      requires trace == [] && wire == [] && answered == 0
      modifies this, reader
      ensures NeverOverfilled(trace)
      ensures SentTotal(trace) <= |requests| && Outstanding(trace) == SentTotal(trace) - answered
      ensures trace <= FullTrace(|requests|)
      ensures wire == Joined(requests[..SentTotal(trace)])
      ensures r == Outcome(requests, old(reader.View()), opens, closes, sends)
      ensures answered == AnsweredBy(requests, old(reader.View()), opens, sends)
    {
      hide FullTrace, Replied, Outcome, AnsweredBy, ReadStep, ReadMany, Progress, NeverOverfilled, Outstanding,
           SentTotal, Answer, Joined;
      ghost var ch := reader.View();
      NothingYet(requests, ch);
      EmptyTrace();
      JoinedNone(requests);
      if !opens {
        NotOpened(requests, ch, closes, sends);
        return Results([LOST]);
      }
      var list: seq<Admission> := [];
      var start, batch := 0, 0;
      while start < |requests|
        invariant 0 <= start <= |requests| && answered == start
        invariant NeverOverfilled(trace) && Outstanding(trace) == 0 && SentTotal(trace) == start
        invariant Progress(requests, ch, answered, list, reader.View())
        invariant start == Min(batch * MAX_IN_FLIGHT, |requests|)
        invariant SentBy(sends, |requests|, 0) == SentBy(sends, |requests|, batch)
        invariant trace + FullTrace(|requests| - start) == FullTrace(|requests|)
        invariant wire == Joined(requests[..start])
      {
        var stop := Min(start + MAX_IN_FLIGHT, |requests|);
        JoinedBatch(requests, start, stop);
        wire := wire + Joined(requests[start..stop]);
        FullTraceStep(trace, |requests| - start, |requests|);
        AppendTrace(trace, Sent(stop - start));
        trace := trace + [Sent(stop - start)];
        if !SendSucceeds(batch) {
          SendFails(requests, ch, answered, list, reader.View(), closes, sends);
          return Results(list + [LOST]);
        }
        SentByAtLeast(sends, |requests|, batch + 1);
        var e: Option<ReadError>;
        list, e := ReadBatch(requests, ch, list, stop);
        if e.Some? {
          ReadFails(requests, ch, answered, list, e.value, closes, sends);
          if e.value == BadContentLength { return Raised; }
          return Results(list + [LOST]);
        }
        start, batch := stop, batch + 1;
      }
      AllSent(requests, ch, list, reader.View(), closes, sends);
      if !closes { return Results(list + [LOST]); }
      r := Results(list);
    }

    /** Read the answers up to request `stop`, or to the first read that fails. */
    method ReadBatch(requests: seq<Request>, ghost ch: Channel, sofar: seq<Admission>, stop: nat)
      returns (list: seq<Admission>, e: Option<ReadError>)
      requires answered <= stop <= |requests|
      requires NeverOverfilled(trace) && Outstanding(trace) == stop - answered && SentTotal(trace) == stop
      requires Progress(requests, ch, answered, sofar, reader.View())
      requires trace + (Replied(stop - answered) + FullTrace(|requests| - stop)) == FullTrace(|requests|)
      modifies this`trace, this`answered, reader
      ensures answered <= stop && NeverOverfilled(trace)
      ensures Outstanding(trace) == stop - answered && SentTotal(trace) == stop
      ensures trace <= FullTrace(|requests|)
      ensures e.None? ==> answered == stop && Progress(requests, ch, answered, list, reader.View())
      ensures e.None? ==> trace + FullTrace(|requests| - stop) == FullTrace(|requests|)
      ensures e.Some? ==> answered < stop && Fails(requests, ch, answered, list, e.value)
    {
      hide FullTrace, Replied, ReadStep, ReadMany, Progress, NeverOverfilled, Outstanding, SentTotal, Answer;
      list := sofar;
      while answered < stop
        invariant answered <= stop
        invariant NeverOverfilled(trace) && Outstanding(trace) == stop - answered && SentTotal(trace) == stop
        invariant Progress(requests, ch, answered, list, reader.View())
        invariant trace + (Replied(stop - answered) + FullTrace(|requests| - stop)) == FullTrace(|requests|)
        decreases stop - answered
      {
        ghost var before := reader.View();
        var read := reader.ReadResponse();
        if read.Failed? {
          assert Fails(requests, ch, answered, list, read.error);
          return list, Some(read.error);
        }
        ProgressStep(requests, ch, answered, list, before, read, reader.View());
        RepliedStep(trace, stop - answered, FullTrace(|requests| - stop));
        list := list + [Answer(requests[answered], read)];
        AppendTrace(trace, Answered);
        trace := trace + [Answered];
        answered := answered + 1;
      }
      RepliedNone(trace, FullTrace(|requests| - stop));
      e := None;
    }
  }

  /** After `answered` good responses, collected in `list`, the next read fails with `e`. */
  ghost predicate Fails(requests: seq<Request>, ch: Channel, answered: nat, list: seq<Admission>, e: ReadError) {
    exists before :: Progress(requests, ch, answered, list, before) && ReadStep(before).0 == Failed(e)
  }

  /** After `n` good responses the next read fails with `e`. */
  ghost predicate BreaksWith(ch: Channel, n: nat, e: ReadError) {
    exists got :: Served(ch, n, got) && ReadMany(ch, n + 1).0 == got + [Failed(e)]
  }

  /** After `n` good responses the next one carries an unparsable Content-Length. */
  ghost predicate Poisoned(ch: Channel, n: nat) { BreaksWith(ch, n, BadContentLength) }

  /** After `n` good responses the connection breaks off in one of the ways the source catches. */
  ghost predicate BreaksOff(ch: Channel, n: nat) {
    exists e :: e != BadContentLength && BreaksWith(ch, n, e)
  }

  /** A stream breaks once, in one way, and serves nothing past the break. */
  lemma BreakIsUnique(ch: Channel, n: nat, e: ReadError, m: nat, e': ReadError)
    requires BreaksWith(ch, n, e) && BreaksWith(ch, m, e')
    ensures n == m && e == e'
  {
    hide ReadMany;
    var got :| Served(ch, n, got) && ReadMany(ch, n + 1).0 == got + [Failed(e)];
    var got' :| Served(ch, m, got') && ReadMany(ch, m + 1).0 == got' + [Failed(e')];
    NothingPastBreak(ch, n, e, m, got');
    NothingPastBreak(ch, m, e', n, got);
    assert (got + [Failed(e)])[n] == (got' + [Failed(e')])[m];
  }

  lemma NothingPastBreak(ch: Channel, n: nat, e: ReadError, m: nat, got: seq<Read>)
    requires BreaksWith(ch, n, e) && Served(ch, m, got)
    ensures m <= n
  {
    hide ReadMany;
    var some :| Served(ch, n, some) && ReadMany(ch, n + 1).0 == some + [Failed(e)];
    assert ReadMany(ch, n + 1).0[n] == Failed(e);
    if m > n { PrefixResponses(ch, n + 1, m); }
  }

  /** A connection that ended without raising met no unparsable length. */
  lemma NotPoisoned(requests: seq<Request>, ch: Channel, answered: nat, list: seq<Admission>)
    requires Faithful(requests, ch, answered, list)
    requires answered < |requests| ==> BreaksOff(ch, answered)
    ensures forall n: nat :: n < |requests| ==> !Poisoned(ch, n)
  {
    hide BreaksWith, Served;
    var got :| Served(ch, answered, got) && list[..answered] == Answers(requests, got);
    forall n: nat | n < |requests| && Poisoned(ch, n) ensures false {
      NothingPastBreak(ch, n, BadContentLength, answered, got);
      var e :| e != BadContentLength && BreaksWith(ch, answered, e);
      BreakIsUnique(ch, n, BadContentLength, answered, e);
    }
  }

  ghost predicate Progress(requests: seq<Request>, ch: Channel, answered: nat, list: seq<Admission>, now: Channel) {
    && answered <= |requests| && |list| == answered
    && ReadMany(ch, answered).1 == now
    && exists got :: Served(ch, answered, got) && list == Answers(requests, got)
  }

  // ---------------------------------------------------------------- the outcome, return by return

  lemma {:induction false} ReadManyStops(ch: Channel, k: nat, m: nat)
    requires k < m && |ReadMany(ch, k).0| == k && AllResponses(ReadMany(ch, k).0)
    requires ReadStep(ReadMany(ch, k).1).0.Failed?
    ensures ReadMany(ch, m).0 == ReadMany(ch, k).0 + [ReadStep(ReadMany(ch, k).1).0]
    decreases k
  {
    hide ReadStep;
    var (r, c) := ReadStep(ch);
    if k == 0 {
    } else {
      var rs := ReadMany(ch, k).0;
      var tail := ReadMany(c, k - 1).0;
      assert rs[0] == r && rs == [r] + tail;
      assert forall i :: 0 <= i < k - 1 ==> tail[i] == rs[i + 1];
      ReadManyStops(c, k - 1, m - 1);
      var last := ReadStep(ReadMany(ch, k).1).0;
      assert [r] + (tail + [last]) == rs + [last];
    }
  }

  /** What is known of the stream once `answered` requests are answered. */
  lemma ProgressMeans(requests: seq<Request>, ch: Channel, answered: nat, list: seq<Admission>, now: Channel)
    requires Progress(requests, ch, answered, list, now)
    ensures var (got, c) := ReadMany(ch, answered);
            && c == now && |got| == answered <= |requests| && AllResponses(got) && list == Answers(requests, got)
  {
    hide ReadMany;
  }

  lemma NotOpened(requests: seq<Request>, ch: Channel, closes: bool, sends: seq<bool>)
    ensures Outcome(requests, ch, false, closes, sends) == Results([LOST])
    ensures AnsweredBy(requests, ch, false, sends) == 0
    ensures [] <= FullTrace(|requests|)
  {
  }

  lemma {:induction false} SentByAtLeast(sends: seq<bool>, n: nat, batch: nat)
    ensures SentBy(sends, n, batch) >= Min(batch * MAX_IN_FLIGHT, n)
    decreases n - batch
  {
    if batch * MAX_IN_FLIGHT >= n || !Succeeds(sends, batch) {
    } else {
      SentByAtLeast(sends, n, batch + 1);
    }
  }

  lemma SendFails(requests: seq<Request>, ch: Channel, answered: nat, list: seq<Admission>, now: Channel,
                  closes: bool, sends: seq<bool>)
    requires Progress(requests, ch, answered, list, now)
    requires answered == SentBy(sends, |requests|, 0) < |requests|
    ensures Outcome(requests, ch, true, closes, sends) == Results(list + [LOST])
    ensures AnsweredBy(requests, ch, true, sends) == answered
  {
    ProgressMeans(requests, ch, answered, list, now);
    hide ReadMany, Progress, SentBy, Answers;
  }

  lemma AllSent(requests: seq<Request>, ch: Channel, list: seq<Admission>, now: Channel, closes: bool, sends: seq<bool>)
    requires Progress(requests, ch, |requests|, list, now) && SentBy(sends, |requests|, 0) == |requests|
    ensures Outcome(requests, ch, true, closes, sends) == if closes then Results(list) else Results(list + [LOST])
    ensures AnsweredBy(requests, ch, true, sends) == |requests|
  {
    ProgressMeans(requests, ch, |requests|, list, now);
    hide ReadMany, Progress, SentBy, Answers;
  }

  lemma ReadFails(requests: seq<Request>, ch: Channel, answered: nat, list: seq<Admission>, e: ReadError,
                  closes: bool, sends: seq<bool>)
    requires Fails(requests, ch, answered, list, e) && answered < SentBy(sends, |requests|, 0)
    ensures Outcome(requests, ch, true, closes, sends) ==
            if e == BadContentLength then Raised else Results(list + [LOST])
    ensures AnsweredBy(requests, ch, true, sends) == answered
  {
    var before :| Progress(requests, ch, answered, list, before) && ReadStep(before).0 == Failed(e);
    ProgressMeans(requests, ch, answered, list, before);
    hide ReadMany, Progress, SentBy, Answers, ReadStep;
    var sent := SentBy(sends, |requests|, 0);
    ReadManyStops(ch, answered, sent);
    var got := ReadMany(ch, sent).0;
    assert got[|got| - 1] == Failed(e) && got[..|got| - 1] == ReadMany(ch, answered).0;
  }

  // ---------------------------------------------------------------- what the outcome means

  lemma {:induction false} AllSendsSucceed(sends: seq<bool>, n: nat, batch: nat)
    requires forall b: nat :: Succeeds(sends, b)
    ensures SentBy(sends, n, batch) == n
    decreases n - batch
  {
    if batch * MAX_IN_FLIGHT >= n {
    } else {
      AllSendsSucceed(sends, n, batch + 1);
    }
  }

  /** Reading stops at the first failure, if there is one. */
  lemma {:induction false} ReadManyShape(ch: Channel, m: nat) returns (k: nat)
    ensures k <= m && |ReadMany(ch, k).0| == k && AllResponses(ReadMany(ch, k).0)
    ensures k == m ==> ReadMany(ch, m).0 == ReadMany(ch, k).0
    ensures k < m ==>
              var last := ReadStep(ReadMany(ch, k).1).0;
              last.Failed? && ReadMany(ch, m).0 == ReadMany(ch, k).0 + [last] && BreaksWith(ch, k, last.error)
    decreases m
  {
    hide ReadStep, BreaksWith, ReadMany;
    assert ReadMany(ch, 0) == ([], ch) by { NoReads(ch); }
    k := 0;
    while k < m && ReadStep(ReadMany(ch, k).1).0.Response?
      invariant 0 <= k <= m && |ReadMany(ch, k).0| == k && AllResponses(ReadMany(ch, k).0)
    {
      ReadManySnoc(ch, k);
      k := k + 1;
    }
    if k < m {
      ReadManyStops(ch, k, m);
      ReadManySnoc(ch, k);
      BreaksHere(ch, k);
    }
  }

  lemma NoReads(ch: Channel)
    ensures ReadMany(ch, 0) == ([], ch)
  {
  }

  lemma BreaksHere(ch: Channel, k: nat)
    requires |ReadMany(ch, k).0| == k && AllResponses(ReadMany(ch, k).0)
    requires ReadStep(ReadMany(ch, k).1).0.Failed?
    ensures BreaksWith(ch, k, ReadStep(ReadMany(ch, k).1).0.error)
  {
    hide ReadStep, ReadMany;
    ReadManySnoc(ch, k);
    assert Served(ch, k, ReadMany(ch, k).0);
  }

  /** The outcome in the terms of `Submit`'s contract. */
  lemma OutcomeMeans(requests: seq<Request>, ch: Channel, opens: bool, closes: bool, sends: seq<bool>)
    ensures var r, n := Outcome(requests, ch, opens, closes, sends), AnsweredBy(requests, ch, opens, sends);
            && (r.Results? ==> Faithful(requests, ch, n, r.list))
            && (r.Raised? ==> n < |requests| && Poisoned(ch, n))
    ensures var r, n := Outcome(requests, ch, opens, closes, sends), AnsweredBy(requests, ch, opens, sends);
            opens && closes && SentBy(sends, |requests|, 0) == |requests| ==>
              && (forall got :: Served(ch, |requests|, got) ==> r == Results(Answers(requests, got)))
              && (r.Raised? <==> exists k: nat :: k < |requests| && Poisoned(ch, k))
              && (r.Results? && n < |requests| ==> BreaksOff(ch, n))
  {
    var sent := SentBy(sends, |requests|, 0);
    var k := ReadManyShape(ch, sent);
    hide ReadMany, ReadStep, SentBy, BreaksWith;
    var got := ReadMany(ch, k).0;
    assert Served(ch, k, got);
    if !opens {
      NothingYet(requests, ch);
    } else if k < sent {
      OutcomeAtBreak(requests, ch, closes, sends, k);
    } else {
      OutcomeAtEnd(requests, ch, closes, sends);
    }
  }

  lemma OutcomeAtBreak(requests: seq<Request>, ch: Channel, closes: bool, sends: seq<bool>, k: nat)
    requires k < SentBy(sends, |requests|, 0) && |ReadMany(ch, k).0| == k && AllResponses(ReadMany(ch, k).0)
    requires var last := ReadStep(ReadMany(ch, k).1).0;
             && last.Failed? && BreaksWith(ch, k, last.error)
             && ReadMany(ch, SentBy(sends, |requests|, 0)).0 == ReadMany(ch, k).0 + [last]
    ensures AnsweredBy(requests, ch, true, sends) == k
    ensures var r := Outcome(requests, ch, true, closes, sends);
            && (r.Raised? ==> Poisoned(ch, k))
            && (r.Results? ==> Faithful(requests, ch, k, r.list) && BreaksOff(ch, k))
            && (forall n: nat :: n < |requests| && Poisoned(ch, n) ==> r.Raised?)
            && (forall got :: !Served(ch, |requests|, got))
  {
    var got, last := ReadMany(ch, k).0, ReadStep(ReadMany(ch, k).1).0;
    assert Served(ch, k, got);
    hide ReadMany, ReadStep, SentBy, BreaksWith, Served;
    assert (got + [last])[..k] == got;
    forall n: nat | Poisoned(ch, n) ensures last == Failed(BadContentLength) {
      BreakIsUnique(ch, k, last.error, n, BadContentLength);
    }
    forall more | Served(ch, |requests|, more) ensures false { NothingPastBreak(ch, k, last.error, |requests|, more); }
    var list := Answers(requests, got);
    assert (list + [LOST])[..k] == list && (list + [LOST])[k..] == [LOST];
  }

  lemma OutcomeAtEnd(requests: seq<Request>, ch: Channel, closes: bool, sends: seq<bool>)
    requires var sent := SentBy(sends, |requests|, 0);
             |ReadMany(ch, sent).0| == sent && AllResponses(ReadMany(ch, sent).0)
    ensures var sent := SentBy(sends, |requests|, 0);
            var r := Outcome(requests, ch, true, closes, sends);
            && AnsweredBy(requests, ch, true, sends) == sent
            && r.Results? && Faithful(requests, ch, sent, r.list)
            && (closes && sent == |requests| ==>
                  && (forall got :: Served(ch, |requests|, got) ==> r == Results(Answers(requests, got)))
                  && (forall n: nat :: n < |requests| ==> !Poisoned(ch, n)))
  {
    var sent := SentBy(sends, |requests|, 0);
    var got := ReadMany(ch, sent).0;
    assert Served(ch, sent, got);
    hide ReadMany, SentBy, BreaksWith;
    var list := Answers(requests, got);
    assert (list + [LOST])[..sent] == list && (list + [LOST])[sent..] == [LOST];
    assert list[..sent] == list && list[sent..] == [];
    if sent == |requests| {
      forall n: nat | n < |requests| && Poisoned(ch, n) ensures false {
        NothingPastBreak(ch, n, BadContentLength, sent, got);
      }
    }
  }

  lemma FullTraceStep(trace: seq<Wire>, left: nat, n: nat)
    requires left > 0 && trace + FullTrace(left) == FullTrace(n)
    ensures var k := Min(left, MAX_IN_FLIGHT);
            (trace + [Sent(k)]) + (Replied(k) + FullTrace(left - k)) == FullTrace(n)
  {
    var k := Min(left, MAX_IN_FLIGHT);
    assert FullTrace(left) == [Sent(k)] + Replied(k) + FullTrace(left - k);
    hide FullTrace, Replied;
    assert (trace + [Sent(k)]) + (Replied(k) + FullTrace(left - k)) ==
           trace + ([Sent(k)] + Replied(k) + FullTrace(left - k));
  }

  lemma RepliedStep(trace: seq<Wire>, k: nat, rest: seq<Wire>)
    requires k > 0
    ensures (trace + [Answered]) + (Replied(k - 1) + rest) == trace + (Replied(k) + rest)
  {
    assert Replied(k) == [Answered] + Replied(k - 1);
  }

  lemma RepliedNone(trace: seq<Wire>, rest: seq<Wire>)
    ensures trace + (Replied(0) + rest) == trace + rest
  {
    assert Replied(0) + rest == rest;
  }

  lemma EmptyTrace()
    ensures NeverOverfilled([]) && Outstanding([]) == 0 && SentTotal([]) == 0
  {
  }

  lemma NothingYet(requests: seq<Request>, ch: Channel)
    ensures Progress(requests, ch, 0, [], ch)
    ensures Faithful(requests, ch, 0, [LOST])
  {
    hide ReadStep;
    assert Served(ch, 0, []);
    assert Answers(requests, []) == [];
    assert [LOST][..0] == [];
  }

  /** One more response extends the answers. */
  lemma ProgressStep(requests: seq<Request>, ch: Channel, answered: nat, list: seq<Admission>,
                     before: Channel, read: Read, now: Channel)
    requires answered < |requests| && Progress(requests, ch, answered, list, before)
    requires ReadStep(before) == (read, now) && read.Response?
    ensures Progress(requests, ch, answered + 1, list + [Answer(requests[answered], read)], now)
  {
    hide ReadStep, ReadMany;
    var got :| Served(ch, answered, got) && list == Answers(requests, got);
    ReadManySnoc(ch, answered);
    assert (got + [read])[answered] == read;
    assert Served(ch, answered + 1, got + [read]);
    assert list + [Answer(requests[answered], read)] == Answers(requests, got + [read]);
  }

  /** A failing read shows up in every longer run. */
  lemma {:induction false} PrefixResponses(ch: Channel, n: nat, m: nat)
    requires n <= m
    ensures |ReadMany(ch, m).0| == m && AllResponses(ReadMany(ch, m).0) ==>
            |ReadMany(ch, n).0| == n && AllResponses(ReadMany(ch, n).0)
    decreases n
  {
    hide ReadStep;
    if n > 0 && |ReadMany(ch, m).0| == m && AllResponses(ReadMany(ch, m).0) {
      var (r, c) := ReadStep(ch);
      var rs := ReadMany(ch, m).0;
      assert rs[0] == r;
      var tail := ReadMany(c, m - 1).0;
      assert rs == [r] + tail;
      assert forall i :: 0 <= i < |tail| ==> tail[i] == rs[i + 1];
      PrefixResponses(c, n - 1, m - 1);
    }
  }

  /** The daemon's side: well-formed replies, written back to back and cut up in any way, are
      exactly what `Submit` turns into results, reply `i` for request `i`. */
  lemma RepliesAreServed(ch: Channel, replies: seq<HttpReply.Reply>, rest: seq<Byte>, requests: seq<Request>)
    requires FaultFree(ch.plan) && |requests| == |replies|
    requires Unread(ch) == Flatten(HttpReply.RenderAll(replies)) + rest
    requires forall i :: 0 <= i < |replies| ==>
               HttpReply.ReplyOk(replies[i]) && |HttpReply.RenderHead(replies[i])| <= SAFE_HEADER
    ensures exists got :: Served(ch, |requests|, got) && AnswersReplies(requests, replies, Answers(requests, got))
  {
    hide ReadMany, Flatten, HttpReply.RenderAll, HttpReply.ReplyOk, HttpReply.RenderHead, HttpReply.Render,
         HttpReply.ErrorText;
    HttpReply.RepliesRoundTrip(ch, replies, rest);
    var got := ReadMany(ch, |requests|).0;
    assert Served(ch, |requests|, got);
    assert AnswersReplies(requests, replies, Answers(requests, got));
  }

  /** After any number of good replies, one whose length field is no number makes `Submit` raise:
      the answers collected so far are lost. */
  lemma BadLengthPoisons(
    ch: Channel, replies: seq<HttpReply.Reply>, bad: HttpReply.Reply, length: seq<Byte>, rest: seq<Byte>)
    requires FaultFree(ch.plan)
    requires forall i :: 0 <= i < |replies| ==>
               HttpReply.ReplyOk(replies[i]) && |HttpReply.RenderHead(replies[i])| <= SAFE_HEADER
    requires HttpReply.ReplyOk(bad) && HttpReply.Clean(length) && ParseInt(length).None?
    requires |HttpReply.RenderHeadSaying(bad, length)| <= SAFE_HEADER
    requires Unread(ch) == Flatten(HttpReply.RenderAll(replies)) + (HttpReply.RenderHeadSaying(bad, length) + rest)
    ensures Poisoned(ch, |replies|)
  {
    hide ReadMany, ReadStep, Flatten, ParseInt, HttpReply.RenderAll, HttpReply.ReplyOk, HttpReply.RenderHead,
         HttpReply.Render, HttpReply.RenderHeadSaying, HttpReply.Clean;
    var n := |replies|;
    HttpReply.RepliesRoundTrip(ch, replies, HttpReply.RenderHeadSaying(bad, length) + rest);
    var (got, c) := ReadMany(ch, n);
    HttpReply.BadLengthRaises(c, bad, length, rest);
    assert Served(ch, n, got);
    ReadManySnoc(ch, n);
  }

  // ---------------------------------------------------------------- when a stream makes it raise

  /** The header block at the front of the stream has a good status, and its first length field is
      no number. */
  ghost predicate BadLengthAhead(s: seq<Byte>) {
    match Find(s, HEADER_END, 0)
    case None => false
    case Some(k) =>
      var lines := Lines(s[..k + 4]);
      var status := SecondField(lines[0]);
      status != [] && AllDigits(status) && exists i: nat :: FirstLengthIsBad(lines[1..], i)
  }

  /** Line `i` is the first to declare a length, and what it declares is no number. */
  predicate FirstLengthIsBad(lines: seq<seq<Byte>>, i: nat) {
    && i < |lines| && (forall j :: 0 <= j < i ==> LengthField(lines[j]).None?)
    && LengthField(lines[i]).Some? && ParseInt(LengthField(lines[i]).value).None?
  }

  lemma {:induction false} DeclaredLengthFails(lines: seq<seq<Byte>>)
    ensures DeclaredLength(lines).None? <==> exists i: nat :: FirstLengthIsBad(lines, i)
  {
    hide LengthField, ParseInt;
    if lines == [] {
    } else {
      match LengthField(lines[0])
      case Some(value) =>
        assert FirstLengthIsBad(lines, 0) <==> ParseInt(value).None?;
      case None =>
        DeclaredLengthFails(lines[1..]);
        if i: nat :| FirstLengthIsBad(lines[1..], i) { assert FirstLengthIsBad(lines, i + 1); }
        if i: nat :| FirstLengthIsBad(lines, i) { assert FirstLengthIsBad(lines[1..], i - 1); }
    }
  }

  lemma BadLengthMeans(s: seq<Byte>)
    requires !NegativeLength(s)
    ensures FrameOf(s) == Failed(BadContentLength) <==> BadLengthAhead(s)
  {
    hide Find, FirstLengthIsBad, SecondField, DeclaredLength, Lines;
    match Find(s, HEADER_END, 0)
    case None =>
    case Some(k) => DeclaredLengthFails(Lines(s[..k + 4])[1..]);
  }

  /** The first `n` frames of the stream, and where each of its headers is, cannot upset the reader. */
  predicate Tame(s: seq<Byte>, n: nat)
    decreases n
  {
    n == 0 ||
    (&& Fits(s) && !NegativeLength(s)
     && (FrameOf(s).Response? && 0 <= FrameOf(s).consumed <= |s| ==> Tame(s[FrameOf(s).consumed..], n - 1)))
  }

  /** `n` complete frames, then a header block whose length is no number. */
  ghost predicate BadLengthAfter(s: seq<Byte>, n: nat)
    decreases n
  {
    if n == 0 then BadLengthAhead(s)
    else FrameOf(s).Response? && 0 <= FrameOf(s).consumed <= |s| && BadLengthAfter(s[FrameOf(s).consumed..], n - 1)
  }

  lemma BreaksAtOnce(ch: Channel, e: ReadError)
    ensures BreaksWith(ch, 0, e) <==> ReadStep(ch).0 == Failed(e)
  {
    hide ReadStep;
    var (r, c) := ReadStep(ch);
    assert ReadMany(ch, 0).0 == [] && ReadMany(c, 0).0 == [];
    assert ReadMany(ch, 1).0 == [r];
    assert [] + [Failed(e)] == [Failed(e)];
    if r == Failed(e) { assert Served(ch, 0, []); }
    if BreaksWith(ch, 0, e) {
      var got :| Served(ch, 0, got) && ReadMany(ch, 1).0 == got + [Failed(e)];
      assert got == [];
      assert [r][0] == [Failed(e)][0];
    }
  }

  lemma BreaksLater(ch: Channel, n: nat, e: ReadError)
    requires n > 0
    ensures BreaksWith(ch, n, e) <==> ReadStep(ch).0.Response? && BreaksWith(ReadStep(ch).1, n - 1, e)
  {
    hide ReadStep;
    var (r, c) := ReadStep(ch);
    if BreaksWith(ch, n, e) {
      var got :| Served(ch, n, got) && ReadMany(ch, n + 1).0 == got + [Failed(e)];
      assert got[0] == r && got == [r] + got[1..];
      assert ReadMany(c, n).0 == (got + [Failed(e)])[1..] == got[1..] + [Failed(e)];
      assert forall i :: 0 <= i < n - 1 ==> got[1..][i] == got[i + 1];
      assert Served(c, n - 1, got[1..]);
    }
    if r.Response? && BreaksWith(c, n - 1, e) {
      var got :| Served(c, n - 1, got) && ReadMany(c, n).0 == got + [Failed(e)];
      assert Served(ch, n, [r] + got);
      assert ReadMany(ch, n + 1).0 == ([r] + got) + [Failed(e)];
    }
  }

  /** In bytes: without faults, on a stream whose headers fit, a submission meets the ValueError
      after `n` answers if and only if the stream is `n` frames and then such a header block. */
  lemma {:induction false} PoisonedIff(ch: Channel, n: nat)
    requires FaultFree(ch.plan) && Tame(Unread(ch), n + 1)
    ensures Poisoned(ch, n) <==> BadLengthAfter(Unread(ch), n)
    decreases n
  {
    hide ReadStep, BreaksWith, FrameOf, Fits, NegativeLength, BadLengthAhead, FaultFree;
    var s := Unread(ch);
    ReadMatchesReference(ch);
    if n == 0 {
      BreaksAtOnce(ch, BadContentLength);
      BadLengthMeans(s);
    } else {
      BreaksLater(ch, n, BadContentLength);
      if ReadStep(ch).0.Response? { PoisonedIff(ReadStep(ch).1, n - 1); }
    }
  }

  /** Each result carries its reply's status, sizes and error text, and no failure exactly when the
      status was the expected one. */
  predicate AnswersReplies(requests: seq<Request>, replies: seq<HttpReply.Reply>, list: seq<Admission>) {
    && |list| == |requests| == |replies|
    && forall i :: 0 <= i < |list| ==>
         var status, text := replies[i].status, HttpReply.ErrorText(replies[i]);
         list[i] == Admission(
           status, if status == requests[i].expected then None else Some(HttpStatus(status, text)),
           |requests[i].frame|, |HttpReply.Render(replies[i])|, text)
  }
}
