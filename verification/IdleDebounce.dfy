/** The idle debounce between lifecycle-hook processes that share one pending file:
    scripts/hooks/atm_queue_hook.py. Each file-system call and each heartbeat is one step;
    steps of different processes interleave in any order. Writing is two steps, as
    `Path.write_text` is: open with truncation, then fill what was opened, even if some other
    process has unlinked it meanwhile. */
module IdleDebounce {
  import opened Search

  type Token = string

  datatype File = File(inode: nat, content: Token)

  /** Where one Stop and the detached expiry it spawns stand. */
  datatype Phase =
    | Filling              // Stop has opened the file, not written yet
    | Waiting              // token written, expiry spawned and sleeping out the delay
    | Matched              // expiry read its own token, about to unlink
    | Unlinked             // its unlink succeeded, about to send
    | Done(sent: bool)

  /** `inode` is the file Stop opened. */
  datatype Proc = Proc(token: Token, inode: nat, phase: Phase)

  /** The shared file, every Stop with its expiry in start order, and a tally of what became
      of each pending file. */
  datatype Host = Host(
    pending: Option<File>, procs: seq<Proc>, stops: nat, overwritten: nat, cancelled: nat, claimed: nat, idleSent: nat)

  const INITIAL: Host := Host(None, [], 0, 0, 0, 0, 0)

  /** One step of one process: Stop opens, then fills; PreToolUse and SessionEnd cancel;
      expiry `i` reads, unlinks and sends. */
  datatype Event =
    StopOpens(token: Token) | StopFills(i: nat) | Cancel | Read(i: nat) | Unlink(i: nat) | Send(i: nat)

  function One(b: bool): nat { if b then 1 else 0 }

  predicate Enabled(h: Host, i: nat, phase: Phase) { i < |h.procs| && h.procs[i].phase == phase }

  function Move(h: Host, i: nat, phase: Phase): Host
    requires i < |h.procs|
  { h.(procs := h.procs[i := h.procs[i].(phase := phase)]) }

  /** An existing file keeps its inode when truncated; a new file gets a fresh one. */
  function InodeFor(h: Host): nat { if h.pending.Some? then h.pending.value.inode else h.stops }

  /** A step that its process cannot take leaves everything as it is. */
  function Next(h: Host, e: Event): Host {
    match e
    case StopOpens(token) =>
      h.(pending := Some(File(InodeFor(h), "")), procs := h.procs + [Proc(token, InodeFor(h), Filling)],
         stops := h.stops + 1, overwritten := h.overwritten + One(h.pending.Some?))
    case StopFills(i) =>
      if !Enabled(h, i, Filling) then h
      else if h.pending.Some? && h.pending.value.inode == h.procs[i].inode then
        Move(h, i, Waiting).(pending := Some(File(h.procs[i].inode, h.procs[i].token)))
      else Move(h, i, Waiting)
    case Cancel => h.(pending := None, cancelled := h.cancelled + One(h.pending.Some?))
    case Read(i) =>
      if !Enabled(h, i, Waiting) then h
      else if h.pending.Some? && h.pending.value.content == h.procs[i].token then
        Move(h, i, Matched)
      else Move(h, i, Done(false))
    case Unlink(i) =>
      if !Enabled(h, i, Matched) then h
      else if h.pending.None? then Move(h, i, Done(false))
      else Move(h, i, Unlinked).(pending := None, claimed := h.claimed + 1)
    case Send(i) =>
      if !Enabled(h, i, Unlinked) then h
      else Move(h, i, Done(true)).(idleSent := h.idleSent + 1)
  }

  function Run(h: Host, events: seq<Event>): Host {
    if events == [] then h
    else Next(Run(h, events[..|events| - 1]), events[|events| - 1])
  }

  lemma RunSnoc(h: Host, events: seq<Event>, e: Event)
    ensures Run(h, events + [e]) == Next(Run(h, events), e)
  {
    assert (events + [e])[..|events|] == events;
  }

  lemma {:induction false} RunConcat(h: Host, a: seq<Event>, b: seq<Event>)
    ensures Run(h, a + b) == Run(Run(h, a), b)
  {
    if b == [] {
      assert a + b == a;
    } else {
      assert (a + b)[..|a + b| - 1] == a + b[..|b| - 1];
      RunConcat(h, a, b[..|b| - 1]);
    }
  }

  // ---------------------------------------------------------------- conservation

  /** Expiries that unlinked the file and have not sent yet. */
  function InFlight(procs: seq<Proc>): nat {
    if procs == [] then 0
    else InFlight(procs[..|procs| - 1]) + One(procs[|procs| - 1].phase == Unlinked)
  }

  lemma {:induction false} InFlightUpdate(xs: seq<Proc>, i: nat, x: Proc)
    requires i < |xs|
    ensures InFlight(xs[i := x]) + One(xs[i].phase == Unlinked) == InFlight(xs) + One(x.phase == Unlinked)
  {
    var n := |xs| - 1;
    if i == n {
      assert xs[i := x][..n] == xs[..n];
    } else {
      InFlightUpdate(xs[..n], i, x);
      assert xs[i := x][..n] == xs[..n][i := x];
    }
  }

  lemma InFlightSnoc(xs: seq<Proc>, x: Proc)
    ensures InFlight(xs + [x]) == InFlight(xs) + One(x.phase == Unlinked)
  {
    assert (xs + [x])[..|xs|] == xs;
  }

  lemma {:induction false} NoneInFlight(xs: seq<Proc>)
    ensures InFlight(xs) == 0 <==> forall i :: 0 <= i < |xs| ==> xs[i].phase != Unlinked
  {
    if xs == [] {
    } else {
      NoneInFlight(xs[..|xs| - 1]);
    }
  }

  /** Every pending file a Stop ever opened was overwritten, cancelled, claimed by one expiry, or
      is still there; and every claim is one idle heartbeat, sent or about to be. */
  predicate Balanced(h: Host) {
    && h.stops == h.overwritten + h.cancelled + h.claimed + One(h.pending.Some?)
    && h.claimed == h.idleSent + InFlight(h.procs)
    && |h.procs| == h.stops
  }

  lemma BalancedNext(h: Host, e: Event)
    requires Balanced(h)
    ensures Balanced(Next(h, e))
  {
    hide InFlight;
    match e
    case StopOpens(token) => InFlightSnoc(h.procs, Proc(token, InodeFor(h), Filling));
    case Cancel =>
    case StopFills(i) => UpdateAll(h, i);
    case Read(i) => UpdateAll(h, i);
    case Unlink(i) => UpdateAll(h, i);
    case Send(i) => UpdateAll(h, i);
  }

  lemma UpdateAll(h: Host, i: nat)
    ensures i < |h.procs| ==> forall x ::
              InFlight(h.procs[i := x]) + One(h.procs[i].phase == Unlinked)
              == InFlight(h.procs) + One(x.phase == Unlinked)
  {
    if i < |h.procs| {
      forall x
        ensures InFlight(h.procs[i := x]) + One(h.procs[i].phase == Unlinked)
                == InFlight(h.procs) + One(x.phase == Unlinked)
      {
        InFlightUpdate(h.procs, i, x);
      }
    }
  }

  /** In every interleaving the tally balances; so idle heartbeats never exceed Stops. */
  lemma {:induction false} Conservation(events: seq<Event>)
    ensures Balanced(Run(INITIAL, events))
    ensures Run(INITIAL, events).idleSent <= Run(INITIAL, events).stops
  {
    if events == [] {
    } else {
      Conservation(events[..|events| - 1]);
      BalancedNext(Run(INITIAL, events[..|events| - 1]), events[|events| - 1]);
    }
  }

  // ---------------------------------------------------------------- the last Stop fires

  predicate Quiet(events: seq<Event>) {
    forall j :: 0 <= j < |events| ==> !events[j].StopOpens? && !events[j].Cancel?
  }

  predicate AllDone(h: Host) { forall i :: 0 <= i < |h.procs| ==> h.procs[i].phase.Done? }

  /** Process `j` will still see to the pending file: it has yet to write it, or its token is
      the content and it has yet to unlink. */
  predicate Responsible(h: Host, j: nat) {
    && h.pending.Some? && j < |h.procs|
    && match h.procs[j].phase
       case Filling => h.procs[j].inode == h.pending.value.inode
       case Waiting => h.procs[j].token == h.pending.value.content
       case Matched => h.procs[j].token == h.pending.value.content
       case _ => false
  }

  /** What a run without a new Stop or a cancel keeps: either nobody has claimed the file and some
      process is responsible for it, or exactly one expiry claimed it. */
  ghost predicate Settling(at: Host, h: Host) {
    if h.pending.Some? then h.claimed == at.claimed && exists j: nat :: Responsible(h, j)
    else h.claimed == at.claimed + 1
  }

  lemma SettlingNext(at: Host, h: Host, e: Event)
    requires Settling(at, h) && !e.StopOpens? && !e.Cancel?
    ensures Settling(at, Next(h, e))
  {
    var n := Next(h, e);
    if h.pending.Some? && n.pending.Some? {
      var j: nat :| Responsible(h, j);
      if e.StopFills? && Enabled(h, e.i, Filling) && h.procs[e.i].inode == h.pending.value.inode {
        assert Responsible(n, e.i);
      } else {
        assert Responsible(n, j);
      }
    }
  }

  lemma {:induction false} SettlingRun(at: Host, events: seq<Event>)
    requires Quiet(events) && Settling(at, at)
    ensures Settling(at, Run(at, events))
  {
    if events == [] {
    } else {
      hide Next, Settling;
      SettlingRun(at, events[..|events| - 1]);
      SettlingNext(at, Run(at, events[..|events| - 1]), events[|events| - 1]);
    }
  }

  /** In every interleaving: after the last Stop opens the file, if nothing cancels and all
      processes have finished, the file is gone and exactly one claim was made since, whose
      heartbeat has been sent, whichever process made it. */
  lemma LastStopFires(before: seq<Event>, token: Token, after: seq<Event>)
    requires Quiet(after)
    requires AllDone(Run(INITIAL, before + [StopOpens(token)] + after))
    ensures var at := Run(INITIAL, before + [StopOpens(token)]);
            var end := Run(INITIAL, before + [StopOpens(token)] + after);
            && end.pending == None
            && end.claimed == at.claimed + 1
            && end.idleSent == end.claimed && end.idleSent > at.idleSent
  {
    hide Run;
    var upto := before + [StopOpens(token)];
    var at, end := Run(INITIAL, upto), Run(INITIAL, upto + after);
    RunSnoc(INITIAL, before, StopOpens(token));
    RunConcat(INITIAL, upto, after);
    Conservation(upto);
    Conservation(upto + after);
    assert Responsible(at, |at.procs| - 1);
    SettlingRun(at, after);
    NoneInFlight(end.procs);
  }

  // ---------------------------------------------------------------- cancelling

  predicate NoStop(events: seq<Event>) { forall j :: 0 <= j < |events| ==> !events[j].StopOpens? }

  /** After a cancel nothing more is claimed, and only expiries past their unlink may send. */
  predicate Silenced(at: Host, h: Host) {
    && h.pending == None && h.claimed == at.claimed && |h.procs| == |at.procs|
    && forall i :: 0 <= i < |h.procs| ==>
         && (h.procs[i].phase == Unlinked ==> at.procs[i].phase == Unlinked)
         && (h.procs[i].phase == Done(true) ==>
               at.procs[i].phase == Unlinked || at.procs[i].phase == Done(true))
  }

  lemma {:induction false} SilencedRun(at: Host, events: seq<Event>)
    requires NoStop(events) && at.pending == None
    ensures Silenced(at, Run(at, events))
  {
    if events == [] {
    } else {
      SilencedRun(at, events[..|events| - 1]);
    }
  }

  /** From a cancel until the next Stop no expiry can claim the file, every later idle heartbeat
      comes from a process already past its unlink, and there are at most that many. */
  lemma CancelSilences(before: seq<Event>, after: seq<Event>)
    requires NoStop(after)
    ensures var at := Run(INITIAL, before + [Cancel]);
            var end := Run(INITIAL, before + [Cancel] + after);
            Silenced(at, end) && end.idleSent <= at.idleSent + InFlight(at.procs)
  {
    hide Run;
    var upto := before + [Cancel];
    RunSnoc(INITIAL, before, Cancel);
    RunConcat(INITIAL, upto, after);
    Conservation(upto);
    Conservation(upto + after);
    SilencedRun(Run(INITIAL, upto), after);
  }

  /** A stray idle heartbeat can follow a cancel exactly when some expiry sits between its
      unlink and its send at that moment. */
  lemma StrayHeartbeatIff(before: seq<Event>)
    ensures var at := Run(INITIAL, before + [Cancel]);
            (exists after :: NoStop(after) && Run(at, after).idleSent > at.idleSent)
            <==> exists i :: 0 <= i < |at.procs| && at.procs[i].phase == Unlinked
  {
    var upto := before + [Cancel];
    var at := Run(INITIAL, upto);
    NoneInFlight(at.procs);
    forall after | NoStop(after) ensures Run(at, after).idleSent <= at.idleSent + InFlight(at.procs) {
      RunConcat(INITIAL, upto, after);
      CancelSilences(before, after);
    }
    if i :| 0 <= i < |at.procs| && at.procs[i].phase == Unlinked {
      RunSnoc(at, [], Send(i));
      assert [] + [Send(i)] == [Send(i)];
      assert NoStop([Send(i)]) && Run(at, [Send(i)]).idleSent > at.idleSent;
    }
  }

  /** Such a run: one Stop, its expiry reads and unlinks, a tool starts, and the heartbeat goes out. */
  lemma StrayHeartbeatHappens(token: Token)
    ensures var at := Run(INITIAL, [StopOpens(token), StopFills(0), Read(0), Unlink(0)] + [Cancel]);
            && |at.procs| == 1 && at.procs[0].phase == Unlinked
            && Run(at, [Send(0)]).idleSent == at.idleSent + 1
  {
    var started := [StopOpens(token)];
    var filled := started + [StopFills(0)];
    var read := filled + [Read(0)];
    var unlinked := read + [Unlink(0)];
    assert [StopOpens(token), StopFills(0), Read(0), Unlink(0)] == unlinked;
    assert [] + started == started && [] + [Send(0)] == [Send(0)];
    var at := Run(INITIAL, unlinked + [Cancel]);
    assert Run(INITIAL, []) == INITIAL && Run(at, []) == at;
    hide Run;
    RunSnoc(INITIAL, [], StopOpens(token));
    RunSnoc(INITIAL, started, StopFills(0));
    RunSnoc(INITIAL, filled, Read(0));
    RunSnoc(INITIAL, read, Unlink(0));
    RunSnoc(INITIAL, unlinked, Cancel);
    RunSnoc(at, [], Send(0));
  }

  // ---------------------------------------------------------------- the debounce

  /** The pending file holds the token of expiry `i`. */
  predicate HoldsOwn(h: Host, i: nat) {
    i < |h.procs| && h.pending.Some? && h.pending.value.content == h.procs[i].token
  }

  lemma {:induction false} SilentForGood(h: Host, i: nat, events: seq<Event>)
    requires Enabled(h, i, Done(false))
    ensures Enabled(Run(h, events), i, Done(false))
  {
    if events == [] {
    } else {
      SilentForGood(h, i, events[..|events| - 1]);
    }
  }

  /** A superseded expiry is silent: if the file is gone or holds another token when it reads, it
      never claims and never sends, whatever happens afterwards. */
  lemma SupersededIsSilent(before: seq<Event>, i: nat, after: seq<Event>)
    requires var h := Run(INITIAL, before); Enabled(h, i, Waiting) && !HoldsOwn(h, i)
    ensures Enabled(Run(INITIAL, before + [Read(i)] + after), i, Done(false))
  {
    RunSnoc(INITIAL, before, Read(i));
    RunConcat(INITIAL, before + [Read(i)], after);
    SilentForGood(Run(INITIAL, before + [Read(i)]), i, after);
  }

  /** The file held the token of expiry `i` when it read, at step `k`. */
  predicate ReadOwnAt(events: seq<Event>, i: nat, k: nat) {
    k < |events| && events[k] == Read(i) &&
    var h := Run(INITIAL, events[..k]); Enabled(h, i, Waiting) && HoldsOwn(h, i)
  }

  /** Conversely, in every interleaving: whoever is about to unlink, has unlinked or has sent found
      its own token in the file when it read. */
  lemma {:induction false} OnlyOwnTokenMatches(events: seq<Event>, i: nat)
    requires var h := Run(INITIAL, events);
             i < |h.procs| && h.procs[i].phase in {Matched, Unlinked, Done(true)}
    ensures exists k: nat :: ReadOwnAt(events, i, k)
  {
    var n := |events| - 1;
    var h, e := Run(INITIAL, events[..n]), events[n];
    if i < |h.procs| && h.procs[i].phase in {Matched, Unlinked, Done(true)} {
      OnlyOwnTokenMatches(events[..n], i);
      var k: nat :| ReadOwnAt(events[..n], i, k);
      assert events[..n][..k] == events[..k];
      assert ReadOwnAt(events, i, k);
    } else {
      assert ReadOwnAt(events, i, n);
    }
  }

  /** Two Stops in a row: the first expiry finds the second token and gives up; only the second
      Stop's own expiry, after its own delay, sends. */
  lemma SecondStopRestartsDelay(h: Host, a: Token, b: Token)
    requires h.pending == None && a != b
    ensures var i := |h.procs|;
            var both := Next(Next(Next(Next(h, StopOpens(a)), StopFills(i)), StopOpens(b)), StopFills(i + 1));
            var first := Next(Next(Next(both, Read(i)), Unlink(i)), Send(i));
            var second := Next(Next(Next(first, Read(i + 1)), Unlink(i + 1)), Send(i + 1));
            && first.idleSent == h.idleSent && first.pending == both.pending
            && second.idleSent == h.idleSent + 1 && second.pending == None
  {
    var i, f := |h.procs|, h.stops;
    var h1 := Next(Next(h, StopOpens(a)), StopFills(i));
    assert h1.procs == h.procs + [Proc(a, f, Waiting)];
    var both := Next(Next(h1, StopOpens(b)), StopFills(i + 1));
    assert both.procs == h.procs + [Proc(a, f, Waiting), Proc(b, f, Waiting)];
    var read := Next(both, Read(i));
    assert read.procs == h.procs + [Proc(a, f, Done(false)), Proc(b, f, Waiting)];
    var match2 := Next(read, Read(i + 1));
    assert match2.procs == h.procs + [Proc(a, f, Done(false)), Proc(b, f, Matched)];
    var gone := Next(match2, Unlink(i + 1));
    assert gone.procs == h.procs + [Proc(a, f, Done(false)), Proc(b, f, Unlinked)];
  }

  /** Overlapping Stops share one file, so the slower writer wins: the older token ends up in it. */
  lemma SlowerFillWins(h: Host, a: Token, b: Token)
    ensures var i := |h.procs|;
            var end := Next(Next(Next(Next(h, StopOpens(a)), StopOpens(b)), StopFills(i + 1)), StopFills(i));
            end.pending.Some? && end.pending.value.content == a
  {
    var i := |h.procs|;
    var opened2 := Next(Next(h, StopOpens(a)), StopOpens(b));
    assert opened2.procs[i] == Proc(a, InodeFor(h), Filling) && opened2.procs[i + 1] == Proc(b, InodeFor(h), Filling);
  }

  /** A cancel between open and fill: the token goes into the unlinked file, and a file that a later
      Stop opened is not touched. */
  lemma CancelledFillIsLost(h: Host, a: Token, b: Token)
    requires h.pending == None
    ensures var i := |h.procs|;
            var end := Next(Next(Next(Next(h, StopOpens(a)), Cancel), StopOpens(b)), StopFills(i));
            end.pending.Some? && end.pending.value.content == ""
  {
    var i := |h.procs|;
    var h3 := Next(Next(Next(h, StopOpens(a)), Cancel), StopOpens(b));
    assert h3.procs[i] == Proc(a, h.stops, Filling);
  }

  // ---------------------------------------------------------------- whose token is claimed

  /** `time.time_ns()` never repeats and is never empty. */
  predicate DistinctTokens(h: Host) {
    && (forall i :: 0 <= i < |h.procs| ==> h.procs[i].token != "")
    && (forall i, j :: 0 <= i < j < |h.procs| ==> h.procs[i].token != h.procs[j].token)
  }

  lemma TokensKept(h: Host, e: Event)
    requires DistinctTokens(Next(h, e))
    ensures DistinctTokens(h)
  {
    var n := Next(h, e);
    assert |h.procs| <= |n.procs| && forall i :: 0 <= i < |h.procs| ==> n.procs[i].token == h.procs[i].token;
    hide Next;
  }

  /** The step changes what the pending file holds: a Stop truncates it, or fills the very file
      that is still linked. */
  predicate Writes(h: Host, e: Event) {
    match e
    case StopOpens(_) => true
    case StopFills(i) =>
      Enabled(h, i, Filling) && h.pending.Some? && h.pending.value.inode == h.procs[i].inode
    case _ => false
  }

  predicate NoWrites(at: Host, events: seq<Event>) {
    forall k :: 0 <= k < |events| ==> !Writes(Run(at, events[..k]), events[k])
  }

  lemma NoWritesSnoc(at: Host, events: seq<Event>)
    requires events != []
    ensures var n := |events| - 1;
            NoWrites(at, events) <==> NoWrites(at, events[..n]) && !Writes(Run(at, events[..n]), events[n])
  {
    hide Run, Writes;
    var n := |events| - 1;
    assert forall k :: 0 <= k < n ==> events[..n][..k] == events[..k] && events[..n][k] == events[k];
  }

  /** Expiry `i` is past its read; and while it has not unlinked, its token is what a pending file
      holds exactly when nothing was written. */
  predicate Tracks(h: Host, i: nat, token: Token, unwritten: bool) {
    && i < |h.procs| && h.procs[i].token == token
    && h.procs[i].phase != Filling && h.procs[i].phase != Waiting
    && (h.procs[i].phase == Matched && h.pending.Some? ==> (h.pending.value.content == token <==> unwritten))
  }

  lemma TracksNext(h: Host, e: Event, i: nat, token: Token, unwritten: bool)
    requires Tracks(h, i, token, unwritten) && DistinctTokens(Next(h, e))
    ensures Tracks(Next(h, e), i, token, unwritten && !Writes(h, e))
  {
    var n := Next(h, e);
    assert n.procs[i].token != "";
    if e.StopFills? && e.i < |h.procs| {
      assert e.i < i ==> n.procs[e.i].token != n.procs[i].token;
      assert i < e.i ==> n.procs[i].token != n.procs[e.i].token;
    }
  }

  lemma {:induction false} TracksRun(at: Host, i: nat, token: Token, events: seq<Event>)
    requires Tracks(at, i, token, true) && DistinctTokens(Run(at, events))
    ensures Tracks(Run(at, events), i, token, NoWrites(at, events))
  {
    if events == [] {
    } else {
      hide Next, DistinctTokens, Writes, NoWrites;
      var h, e := Run(at, events[..|events| - 1]), events[|events| - 1];
      TokensKept(h, e);
      NoWritesSnoc(at, events);
      TracksRun(at, i, token, events[..|events| - 1]);
      TracksNext(h, e, i, token, NoWrites(at, events[..|events| - 1]));
    }
  }

  /** With distinct tokens, the file that expiry `i` is about to unlink holds the token it read if
      and only if no Stop opened the file, or filled the one still linked, since that read. */
  lemma ClaimsOwnTokenIff(before: seq<Event>, i: nat, after: seq<Event>)
    requires var h := Run(INITIAL, before);
             Enabled(h, i, Waiting) && h.pending.Some? && h.pending.value.content == h.procs[i].token
    requires var h := Run(INITIAL, before + [Read(i)] + after);
             DistinctTokens(h) && Enabled(h, i, Matched) && h.pending.Some?
    ensures var h := Run(INITIAL, before + [Read(i)] + after);
            h.pending.value.content == h.procs[i].token <==> NoWrites(Run(INITIAL, before + [Read(i)]), after)
  {
    hide Run;
    RunSnoc(INITIAL, before, Read(i));
    RunConcat(INITIAL, before + [Read(i)], after);
    TracksRun(Run(INITIAL, before + [Read(i)]), i, Run(INITIAL, before).procs[i].token, after);
  }

  /** The race itself, from any state without a pending file: an expiry that has read its token
      `a` claims the `b` a later Stop just wrote, and the idle heartbeat goes out while that
      Stop's own delay is still running. */
  lemma StaleExpiryClaimsNewerToken(h: Host, a: Token, b: Token)
    requires h.pending == None
    ensures var i := |h.procs|;
            var read := Next(Next(Next(h, StopOpens(a)), StopFills(i)), Read(i));
            var raced := Next(Next(read, StopOpens(b)), StopFills(i + 1));
            var end := Next(Next(raced, Unlink(i)), Send(i));
            && raced.pending.Some? && raced.pending.value.content == b
            && end.idleSent == h.idleSent + 1 && end.pending == None
            && |end.procs| == i + 2 && end.procs[i + 1] == Proc(b, h.stops, Waiting)
  {
    var i, f := |h.procs|, h.stops;
    var h2 := Next(Next(h, StopOpens(a)), StopFills(i));
    assert h2.procs == h.procs + [Proc(a, f, Waiting)];
    var h3 := Next(h2, Read(i));
    assert h3.procs == h.procs + [Proc(a, f, Matched)];
    var h4 := Next(h3, StopOpens(b));
    assert h4.procs == h.procs + [Proc(a, f, Matched), Proc(b, f, Filling)];
    var h5 := Next(h4, StopFills(i + 1));
    assert h5.procs == h.procs + [Proc(a, f, Matched), Proc(b, f, Waiting)];
    var h6 := Next(h5, Unlink(i));
    assert h6.procs == h.procs + [Proc(a, f, Unlinked), Proc(b, f, Waiting)];
  }

  // ---------------------------------------------------------------- the hooks themselves

  /** The state directory as the hook processes change it, one call at a time, with the
      tally kept beside it. */
  class HookState {
    var pending: Option<File>
    var procs: seq<Proc>
    var idleSent: nat
    var stops: nat
    var overwritten: nat
    var cancelled: nat
    var claimed: nat

    function View(): Host
      reads this
    { Host(pending, procs, stops, overwritten, cancelled, claimed, idleSent) }

    constructor ()
      ensures View() == INITIAL
    {
      pending, procs, idleSent := None, [], 0;
      stops, overwritten, cancelled, claimed := 0, 0, 0, 0;
    }

    /** `cancel_idle`, from PreToolUse and SessionEnd. */
    method CancelIdle()
      modifies this
      ensures View() == Next(old(View()), Cancel)
    {
      if pending.Some? { pending, cancelled := None, cancelled + 1; }
    }

    /** `schedule_idle`, from Stop: open and truncate the file. */
    method OpenPending(token: Token)
      modifies this
      ensures View() == Next(old(View()), StopOpens(token))
    {
      var inode := stops;
      if pending.Some? { overwritten, inode := overwritten + 1, pending.value.inode; }
      pending, stops := Some(File(inode, "")), stops + 1;
      procs := procs + [Proc(token, inode, Filling)];
    }

    /** `schedule_idle`, continued: write the token, spawn the expiry. */
    method FillPending(i: nat)
      requires i < |procs| && procs[i].phase == Filling
      modifies this
      ensures View() == Next(old(View()), StopFills(i))
    {
      if pending.Some? && pending.value.inode == procs[i].inode {
        pending := Some(File(procs[i].inode, procs[i].token));
      }
      procs := procs[i := procs[i].(phase := Waiting)];
    }

    /** One resumption of `expire_idle` in process `i`: from wherever it stands to its next call. */
    method ResumeExpiry(i: nat)
      requires i < |procs| && (procs[i].phase == Waiting || procs[i].phase == Matched || procs[i].phase == Unlinked)
      modifies this
      ensures View() == Next(old(View()), match old(procs[i].phase)
                                          case Waiting => Read(i) case Matched => Unlink(i) case _ => Send(i))
    {
      var p := procs[i];
      if p.phase == Waiting {
        if pending.Some? && pending.value.content == p.token {
          procs := procs[i := p.(phase := Matched)];
        } else {
          procs := procs[i := p.(phase := Done(false))];
        }
      } else if p.phase == Matched {
        if pending.None? {
          procs := procs[i := p.(phase := Done(false))];
        } else {
          pending, claimed := None, claimed + 1;
          procs := procs[i := p.(phase := Unlinked)];
        }
      } else {
        idleSent := idleSent + 1;
        procs := procs[i := p.(phase := Done(true))];
      }
    }

    /** Let the hook processes take the given steps, skipping those their process cannot take. */
    method Play(events: seq<Event>)
      modifies this
      ensures View() == Run(old(View()), events)
      ensures old(View()) == INITIAL ==> Balanced(View()) && idleSent <= stops
    {
      hide Next;
      ghost var start := View();
      for k := 0 to |events|
        invariant View() == Run(start, events[..k])
      {
        RunSnoc(start, events[..k], events[k]);
        assert events[..k + 1] == events[..k] + [events[k]];
        Step(events[k]);
      }
      assert events[..|events|] == events;
      if start == INITIAL { Conservation(events); }
    }

    method Step(e: Event)
      modifies this
      ensures View() == Next(old(View()), e)
    {
      match e
      case StopOpens(token) => OpenPending(token);
      case StopFills(i) => if i < |procs| && procs[i].phase == Filling { FillPending(i); }
      case Cancel => CancelIdle();
      case Read(i) => if i < |procs| && procs[i].phase == Waiting { ResumeExpiry(i); }
      case Unlink(i) => if i < |procs| && procs[i].phase == Matched { ResumeExpiry(i); }
      case Send(i) => if i < |procs| && procs[i].phase == Unlinked { ResumeExpiry(i); }
    }
  }
}
