/** One measured interval: how requests are dealt to connections, and what the counters of
    the merged results mean. scripts/smoke/admission_capacity_transport.py. */
module Interval {
  import opened Search
  import opened HttpFraming
  import opened HttpFramingTheorems
  import opened Pipeline

  /** One connection's share: `count` consecutive sequence numbers from `start`. */
  datatype Slice = Slice(start: int, count: nat)

  function Range(lo: int, hi: int): (r: seq<int>)
    requires lo <= hi
    ensures |r| == hi - lo && forall i :: 0 <= i < |r| ==> r[i] == lo + i
  { seq(hi - lo, i requires 0 <= i < hi - lo => lo + i) }

  function Numbers(slices: seq<Slice>): seq<int> {
    if slices == [] then []
    else
      var last := slices[|slices| - 1];
      Numbers(slices[..|slices| - 1]) + Range(last.start, last.start + last.count)
  }

  lemma RangeJoin(a: int, b: int, c: int)
    requires a <= b <= c
    ensures Range(a, b) + Range(b, c) == Range(a, c)
  {
  }

  function Connections(requested: int, frames: nat): int
    requires frames > 0
  { (requested + frames - 1) / frames }

  /** The share of connection `c`. */
  function Share(interval: nat, requested: int, frames: nat, c: nat): Slice
    requires c * frames <= requested
  { Slice(interval * requested + c * frames, Min(frames, requested - c * frames)) }

  /** Connection `c` carries its share, between one message and a full connection. */
  predicate IsShare(interval: nat, requested: int, frames: nat, c: nat, slice: Slice) {
    && c * frames <= requested
    && slice == Share(interval, requested, frames, c)
    && 1 <= slice.count <= frames
  }

  /** `None` is the SmokeError for a non-positive request. The dealt numbers, in order, are
      exactly the interval's own block, so each is sent once and the counts sum to the request. */
  method Deal(interval: nat, requested: int, frames: nat) returns (slices: Option<seq<Slice>>)
    requires frames > 0
    ensures slices.None? <==> requested <= 0
    ensures slices.Some? ==>
              Numbers(slices.value) == Range(interval * requested, interval * requested + requested)
    ensures slices.Some? ==> |slices.value| == Connections(requested, frames)
    ensures slices.Some? ==> forall c :: 0 <= c < |slices.value| ==>
              && IsShare(interval, requested, frames, c, slices.value[c])
              && slices.value[c].start == interval * requested + c * frames
  {
    hide Range, Numbers, Connections;
    if requested <= 0 { return None; }
    NumbersEmpty(interval * requested);
    var connections := Connections(requested, frames);
    var dealt: seq<Slice> := [];
    var sequence := 0;
    CeilingBounds(requested, frames);
    while sequence < connections
      invariant 0 <= sequence <= connections && |dealt| == sequence
      invariant forall c :: 0 <= c < |dealt| ==> IsShare(interval, requested, frames, c, dealt[c])
      invariant Numbers(dealt) ==
                Range(interval * requested, interval * requested + Min(sequence * frames, requested))
    {
      SliceFits(requested, frames, sequence);
      var slice := Share(interval, requested, frames, sequence);
      NumbersSnoc(dealt, slice, interval * requested);
      assert (sequence + 1) * frames == sequence * frames + frames;
      dealt := dealt + [slice];
      sequence := sequence + 1;
    }
    slices := Some(dealt);
  }

  lemma NumbersEmpty(first: int)
    ensures Numbers([]) == Range(first, first)
  {
  }

  /** A slice that starts where the dealt numbers stop extends them. */
  lemma NumbersSnoc(dealt: seq<Slice>, slice: Slice, first: int)
    requires first <= slice.start && Numbers(dealt) == Range(first, slice.start)
    ensures Numbers(dealt + [slice]) == Range(first, slice.start + slice.count)
  {
    assert (dealt + [slice])[..|dealt|] == dealt;
    RangeJoin(first, slice.start, slice.start + slice.count);
  }

  lemma CeilingBounds(requested: int, frames: nat)
    requires requested > 0 && frames > 0
    ensures var c := Connections(requested, frames);
            c > 0 && (c - 1) * frames < requested <= c * frames
  {
    var n := requested + frames - 1;
    var c := n / frames;
    assert n == c * frames + n % frames;
    assert (c - 1) * frames == c * frames - frames;
  }

  /** Every planned connection still has something to send. */
  lemma SliceFits(requested: int, frames: nat, sequence: nat)
    requires requested > 0 && frames > 0 && sequence < Connections(requested, frames)
    ensures 0 <= sequence * frames < requested
  {
    var c := (requested + frames - 1) / frames;
    CeilingBounds(requested, frames);
    assert sequence * frames <= (c - 1) * frames by { MulMono(sequence, c - 1, frames); }
  }

  lemma MulMono(a: int, b: int, m: nat)
    requires a <= b
    ensures a * m <= b * m
  {
  }

  /** Blocks of successive intervals tile the sequence numbers with no gap and no overlap. */
  lemma {:induction false} IntervalsTile(blocks: seq<seq<int>>, requested: nat)
    requires forall i :: 0 <= i < |blocks| ==> blocks[i] == Range(i * requested, i * requested + requested)
    ensures Flatten(blocks) == Range(0, |blocks| * requested)
  {
    if blocks == [] {
    } else {
      var n := |blocks| - 1;
      IntervalsTile(blocks[..n], requested);
      FlattenSnoc(blocks[..n], blocks[n]);
      assert blocks == blocks[..n] + [blocks[n]];
      assert (n + 1) * requested == n * requested + requested;
      RangeJoin(0, n * requested, n * requested + requested);
    }
  }

  // ---------------------------------------------------------------- counters

  function Accepted(results: seq<Admission>, expected: nat): nat {
    if results == [] then 0
    else Accepted(results[..|results| - 1], expected) + (if results[|results| - 1].status == expected then 1 else 0)
  }

  lemma {:induction false} AcceptedConcat(a: seq<Admission>, b: seq<Admission>, expected: nat)
    ensures Accepted(a + b, expected) == Accepted(a, expected) + Accepted(b, expected)
  {
    if b == [] {
      assert a + b == a;
    } else {
      assert (a + b)[..|a + b| - 1] == a + b[..|b| - 1];
      AcceptedConcat(a, b[..|b| - 1], expected);
    }
  }

  lemma {:induction false} AcceptedBounded(a: seq<Admission>, expected: nat)
    ensures Accepted(a, expected) <= |a|
    ensures Accepted(a, expected) == |a| <==> forall i :: 0 <= i < |a| ==> a[i].status == expected
  {
    if a == [] {
    } else {
      AcceptedBounded(a[..|a| - 1], expected);
    }
  }

  function Sum(xs: seq<nat>): nat {
    if xs == [] then 0 else Sum(xs[..|xs| - 1]) + xs[|xs| - 1]
  }

  /** The order in which the worker pool completes: each connection exactly once. */
  ghost predicate IsCompletionOrder(order: seq<nat>, n: nat) {
    multiset(order) == multiset(Indices(n))
  }

  function Indices(n: nat): (r: seq<nat>)
    ensures |r| == n && forall i :: 0 <= i < n ==> r[i] == i
  { seq(n, i => i) }

  /** The result lists, once no connection raised. */
  function Lists(outcomes: seq<Submission>): (r: seq<seq<Admission>>)
    requires forall i :: 0 <= i < |outcomes| ==> outcomes[i].Results?
    ensures |r| == |outcomes| && forall i :: 0 <= i < |r| ==> r[i] == outcomes[i].list
  { seq(|outcomes|, i requires 0 <= i < |outcomes| => outcomes[i].list) }

  function AcceptedPer(lists: seq<seq<Admission>>, expected: nat): (r: seq<nat>)
    ensures |r| == |lists| && forall i :: 0 <= i < |r| ==> r[i] == Accepted(lists[i], expected)
  { seq(|lists|, i requires 0 <= i < |lists| => Accepted(lists[i], expected)) }

  function Sizes(lists: seq<seq<Admission>>): (r: seq<nat>)
    ensures |r| == |lists| && forall i :: 0 <= i < |r| ==> r[i] == |lists[i]|
  { seq(|lists|, i requires 0 <= i < |lists| => |lists[i]|) }

  /** Gather a sequence through an index list. */
  function Pick(xs: seq<nat>, order: seq<nat>): (r: seq<nat>)
    requires forall i :: 0 <= i < |order| ==> order[i] < |xs|
    ensures |r| == |order| && forall i :: 0 <= i < |r| ==> r[i] == xs[order[i]]
  { seq(|order|, i requires 0 <= i < |order| => xs[order[i]]) }

  lemma OrderInRange(order: seq<nat>, n: nat)
    requires IsCompletionOrder(order, n)
    ensures |order| == n && InRange(order, n)
  {
    assert |multiset(order)| == |order| && |multiset(Indices(n))| == n;
    forall i | 0 <= i < |order| ensures order[i] < n {
      assert order[i] in multiset(order);
      assert order[i] in Indices(n);
    }
  }

  function Without(s: seq<nat>, j: nat): seq<nat>
    requires j < |s|
  { s[..j] + s[j + 1..] }

  lemma WithoutMembers(s: seq<nat>, j: nat)
    requires j < |s|
    ensures multiset(Without(s, j)) == multiset(s) - multiset{s[j]}
    ensures |Without(s, j)| == |s| - 1
    ensures forall i :: 0 <= i < |s| - 1 ==> Without(s, j)[i] == s[if i < j then i else i + 1]
  {
    assert s == s[..j] + [s[j]] + s[j + 1..];
  }

  lemma {:induction false} SumWithout(xs: seq<nat>, j: nat)
    requires j < |xs|
    ensures Sum(xs) == Sum(Without(xs, j)) + xs[j]
    decreases |xs|
  {
    var n := |xs| - 1;
    if j == n {
      assert Without(xs, j) == xs[..n];
    } else {
      SumWithout(xs[..n], j);
      assert Without(xs, j)[..n - 1] == Without(xs[..n], j);
    }
  }

  predicate InRange(order: seq<nat>, n: nat) { forall i :: 0 <= i < |order| ==> order[i] < n }

  lemma PickWithout(xs: seq<nat>, order: seq<nat>, j: nat)
    requires InRange(order, |xs|) && j < |order|
    ensures InRange(Without(order, j), |xs|)
    ensures Sum(Pick(xs, order)) == Sum(Pick(xs, Without(order, j))) + xs[order[j]]
  {
    WithoutMembers(order, j);
    WithoutMembers(Pick(xs, order), j);
    assert Without(Pick(xs, order), j) == Pick(xs, Without(order, j));
    SumWithout(Pick(xs, order), j);
  }

  /** A sum gathered through two index lists with the same members is the same. */
  lemma {:induction false} SumPermuted(xs: seq<nat>, a: seq<nat>, b: seq<nat>)
    requires InRange(a, |xs|) && InRange(b, |xs|)
    requires multiset(a) == multiset(b)
    ensures Sum(Pick(xs, a)) == Sum(Pick(xs, b))
    decreases |a|
  {
    hide Sum, Without;
    assert |multiset(a)| == |a| && |multiset(b)| == |b|;
    if a == [] {
      assert a == b;
    } else {
      assert a[0] in multiset(b);
      var j :| 0 <= j < |b| && b[j] == a[0];
      WithoutMembers(a, 0);
      WithoutMembers(b, j);
      PickWithout(xs, a, 0);
      PickWithout(xs, b, j);
      SumPermuted(xs, Without(a, 0), Without(b, j));
    }
  }

  lemma PickAll(xs: seq<nat>)
    ensures Pick(xs, Indices(|xs|)) == xs
  {
  }

  lemma PickSnoc(xs: seq<nat>, order: seq<nat>, i: nat)
    requires InRange(order, |xs|) && i < |order|
    ensures Sum(Pick(xs, order[..i + 1])) == Sum(Pick(xs, order[..i])) + xs[order[i]]
  {
    assert Pick(xs, order[..i + 1])[..i] == Pick(xs, order[..i]);
  }

  lemma SumInAnyOrder(xs: seq<nat>, order: seq<nat>)
    requires IsCompletionOrder(order, |xs|)
    ensures InRange(order, |xs|) && Sum(Pick(xs, order[..|order|])) == Sum(xs)
  {
    OrderInRange(order, |xs|);
    SumPermuted(xs, order, Indices(|xs|));
    PickAll(xs);
    assert order[..|order|] == order;
  }

  datatype Report = Report(accepted: nat, responses: nat, failures: nat, errorFree: bool)

  /** Lines 440-447: merge the connections' results as they complete; `None` when a connection
      raised. Which one finishes first does not matter to any counter. */
  method Merge(outcomes: seq<Submission>, order: seq<nat>, requested: int, expected: nat) returns (r: Option<Report>)
    requires IsCompletionOrder(order, |outcomes|)
    ensures r.None? <==> exists i :: 0 <= i < |outcomes| && outcomes[i].Raised?
    ensures r.Some? ==> r.value.accepted == Sum(AcceptedPer(Lists(outcomes), expected))
    ensures r.Some? ==> r.value.responses == Sum(Sizes(Lists(outcomes)))
    ensures r.Some? ==> r.value.failures == r.value.responses - r.value.accepted
    ensures r.Some? ==> (r.value.errorFree <==> r.value.accepted == requested && r.value.failures == 0)
  {
    hide Sum, Accepted, IsCompletionOrder;
    OrderInRange(order, |outcomes|);
    ghost var per := seq(|outcomes|, i requires 0 <= i < |outcomes| =>
                           if outcomes[i].Results? then Accepted(outcomes[i].list, expected) else 0);
    ghost var sizes := seq(|outcomes|, i requires 0 <= i < |outcomes| =>
                             if outcomes[i].Results? then |outcomes[i].list| else 0);
    var results: seq<Admission> := [];
    var i := 0;
    NoneYet(expected, per, sizes, order);
    while i < |order|
      invariant 0 <= i <= |order|
      invariant forall j :: 0 <= j < i ==> outcomes[order[j]].Results?
      invariant Accepted(results, expected) == Sum(Pick(per, order[..i]))
      invariant |results| == Sum(Pick(sizes, order[..i]))
    {
      if outcomes[order[i]].Raised? { return None; }
      AcceptedConcat(results, outcomes[order[i]].list, expected);
      PickSnoc(per, order, i);
      PickSnoc(sizes, order, i);
      results := results + outcomes[order[i]].list;
      i := i + 1;
    }
    forall c | 0 <= c < |outcomes| ensures outcomes[c].Results? {
      var j := IndexVisited(order, |outcomes|, c);
    }
    SumInAnyOrder(per, order);
    SumInAnyOrder(sizes, order);
    assert per == AcceptedPer(Lists(outcomes), expected);
    assert sizes == Sizes(Lists(outcomes));
    AcceptedBounded(results, expected);
    var accepted := Accepted(results, expected);
    var failures := |results| - accepted;
    r := Some(Report(accepted, |results|, failures, accepted == requested && failures == 0));
  }

  lemma NoneYet(expected: nat, per: seq<nat>, sizes: seq<nat>, order: seq<nat>)
    requires InRange(order, |per|) && InRange(order, |sizes|)
    ensures Accepted([], expected) == Sum(Pick(per, order[..0])) && 0 == Sum(Pick(sizes, order[..0]))
  {
  }

  lemma IndexVisited(order: seq<nat>, n: nat, c: nat) returns (j: nat)
    requires IsCompletionOrder(order, n) && c < n
    ensures j < |order| && order[j] == c
  {
    assert Indices(n)[c] in multiset(Indices(n));
    assert c in multiset(order);
    j :| 0 <= j < |order| && order[j] == c;
  }

  // ---------------------------------------------------------------- what the counters mean

  /** What `Pipeline.Connection.Submit` can return for `count` requests. */
  predicate Shaped(results: seq<Admission>, count: nat) {
    |results| <= count || (|results| == count + 1 && results[count].status == 0)
  }

  lemma FaithfulIsShaped(requests: seq<Request>, ch: Channel, answered: nat, list: seq<Admission>)
    requires Faithful(requests, ch, answered, list)
    ensures Shaped(list, |requests|)
  {
    hide Served;
    assert |list| == answered + |list[answered..]|;
    if |list| == |requests| + 1 { assert list[answered..][0] == list[|requests|]; }
  }

  // ---------------------------------------------------------------- which numbers were accepted

  /** The sequence numbers of one connection that were answered as expected. */
  function AcceptedOf(slice: Slice, list: seq<Admission>, expected: nat): set<int> {
    set i | 0 <= i < |list| && i < slice.count && list[i].status == expected :: slice.start + i
  }

  function AcceptedNumbers(slices: seq<Slice>, lists: seq<seq<Admission>>, expected: nat): set<int>
    requires |slices| == |lists|
  {
    if slices == [] then {}
    else
      var n := |slices| - 1;
      AcceptedNumbers(slices[..n], lists[..n], expected) + AcceptedOf(slices[n], lists[n], expected)
  }

  lemma {:induction false} AcceptedOfSize(slice: Slice, list: seq<Admission>, expected: nat)
    requires expected != 0 && Shaped(list, slice.count)
    ensures |AcceptedOf(slice, list, expected)| == Accepted(list, expected)
  {
    if list == [] {
      assert AcceptedOf(slice, list, expected) == {};
    } else {
      var n := |list| - 1;
      var init := AcceptedOf(slice, list[..n], expected);
      AcceptedOfSize(slice, list[..n], expected);
      if list[n].status == expected {
        assert AcceptedOf(slice, list, expected) == init + {slice.start + n};
      } else {
        assert AcceptedOf(slice, list, expected) == init;
      }
    }
  }

  lemma RangeSplit(numbers: seq<int>, lo: int, hi: int, count: nat, last: seq<int>)
    requires lo <= hi && numbers + last == Range(lo, hi) && |last| == count
    ensures lo <= hi - count && numbers == Range(lo, hi - count)
    ensures count > 0 ==> last[0] == hi - count
  {
    var whole := numbers + last;
    assert |whole| == |numbers| + count;
    assert forall k :: 0 <= k < |numbers| ==> numbers[k] == whole[k];
    if count > 0 { assert last[0] == whole[|numbers|]; }
  }

  lemma AcceptedOfRange(slice: Slice, list: seq<Admission>, expected: nat)
    ensures forall k :: k in AcceptedOf(slice, list, expected) ==> slice.start <= k < slice.start + slice.count
    ensures slice.count == 0 ==> AcceptedOf(slice, list, expected) == {}
  {
  }

  lemma AcceptedPerSum(lists: seq<seq<Admission>>, expected: nat)
    requires lists != []
    ensures var n := |lists| - 1;
            Sum(AcceptedPer(lists, expected)) == Sum(AcceptedPer(lists[..n], expected)) + Accepted(lists[n], expected)
  {
    hide Accepted;
    var n := |lists| - 1;
    assert AcceptedPer(lists, expected)[..n] == AcceptedPer(lists[..n], expected);
  }

  lemma DisjointSize(a: set<int>, b: set<int>, mid: int)
    requires (forall k :: k in a ==> k < mid) && (forall k :: k in b ==> mid <= k)
    ensures |a + b| == |a| + |b|
  {
    forall k | k in a ensures k !in b {}
    assert a !! b;
  }

  /** The last slice ends the block, so it starts where the numbers of the others stop. */
  lemma LastSlice(slices: seq<Slice>, lo: int, hi: int)
    requires slices != [] && lo <= hi && Numbers(slices) == Range(lo, hi)
    ensures var n := |slices| - 1;
            var last := slices[n];
            && lo <= hi - last.count && Numbers(slices[..n]) == Range(lo, hi - last.count)
            && (last.count > 0 ==> last.start == hi - last.count)
  {
    var n := |slices| - 1;
    var last := slices[n];
    RangeSplit(Numbers(slices[..n]), lo, hi, last.count, Range(last.start, last.start + last.count));
  }

  /** Numbers are dealt once, so counting accepted answers is counting accepted numbers. */
  lemma {:induction false} AcceptedNumbersSize(
    slices: seq<Slice>, lists: seq<seq<Admission>>, expected: nat, lo: int, hi: int)
    requires |slices| == |lists| && expected != 0 && lo <= hi && Numbers(slices) == Range(lo, hi)
    requires forall c :: 0 <= c < |slices| ==> Shaped(lists[c], slices[c].count)
    ensures forall k :: k in AcceptedNumbers(slices, lists, expected) ==> lo <= k < hi
    ensures |AcceptedNumbers(slices, lists, expected)| == Sum(AcceptedPer(lists, expected))
  {
    if slices == [] {
      assert lists == [];
    } else {
      hide Accepted, Range, Numbers, Sum, AcceptedPer, AcceptedOf, Shaped;
      var n := |slices| - 1;
      var last := slices[n];
      LastSlice(slices, lo, hi);
      AcceptedNumbersSize(slices[..n], lists[..n], expected, lo, hi - last.count);
      AcceptedOfSize(last, lists[n], expected);
      AcceptedOfRange(last, lists[n], expected);
      AcceptedPerSum(lists, expected);
      var others := AcceptedNumbers(slices[..n], lists[..n], expected);
      DisjointSize(others, AcceptedOf(last, lists[n], expected), hi - last.count);
    }
  }

  lemma {:induction false} AcceptedNumbersMean(slices: seq<Slice>, lists: seq<seq<Admission>>, expected: nat, k: int)
    requires |slices| == |lists|
    ensures k in AcceptedNumbers(slices, lists, expected) <==>
            exists c :: 0 <= c < |slices| && k in AcceptedOf(slices[c], lists[c], expected)
  {
    hide AcceptedOf;
    if slices == [] {
    } else {
      var n := |slices| - 1;
      AcceptedNumbersMean(slices[..n], lists[..n], expected, k);
      if c :| 0 <= c < |slices| && k in AcceptedOf(slices[c], lists[c], expected) {
        if c < n { assert slices[..n][c] == slices[c] && lists[..n][c] == lists[c]; }
      }
      if c :| 0 <= c < n && k in AcceptedOf(slices[..n][c], lists[..n][c], expected) {
        assert k in AcceptedOf(slices[c], lists[c], expected);
      }
    }
  }

  // ---------------------------------------------------------------- what the peers answered

  /** The other end of one connection, and how the client's own calls on it end. */
  datatype Peer = Peer(incoming: seq<Byte>, plan: seq<HttpFraming.Event>, opens: bool, closes: bool, sends: seq<bool>)

  function StreamOf(peer: Peer): Channel { Channel([], peer.incoming, peer.plan) }

  /** Nothing goes wrong on the client's side. */
  predicate Works(peer: Peer) { peer.opens && peer.closes && forall b :: 0 <= b < |peer.sends| ==> peer.sends[b] }

  predicate AllWork(peers: seq<Peer>) { forall c :: 0 <= c < |peers| ==> Works(peers[c]) }

  /** Some connection's stream carries, within its share, a response whose length is no number. */
  ghost predicate SomePoisoned(interval: nat, requested: int, frames: nat, peers: seq<Peer>) {
    exists c: nat, n: nat :: c < |peers| && PoisonedShare(interval, requested, frames, peers[c], c, n)
  }

  ghost predicate PoisonedShare(interval: nat, requested: int, frames: nat, peer: Peer, c: nat, n: nat) {
    c * frames <= requested && n < Share(interval, requested, frames, c).count && Poisoned(StreamOf(peer), n)
  }

  function RequestsOf(slice: Slice, message: int -> Request): (r: seq<Request>)
    ensures |r| == slice.count && forall i :: 0 <= i < |r| ==> r[i] == message(slice.start + i)
  { seq(slice.count, i => message(slice.start + i)) }

  /** The `i`-th response on the stream is there, and has this status. */
  ghost predicate RespondsAt(ch: Channel, i: nat, status: nat) {
    exists got: seq<Read> :: Served(ch, i + 1, got) && got[i].status == status
  }

  /** The connection that carries number `k` answers it with this status. */
  ghost predicate NumberAnswered(slices: seq<Slice>, peers: seq<Peer>, k: int, status: nat)
    requires |slices| == |peers|
  {
    exists c, i: nat :: 0 <= c < |slices| && AnsweredAt(slices[c], peers[c], i, k, status)
  }

  ghost predicate AnsweredAt(slice: Slice, peer: Peer, i: nat, k: int, status: nat) {
    i < slice.count && k == slice.start + i && RespondsAt(StreamOf(peer), i, status)
  }

  /** What one connection's submission comes to. */
  ghost predicate Carried(slice: Slice, message: int -> Request, peer: Peer, out: Submission) {
    match out
    case Raised => exists n: nat :: n < slice.count && Poisoned(StreamOf(peer), n)
    case Results(list) =>
      exists answered: nat ::
        && Faithful(RequestsOf(slice, message), StreamOf(peer), answered, list)
        && (Works(peer) && answered < slice.count ==> BreaksOff(StreamOf(peer), answered))
  }

  method SubmitOne(slice: Slice, message: int -> Request, peer: Peer) returns (out: Submission)
    ensures Carried(slice, message, peer, out)
    ensures Works(peer) && (exists n: nat :: n < slice.count && Poisoned(StreamOf(peer), n)) ==> out.Raised?
    ensures out == Outcome(RequestsOf(slice, message), StreamOf(peer), peer.opens, peer.closes, peer.sends)
  {
    hide Faithful, Poisoned, BreaksOff, Served, NeverOverfilled, Outcome, FullTrace, Joined;
    var reader := new HttpReader(peer.incoming, peer.plan);
    var connection := new Connection(reader, peer.opens, peer.closes, peer.sends);
    ghost var stream := reader.View();
    assert stream == StreamOf(peer) && (Works(peer) ==> connection.Reliable());
    out := connection.Submit(RequestsOf(slice, message));
    if out.Results? {
      assert Faithful(RequestsOf(slice, message), StreamOf(peer), connection.answered, out.list);
    }
  }

  /** The connections are independent, so the order in which they are served does not matter here. */
  method SubmitAll(slices: seq<Slice>, message: int -> Request, peers: seq<Peer>) returns (outcomes: seq<Submission>)
    requires |slices| == |peers|
    ensures |outcomes| == |slices|
    ensures forall c :: 0 <= c < |slices| ==> Carried(slices[c], message, peers[c], outcomes[c])
  {
    hide Carried;
    outcomes := [];
    while |outcomes| < |slices|
      invariant |outcomes| <= |slices|
      invariant forall c :: 0 <= c < |outcomes| ==> Carried(slices[c], message, peers[c], outcomes[c])
    {
      var c := |outcomes|;
      var out := SubmitOne(slices[c], message, peers[c]);
      outcomes := outcomes + [out];
    }
  }

  /** A shorter run of reads is a prefix of a longer one. */
  lemma {:induction false} ServedPrefix(ch: Channel, m: nat, got: seq<Read>, n: nat)
    requires Served(ch, m, got) && n <= m
    ensures Served(ch, n, got[..n])
    decreases n
  {
    hide ReadStep;
    if n == 0 {
    } else {
      var (r, c) := ReadStep(ch);
      assert got[0] == r && got[1..] == ReadMany(c, m - 1).0;
      assert forall i :: 0 <= i < m - 1 ==> got[1..][i] == got[i + 1];
      ServedPrefix(c, m - 1, got[1..], n - 1);
      assert got[..n] == [r] + got[1..][..n - 1];
    }
  }

  /** Result `i` is accepted only because the `i`-th response is; on a working client if it is. */
  lemma AcceptedIsAnswered(
    slice: Slice, message: int -> Request, peer: Peer, list: seq<Admission>, i: nat, expected: nat)
    requires Carried(slice, message, peer, Results(list)) && i < slice.count && expected != 0
    ensures i < |list| && list[i].status == expected ==> RespondsAt(StreamOf(peer), i, expected)
    ensures Works(peer) && RespondsAt(StreamOf(peer), i, expected) ==> i < |list| && list[i].status == expected
  {
    hide Faithful, BreaksWith, RespondsAt, Works, RequestsOf;
    var ch, requests := StreamOf(peer), RequestsOf(slice, message);
    var answered: nat :| Faithful(requests, ch, answered, list)
      && (Works(peer) && answered < slice.count ==> BreaksOff(ch, answered));
    if i < answered {
      FaithfulStatus(requests, ch, answered, list, i, expected);
    } else {
      FaithfulRest(requests, ch, answered, list, i);
      if Works(peer) && RespondsAt(ch, i, expected) {
        var e :| e != BadContentLength && BreaksWith(ch, answered, e);
        NoResponsePastBreak(ch, answered, e, i, expected);
      }
    }
  }

  lemma FaithfulStatus(
    requests: seq<Request>, ch: Channel, answered: nat, list: seq<Admission>, i: nat, expected: nat)
    requires Faithful(requests, ch, answered, list) && i < answered
    ensures i < |list| && (list[i].status == expected <==> RespondsAt(ch, i, expected))
  {
    hide Served, RespondsAt;
    var got :| Served(ch, answered, got) && list[..answered] == Answers(requests, got);
    ServedLength(ch, answered, got);
    AnswerStatus(requests, ch, answered, got, list, i);
  }

  /** Past the answers there is at most the loss, with status 0. */
  lemma FaithfulRest(requests: seq<Request>, ch: Channel, answered: nat, list: seq<Admission>, i: nat)
    requires Faithful(requests, ch, answered, list) && answered <= i
    ensures answered <= |requests| && (i < |list| ==> list[i].status == 0)
  {
    hide Served, Answers;
    assert i < |list| ==> list[i] == list[answered..][i - answered];
  }

  lemma NoResponsePastBreak(ch: Channel, answered: nat, e: ReadError, i: nat, status: nat)
    requires BreaksWith(ch, answered, e) && RespondsAt(ch, i, status)
    ensures i < answered
  {
    hide ReadMany, BreaksWith;
    var more: seq<Read> :| Served(ch, i + 1, more) && more[i].status == status;
    NothingPastBreak(ch, answered, e, i + 1, more);
  }

  lemma ServedLength(ch: Channel, n: nat, got: seq<Read>)
    requires Served(ch, n, got)
    ensures |got| == n && AllResponses(got)
  {
  }

  lemma AnswerStatus(requests: seq<Request>, ch: Channel, answered: nat, got: seq<Read>, list: seq<Admission>, i: nat)
    requires Served(ch, answered, got) && i < answered <= |requests| && answered <= |list|
    requires list[..answered] == Answers(requests, got)
    ensures forall status :: list[i].status == status <==> RespondsAt(ch, i, status)
  {
    hide ReadMany;
    ServedPrefix(ch, answered, got, i + 1);
    assert list[i] == list[..answered][i] == Answer(requests[i], got[i]);
    assert got[..i + 1][i] == got[i];
    forall more | Served(ch, i + 1, more) ensures more[i] == got[i] {}
  }

  /** The numbers reported as accepted were answered so; and on working clients all that were. */
  lemma NumbersAnswered(
    slices: seq<Slice>, message: int -> Request, peers: seq<Peer>, outcomes: seq<Submission>, expected: nat, k: int)
    requires |slices| == |peers| == |outcomes| && expected != 0
    requires forall c :: 0 <= c < |outcomes| ==> outcomes[c].Results?
    requires forall c :: 0 <= c < |slices| ==> Carried(slices[c], message, peers[c], outcomes[c])
    ensures k in AcceptedNumbers(slices, Lists(outcomes), expected) ==> NumberAnswered(slices, peers, k, expected)
    ensures AllWork(peers) && NumberAnswered(slices, peers, k, expected) ==>
              k in AcceptedNumbers(slices, Lists(outcomes), expected)
  {
    hide Carried, RespondsAt, Works;
    var lists := Lists(outcomes);
    AcceptedNumbersMean(slices, lists, expected, k);
    if c :| 0 <= c < |slices| && k in AcceptedOf(slices[c], lists[c], expected) {
      var i := k - slices[c].start;
      AcceptedIsAnswered(slices[c], message, peers[c], lists[c], i, expected);
      assert AnsweredAt(slices[c], peers[c], i, k, expected);
    }
    if AllWork(peers) && NumberAnswered(slices, peers, k, expected) {
      var c, i: nat :| 0 <= c < |slices| && AnsweredAt(slices[c], peers[c], i, k, expected);
      AcceptedIsAnswered(slices[c], message, peers[c], lists[c], i, expected);
      assert k in AcceptedOf(slices[c], lists[c], expected);
    }
  }

  // ---------------------------------------------------------------- one interval

  datatype IntervalResult = Rejected | Escaped | Reported(slices: seq<Slice>, numbers: set<int>, report: Report)

  /** One interval: deal, submit every share over its own connection, merge as they complete.
      `numbers` are the sequence numbers that were accepted. */
  method RunInterval(interval: nat, requested: int, frames: nat, expected: nat,
                     message: int -> Request, peers: seq<Peer>, order: seq<nat>) returns (r: IntervalResult)
    requires frames > 0
    requires requested > 0 ==> |peers| == Connections(requested, frames)
    requires IsCompletionOrder(order, |peers|)
    ensures r.Rejected? <==> requested <= 0
    ensures r.Escaped? ==> requested > 0 && SomePoisoned(interval, requested, frames, peers)
    ensures requested > 0 && AllWork(peers) && SomePoisoned(interval, requested, frames, peers) ==> r.Escaped?
    ensures r.Reported? ==> |r.slices| == |peers|
    ensures r.Reported? ==> Numbers(r.slices) == Range(interval * requested, interval * requested + requested)
    ensures r.Reported? && expected != 0 ==> r.report.accepted == |r.numbers| <= requested
    ensures r.Reported? && expected != 0 ==> forall k :: k in r.numbers ==>
              && interval * requested <= k < interval * requested + requested
              && NumberAnswered(r.slices, peers, k, expected)
    ensures r.Reported? && expected != 0 && AllWork(peers) ==>
              forall k :: k in r.numbers <==> NumberAnswered(r.slices, peers, k, expected)
    ensures r.Reported? && expected != 0 ==>
              (r.report.errorFree <==>
               r.report.responses == requested &&
               r.numbers == Elements(Range(interval * requested, interval * requested + requested)))
  {
    hide *;
    var slices := Deal(interval, requested, frames);
    if slices.None? { return Rejected; }
    var outcomes := SubmitAll(slices.value, message, peers);
    var report := Merge(outcomes, order, requested, expected);
    if report.None? {
      EscapedBecause(interval, requested, frames, slices.value, message, peers, outcomes);
      return Escaped;
    }
    NoneEscaped(interval, requested, frames, slices.value, message, peers, outcomes);
    var lists := Lists(outcomes);
    var numbers := AcceptedNumbers(slices.value, lists, expected);
    var lo := interval * requested;
    if expected == 0 { return Reported(slices.value, numbers, report.value); }
    ShapedOutcomes(slices.value, message, peers, outcomes);
    AcceptedNumbersSize(slices.value, lists, expected, lo, lo + requested);
    WholeBlock(numbers, lo, requested);
    forall k
      ensures k in numbers ==> NumberAnswered(slices.value, peers, k, expected)
      ensures AllWork(peers) && NumberAnswered(slices.value, peers, k, expected) ==> k in numbers
    {
      NumbersAnswered(slices.value, message, peers, outcomes, expected, k);
    }
    r := Reported(slices.value, numbers, report.value);
  }

  /** A set of numbers inside a block is as large as the block exactly when it is the block. */
  lemma WholeBlock(numbers: set<int>, lo: int, count: nat)
    requires forall k :: k in numbers ==> lo <= k < lo + count
    ensures |numbers| <= count
    ensures |numbers| == count <==> numbers == Elements(Range(lo, lo + count))
  {
    hide Elements, Range;
    var block := Elements(Range(lo, lo + count));
    RangeSize(lo, lo + count);
    assert forall k :: k in numbers ==> k in block;
    SubsetSize(numbers, block);
  }

  function Elements(s: seq<int>): set<int> { set k | k in s }

  lemma {:induction false} RangeSize(lo: int, hi: int)
    requires lo <= hi
    ensures |Elements(Range(lo, hi))| == hi - lo
    ensures forall k :: k in Elements(Range(lo, hi)) <==> lo <= k < hi
    decreases hi - lo
  {
    var block := Elements(Range(lo, hi));
    forall k | lo <= k < hi ensures k in block { assert Range(lo, hi)[k - lo] == k; }
    if lo == hi {
      assert block == {};
    } else {
      RangeSize(lo, hi - 1);
      assert block == Elements(Range(lo, hi - 1)) + {hi - 1};
    }
  }

  lemma SubsetSize(a: set<int>, b: set<int>)
    requires a <= b
    ensures |a| <= |b| && (|a| == |b| <==> a == b)
  {
    assert b == a + (b - a) && a !! (b - a);
  }

  lemma ShapedOutcomes(slices: seq<Slice>, message: int -> Request, peers: seq<Peer>, outcomes: seq<Submission>)
    requires |slices| == |peers| == |outcomes|
    requires forall c :: 0 <= c < |outcomes| ==> outcomes[c].Results?
    requires forall c :: 0 <= c < |slices| ==> Carried(slices[c], message, peers[c], outcomes[c])
    ensures forall c :: 0 <= c < |slices| ==> Shaped(Lists(outcomes)[c], slices[c].count)
  {
    hide Faithful, Works, BreaksOff, Shaped;
    forall c | 0 <= c < |slices| ensures Shaped(Lists(outcomes)[c], slices[c].count) {
      var requests := RequestsOf(slices[c], message);
      var answered: nat :| Faithful(requests, StreamOf(peers[c]), answered, outcomes[c].list);
      FaithfulIsShaped(requests, StreamOf(peers[c]), answered, outcomes[c].list);
    }
  }

  lemma EscapedBecause(interval: nat, requested: int, frames: nat, slices: seq<Slice>, message: int -> Request,
                       peers: seq<Peer>, outcomes: seq<Submission>)
    requires |slices| == |peers| == |outcomes| && exists c :: 0 <= c < |outcomes| && outcomes[c].Raised?
    requires forall c :: 0 <= c < |slices| ==> IsShare(interval, requested, frames, c, slices[c])
    requires forall c :: 0 <= c < |slices| ==> Carried(slices[c], message, peers[c], outcomes[c])
    ensures SomePoisoned(interval, requested, frames, peers)
  {
    hide Poisoned, Faithful, Share;
    var c: nat :| c < |outcomes| && outcomes[c].Raised?;
    assert IsShare(interval, requested, frames, c, slices[c]) && Carried(slices[c], message, peers[c], outcomes[c]);
    var n: nat :| n < slices[c].count && Poisoned(StreamOf(peers[c]), n);
    assert PoisonedShare(interval, requested, frames, peers[c], c, n);
  }

  lemma NoneEscaped(interval: nat, requested: int, frames: nat, slices: seq<Slice>, message: int -> Request,
                    peers: seq<Peer>, outcomes: seq<Submission>)
    requires |slices| == |peers| == |outcomes| && forall c :: 0 <= c < |outcomes| ==> outcomes[c].Results?
    requires forall c :: 0 <= c < |slices| ==> IsShare(interval, requested, frames, c, slices[c])
    requires forall c :: 0 <= c < |slices| ==> Carried(slices[c], message, peers[c], outcomes[c])
    ensures AllWork(peers) ==> !SomePoisoned(interval, requested, frames, peers)
  {
    hide Poisoned, Faithful, Share, BreaksOff;
    forall c: nat, n: nat | c < |peers| && AllWork(peers)
      ensures !PoisonedShare(interval, requested, frames, peers[c], c, n)
    {
      var requests, list := RequestsOf(slices[c], message), outcomes[c].list;
      assert IsShare(interval, requested, frames, c, slices[c]) && Carried(slices[c], message, peers[c], outcomes[c]);
      var answered: nat :| Faithful(requests, StreamOf(peers[c]), answered, list)
        && (Works(peers[c]) && answered < slices[c].count ==> BreaksOff(StreamOf(peers[c]), answered));
      assert Works(peers[c]);
      NotPoisoned(requests, StreamOf(peers[c]), answered, list);
    }
  }
}
