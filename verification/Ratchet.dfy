/** Reviewed benchmark floors: scripts/smoke/benchmark_schema.py, `BaselineSet`,
    `require_non_decreasing_baselines` and `HistoricalRecord`. */
module Ratchet {
  import opened Search

  type Key = (string, string)   // host label, target

  datatype Entry = Entry(key: Key, floor: real, approvedBy: string, rationale: Option<string>)

  datatype BaselineSet = BaselineSet(revision: nat, entries: seq<Entry>)

  const EXCEPTION_APPROVER := "Rand via D3 ratchet exception"

  /** `unique_host_target_entries` */
  predicate UniqueKeys(entries: seq<Entry>) {
    forall i, j :: 0 <= i < j < |entries| ==> entries[i].key != entries[j].key
  }

  predicate Listed(entries: seq<Entry>, key: Key) { exists i :: 0 <= i < |entries| && entries[i].key == key }

  /** The dictionary a loop over the entries builds: the last entry for a key wins. */
  function ByKey(entries: seq<Entry>): map<Key, Entry> {
    if entries == [] then map[]
    else ByKey(entries[..|entries| - 1])[entries[|entries| - 1].key := entries[|entries| - 1]]
  }

  lemma {:induction false} ByKeyFinds(entries: seq<Entry>, e: Entry)
    requires UniqueKeys(entries)
    ensures e in entries <==> e.key in ByKey(entries) && ByKey(entries)[e.key] == e
    ensures e.key in ByKey(entries) <==> Listed(entries, e.key)
  {
    if entries == [] {
    } else {
      var n := |entries| - 1;
      var init, last := entries[..n], entries[n];
      ByKeyFinds(init, e);
      assert entries == init + [last];
      assert forall i :: 0 <= i < n ==> init[i] == entries[i] && init[i].key != last.key;
      assert last.key == e.key ==> entries[n].key == e.key;
    }
  }

  predicate IsException(e: Entry) { e.approvedBy == EXCEPTION_APPROVER && e.rationale.Some? }

  /** What the next revision may do with one reviewed floor. */
  predicate KeepsFloor(old': Entry, new': Entry) { new'.floor >= old'.floor || IsException(new') }

  /** The contract of one revision step. */
  ghost predicate Accepts(previous: BaselineSet, current: BaselineSet) {
    && current.revision > previous.revision
    && forall e :: e in previous.entries ==>
         exists r :: r in current.entries && r.key == e.key && KeepsFloor(e, r)
  }

  /** `require_non_decreasing_baselines`; false is the BenchmarkSchemaError. */
  method RequireNonDecreasing(previous: BaselineSet, current: BaselineSet) returns (ok: bool)
    requires UniqueKeys(previous.entries) && UniqueKeys(current.entries)
    ensures ok <==> Accepts(previous, current)
  {
    if current.revision <= previous.revision { return false; }
    var replacements := BuildIndex(current.entries);
    var i := 0;
    while i < |previous.entries|
      invariant 0 <= i <= |previous.entries|
      invariant forall j :: 0 <= j < i ==>
                  exists r :: r in current.entries && r.key == previous.entries[j].key &&
                              KeepsFloor(previous.entries[j], r)
    {
      var e := previous.entries[i];
      ReplacementIs(current.entries, e);
      if e.key !in replacements { return false; }
      var r := replacements[e.key];
      if r.floor < e.floor && !(r.approvedBy == EXCEPTION_APPROVER && r.rationale.Some?) { return false; }
      i := i + 1;
    }
    ok := true;
  }

  method BuildIndex(entries: seq<Entry>) returns (m: map<Key, Entry>)
    ensures m == ByKey(entries)
  {
    m := map[];
    var i := 0;
    while i < |entries|
      invariant 0 <= i <= |entries|
      invariant m == ByKey(entries[..i])
    {
      assert entries[..i + 1][..i] == entries[..i];
      m := m[entries[i].key := entries[i]];
      i := i + 1;
    }
    assert entries[..i] == entries;
  }

  /** With unique keys the dictionary entry is the only candidate. */
  lemma ReplacementIs(entries: seq<Entry>, e: Entry)
    requires UniqueKeys(entries)
    ensures forall r :: r in entries && r.key == e.key <==> e.key in ByKey(entries) && r == ByKey(entries)[e.key]
  {
    forall r ensures r in entries && r.key == e.key <==> e.key in ByKey(entries) && r == ByKey(entries)[e.key] {
      ByKeyFinds(entries, r);
      ByKeyKeys(entries, e.key);
    }
  }

  lemma {:induction false} ByKeyKeys(entries: seq<Entry>, k: Key)
    ensures k in ByKey(entries) ==> ByKey(entries)[k].key == k && ByKey(entries)[k] in entries
  {
    if entries == [] {
    } else {
      ByKeyKeys(entries[..|entries| - 1], k);
    }
  }

  // ---------------------------------------------------------------- chains of revisions

  ghost predicate Chain(revisions: seq<BaselineSet>) {
    && (forall i :: 0 <= i < |revisions| ==> UniqueKeys(revisions[i].entries))
    && (forall i :: 0 <= i < |revisions| - 1 ==> Accepts(revisions[i], revisions[i + 1]))
  }

  predicate Has(s: BaselineSet, key: Key) { key in ByKey(s.entries) }

  function FloorOf(s: BaselineSet, key: Key): real
    requires Has(s, key)
  { ByKey(s.entries)[key].floor }

  /** The step into revision `i` carries the reviewed exception for `key`. */
  predicate ExceptionAt(revisions: seq<BaselineSet>, i: nat, key: Key)
    requires i < |revisions|
  { Has(revisions[i], key) && IsException(ByKey(revisions[i].entries)[key]) }

  lemma StepKeepsKey(previous: BaselineSet, current: BaselineSet, key: Key)
    requires UniqueKeys(previous.entries) && UniqueKeys(current.entries)
    requires Accepts(previous, current) && Has(previous, key)
    ensures Has(current, key)
    ensures KeepsFloor(ByKey(previous.entries)[key], ByKey(current.entries)[key])
  {
    ByKeyKeys(previous.entries, key);
    var e := ByKey(previous.entries)[key];
    var r :| r in current.entries && r.key == e.key && KeepsFloor(e, r);
    ByKeyFinds(current.entries, r);
  }

  /** The reviewed floor of `key` is still there and not lower, or was lowered by the named approver
      with a rationale. */
  predicate HeldAt(previous: BaselineSet, current: BaselineSet, key: Key) {
    Has(previous, key) ==>
      && Has(current, key)
      && var e, r := ByKey(previous.entries)[key], ByKey(current.entries)[key];
         e.floor <= r.floor || (r.approvedBy == "Rand via D3 ratchet exception" && r.rationale != None)
  }

  /** Exactly which revisions are accepted, key by key: nothing but a lost key, a lower floor without
      the exception or a revision that is no later stops one. */
  lemma AcceptsIff(previous: BaselineSet, current: BaselineSet)
    requires UniqueKeys(previous.entries) && UniqueKeys(current.entries)
    ensures Accepts(previous, current) <==>
            previous.revision < current.revision && forall key :: HeldAt(previous, current, key)
  {
    if Accepts(previous, current) {
      forall key ensures HeldAt(previous, current, key) {
        if Has(previous, key) { StepKeepsKey(previous, current, key); }
      }
    }
    if previous.revision < current.revision && forall key :: HeldAt(previous, current, key) {
      forall e | e in previous.entries
        ensures exists r :: r in current.entries && r.key == e.key && KeepsFloor(e, r)
      {
        ByKeyFinds(previous.entries, e);
        assert HeldAt(previous, current, e.key);
        ByKeyKeys(current.entries, e.key);
        assert KeepsFloor(e, ByKey(current.entries)[e.key]);
      }
    }
  }

  /** Along any accepted chain revisions strictly increase, a key never disappears, and a floor
      can end below where it began only if some step after the start carries the reviewed
      exception for that very key. */
  lemma {:induction false} ChainRatchets(revisions: seq<BaselineSet>, i: nat, j: nat, key: Key)
    requires Chain(revisions) && i < j < |revisions| && Has(revisions[i], key)
    ensures revisions[i].revision < revisions[j].revision
    ensures Has(revisions[j], key)
    ensures FloorOf(revisions[j], key) < FloorOf(revisions[i], key) ==>
              exists k: nat :: i < k <= j && ExceptionAt(revisions, k, key)
    decreases j - i
  {
    hide Accepts;
    var m := j - 1;
    assert revisions[m + 1] == revisions[j] && Accepts(revisions[m], revisions[j]) by { ChainStep(revisions, m); }
    AcceptsRevision(revisions[m], revisions[j]);
    if i < m { ChainRatchets(revisions, i, m, key); }
    StepKeepsKey(revisions[m], revisions[j], key);
    if FloorOf(revisions[j], key) < FloorOf(revisions[m], key) { assert ExceptionAt(revisions, j, key); }
  }

  lemma ChainStep(revisions: seq<BaselineSet>, m: nat)
    requires Chain(revisions) && m + 1 < |revisions|
    ensures Accepts(revisions[m], revisions[m + 1])
  {
  }

  lemma AcceptsRevision(previous: BaselineSet, current: BaselineSet)
    requires Accepts(previous, current)
    ensures previous.revision < current.revision
  {
  }

  // ---------------------------------------------------------------- the historical record

  datatype Point = Point(key: Key, effectiveFrom: int, floor: real)

  predicate Ascending(xs: seq<int>) { forall i, j :: 0 <= i <= j < |xs| ==> xs[i] <= xs[j] }

  /** Both coordinates never step down from one point to the next. */
  predicate StepsUp(points: seq<Point>) {
    forall i :: 0 <= i < |points| - 1 ==>
      points[i].effectiveFrom <= points[i + 1].effectiveFrom && points[i].floor <= points[i + 1].floor
  }

  /** Across the whole record, a later point for the same key is neither earlier nor lower. */
  predicate Monotonic(points: seq<Point>) {
    forall i, j :: 0 <= i < j < |points| && points[i].key == points[j].key ==>
      points[i].effectiveFrom <= points[j].effectiveFrom && points[i].floor <= points[j].floor
  }

  function Group(points: seq<Point>, key: Key): seq<Point> {
    if points == [] then []
    else
      var last := points[|points| - 1];
      Group(points[..|points| - 1], key) + (if last.key == key then [last] else [])
  }

  lemma {:induction false} StepsUpPairwise(points: seq<Point>, i: nat, j: nat)
    requires StepsUp(points) && i <= j < |points|
    ensures points[i].effectiveFrom <= points[j].effectiveFrom && points[i].floor <= points[j].floor
    decreases j
  {
    if i < j {
      StepsUpPairwise(points, i, j - 1);
      assert points[j - 1].effectiveFrom <= points[j - 1 + 1].effectiveFrom;
    }
  }

  /** A group's members are the points with its key. */
  lemma {:induction false} GroupMembers(points: seq<Point>, key: Key, p: Point)
    ensures p in Group(points, key) <==> p in points && p.key == key
  {
    if points == [] {
    } else {
      GroupMembers(points[..|points| - 1], key, p);
      assert points == points[..|points| - 1] + [points[|points| - 1]];
    }
  }

  ghost predicate AllStepUp(points: seq<Point>) { forall key :: StepsUp(Group(points, key)) }

  lemma GroupSnoc(init: seq<Point>, last: Point, key: Key)
    ensures Group(init + [last], key) == if key == last.key then Group(init, key) + [last] else Group(init, key)
  {
    assert (init + [last])[..|init|] == init;
  }

  lemma AllStepUpSnoc(init: seq<Point>, last: Point)
    ensures var g := Group(init, last.key);
            AllStepUp(init + [last]) <==> AllStepUp(init) && (g != [] ==> Above(g[|g| - 1], last))
  {
    hide StepsUp, Group;
    var g := Group(init, last.key);
    StepsUpSnoc(g, last);
    GroupSnoc(init, last, last.key);
    if AllStepUp(init + [last]) {
      assert StepsUp(Group(init + [last], last.key));
      forall key ensures StepsUp(Group(init, key)) {
        GroupSnoc(init, last, key);
        assert StepsUp(Group(init + [last], key));
      }
    }
    if AllStepUp(init) && (g != [] ==> Above(g[|g| - 1], last)) {
      forall key ensures StepsUp(Group(init + [last], key)) { GroupSnoc(init, last, key); }
    }
  }

  /** Checking neighbours inside every group is checking every pair of points of one key. */
  lemma {:induction false} GroupsDecideMonotonic(points: seq<Point>)
    ensures Monotonic(points) <==> AllStepUp(points)
  {
    if points == [] {
    } else {
      hide StepsUp, Group, Monotonic, Above;
      var n := |points| - 1;
      var init, last := points[..n], points[n];
      assert points == init + [last];
      GroupsDecideMonotonic(init);
      LastOfGroup(init, last);
      MonotonicSnoc(init, last);
      AllStepUpSnoc(init, last);
    }
  }

  predicate Above(p: Point, q: Point) { p.effectiveFrom <= q.effectiveFrom && p.floor <= q.floor }

  lemma StepsUpSnoc(g: seq<Point>, last: Point)
    ensures StepsUp(g + [last]) <==> StepsUp(g) && (g != [] ==> Above(g[|g| - 1], last))
  {
    var s := g + [last];
    if StepsUp(s) {
      assert g != [] ==> s[|g| - 1] == g[|g| - 1] && s[|g| - 1 + 1] == last;
      forall i | 0 <= i < |g| - 1 ensures Above(g[i], g[i + 1]) { assert s[i] == g[i] && s[i + 1] == g[i + 1]; }
    }
  }

  lemma MonotonicSnoc(init: seq<Point>, last: Point)
    ensures Monotonic(init + [last]) <==>
            Monotonic(init) && forall i :: 0 <= i < |init| && init[i].key == last.key ==> Above(init[i], last)
  {
    var s := init + [last];
    if Monotonic(s) {
      forall i, j | 0 <= i < j < |init| && init[i].key == init[j].key ensures Above(init[i], init[j]) {
        assert s[i] == init[i] && s[j] == init[j];
      }
      forall i | 0 <= i < |init| && init[i].key == last.key ensures Above(init[i], last) {
        assert s[i] == init[i] && s[|init|] == last;
      }
    }
  }

  /** When the group steps up, its last point bounds every point of its key. */
  lemma LastOfGroup(init: seq<Point>, last: Point)
    ensures var g := Group(init, last.key);
            StepsUp(g) ==>
              ((g != [] ==> Above(g[|g| - 1], last)) <==>
               forall i :: 0 <= i < |init| && init[i].key == last.key ==> Above(init[i], last))
  {
    var g := Group(init, last.key);
    if StepsUp(g) {
      if g != [] && Above(g[|g| - 1], last) {
        forall i | 0 <= i < |init| && init[i].key == last.key ensures Above(init[i], last) {
          GroupMembers(init, last.key, init[i]);
          var k :| 0 <= k < |g| && g[k] == init[i];
          StepsUpPairwise(g, k, |g| - 1);
        }
      }
      if g == [] {
        forall i | 0 <= i < |init| ensures init[i].key != last.key { GroupMembers(init, last.key, init[i]); }
      } else {
        GroupMembers(init, last.key, g[|g| - 1]);
      }
    }
  }

  method CheckStarts(starts: seq<int>) returns (ok: bool)
    ensures ok <==> Ascending(starts)
  {
    var i := 0;
    while i + 1 < |starts|
      invariant 0 <= i && (if starts == [] then i == 0 else i < |starts|)
      invariant forall a, b :: 0 <= a <= b <= i && b < |starts| ==> starts[a] <= starts[b]
    {
      if starts[i] > starts[i + 1] { return false; }
      i := i + 1;
    }
    ok := true;
  }

  method CheckGroups(points: seq<Point>) returns (ok: bool)
    ensures ok <==> AllStepUp(points)
  {
    assert StepsUp([]);
    hide StepsUp, Group;
    var groups := GroupAll(points);
    var rest := groups.Keys;
    while rest != {}
      invariant rest <= groups.Keys
      invariant forall key :: key in groups && key !in rest ==> StepsUp(Group(points, key))
      decreases rest
    {
      var key :| key in rest;
      var up := NeighboursStepUp(groups[key]);
      assert groups[key] == Group(points, key);
      if !up { return false; }
      rest := rest - {key};
    }
    ok := true;
  }

  /** `chronological_and_monotonic`: group the ratchet points in a dictionary of lists, then
      check the neighbours of each list. */
  method CheckRecord(starts: seq<int>, points: seq<Point>) returns (ok: bool)
    ensures ok <==> Ascending(starts) && Monotonic(points)
  {
    hide Ascending, Monotonic, AllStepUp;
    GroupsDecideMonotonic(points);
    ok := CheckStarts(starts);
    if !ok { return; }
    ok := CheckGroups(points);
  }

  method GroupAll(points: seq<Point>) returns (groups: map<Key, seq<Point>>)
    ensures forall key :: Group(points, key) == if key in groups then groups[key] else []
  {
    groups := map[];
    var i := 0;
    while i < |points|
      invariant 0 <= i <= |points|
      invariant forall key :: Group(points[..i], key) == if key in groups then groups[key] else []
    {
      var p := points[i];
      assert points[..i + 1][..i] == points[..i];
      var list := if p.key in groups then groups[p.key] else [];
      groups := groups[p.key := list + [p]];
      i := i + 1;
    }
    assert points[..i] == points;
  }

  method NeighboursStepUp(list: seq<Point>) returns (up: bool)
    ensures up <==> StepsUp(list)
  {
    var i := 0;
    while i + 1 < |list|
      invariant 0 <= i && (if list == [] then i == 0 else i < |list|)
      invariant forall k :: 0 <= k < i ==> Above(list[k], list[k + 1])
    {
      if list[i + 1].effectiveFrom < list[i].effectiveFrom || list[i + 1].floor < list[i].floor {
        assert !Above(list[i], list[i + 1]);
        return false;
      }
      i := i + 1;
    }
    up := true;
  }
}
