/** First-occurrence search for a pattern in a sequence, shared by the byte-stream reader
    (`bytearray.index`) and the Justfile merge (`str.find`), and concatenation of parts. */
module Search {

  datatype Option<+T> = None | Some(value: T)

  predicate OccursAt<T(==)>(s: seq<T>, pat: seq<T>, i: int) {
    0 <= i && i + |pat| <= |s| && s[i..i + |pat|] == pat
  }

  /** The least index at or after `start` where `pat` occurs. */
  function Find<T(==)>(s: seq<T>, pat: seq<T>, start: nat): (r: Option<nat>)
    ensures r.Some? ==> start <= r.value && r.value + |pat| <= |s| && OccursAt(s, pat, r.value)
    ensures r.Some? ==> forall j: nat :: start <= j < r.value ==> !OccursAt(s, pat, j)
    ensures r.None? ==> forall j: nat :: start <= j ==> !OccursAt(s, pat, j)
    decreases |s| - start
  {
    if start + |pat| > |s| then None
    else if OccursAt(s, pat, start) then Some(start)
    else Find(s, pat, start + 1)
  }

  /** `Find` is determined by its contract. */
  lemma FindUnique<T>(s: seq<T>, pat: seq<T>, start: nat, k: nat)
    requires start <= k && OccursAt(s, pat, k)
    requires forall j: nat :: start <= j < k ==> !OccursAt(s, pat, j)
    ensures Find(s, pat, start) == Some(k)
  {
  }

  lemma OccursInPrefix<T>(s: seq<T>, n: nat, pat: seq<T>, i: int)
    requires n <= |s|
    ensures OccursAt(s[..n], pat, i) <==> OccursAt(s, pat, i) && i + |pat| <= n
  {
    if 0 <= i && i + |pat| <= n {
      assert s[..n][i..i + |pat|] == s[i..i + |pat|];
    }
  }

  /** A pattern is visible in a prefix exactly when its first occurrence in the whole
      sequence already ends there. */
  lemma FindInPrefix<T>(s: seq<T>, n: nat, pat: seq<T>)
    requires n <= |s|
    ensures Find(s[..n], pat, 0) ==
            match Find(s, pat, 0)
              case None => None
              case Some(k) => if k + |pat| <= n then Some(k) else None
  {
    forall i: nat
      ensures OccursAt(s[..n], pat, i) <==> OccursAt(s, pat, i) && i + |pat| <= n
    {
      OccursInPrefix(s, n, pat, i);
    }
    match Find(s, pat, 0)
    case None =>
    case Some(k) => if k + |pat| <= n { FindUnique(s[..n], pat, 0, k); }
  }

  lemma OccurrenceElement<T>(s: seq<T>, pat: seq<T>, j: int, i: nat)
    requires i < |pat|
    ensures OccursAt(s, pat, j) ==> s[j + i] == pat[i]
  {
    if OccursAt(s, pat, j) { assert s[j..j + |pat|][i] == s[j + i]; }
  }

  lemma OccursInSuffix<T>(a: seq<T>, b: seq<T>, pat: seq<T>, j: int)
    requires j >= 0
    ensures OccursAt(a + b, pat, |a| + j) <==> OccursAt(b, pat, j)
  {
    if j + |pat| <= |b| { assert (a + b)[|a| + j..|a| + j + |pat|] == b[j..j + |pat|]; }
  }

  /** When no occurrence starts inside `a`, the search goes on in `b`. */
  lemma FindPast<T>(a: seq<T>, b: seq<T>, pat: seq<T>)
    requires forall j: nat :: j < |a| ==> !OccursAt(a + b, pat, j)
    ensures Find(a + b, pat, 0) ==
            match Find(b, pat, 0) case None => None case Some(k) => Some(|a| + k)
  {
    ShiftOccurrences(a, b, pat);
    hide Find, OccursAt;
    match Find(b, pat, 0)
    case None =>
    case Some(k) => FindUnique(a + b, pat, 0, |a| + k);
  }

  lemma ShiftOccurrences<T>(a: seq<T>, b: seq<T>, pat: seq<T>)
    ensures forall j: nat :: |a| <= j ==> (OccursAt(a + b, pat, j) <==> OccursAt(b, pat, j - |a|))
    ensures forall j: nat :: OccursAt(b, pat, j) ==> OccursAt(a + b, pat, |a| + j)
  {
    forall j: nat | |a| <= j ensures OccursAt(a + b, pat, j) <==> OccursAt(b, pat, j - |a|) {
      OccursInSuffix(a, b, pat, j - |a|);
    }
    forall j: nat | OccursAt(b, pat, j) ensures OccursAt(a + b, pat, |a| + j) { OccursInSuffix(a, b, pat, j); }
  }

  /** Searching from `start` is searching the suffix. */
  lemma FindFrom<T>(s: seq<T>, pat: seq<T>, start: nat)
    requires start <= |s|
    ensures Find(s, pat, start) ==
            match Find(s[start..], pat, 0) case None => None case Some(k) => Some(start + k)
  {
    var a, b := s[..start], s[start..];
    assert s == a + b;
    ShiftOccurrences(a, b, pat);
    hide Find, OccursAt;
    match Find(b, pat, 0)
    case None =>
      forall j: nat | start <= j ensures !OccursAt(s, pat, j) { assert !OccursAt(b, pat, j - start); }
    case Some(k) =>
      forall j: nat | start <= j < start + k ensures !OccursAt(s, pat, j) { assert !OccursAt(b, pat, j - start); }
      FindUnique(s, pat, start, start + k);
  }

  // ---------------------------------------------------------------- concatenation

  function Flatten<T>(parts: seq<seq<T>>): seq<T> {
    if parts == [] then [] else parts[0] + Flatten(parts[1..])
  }

  lemma {:induction false} FlattenSnoc<T>(parts: seq<seq<T>>, last: seq<T>)
    ensures Flatten(parts + [last]) == Flatten(parts) + last
  {
    if parts == [] {
      assert ([] + [last])[1..] == [];
    } else {
      assert (parts + [last])[1..] == parts[1..] + [last];
      FlattenSnoc(parts[1..], last);
    }
  }

  lemma {:induction false} FlattenConcat<T>(a: seq<seq<T>>, b: seq<seq<T>>)
    ensures Flatten(a + b) == Flatten(a) + Flatten(b)
  {
    if a == [] {
      assert a + b == b;
    } else {
      assert (a + b)[1..] == a[1..] + b;
      FlattenConcat(a[1..], b);
    }
  }
}
