/** The partial merge of schema fragments: plugins/sc-lint/install.py, `merge_schema` and
    `load_schema`. Values are taken up to Python's `==`, the only test the source applies to
    them; objects compare without key order. */
module SchemaMerge {
  import opened Search

  datatype Json = Atom(value: string) | Arr(items: seq<Json>) | Obj(fields: map<string, Json>)

  type Fields = map<string, Json>

  /** Two values at one key: objects merge, anything else must be equal. */
  function Merge(x: Json, y: Json): Option<Json>
    decreases x
  {
    if x.Obj? && y.Obj? then
      var a, b := x.fields, y.fields;
      if forall k :: k in a && k in b ==> Merge(a[k], b[k]).Some? then
        Some(Obj(map k | k in a.Keys + b.Keys ::
                   if k !in b then a[k] else if k !in a then b[k] else Merge(a[k], b[k]).value))
      else None
    else if x == y then Some(x) else None
  }

  /** `y` extends `x`: it keeps every value of `x` and may add keys inside objects. */
  predicate Extends(y: Json, x: Json)
    decreases x
  {
    if x.Obj? && y.Obj? then
      forall k :: k in x.fields ==> k in y.fields && Extends(y.fields[k], x.fields[k])
    else x == y
  }

  // ---------------------------------------------------------------- extension is an order

  lemma {:induction false} ExtendsReflexive(x: Json)
    ensures Extends(x, x)
    decreases x
  {
    if x.Obj? {
      forall k | k in x.fields ensures Extends(x.fields[k], x.fields[k]) { ExtendsReflexive(x.fields[k]); }
    }
  }

  lemma {:induction false} ExtendsTransitive(x: Json, y: Json, z: Json)
    requires Extends(y, x) && Extends(z, y)
    ensures Extends(z, x)
    decreases x
  {
    if x.Obj? {
      forall k | k in x.fields ensures k in z.fields && Extends(z.fields[k], x.fields[k]) {
        ExtendsTransitive(x.fields[k], y.fields[k], z.fields[k]);
      }
    }
  }

  lemma {:induction false} ExtendsAntisymmetric(x: Json, y: Json)
    requires Extends(y, x) && Extends(x, y)
    ensures x == y
    decreases x
  {
    if x.Obj? {
      forall k | k in x.fields ensures k in y.fields && x.fields[k] == y.fields[k] {
        ExtendsAntisymmetric(x.fields[k], y.fields[k]);
      }
      assert x.fields == y.fields;
    }
  }

  // ---------------------------------------------------------------- merge is the least common extension

  lemma {:induction false} MergeExtendsBoth(x: Json, y: Json)
    ensures Merge(x, y).Some? ==> Extends(Merge(x, y).value, x) && Extends(Merge(x, y).value, y)
    decreases x
  {
    ExtendsReflexive(x);
    if x.Obj? && y.Obj? && Merge(x, y).Some? {
      var a, b, m := x.fields, y.fields, Merge(x, y).value.fields;
      forall k | k in a ensures k in m && Extends(m[k], a[k]) {
        if k in b { MergeExtendsBoth(a[k], b[k]); } else { ExtendsReflexive(a[k]); }
      }
      forall k | k in b ensures k in m && Extends(m[k], b[k]) {
        if k in a { MergeExtendsBoth(a[k], b[k]); } else { ExtendsReflexive(b[k]); }
      }
    }
  }

  /** Whatever extends both sides shows that they merge, and extends the merge. */
  lemma {:induction false} MergeIsLeast(x: Json, y: Json, w: Json)
    requires Extends(w, x) && Extends(w, y)
    ensures Merge(x, y).Some? && Extends(w, Merge(x, y).value)
    decreases x
  {
    if x.Obj? && y.Obj? {
      var a, b := x.fields, y.fields;
      forall k | k in a && k in b
        ensures Merge(a[k], b[k]).Some? && Extends(w.fields[k], Merge(a[k], b[k]).value)
      {
        MergeIsLeast(a[k], b[k], w.fields[k]);
      }
    }
  }

  /** Merge is defined exactly when the two sides have a common extension, and is then the least. */
  lemma MergeIsLeastUpperBound(x: Json, y: Json)
    ensures Merge(x, y).Some? <==> exists w :: Extends(w, x) && Extends(w, y)
    ensures forall w :: Extends(w, x) && Extends(w, y) ==> Merge(x, y).Some? && Extends(w, Merge(x, y).value)
    ensures Merge(x, y).Some? ==> Extends(Merge(x, y).value, x) && Extends(Merge(x, y).value, y)
  {
    hide Merge, Extends;
    MergeExtendsBoth(x, y);
    if Merge(x, y).Some? {
      var least := Merge(x, y).value;
      assert Extends(least, x) && Extends(least, y);
    }
    forall w | Extends(w, x) && Extends(w, y) ensures Merge(x, y).Some? && Extends(w, Merge(x, y).value) {
      MergeIsLeast(x, y, w);
    }
  }

  /** Idempotent and commutative, with the same failures. */
  lemma MergeLaws(x: Json, y: Json)
    ensures Merge(x, x) == Some(x)
    ensures Merge(x, y) == Merge(y, x)
  {
    hide Merge, Extends;
    ExtendsReflexive(x);
    MergeIsLeastUpperBound(x, x);
    ExtendsAntisymmetric(x, Merge(x, x).value);
    MergeIsLeastUpperBound(x, y);
    MergeIsLeastUpperBound(y, x);
    if Merge(x, y).Some? { ExtendsAntisymmetric(Merge(x, y).value, Merge(y, x).value); }
  }

  // ---------------------------------------------------------------- folding the fragments

  /** `load_schema`: merge the fragments into the base one after another, stopping at a conflict. */
  function MergeAll(base: Json, fragments: seq<Json>): Option<Json> {
    if fragments == [] then Some(base)
    else
      match MergeAll(base, fragments[..|fragments| - 1])
      case None => None
      case Some(schema) => Merge(schema, fragments[|fragments| - 1])
  }

  predicate Bounds(w: Json, base: Json, fragments: seq<Json>) {
    Extends(w, base) && forall i :: 0 <= i < |fragments| ==> Extends(w, fragments[i])
  }

  lemma {:induction false} FoldBounded(base: Json, fragments: seq<Json>, w: Json)
    requires Bounds(w, base, fragments)
    ensures MergeAll(base, fragments).Some? && Extends(w, MergeAll(base, fragments).value)
  {
    hide Merge, Extends;
    if fragments == [] {
    } else {
      var n := |fragments| - 1;
      FoldBounded(base, fragments[..n], w);
      MergeIsLeastUpperBound(MergeAll(base, fragments[..n]).value, fragments[n]);
    }
  }

  lemma {:induction false} FoldExtends(base: Json, fragments: seq<Json>)
    ensures MergeAll(base, fragments).Some? ==> Bounds(MergeAll(base, fragments).value, base, fragments)
  {
    hide Merge, Extends;
    if fragments == [] {
      ExtendsReflexive(base);
    } else if MergeAll(base, fragments).Some? {
      var n := |fragments| - 1;
      FoldExtends(base, fragments[..n]);
      var before, z := MergeAll(base, fragments[..n]).value, MergeAll(base, fragments).value;
      MergeIsLeastUpperBound(before, fragments[n]);
      ExtendsTransitive(base, before, z);
      forall i | 0 <= i < |fragments| ensures Extends(z, fragments[i]) {
        if i < n { ExtendsTransitive(fragments[..n][i], before, z); }
      }
    }
  }

  /** The fold is defined exactly when base and fragments have one common extension, and is the
      least of them. */
  lemma FoldIsLeastUpperBound(base: Json, fragments: seq<Json>)
    ensures MergeAll(base, fragments).Some? <==> exists w :: Bounds(w, base, fragments)
    ensures forall w :: Bounds(w, base, fragments) ==>
              MergeAll(base, fragments).Some? && Extends(w, MergeAll(base, fragments).value)
    ensures MergeAll(base, fragments).Some? ==> Bounds(MergeAll(base, fragments).value, base, fragments)
  {
    hide Bounds, Extends, MergeAll;
    FoldExtends(base, fragments);
    forall w | Bounds(w, base, fragments)
      ensures MergeAll(base, fragments).Some? && Extends(w, MergeAll(base, fragments).value)
    {
      FoldBounded(base, fragments, w);
    }
  }

  /** The same fragments in any order, repeated or not, give the same schema or fail alike; the
      base may trade places with a fragment. */
  lemma FragmentOrderIsIrrelevant(base: Json, fragments: seq<Json>, base': Json, fragments': seq<Json>)
    requires Members(base, fragments) == Members(base', fragments')
    ensures MergeAll(base, fragments) == MergeAll(base', fragments')
  {
    hide MergeAll, Extends;
    FoldIsLeastUpperBound(base, fragments);
    FoldIsLeastUpperBound(base', fragments');
    forall w ensures Bounds(w, base, fragments) <==> Bounds(w, base', fragments') {
      BoundsBySet(w, base, fragments);
      BoundsBySet(w, base', fragments');
    }
    if MergeAll(base, fragments).Some? {
      ExtendsAntisymmetric(MergeAll(base, fragments).value, MergeAll(base', fragments').value);
    }
  }

  function Members(base: Json, fragments: seq<Json>): set<Json> { {base} + set f | f in fragments }

  lemma BoundsBySet(w: Json, base: Json, fragments: seq<Json>)
    ensures Bounds(w, base, fragments) <==> forall f :: f in Members(base, fragments) ==> Extends(w, f)
  {
    hide Extends;
    assert base in Members(base, fragments);
    assert forall i :: 0 <= i < |fragments| ==> fragments[i] in Members(base, fragments);
    if Bounds(w, base, fragments) {
      forall f | f in Members(base, fragments) ensures Extends(w, f) {
        if f != base { var i :| 0 <= i < |fragments| && fragments[i] == f; }
      }
    }
  }

  lemma MergeAssociative(x: Json, y: Json, z: Json)
    ensures (match Merge(x, y) case None => None case Some(m) => Merge(m, z))
            == (match Merge(y, z) case None => None case Some(m) => Merge(x, m))
  {
    hide Merge, Extends;
    FoldTwo(x, y, z);
    FoldTwo(y, z, x);
    FragmentOrderIsIrrelevant(x, [y, z], y, [z, x]);
    match Merge(y, z)
    case None =>
    case Some(m) => MergeLaws(m, x);
  }

  lemma FoldTwo(x: Json, y: Json, z: Json)
    ensures MergeAll(x, [y, z]) == match Merge(x, y) case None => None case Some(m) => Merge(m, z)
  {
    hide Merge;
    assert [y, z][..1] == [y] && [y][..0] == [];
    assert MergeAll(x, []) == Some(x);
    assert MergeAll(x, [y]) == Merge(x, y);
  }

  // ---------------------------------------------------------------- the loops of the source

  lemma MergeOfLeaf(x: Json, y: Json)
    requires !(x.Obj? && y.Obj?)
    ensures Merge(x, y) == if x == y then Some(x) else None
  {
  }

  lemma MergeFailsAt(base: Fields, overlay: Fields, key: string)
    requires key in base && key in overlay && Merge(base[key], overlay[key]).None?
    ensures Merge(Obj(base), Obj(overlay)).None?
  {
  }

  lemma MergeOfObjects(base: Fields, overlay: Fields, result: Fields)
    requires result.Keys == base.Keys + overlay.Keys
    requires forall k :: k in base && k !in overlay ==> result[k] == base[k]
    requires forall k :: k in overlay ==>
               if k in base then Merge(base[k], overlay[k]) == Some(result[k]) else result[k] == overlay[k]
    ensures Merge(Obj(base), Obj(overlay)) == Some(Obj(result))
  {
    assert Merge(Obj(base), Obj(overlay)).Some?;
    assert Merge(Obj(base), Obj(overlay)).value.fields == result;
  }

  /** `merge_schema`: copy the base, then visit the overlay's keys; every visiting order works.
      `None` is the ValueError of the first conflict met. */
  method MergeSchema(base: Fields, overlay: Fields) returns (r: Option<Fields>)
    ensures r.None? <==> Merge(Obj(base), Obj(overlay)).None?
    ensures r.Some? ==> Merge(Obj(base), Obj(overlay)) == Some(Obj(r.value))
    decreases Obj(overlay)
  {
    hide Merge;
    var result := base;
    var rest := overlay.Keys;
    while rest != {}
      invariant rest <= overlay.Keys
      invariant result.Keys == base.Keys + (overlay.Keys - rest)
      invariant forall k :: k in base && (k in rest || k !in overlay) ==> result[k] == base[k]
      invariant forall k :: k in overlay && k !in rest ==>
                  if k in base then Merge(base[k], overlay[k]) == Some(result[k]) else result[k] == overlay[k]
      decreases rest
    {
      var key :| key in rest;
      var value := overlay[key];
      if key !in result {
        result := result[key := value];
      } else if result[key].Obj? && value.Obj? {
        var merged := MergeSchema(result[key].fields, value.fields);
        if merged.None? {
          MergeFailsAt(base, overlay, key);
          return None;
        }
        result := result[key := Obj(merged.value)];
      } else {
        MergeOfLeaf(result[key], value);
        if result[key] != value {
          MergeFailsAt(base, overlay, key);
          return None;
        }
      }
      rest := rest - {key};
    }
    MergeOfObjects(base, overlay, result);
    r := Some(result);
  }

  method LoadSchema(base: Fields, fragments: seq<Fields>) returns (r: Option<Fields>)
    ensures r.None? <==> MergeAll(Obj(base), Objects(fragments)).None?
    ensures r.Some? ==> MergeAll(Obj(base), Objects(fragments)) == Some(Obj(r.value))
  {
    var schema := base;
    var i := 0;
    while i < |fragments|
      invariant 0 <= i <= |fragments|
      invariant MergeAll(Obj(base), Objects(fragments[..i])) == Some(Obj(schema))
    {
      var merged := MergeSchema(schema, fragments[i]);
      FoldStep(Obj(base), fragments, i);
      if merged.None? {
        FoldFailure(Obj(base), fragments, i + 1);
        return None;
      }
      schema := merged.value;
      i := i + 1;
    }
    assert fragments[..i] == fragments;
    r := Some(schema);
  }

  function Objects(fragments: seq<Fields>): (r: seq<Json>)
    ensures |r| == |fragments| && forall i :: 0 <= i < |r| ==> r[i] == Obj(fragments[i])
  { seq(|fragments|, i requires 0 <= i < |fragments| => Obj(fragments[i])) }

  lemma FoldStep(base: Json, fragments: seq<Fields>, i: nat)
    requires i < |fragments|
    ensures MergeAll(base, Objects(fragments[..i + 1])) ==
            match MergeAll(base, Objects(fragments[..i])) case None => None case Some(s) => Merge(s, Obj(fragments[i]))
  {
    hide Merge;
    assert Objects(fragments[..i + 1])[..i] == Objects(fragments[..i]);
  }

  lemma {:induction false} FoldFailure(base: Json, fragments: seq<Fields>, i: nat)
    requires i <= |fragments| && MergeAll(base, Objects(fragments[..i])).None?
    ensures MergeAll(base, Objects(fragments)).None?
    decreases |fragments| - i
  {
    hide Merge;
    if i < |fragments| {
      FoldStep(base, fragments, i);
      FoldFailure(base, fragments, i + 1);
    } else {
      assert fragments[..i] == fragments;
    }
  }
}
