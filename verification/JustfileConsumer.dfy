/** What becomes of the consumer's own text in the Justfile merge, what the three patterns look for,
    and which texts are accepted: plugins/sc-lint/install.py, `unmanaged` and `desired`. */
module JustfileConsumer {
  import opened Search
  import opened PythonText
  import opened Justfile
  import opened JustfileTheorems

  // ---------------------------------------------------------------- trimming

  function Trim(s: string): string { LstripNewlines(Rstrip(s)) }

  lemma {:induction false} RstripSpace(u: string, w: string)
    requires AllSpace(w)
    ensures Rstrip(u + w) == Rstrip(u)
  {
    if w == "" {
      assert u + w == u;
    } else {
      var n := |w| - 1;
      assert (u + w)[..|u| + n] == u + w[..n] && (u + w)[|u| + n] == w[n];
      RstripSpace(u, w[..n]);
    }
  }

  lemma {:induction false} LstripSkips(w: string, s: string)
    requires AllNewlines(w)
    ensures LstripNewlines(w + s) == LstripNewlines(s)
  {
    if w == "" {
      assert w + s == s;
    } else {
      assert (w + s)[1..] == w[1..] + s;
      LstripSkips(w[1..], s);
    }
  }

  /** Text that begins and ends in sight is left as it is. */
  lemma PrefixWithoutSpace(p: string, v: string, w: string)
    requires p <= v + w && AllSpace(w) && (p == "" || !IsSpace(p[|p| - 1]))
    ensures p <= v
  {
    SpaceAfter(v, w, |p|);
    hide IsSpace, AllSpace;
    assert p != "" ==> p[|p| - 1] == (v + w)[|p| - 1];
  }

  /** Stripping the front commutes with white space at the end, or leaves only white space. */
  lemma StripFront(u: string, w: string)
    requires AllSpace(w)
    ensures var l := LstripNewlines(u + w);
            if LstripNewlines(u) == "" then AllSpace(l) else l == LstripNewlines(u) + w
  {
    if LstripNewlines(u) == "" {
      LstripEmpty(u);
      LstripSkips(u, w);
      SuffixOfSpace(w);
    } else {
      LstripConcat(u, w);
    }
  }

  lemma SuffixOfSpace(w: string)
    requires AllSpace(w)
    ensures AllSpace(LstripNewlines(w))
  {
    hide LstripNewlines, IsSpace;
    var l := LstripNewlines(w);
    assert forall i :: 0 <= i < |l| ==> l[i] == w[|w| - |l| + i];
  }

  lemma OnlySpacePrefix(p: string, l: string)
    requires p <= l && AllSpace(l)
    ensures p == "" || IsSpace(p[|p| - 1])
  {
    if p != "" { assert p[|p| - 1] == l[|p| - 1]; }
  }

  lemma PrefixPastSpace(p: string, u: string, w: string)
    requires AllSpace(w) && p <= LstripNewlines(u + w) && (p == "" || !IsSpace(p[|p| - 1]))
    ensures p <= LstripNewlines(u)
  {
    hide LstripNewlines, IsSpace, AllSpace;
    StripFront(u, w);
    if LstripNewlines(u) == "" {
      OnlySpacePrefix(p, LstripNewlines(u + w));
    } else {
      PrefixWithoutSpace(p, LstripNewlines(u), w);
    }
  }

  lemma RstripSplit(s: string)
    ensures var u := Rstrip(s); s == u + s[|u|..] && AllSpace(s[|u|..])
  {
    hide Rstrip, AllSpace;
  }

  lemma LstripSplit(s: string)
    ensures var l := LstripNewlines(s);
            && |l| <= |s| && s == s[..|s| - |l|] + l && AllNewlines(s[..|s| - |l|]) && HashFree(s[..|s| - |l|])
  {
    hide LstripNewlines;
  }

  /** A prefix that ends in sight does not reach into trailing white space. */
  lemma PrefixOfTrim(p: string, s: string)
    requires p <= LstripNewlines(s) && (p == "" || !IsSpace(p[|p| - 1]))
    ensures p <= Trim(s)
  {
    hide Rstrip, LstripNewlines, IsSpace, AllSpace;
    RstripSplit(s);
    PrefixPastSpace(p, Rstrip(s), s[|Rstrip(s)|..]);
  }

  lemma LastOfStrip(u: string)
    requires LstripNewlines(u) != ""
    ensures LstripNewlines(u)[|LstripNewlines(u)| - 1] == u[|u| - 1]
  {
    hide LstripNewlines;
  }

  lemma TrimIsPrefix(s: string)
    ensures Trim(s) <= LstripNewlines(s) && (Trim(s) == "" || !IsSpace(Trim(s)[|Trim(s)| - 1]))
  {
    var u := Rstrip(s);
    var w := s[|u|..];
    assert s == u + w;
    hide Rstrip, LstripNewlines, IsSpace, AllSpace;
    StripFront(u, w);
    if LstripNewlines(u) != "" { LastOfStrip(u); }
  }

  // ---------------------------------------------------------------- searching and counting under changes

  lemma {:induction false} SubTrailingSpace(a: string, w: string, kit: Kit)
    requires MarkersOk(kit) && AllSpace(w)
    ensures Unmanaged(a + w, kit) == Unmanaged(a, kit) + w
    decreases |a|
  {
    hide Find, OccursAt, Unmanaged, AllSpace, MarkerLike;
    FindTrailingSpace(a, w, kit.open);
    match Find(a, kit.open, 0)
    case None =>
      UnmanagedStop(a, kit);
      UnmanagedStop(a + w, kit);
    case Some(i) =>
      var n := i + |kit.open|;
      MarkerEnds(a, kit.open, i);
      assert (a + w)[n..] == a[n..] + w;
      FindTrailingSpace(a[n..], w, kit.close);
      match Find(a[n..], kit.close, 0)
      case None =>
        UnmanagedStop(a, kit);
        UnmanagedStop(a + w, kit);
      case Some(k) =>
        var e := n + k + |kit.close|;
        MarkerEnds(a[n..], kit.close, k);
        FindFrom(a, kit.close, n);
        FindFrom(a + w, kit.close, n);
        UnmanagedStep(a, kit, i, n + k);
        UnmanagedStep(a + w, kit, i, n + k);
        SubTrailingSpace(a[e..], w, kit);
        assert (a + w)[e..] == a[e..] + w && (a + w)[..i] == a[..i];
  }

  lemma {:induction false} CountTrailingSpace(u: string, w: string, m: string)
    requires MarkerLike(m) && AllSpace(w)
    ensures Count(u + w, m) == Count(u, m)
    decreases |u|
  {
    hide Find, OccursAt, AllSpace;
    FindTrailingSpace(u, w, m);
    match Find(u, m, 0)
    case None =>
    case Some(i) =>
      MarkerEnds(u, m, i);
      assert (u + w)[i + |m|..] == u[i + |m|..] + w;
      CountTrailingSpace(u[i + |m|..], w, m);
  }

  lemma {:induction false} CountTail(a: string, tail: string, m: string)
    requires MarkerLike(m) && Find(tail, m, 0).None? && tail != "" && tail[0] == '\n'
    ensures Count(a + tail, m) == Count(a, m)
    decreases |a|
  {
    hide Find, OccursAt;
    FindBefore(a, tail, m);
    match Find(a, m, 0)
    case None =>
    case Some(i) =>
      MarkerEnds(a, m, i);
      assert (a + tail)[i + |m|..] == a[i + |m|..] + tail;
      CountTail(a[i + |m|..], tail, m);
  }

  lemma CountPastNewlines(w: string, t: string, m: string)
    requires MarkerLike(m) && HashFree(w)
    ensures Count(w + t, m) == Count(t, m)
  {
    hide Find, OccursAt, HashFree;
    SkipHashFree(w, t, m);
    match Find(t, m, 0)
    case None =>
    case Some(i) => assert (w + t)[|w| + i + |m|..] == t[i + |m|..];
  }

  // ---------------------------------------------------------------- the recipe step

  predicate HasTest(original: string, kit: Kit)
    requires kit.open != ""
  { Found(TestRecipe, Unmanaged(original, kit)) }

  /** The recipe step as three small changes: trailing space off, the recipe on, leading newlines off. */
  lemma RecipeShape(original: string, kit: Kit) returns (space: string, tail: string, w: string)
    requires KitOk(kit) && !HasTest(original, kit)
    ensures tail == "\n\n" + kit.testRecipe && AllSpace(space) && AllNewlines(w) && HashFree(w)
    ensures original == Rstrip(original) + space
    ensures Rstrip(original) + tail == w + WithTest(original, kit)
    ensures Free(tail, kit) && tail[0] == '\n'
  {
    assert WithTest(original, kit) == LstripNewlines(Rstrip(original) + "\n\n" + kit.testRecipe);
    TailFree(kit);
    hide *;
    tail := "\n\n" + kit.testRecipe;
    RstripSplit(original);
    space := original[|Rstrip(original)|..];
    var full := Rstrip(original) + "\n\n" + kit.testRecipe;
    LstripSplit(full);
    w := full[..|full| - |LstripNewlines(full)|];
    Regroup(Rstrip(original), "\n\n", kit.testRecipe);
  }

  lemma TailFree(kit: Kit)
    requires KitOk(kit)
    ensures Free("\n\n" + kit.testRecipe, kit) && ("\n\n" + kit.testRecipe)[0] == '\n'
  {
    hide Find, OccursAt, Found, TestRecipe, MarkerLike, HashFree;
    BlankHashFree();
    FreeAfterBlank("\n\n", kit.testRecipe, kit);
  }

  lemma BlankHashFree()
    ensures HashFree("\n\n")
  {
  }

  /** With the recipe appended, the consumer part is the old one, trimmed at its end, and the recipe. */
  lemma RecipePart(original: string, kit: Kit)
    requires KitOk(kit) && !HasTest(original, kit)
    ensures LstripNewlines(Unmanaged(WithTest(original, kit), kit)) ==
            LstripNewlines(Unmanaged(Rstrip(original), kit) + "\n\n" + kit.testRecipe)
  {
    var space, tail, w := RecipeShape(original, kit);
    var a, t := Rstrip(original), WithTest(original, kit);
    RemovedPart(a, tail, w, t, kit);
    hide *;
    Regroup(Unmanaged(a, kit), "\n\n", kit.testRecipe);
  }

  lemma Regroup(a: string, b: string, c: string)
    ensures a + b + c == a + (b + c)
  {
  }

  lemma RemovedPart(a: string, tail: string, w: string, t: string, kit: Kit)
    requires MarkersOk(kit) && Free(tail, kit) && tail != "" && tail[0] == '\n'
    requires AllNewlines(w) && HashFree(w) && a + tail == w + t
    ensures LstripNewlines(Unmanaged(t, kit)) == LstripNewlines(Unmanaged(a, kit) + tail)
  {
    assert kit.open != "";
    hide *;
    SubAppend(a, tail, kit);
    SubHashFreePrefix(w, t, kit);
    LstripSkips(w, Unmanaged(t, kit));
  }

  lemma RecipeCounts(original: string, kit: Kit, m: string)
    requires KitOk(kit) && (m == kit.open || m == kit.close)
    ensures Count(WithTest(original, kit), m) == Count(original, m)
  {
    if !HasTest(original, kit) {
      var space, tail, w := RecipeShape(original, kit);
      hide Find, OccursAt, Found, TestRecipe, Unmanaged, Rstrip, WithTest, HashFree, Count, HasTest;
      CountTrailingSpace(Rstrip(original), space, m);
      CountTail(Rstrip(original), tail, m);
      CountPastNewlines(w, WithTest(original, kit), m);
    }
  }

  lemma RecipeFinds(original: string, kit: Kit)
    requires KitOk(kit)
    ensures Find(WithTest(original, kit), kit.open, 0).Some? <==> Find(original, kit.open, 0).Some?
  {
    hide Find, OccursAt, Found, TestRecipe, Unmanaged, Rstrip, WithTest, Count, HashFree;
    RecipeCounts(original, kit, kit.open);
    CountSome(original, kit.open);
    CountSome(WithTest(original, kit), kit.open);
  }

  // ---------------------------------------------------------------- which texts are accepted

  /** Where `m` occurs in `t`, at `n` or later. */
  function OccurrencesFrom(t: string, m: string, n: int): set<int> {
    set i | 0 <= i < |t| && i >= n && OccursAt(t, m, i)
  }

  function Occurrences(t: string, m: string): set<int> { set i | 0 <= i < |t| && OccursAt(t, m, i) }

  lemma {:induction false} CountFrom(t: string, m: string, n: nat)
    requires MarkerLike(m) && n <= |t|
    ensures Count(t[n..], m) == |OccurrencesFrom(t, m, n)|
    decreases |t| - n
  {
    hide Find, OccursAt, OccurrencesFrom;
    FindFrom(t, m, n);
    match Find(t[n..], m, 0)
    case None => NoOccurrences(t, m, n);
    case Some(k) =>
      var next := n + k + |m|;
      MarkerEnds(t[n..], m, k);
      CountFrom(t, m, next);
      assert t[n..][k + |m|..] == t[next..];
      FirstAndRest(t, m, n, n + k);
  }

  lemma NoOccurrences(t: string, m: string, n: nat)
    requires Find(t, m, n).None?
    ensures OccurrencesFrom(t, m, n) == {}
  {
    hide Find, OccursAt;
  }

  lemma FirstAndRest(t: string, m: string, n: nat, k: nat)
    requires MarkerLike(m) && n <= k && Find(t, m, n) == Some(k)
    ensures OccurrencesFrom(t, m, n) == {k} + OccurrencesFrom(t, m, k + |m|) && k !in OccurrencesFrom(t, m, k + |m|)
  {
    hide Find;
    assert OccursAt(t, m, k) && forall j: nat :: n <= j < k ==> !OccursAt(t, m, j);
    hide OccursAt;
    forall i | i in OccurrencesFrom(t, m, n) && i != k ensures i >= k + |m| { NoOverlap(t, m, k, i); }
  }

  /** Markers do not overlap, so counting them is counting where they occur. */
  lemma CountMeans(t: string, m: string)
    requires MarkerLike(m)
    ensures Count(t, m) == |Occurrences(t, m)|
  {
    hide Count, OccursAt;
    CountFrom(t, m, 0);
    assert t[0..] == t && OccurrencesFrom(t, m, 0) == Occurrences(t, m);
  }

  /** A Justfile is accepted if and only if it has no marker, or one of each. */
  lemma AcceptedIff(original: string, kit: Kit, wantShell: bool)
    requires KitOk(kit)
    ensures Merge(original, kit, wantShell).Some? <==>
            |Occurrences(original, kit.open)| == |Occurrences(original, kit.close)| <= 1
  {
    hide Find, OccursAt, Found, TestRecipe, Unmanaged, Sub, WithTest, Count, BlockFor, Occurrences, HashFree, Rstrip,
         LstripNewlines;
    RecipeCounts(original, kit, kit.open);
    RecipeCounts(original, kit, kit.close);
    CountMeans(original, kit.open);
    CountMeans(original, kit.close);
  }

  // ---------------------------------------------------------------- the consumer's text

  /** What the merge makes of the consumer part of a text that has a `test` recipe. */
  lemma MergedPart(t: string, kit: Kit, wantShell: bool)
    requires KitOk(kit) && Found(TestRecipe, Unmanaged(t, kit)) && Merge(t, kit, wantShell).Some?
    ensures LstripNewlines(Unmanaged(Merge(t, kit, wantShell).value, kit)) ==
            if Find(t, kit.open, 0).None? then Trim(t) + "\n\n" else LstripNewlines(Unmanaged(t, kit))
  {
    KeepsTest(t, kit);
    hide Find, OccursAt, Found, MarkerLike, TestRecipe, BlockFor, Sub, Unmanaged, Rstrip, LstripNewlines, Count,
         HashFree;
    CountSome(t, kit.open);
    CountSome(t, kit.close);
    if Find(t, kit.open, 0).None? {
      AppendCase(t, kit, wantShell);
      UnmanagedStop(t, kit);
      PatternsAreRobust();
      MatchIsVisible(TestRecipe, t);
      TrimVisible(t);
      LstripTwice(Rstrip(t), "\n\n");
    } else if Ordered(t, kit) {
      ReplaceCase(t, kit, wantShell);
    } else {
      MisorderedCase(t, kit, BlockFor(Unmanaged(t, kit), kit, wantShell));
    }
  }

  lemma LstripTwice(u: string, tail: string)
    requires LstripNewlines(u) != ""
    ensures LstripNewlines(LstripNewlines(u) + tail) == LstripNewlines(u) + tail
  {
    var v := LstripNewlines(u);
    hide LstripNewlines;
    LstripUnique(v + tail, "", v + tail);
  }

  /** Exactly: the text to be merged is the original, or the original with the recipe appended. */
  lemma MergeOfWithTest(original: string, kit: Kit, wantShell: bool)
    requires KitOk(kit)
    ensures Merge(original, kit, wantShell) == Merge(WithTest(original, kit), kit, wantShell)
  {
    TestGuaranteed(original, kit);
    hide Found, Unmanaged, WithTest, KitOk;
    KeepsTest(WithTest(original, kit), kit);
  }

  /** The consumer part of the result, for every accepted Justfile with or without markers and recipe:
      the old one, with the recipe behind it if it had none. */
  lemma ConsumerPart(original: string, kit: Kit, wantShell: bool)
    requires KitOk(kit) && Merge(original, kit, wantShell).Some?
    ensures LstripNewlines(Unmanaged(Merge(original, kit, wantShell).value, kit)) ==
            if Find(original, kit.open, 0).None? then
              (if HasTest(original, kit) then Trim(original)
               else Trim(Rstrip(original) + "\n\n" + kit.testRecipe)) + "\n\n"
            else if HasTest(original, kit) then LstripNewlines(Unmanaged(original, kit))
            else LstripNewlines(Unmanaged(Rstrip(original), kit) + "\n\n" + kit.testRecipe)
  {
    var t := WithTest(original, kit);
    if !HasTest(original, kit) {
      RecipePart(original, kit);
      TrimOfStripped(Rstrip(original) + "\n\n" + kit.testRecipe);
    }
    TestGuaranteed(original, kit);
    assert HasTest(original, kit) ==> t == original;
    assert !HasTest(original, kit) ==> t == LstripNewlines(Rstrip(original) + "\n\n" + kit.testRecipe);
    hide *;
    MergeOfWithTest(original, kit, wantShell);
    MergedPart(t, kit, wantShell);
    RecipeFinds(original, kit);
  }

  lemma TrimOfStripped(s: string)
    ensures Trim(LstripNewlines(s)) == Trim(s)
  {
    hide Rstrip, LstripNewlines, AllSpace, AllNewlines, HashFree;
    LstripSplit(s);
    var l := LstripNewlines(s);
    var w := s[..|s| - |l|];
    if AllSpace(l) {
      SpaceConcat(w, l);
      RstripOfSpace(l);
      RstripOfSpace(s);
    } else {
      RstripPrefix(w, l);
      LstripSkips(w, Rstrip(l));
    }
  }

  lemma RstripOfSpace(s: string)
    requires AllSpace(s)
    ensures Rstrip(s) == ""
  {
    RstripSpace("", s);
    assert "" + s == s;
  }

  lemma AllSpaceSnoc(l: string, c: char)
    ensures AllSpace(l + [c]) <==> AllSpace(l) && IsSpace(c)
  {
    if AllSpace(l + [c]) {
      assert (l + [c])[|l|] == c;
      forall i | 0 <= i < |l| ensures IsSpace(l[i]) { assert (l + [c])[i] == l[i]; }
    }
  }

  lemma {:induction false} RstripPrefix(w: string, l: string)
    requires !AllSpace(l)
    ensures Rstrip(w + l) == w + Rstrip(l)
    decreases |l|
  {
    hide IsSpace, AllSpace;
    if l == "" {
      EmptyIsSpace();
    } else {
      var n := |l| - 1;
      assert (w + l)[..|w| + n] == w + l[..n] && (w + l)[|w| + n] == l[n];
      assert l == l[..n] + [l[n]];
      AllSpaceSnoc(l[..n], l[n]);
      if IsSpace(l[n]) { RstripPrefix(w, l[..n]); }
    }
  }

  lemma SpaceConcat(w: string, l: string)
    requires AllNewlines(w) && AllSpace(l)
    ensures AllSpace(w + l)
  {
  }

  /** Nothing of the consumer's is lost: up to white space at its ends, the old consumer part is
      where the new one begins, for every Justfile that is accepted. */
  lemma ConsumerTextKept(original: string, kit: Kit, wantShell: bool)
    requires KitOk(kit) && Merge(original, kit, wantShell).Some?
    ensures Trim(Unmanaged(original, kit)) <= LstripNewlines(Unmanaged(Merge(original, kit, wantShell).value, kit))
  {
    ConsumerPart(original, kit, wantShell);
    TrimIsPrefix(Unmanaged(original, kit));
    if Find(original, kit.open, 0).None? {
      UnmanagedStop(original, kit);
      if !HasTest(original, kit) { KeptFree(original, kit.testRecipe); }
    } else if !HasTest(original, kit) {
      KeptMarked(original, kit);
    }
  }

  lemma KeptFree(original: string, recipe: string)
    ensures Trim(original) <= Trim(Rstrip(original) + "\n\n" + recipe)
  {
    var a := Rstrip(original);
    assert original == a + original[|a|..];
    TrimSpace(a, original[|a|..]);
    TrimIsPrefix(a);
    hide *;
    Regroup(a, "\n\n", recipe);
    LstripBefore(a, "\n\n" + recipe);
    PrefixOfTrim(Trim(a), a + "\n\n" + recipe);
  }

  lemma KeptMarked(original: string, kit: Kit)
    requires MarkersOk(kit)
    ensures Trim(Unmanaged(original, kit)) <=
            LstripNewlines(Unmanaged(Rstrip(original), kit) + "\n\n" + kit.testRecipe)
  {
    var a := Rstrip(original);
    var space := original[|a|..];
    assert original == a + space;
    hide *;
    var u := Unmanaged(a, kit);
    SubTrailingSpace(a, space, kit);
    TrimSpace(u, space);
    TrimIsPrefix(u);
    Regroup(u, "\n\n", kit.testRecipe);
    LstripBefore(u, "\n\n" + kit.testRecipe);
  }

  lemma TrimSpace(u: string, w: string)
    requires AllSpace(w)
    ensures Trim(u + w) == Trim(u)
  {
    RstripSpace(u, w);
  }

  lemma LstripBefore(u: string, tail: string)
    ensures LstripNewlines(u) <= LstripNewlines(u + tail)
  {
    hide LstripNewlines;
    if LstripNewlines(u) != "" { LstripConcat(u, tail); }
  }

  /** The text that goes before the block: the trimmed original, and the recipe if it lacks one. */
  function TextBefore(original: string, kit: Kit): string {
    if Found(TestRecipe, original) then Trim(original) else Trim(original) + "\n\n" + Rstrip(kit.testRecipe)
  }

  /** A text without markers, exactly: that text, a blank line, and the block it calls for. */
  lemma FreeTextMerged(original: string, kit: Kit, wantShell: bool)
    requires KitOk(kit) && Free(original, kit) && !AllSpace(original)
    ensures var text := TextBefore(original, kit) + "\n\n";
            Merge(original, kit, wantShell) == Some(text + BlockFor(text, kit, wantShell))
  {
    var t := WithTest(original, kit);
    UnmanagedStop(original, kit);
    TrimVisible(original);
    TestGuaranteed(original, kit);
    TrimOfWithTest(original, kit);
    hide Find, OccursAt, Found, MarkerLike, TestRecipe, BlockFor, Sub, Unmanaged, Rstrip, LstripNewlines, Count,
         HashFree, WithTest, TextBefore, Trim, AllSpace;
    MergeOfWithTest(original, kit, wantShell);
    KeepsTest(t, kit);
    RecipeCounts(original, kit, kit.open);
    RecipeCounts(original, kit, kit.close);
    CountSome(original, kit.open);
    CountSome(original, kit.close);
    CountSome(t, kit.open);
    CountSome(t, kit.close);
    AppendedIs(t, kit, wantShell);
  }

  lemma AppendedIs(t: string, kit: Kit, wantShell: bool)
    requires KitOk(kit) && Free(t, kit) && Found(TestRecipe, Unmanaged(t, kit))
    requires Count(t, kit.open) == 0 == Count(t, kit.close) && WithTest(t, kit) == t
    ensures var text := Trim(t) + "\n\n"; Merge(t, kit, wantShell) == Some(text + BlockFor(text, kit, wantShell))
  {
    hide Find, OccursAt, Found, MarkerLike, TestRecipe, BlockFor, Sub, Unmanaged, Rstrip, LstripNewlines, Count,
         HashFree, WithTest;
    AppendCase(t, kit, wantShell);
  }

  lemma TrimOfWithTest(original: string, kit: Kit)
    requires KitOk(kit) && Unmanaged(original, kit) == original && Trim(original) != ""
    ensures Trim(WithTest(original, kit)) == TextBefore(original, kit)
  {
    if !Found(TestRecipe, original) {
      PatternsAreRobust();
      MatchIsVisible(TestRecipe, kit.testRecipe);
      TrimOfAppended(original, kit.testRecipe);
    }
  }

  lemma TrimOfAppended(original: string, recipe: string)
    requires Trim(original) != "" && !AllSpace(recipe)
    ensures Trim(LstripNewlines(Rstrip(original) + "\n\n" + recipe)) == Trim(original) + "\n\n" + Rstrip(recipe)
  {
    var a := Rstrip(original);
    assert LstripNewlines(a) == Trim(original);
    hide Rstrip, LstripNewlines, AllSpace;
    TrimOfStripped(a + "\n\n" + recipe);
    RstripPrefix(a + "\n\n", recipe);
    Regroup(a, "\n\n", Rstrip(recipe));
    LstripConcat(a, "\n\n" + Rstrip(recipe));
    Regroup(LstripNewlines(a), "\n\n", Rstrip(recipe));
  }

  /** A blank Justfile is treated like an empty one. */
  lemma BlankTextMerged(original: string, kit: Kit, wantShell: bool)
    requires KitOk(kit) && AllSpace(original)
    ensures Merge(original, kit, wantShell) == Some(KitText(kit, wantShell))
  {
    BlankLacksTest(original, kit);
    RstripOfSpace(original);
    RstripOfSpace("");
    EmptyTextLacksTest(kit);
    hide *;
    BlankWithTest(original, kit);
    MergeOfWithTest(original, kit, wantShell);
    MergeOfWithTest("", kit, wantShell);
    MergeOfEmpty(kit, wantShell);
  }

  lemma BlankLacksTest(original: string, kit: Kit)
    requires KitOk(kit) && AllSpace(original)
    ensures !HasTest(original, kit)
  {
    hide Find, OccursAt, Found, MarkerLike, TestRecipe, Robust, HashFree, Unmanaged, AllSpace;
    SubTrailingSpace("", original, kit);
    FindEmpty(kit);
    UnmanagedStop("", kit);
    assert "" + original == original;
    PatternsAreRobust();
    if Found(TestRecipe, original) { MatchIsVisible(TestRecipe, original); }
  }

  lemma BlankWithTest(original: string, kit: Kit)
    requires KitOk(kit) && !HasTest(original, kit) && Rstrip(original) == ""
    requires WithTest("", kit) == LstripNewlines(kit.testRecipe)
    ensures WithTest(original, kit) == WithTest("", kit)
  {
    PatternsAreRobust();
    MatchIsVisible(TestRecipe, kit.testRecipe);
    LstripBlank(kit.testRecipe);
  }

  // ---------------------------------------------------------------- what the block says

  /** The block, spelled out: the shell setting and the Python binding only where the consumer part
      has none of its own, and always the import. */
  lemma BlockSpelled(part: string, kit: Kit, wantShell: bool)
    ensures BlockFor(part, kit, wantShell) ==
            kit.open + "\n"
            + (if wantShell && !Found(ShellSetting, part) then kit.shellLine else "")
            + (if Found(PythonBinding, part) then "" else kit.pythonLine)
            + kit.importLine + kit.close
  {
    hide Found;
    var a, b := wantShell && !Found(ShellSetting, part), !Found(PythonBinding, part);
    var x, y := if a then kit.shellLine else "", if b then kit.pythonLine else "";
    assert kit.open + ("\n" + x + y + kit.importLine) + kit.close ==
           kit.open + "\n" + x + y + kit.importLine + kit.close;
  }

  // ---------------------------------------------------------------- what the patterns look for

  predicate EndsLine(a: string) { a == "" || a[|a| - 1] == '\n' }

  function Pasted(a: string, q: string, b: string): string { a + q + b }

  /** A pattern is found exactly where a whole piece of text that it accepts starts a line. */
  lemma FoundMeans(p: Pattern, t: string)
    ensures Found(p, t) <==>
            exists a, q, b :: t == Pasted(a, q, b) && EndsLine(a) && p(q, if b == "" then None else Some(b[0]))
  {
    if Found(p, t) {
      var i, e :| 0 <= i <= |t| && 0 <= e <= |t| && MatchAt(p, t, i, e);
      assert t == Pasted(t[..i], t[i..e], t[e..]);
    }
    if a, q, b :| t == Pasted(a, q, b) && EndsLine(a) && p(q, if b == "" then None else Some(b[0])) {
      assert t[|a|..|a| + |q|] == q;
      assert MatchAt(p, t, |a|, |a| + |q|);
    }
  }

  const LOWER_CASE := "abcdefghijklmnopqrstuvwxyz"
  const UPPER_CASE := "ABCDEFGHIJKLMNOPQRSTUVWXYZ"
  const DIGITS_AND_UNDERSCORE := "0123456789_"

  lemma LowerCaseMeans(c: char)
    ensures c in LOWER_CASE <==> 'a' <= c <= 'z'
  {
    forall i | 0 <= i < 26 ensures LOWER_CASE[i] as int == 'a' as int + i {}
    hide LOWER_CASE;
    if 'a' <= c <= 'z' { assert LOWER_CASE[c as int - 'a' as int] == c; }
  }

  lemma UpperCaseMeans(c: char)
    ensures c in UPPER_CASE <==> 'A' <= c <= 'Z'
  {
    forall i | 0 <= i < 26 ensures UPPER_CASE[i] as int == 'A' as int + i {}
    hide UPPER_CASE;
    if 'A' <= c <= 'Z' { assert UPPER_CASE[c as int - 'A' as int] == c; }
  }

  lemma DigitsMean(c: char)
    ensures c in DIGITS_AND_UNDERSCORE <==> '0' <= c <= '9' || c == '_'
  {
    if '0' <= c <= '9' { assert DIGITS_AND_UNDERSCORE[c as int - '0' as int] == c; }
    if c == '_' { assert DIGITS_AND_UNDERSCORE[10] == c; }
    if c in DIGITS_AND_UNDERSCORE {
      var i :| 0 <= i < 11 && DIGITS_AND_UNDERSCORE[i] == c;
    }
  }

  /** The word characters within ASCII. */
  lemma WordMeans(c: char)
    requires c < '\U{80}'
    ensures IsWord(c) <==> c in LOWER_CASE || c in UPPER_CASE || c in DIGITS_AND_UNDERSCORE
  {
    LowerCaseMeans(c);
    UpperCaseMeans(c);
    DigitsMean(c);
    hide LOWER_CASE, UPPER_CASE, DIGITS_AND_UNDERSCORE;
  }

  /** `test`, then anything but a colon or a line break that does not continue the word, a colon. */
  lemma TestRecipeMeans(q: string, next: Option<char>)
    ensures TestRecipe(q, next) <==>
            exists gap :: q == Pasted("test", gap, ":") && ':' !in gap && '\n' !in gap && next != Some('=') &&
                          (gap == "" || (!IsWord(gap[0]) && gap[0] != '-'))
  {
    if TestRecipe(q, next) {
      var gap := q[4..|q| - 1];
      assert forall k :: 0 <= k < |gap| ==> gap[k] == q[k + 4];
      assert q == Pasted("test", gap, ":");
    }
    if gap :| q == Pasted("test", gap, ":") && ':' !in gap && '\n' !in gap && next != Some('=') &&
              (gap == "" || (!IsWord(gap[0]) && gap[0] != '-')) {
      assert q[..4] == "test" && q[|q| - 1] == ':';
      assert forall k :: 4 <= k < |q| - 1 ==> q[k] == gap[k - 4];
      assert q[4] == if gap == "" then ':' else gap[0];
    }
  }

  /** `set`, white space, `windows-shell` as a whole word. */
  lemma ShellSettingMeans(q: string, next: Option<char>)
    ensures ShellSetting(q, next) <==>
            exists gap :: q == Pasted("set", gap, "windows-shell") && gap != "" && AllSpace(gap) &&
                          (next.Some? ==> !IsWord(next.value))
  {
    hide IsSpace, IsWord;
    if ShellSetting(q, next) {
      var gap := q[3..|q| - 13];
      assert q == Pasted("set", gap, "windows-shell");
    }
    if gap :| q == Pasted("set", gap, "windows-shell") && gap != "" && AllSpace(gap) &&
              (next.Some? ==> !IsWord(next.value)) {
      assert q[..3] == "set" && q[3..|q| - 13] == gap && q[|q| - 13..] == "windows-shell";
    }
  }

  /** `python`, white space or none, `=` or `:=`; or the same exported. */
  lemma PythonAssignmentMeans(q: string)
    ensures PythonAssignment(q) <==>
            exists gap, colon ::
              q == Pasted("python", gap, colon + "=") && AllSpace(gap) && (colon == "" || colon == ":")
  {
    hide IsSpace, PythonAssignment, AllSpace;
    if PythonAssignment(q) {
      var gap, colon := AssignmentParts(q);
      assert q == Pasted("python", gap, colon + "=");
    }
    if gap, colon :| q == Pasted("python", gap, colon + "=") && AllSpace(gap) && (colon == "" || colon == ":") {
      AssignmentOf(gap, colon);
    }
  }

  lemma AssignmentParts(q: string) returns (gap: string, colon: string)
    requires PythonAssignment(q)
    ensures q == Pasted("python", gap, colon + "=") && AllSpace(gap) && (colon == "" || colon == ":")
  {
    hide IsSpace;
    var middle := q[6..|q| - 1];
    assert q == "python" + middle + "=";
    if AllSpace(middle) {
      gap, colon := middle, "";
      assert "" + "=" == "=";
    } else {
      gap, colon := middle[..|middle| - 1], ":";
      assert middle == gap + ":";
      hide AllSpace;
      assert "python" + (gap + ":") + "=" == "python" + gap + (":" + "=");
    }
  }

  lemma AssignmentOf(gap: string, colon: string)
    requires AllSpace(gap) && (colon == "" || colon == ":")
    ensures PythonAssignment(Pasted("python", gap, colon + "="))
  {
    hide IsSpace;
    var q := Pasted("python", gap, colon + "=");
    assert q[..6] == "python" && q[|q| - 1] == '=';
    assert q[6..|q| - 1] == gap + colon;
    if colon == "" {
      assert gap + colon == gap;
    } else {
      assert (gap + colon)[..|gap|] == gap;
    }
  }

  lemma PythonBindingMeans(q: string, next: Option<char>)
    ensures PythonBinding(q, next) <==>
            PythonAssignment(q) ||
            exists gap, rest :: q == Pasted("export", gap, rest) && gap != "" && AllSpace(gap) && PythonAssignment(rest)
  {
    hide IsSpace, PythonAssignment;
    if k :| 6 < k <= |q| && q[..6] == "export" && AllSpace(q[6..k]) && PythonAssignment(q[k..]) {
      assert q == Pasted("export", q[6..k], q[k..]);
    }
    if gap, rest :| q == Pasted("export", gap, rest) && gap != "" && AllSpace(gap) && PythonAssignment(rest) {
      var k := 6 + |gap|;
      assert q[..6] == "export" && q[6..k] == gap && q[k..] == rest;
    }
  }
}
