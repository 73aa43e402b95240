/** The Justfile merge is idempotent and keeps the consumer's text. */
module JustfileTheorems {
  import opened Search
  import opened PythonText
  import opened Justfile

  // ---------------------------------------------------------------- markers in concatenations

  /** A marker cannot straddle into text that begins with `#` or a line break. */
  lemma Sealed(a: string, b: string, m: string)
    requires MarkerLike(m) && Find(a, m, 0).None? && (b == "" || b[0] == '#' || b[0] == '\n')
    ensures Find(a + b, m, 0) == match Find(b, m, 0) case None => None case Some(k) => Some(|a| + k)
  {
    hide Find;
    forall p: nat | p < |a| ensures !OccursAt(a + b, m, p) {
      if p + |m| <= |a| {
        assert (a + b)[..|a|] == a;
        OccursInPrefix(a + b, |a|, m, p);
      } else if b != "" {
        OccurrenceElement(a + b, m, p, |a| - p);
      }
    }
    FindPast(a, b, m);
  }

  /** No marker begins in text without `#`. */
  lemma SkipHashFree(a: string, b: string, m: string)
    requires MarkerLike(m) && HashFree(a)
    ensures Find(a + b, m, 0) == match Find(b, m, 0) case None => None case Some(k) => Some(|a| + k)
  {
    hide Find;
    forall p: nat | p < |a| ensures !OccursAt(a + b, m, p) { OccurrenceElement(a + b, m, p, 0); }
    FindPast(a, b, m);
  }

  /** One marker does not contain or overlap the other. */
  lemma SkipOther(other: string, b: string, m: string)
    requires MarkerLike(m) && MarkerLike(other) && |m| == |other| && m != other
    ensures Find(other + b, m, 0) == match Find(b, m, 0) case None => None case Some(k) => Some(|other| + k)
  {
    hide Find;
    forall p: nat | p < |other| ensures !OccursAt(other + b, m, p) {
      OccurrenceElement(other + b, m, p, 0);
      if p == 0 { assert (other + b)[0..|m|] == other; }
    }
    FindPast(other, b, m);
  }

  lemma FindHere(m: string, b: string)
    ensures Find(m + b, m, 0) == Some(0)
  {
    hide Find;
    assert (m + b)[0..|m|] == m;
    FindUnique(m + b, m, 0, 0);
  }

  /** A suffix of marker-free text is marker free. */
  lemma FreeSuffix(t: string, n: nat, m: string)
    requires n <= |t| && Find(t, m, 0).None?
    ensures Find(t[n..], m, 0).None?
  {
    hide Find;
    FindFrom(t, m, n);
  }

  lemma FreePrefix(t: string, n: nat, m: string)
    requires n <= |t| && Find(t, m, 0).None?
    ensures Find(t[..n], m, 0).None?
  {
    hide Find;
    FindInPrefix(t, n, m);
  }

  // ---------------------------------------------------------------- one well-ordered pair

  function Marked(pre: string, inner: string, post: string, kit: Kit): string {
    pre + (kit.open + (inner + (kit.close + post)))
  }

  lemma HashFirst(m: string, b: string)
    requires MarkerLike(m)
    ensures (m + b)[0] == '#'
  {
  }

  lemma FindsOpen(pre: string, inner: string, post: string, kit: Kit)
    requires MarkersOk(kit) && Free(pre, kit) && HashFree(inner) && Free(post, kit)
    ensures Find(Marked(pre, inner, post, kit), kit.open, 0) == Some(|pre|)
    ensures Find(inner + (kit.close + post), kit.open, 0).None?
  {
    hide Find, OccursAt, MarkerLike, HashFree;
    var c := kit.close + post;
    var b := inner + c;
    SkipOther(kit.close, post, kit.open);
    SkipHashFree(inner, c, kit.open);
    FindHere(kit.open, b);
    HashFirst(kit.open, b);
    Sealed(pre, kit.open + b, kit.open);
  }

  lemma FindsClose(pre: string, inner: string, post: string, kit: Kit)
    requires MarkersOk(kit) && Free(pre, kit) && HashFree(inner) && Free(post, kit)
    ensures Find(Marked(pre, inner, post, kit), kit.close, 0) == Some(|pre| + |kit.open| + |inner|)
    ensures Find(inner + (kit.close + post), kit.close, 0) == Some(|inner|)
  {
    hide Find, OccursAt, MarkerLike, HashFree;
    var c := kit.close + post;
    var b := inner + c;
    FindHere(kit.close, post);
    SkipHashFree(inner, c, kit.close);
    SkipOther(kit.open, b, kit.close);
    HashFirst(kit.open, b);
    Sealed(pre, kit.open + b, kit.close);
  }

  lemma MarkedParts(pre: string, inner: string, post: string, kit: Kit)
    ensures var t, n := Marked(pre, inner, post, kit), |pre| + |kit.open|;
            && n + |inner| + |kit.close| <= |t|
            && t[..|pre|] == pre && t[n..] == inner + (kit.close + post)
            && t[n + |inner| + |kit.close|..] == post
  {
  }

  lemma CountOne(t: string, m: string, k: nat)
    requires m != "" && Find(t, m, 0) == Some(k) && Find(t[k + |m|..], m, 0).None?
    ensures Count(t, m) == 1
  {
    hide Find, OccursAt;
    assert Count(t[k + |m|..], m) == 0;
  }

  lemma SubOnce(t: string, kit: Kit, i: nat, j: nat, text: string)
    requires kit.open != "" && Find(t, kit.open, 0) == Some(i) && Find(t, kit.close, i + |kit.open|) == Some(j)
    requires Find(t[j + |kit.close|..], kit.open, 0).None?
    ensures Sub(t, kit, text) == t[..i] + text + t[j + |kit.close|..]
  {
    hide Find, OccursAt;
    assert Sub(t[j + |kit.close|..], kit, text) == t[j + |kit.close|..];
  }

  /** A text with one block: both markers are counted once and substitution swaps the block. */
  lemma PairFacts(pre: string, inner: string, post: string, kit: Kit, text: string)
    requires MarkersOk(kit) && Free(pre, kit) && HashFree(inner) && Free(post, kit)
    ensures var t := Marked(pre, inner, post, kit);
            && Find(t, kit.open, 0).Some? && Count(t, kit.open) == 1 && Count(t, kit.close) == 1
            && Sub(t, kit, text) == pre + text + post
  {
    hide Find, OccursAt, Marked, HashFree, Count, Sub;
    var t, n := Marked(pre, inner, post, kit), |pre| + |kit.open|;
    MarkedParts(pre, inner, post, kit);
    FindsOpen(pre, inner, post, kit);
    FindsClose(pre, inner, post, kit);
    CountOne(t, kit.open, |pre|);
    CountOne(t, kit.close, n + |inner|);
    FindFrom(t, kit.close, n);
    SubOnce(t, kit, |pre|, n + |inner|, text);
  }

  /** Any text with one marker of each kind in order splits around its block. */
  lemma PairShape(t: string, kit: Kit, i: nat, j: nat, text: string)
    requires MarkersOk(kit) && Count(t, kit.open) == 1 && Count(t, kit.close) == 1
    requires Find(t, kit.open, 0) == Some(i) && Find(t, kit.close, i + |kit.open|) == Some(j)
    ensures j + |kit.close| <= |t|
    ensures Free(t[..i], kit) && Free(t[j + |kit.close|..], kit)
    ensures Sub(t, kit, text) == t[..i] + text + t[j + |kit.close|..]
  {
    hide Find, Count, Sub;
    var n, e := i + |kit.open|, j + |kit.close|;
    OnlyOne(t, kit.close, j);
    OnlyOne(t, kit.open, i);
    FindInPrefix(t, i, kit.open);
    FindInPrefix(t, i, kit.close);
    FreeSuffix(t[n..], e - n, kit.open);
    assert t[n..][e - n..] == t[e..];
    SubOnce(t, kit, i, j, text);
  }

  /** A marker counted once: every occurrence is the first one, and none follows it. */
  lemma OnlyOne(t: string, m: string, j: nat)
    requires MarkerLike(m) && Count(t, m) == 1 && OccursAt(t, m, j)
    ensures Find(t, m, 0) == Some(j) && Find(t[j + |m|..], m, 0).None?
  {
    hide Find;
    var f := Find(t, m, 0).value;
    assert Count(t[f + |m|..], m) == 0;
    if f < j {
      NoOverlap(t, m, f, j);
      NoneAfter(t, m, f + |m|, j);
    }
  }

  lemma NoOverlap(t: string, m: string, f: nat, j: nat)
    requires MarkerLike(m) && f < j
    ensures OccursAt(t, m, f) && OccursAt(t, m, j) ==> f + |m| <= j
  {
    OccurrenceElement(t, m, j, 0);
    if j < f + |m| { OccurrenceElement(t, m, f, j - f); }
  }

  lemma NoneAfter(t: string, m: string, n: nat, j: nat)
    requires n <= |t| && n <= j && Find(t[n..], m, 0).None?
    ensures !OccursAt(t, m, j)
  {
    hide Find;
    assert t == t[..n] + t[n..];
    OccursInSuffix(t[..n], t[n..], m, j - n);
  }

  // ---------------------------------------------------------------- removal and concatenation

  /** How removal proceeds: up to the first marked region, then past it. */
  lemma UnmanagedStep(t: string, kit: Kit, i: nat, j: nat)
    requires kit.open != "" && Find(t, kit.open, 0) == Some(i) && Find(t, kit.close, i + |kit.open|) == Some(j)
    ensures Unmanaged(t, kit) == t[..i] + Unmanaged(t[j + |kit.close|..], kit)
  {
    hide Find, OccursAt;
    assert t[..i] + "" == t[..i];
  }

  lemma UnmanagedStop(t: string, kit: Kit)
    requires kit.open != ""
    requires match Find(t, kit.open, 0) case None => true case Some(i) => Find(t[i + |kit.open|..], kit.close, 0).None?
    ensures Unmanaged(t, kit) == t
  {
    hide Find;
    match Find(t, kit.open, 0)
    case None =>
    case Some(i) => FindFrom(t, kit.close, i + |kit.open|);
  }

  /** Marker-free text after a line break does not change where a marker is found. */
  lemma FindBefore(a: string, tail: string, m: string)
    requires MarkerLike(m) && Find(tail, m, 0).None? && tail != "" && tail[0] == '\n'
    ensures Find(a + tail, m, 0) == Find(a, m, 0)
  {
    hide Find, OccursAt;
    if Find(a, m, 0).None? {
      Sealed(a, tail, m);
    } else {
      FindInPrefix(a + tail, |a|, m);
      assert (a + tail)[..|a|] == a;
    }
  }

  /** Marker-free text after a line break is untouched by removal. */
  lemma {:induction false} SubAppend(a: string, tail: string, kit: Kit)
    requires MarkersOk(kit) && Free(tail, kit) && tail != "" && tail[0] == '\n'
    ensures Unmanaged(a + tail, kit) == Unmanaged(a, kit) + tail
    decreases |a|
  {
    hide Find, OccursAt, Unmanaged;
    FindBefore(a, tail, kit.open);
    match Find(a, kit.open, 0)
    case None =>
      UnmanagedStop(a, kit);
      UnmanagedStop(a + tail, kit);
    case Some(i) =>
      var n := i + |kit.open|;
      MarkerEnds(a, kit.open, i);
      var r := a[n..];
      assert (a + tail)[n..] == r + tail;
      FindBefore(r, tail, kit.close);
      match Find(r, kit.close, 0)
      case None =>
        UnmanagedStop(a, kit);
        UnmanagedStop(a + tail, kit);
      case Some(k) =>
        var e := n + k + |kit.close|;
        FindFrom(a, kit.close, n);
        FindFrom(a + tail, kit.close, n);
        UnmanagedStep(a, kit, i, n + k);
        UnmanagedStep(a + tail, kit, i, n + k);
        SubAppend(a[e..], tail, kit);
        assert (a + tail)[e..] == a[e..] + tail && (a + tail)[..i] == a[..i];
  }

  lemma MarkerEnds(t: string, m: string, i: nat)
    requires Find(t, m, 0) == Some(i)
    ensures i + |m| <= |t|
  {
  }

  lemma SubHashFreePrefix(w: string, t: string, kit: Kit)
    requires MarkersOk(kit) && HashFree(w)
    ensures Unmanaged(w + t, kit) == w + Unmanaged(t, kit)
  {
    hide Find, OccursAt, Unmanaged, HashFree;
    SkipHashFree(w, t, kit.open);
    match Find(t, kit.open, 0)
    case None =>
      UnmanagedStop(t, kit);
      UnmanagedStop(w + t, kit);
    case Some(i) =>
      var n := i + |kit.open|;
      MarkerEnds(t, kit.open, i);
      assert (w + t)[|w| + n..] == t[n..];
      match Find(t[n..], kit.close, 0)
      case None =>
        UnmanagedStop(t, kit);
        UnmanagedStop(w + t, kit);
      case Some(k) => SubPastPrefix(w, t, kit, i, n + k);
  }

  lemma SubPastPrefix(w: string, t: string, kit: Kit, i: nat, j: nat)
    requires kit.open != "" && Find(t, kit.open, 0) == Some(i) && Find(w + t, kit.open, 0) == Some(|w| + i)
    requires i + |kit.open| <= j && Find(t[i + |kit.open|..], kit.close, 0) == Some(j - (i + |kit.open|))
    ensures Unmanaged(w + t, kit) == w + Unmanaged(t, kit)
  {
    hide Find, OccursAt, Unmanaged;
    var n, e := i + |kit.open|, j + |kit.close|;
    assert (w + t)[|w| + n..] == t[n..];
    FindFrom(t, kit.close, n);
    FindFrom(w + t, kit.close, |w| + n);
    UnmanagedStep(t, kit, i, j);
    UnmanagedStep(w + t, kit, |w| + i, |w| + j);
    assert (w + t)[|w| + e..] == t[e..];
    assert (w + t)[..|w| + i] == w + t[..i];
  }

  // ---------------------------------------------------------------- searches and white space

  /** Matches are non-empty lines that end in a visible character, and white space after a match
      counts like the end of the text. */
  ghost predicate Robust(p: Pattern) {
    && (forall q, n :: p(q, n) ==> q != "" && q[0] != '\n' && !IsSpace(q[|q| - 1]))
    && (forall q, c :: IsSpace(c) ==> p(q, Some(c)) == p(q, None))
  }

  lemma PatternsAreRobust()
    ensures Robust(TestRecipe) && Robust(ShellSetting) && Robust(PythonBinding)
  {
    forall q, n | ShellSetting(q, n) ensures q != "" && q[0] != '\n' && !IsSpace(q[|q| - 1]) {
      assert q[..3][0] == 's' && q[|q| - 13..][12] == 'l';
    }
    forall q, n | TestRecipe(q, n) ensures q != "" && q[0] != '\n' && !IsSpace(q[|q| - 1]) {
      assert q[..4][0] == 't';
    }
    forall q, n | PythonBinding(q, n) ensures q != "" && q[0] != '\n' && !IsSpace(q[|q| - 1]) {
      if PythonAssignment(q) {
        assert q[..6][0] == 'p';
      } else {
        var k :| 6 < k <= |q| && q[..6] == "export" && AllSpace(q[6..k]) && PythonAssignment(q[k..]);
        assert q[..6][0] == 'e' && q[k..][|q[k..]| - 1] == q[|q| - 1];
      }
    }
  }

  lemma SliceShift(a: string, t: string, i: nat, e: nat)
    requires i <= e <= |t|
    ensures (a + t)[|a| + i..|a| + e] == t[i..e] && NextChar(a + t, |a| + e) == NextChar(t, e)
    ensures a == "" || a[|a| - 1] == '\n' ==> (LineStart(t, i) ==> LineStart(a + t, |a| + i))
  {
  }

  lemma FoundAppend(p: Pattern, a: string, t: string)
    requires Found(p, t) && (a == "" || a[|a| - 1] == '\n')
    ensures Found(p, a + t)
  {
    var i, e :| 0 <= i <= |t| && 0 <= e <= |t| && MatchAt(p, t, i, e);
    SliceShift(a, t, i, e);
    assert MatchAt(p, a + t, |a| + i, |a| + e);
  }

  lemma FoundPastNewlines(p: Pattern, w: string, t: string)
    requires Robust(p) && AllNewlines(w)
    ensures Found(p, w + t) <==> Found(p, t)
  {
    if Found(p, t) { FoundAppend(p, w, t); }
    if Found(p, w + t) {
      var s := w + t;
      var i, e :| 0 <= i <= |s| && 0 <= e <= |s| && MatchAt(p, s, i, e);
      assert s[i..e] != "" && s[i..e][0] == s[i] != '\n';
      assert i >= |w|;
      assert t[i - |w|..e - |w|] == s[i..e];
      assert MatchAt(p, t, i - |w|, e - |w|);
    }
  }

  /** A match ends in a visible character, so it lies before trailing white space. */
  lemma MatchEnds(p: Pattern, s: string, i: int, e: int)
    requires Robust(p) && MatchAt(p, s, i, e)
    ensures 0 <= i < e <= |s| && !IsSpace(s[e - 1])
  {
    var q := s[i..e];
    assert p(q, NextChar(s, e));
    assert q != "" && q[|q| - 1] == s[e - 1];
  }

  lemma SharedPrefix(u: string, w: string, w': string, i: nat, e: nat)
    requires i <= e <= |u|
    ensures (u + w)[i..e] == u[i..e] == (u + w')[i..e]
    ensures LineStart(u + w, i) <==> LineStart(u + w', i)
    ensures e < |u| ==> NextChar(u + w, e) == NextChar(u + w', e)
    ensures e == |u| ==> NextChar(u + w, e) == NextChar(w, 0) && NextChar(u + w', e) == NextChar(w', 0)
  {
    assert (u + w)[i..e] == u[i..e];
    assert (u + w')[i..e] == u[i..e];
  }

  /** White space after a match counts like the end of the text. */
  lemma SpaceLikeEnd(p: Pattern, q: string, w: string)
    requires Robust(p) && AllSpace(w)
    ensures p(q, NextChar(w, 0)) == p(q, None)
  {
  }

  lemma SpaceAfter(u: string, w: string, e: nat)
    requires AllSpace(w)
    ensures |u| < e <= |u + w| ==> IsSpace((u + w)[e - 1])
  {
    if |u| < e <= |u + w| { assert (u + w)[e - 1] == w[e - 1 - |u|]; }
  }

  lemma FoundTrailing(p: Pattern, u: string, w: string, w': string)
    requires Robust(p) && AllSpace(w) && AllSpace(w') && Found(p, u + w)
    ensures Found(p, u + w')
  {
    var i, e :| 0 <= i <= |u + w| && 0 <= e <= |u + w| && MatchAt(p, u + w, i, e);
    MatchEnds(p, u + w, i, e);
    SpaceAfter(u, w, e);
    hide Robust, IsSpace, LineStart, NextChar;
    SharedPrefix(u, w, w', i, e);
    SpaceLikeEnd(p, u[i..e], w);
    SpaceLikeEnd(p, u[i..e], w');
    assert MatchAt(p, u + w', i, e);
  }

  lemma BlankIsSpace()
    ensures AllSpace("\n\n")
  {
  }

  /** Trimming both ends and ending with a blank line changes no search. */
  lemma FoundTrimmed(p: Pattern, t: string)
    requires Robust(p)
    ensures Found(p, LstripNewlines(Rstrip(t)) + "\n\n") <==> Found(p, t)
  {
    hide Found, Robust, Rstrip, LstripNewlines, AllSpace, AllNewlines, IsSpace;
    BlankIsSpace();
    var u := Rstrip(t);
    var v := LstripNewlines(u);
    var rest := t[|u|..];
    assert t == u + rest;
    var w := u[..|u| - |v|];
    assert u + "\n\n" == w + (v + "\n\n");
    FoundPastNewlines(p, w, v + "\n\n");
    if Found(p, t) { FoundTrailing(p, u, rest, "\n\n"); }
    if Found(p, u + "\n\n") { FoundTrailing(p, u, "\n\n", rest); }
  }

  // ---------------------------------------------------------------- the merge, case by case

  lemma FreeAfterBlank(w: string, t: string, kit: Kit)
    requires MarkersOk(kit) && HashFree(w) && Free(t, kit)
    ensures Free(w + t, kit)
  {
    hide Find, OccursAt, HashFree, MarkerLike;
    SkipHashFree(w, t, kit.open);
    SkipHashFree(w, t, kit.close);
  }

  /** After the recipe step the consumer part defines `test`. */
  lemma TestGuaranteed(original: string, kit: Kit)
    requires KitOk(kit)
    ensures Found(TestRecipe, Unmanaged(WithTest(original, kit), kit))
  {
    hide Find, OccursAt, Unmanaged, Found, Rstrip, LstripNewlines, MarkerLike, TestRecipe, Robust;
    if !Found(TestRecipe, Unmanaged(original, kit)) {
      var a, tail := Rstrip(original), "\n\n" + kit.testRecipe;
      var full := Rstrip(original) + "\n\n" + kit.testRecipe;
      assert full == a + tail;
      FreeAfterBlank("\n\n", kit.testRecipe, kit);
      SubAppend(a, tail, kit);
      var t := LstripNewlines(full);
      var w := full[..|full| - |t|];
      assert full == w + t;
      SubHashFreePrefix(w, t, kit);
      PatternsAreRobust();
      assert Unmanaged(a, kit) + tail == (Unmanaged(a, kit) + "\n\n") + kit.testRecipe;
      FoundAppend(TestRecipe, Unmanaged(a, kit) + "\n\n", kit.testRecipe);
      FoundPastNewlines(TestRecipe, w, Unmanaged(t, kit));
    }
  }

  lemma InnerHashFree(kit: Kit, shell: bool, python: bool)
    requires KitOk(kit)
    ensures HashFree(Inner(kit, shell, python))
  {
    hide Find, OccursAt, MarkerLike, Found, TestRecipe;
  }

  /** Merging again changes nothing once the block sits in `y` and the consumer part of `y`
      answers every search as `t` did. */
  lemma Settled(t: string, pre: string, post: string, kit: Kit, wantShell: bool, y: string)
    requires KitOk(kit) && Free(pre, kit) && Free(post, kit)
    requires Found(TestRecipe, pre + post)
    requires y == pre + BlockFor(Unmanaged(t, kit), kit, wantShell) + post
    requires Found(ShellSetting, pre + post) <==> Found(ShellSetting, Unmanaged(t, kit))
    requires Found(PythonBinding, pre + post) <==> Found(PythonBinding, Unmanaged(t, kit))
    ensures Merge(y, kit, wantShell) == Some(y) && Unmanaged(y, kit) == pre + post
    ensures BlockFor(Unmanaged(y, kit), kit, wantShell) == BlockFor(Unmanaged(t, kit), kit, wantShell)
  {
    hide Find, OccursAt, Found, Rstrip, LstripNewlines, MarkerLike, TestRecipe, ShellSetting, PythonBinding, Count,
         Sub, Inner, HashFree;
    var shell := wantShell && !Found(ShellSetting, Unmanaged(t, kit));
    var python := !Found(PythonBinding, Unmanaged(t, kit));
    var inner := Inner(kit, shell, python);
    InnerHashFree(kit, shell, python);
    assert y == Marked(pre, inner, post, kit);
    PairFacts(pre, inner, post, kit, "");
    PairFacts(pre, inner, post, kit, Block(kit, shell, python));
    assert pre + "" + post == pre + post;
  }

  lemma LstripUnique(s: string, w: string, r: string)
    requires s == w + r && AllNewlines(w) && r != "" && r[0] != '\n'
    ensures LstripNewlines(s) == r
  {
    hide LstripNewlines;
    var r' := LstripNewlines(s);
    assert forall k :: 0 <= k < |s| - |r'| ==> s[k] == s[..|s| - |r'|][k];
    assert forall k :: 0 <= k < |w| ==> s[k] == w[k];
    assert s[|w|] == r[0];
    assert r' != "" ==> r'[0] == s[|s| - |r'|];
    assert |r'| == |r|;
  }

  lemma LstripConcat(a: string, b: string)
    requires LstripNewlines(a) != ""
    ensures LstripNewlines(a + b) == LstripNewlines(a) + b
  {
    hide LstripNewlines;
    var r := LstripNewlines(a);
    var w := a[..|a| - |r|];
    assert a + b == w + (r + b);
    LstripUnique(a + b, w, r + b);
  }

  lemma MatchIsVisible(p: Pattern, t: string)
    requires Robust(p) && Found(p, t)
    ensures !AllSpace(t)
  {
    var i, e :| 0 <= i <= |t| && 0 <= e <= |t| && MatchAt(p, t, i, e);
    assert t[i..e] != "" && t[i..e][|t[i..e]| - 1] == t[e - 1];
  }

  lemma RstripEmpty(t: string)
    ensures Rstrip(t) == "" ==> AllSpace(t)
  {
    hide Rstrip;
    if Rstrip(t) == "" { assert t[0..] == t; }
  }

  lemma LstripEmpty(u: string)
    ensures LstripNewlines(u) == "" ==> AllNewlines(u)
  {
    hide LstripNewlines;
    if LstripNewlines(u) == "" { assert u[..|u|] == u; }
  }

  lemma TrimVisible(t: string)
    requires !AllSpace(t)
    ensures LstripNewlines(Rstrip(t)) != ""
  {
    hide Rstrip, LstripNewlines;
    RstripEmpty(t);
    LstripEmpty(Rstrip(t));
  }

  lemma TrimKeepsFree(t: string, m: string)
    requires MarkerLike(m) && Find(t, m, 0).None?
    ensures Find(LstripNewlines(Rstrip(t)) + "\n\n", m, 0).None?
  {
    hide Find, OccursAt, Rstrip, LstripNewlines, AllNewlines, AllSpace, IsSpace, MarkerLike;
    var u := Rstrip(t);
    var v := LstripNewlines(u);
    assert t[..|u|] == u;
    FreePrefix(t, |u|, m);
    FreeSuffix(u, |u| - |v|, m);
    FindInBlank(m);
    Sealed(v, "\n\n", m);
  }

  lemma FindInBlank(m: string)
    requires MarkerLike(m)
    ensures Find("\n\n", m, 0).None?
  {
    hide Find;
    assert forall j: nat :: !OccursAt("\n\n", m, j) by {
      forall j: nat ensures !OccursAt("\n\n", m, j) { OccurrenceElement("\n\n", m, j, 0); }
    }
  }

  lemma FindEmpty(kit: Kit)
    requires MarkersOk(kit)
    ensures Free("", kit)
  {
  }

  lemma AppendedText(t: string, block: string)
    requires LstripNewlines(Rstrip(t)) != ""
    ensures LstripNewlines(Rstrip(t) + "\n\n" + block) == LstripNewlines(Rstrip(t)) + "\n\n" + block
  {
    hide Rstrip, LstripNewlines;
    LstripConcat(Rstrip(t), "\n\n" + block);
    assert Rstrip(t) + "\n\n" + block == Rstrip(t) + ("\n\n" + block);
  }

  /** No markers yet: the block is appended after the trimmed text. */
  lemma AppendCase(t: string, kit: Kit, wantShell: bool)
    requires KitOk(kit) && Free(t, kit) && Found(TestRecipe, Unmanaged(t, kit))
    ensures var y := LstripNewlines(Rstrip(t) + "\n\n" + BlockFor(Unmanaged(t, kit), kit, wantShell));
            && y == LstripNewlines(Rstrip(t)) + "\n\n" + BlockFor(Unmanaged(t, kit), kit, wantShell)
            && BlockFor(Unmanaged(y, kit), kit, wantShell) == BlockFor(Unmanaged(t, kit), kit, wantShell)
            && Unmanaged(y, kit) == LstripNewlines(Rstrip(t)) + "\n\n"
            && Merge(y, kit, wantShell) == Some(y)
  {
    hide Find, OccursAt, Found, Rstrip, LstripNewlines, MarkerLike, TestRecipe, ShellSetting, PythonBinding, Merge,
      BlockFor, Robust, AllSpace, IsSpace, HashFree, Unmanaged, AllNewlines;
    UnmanagedStop(t, kit);
    var block := BlockFor(Unmanaged(t, kit), kit, wantShell);
    PatternsAreRobust();
    MatchIsVisible(TestRecipe, t);
    TrimVisible(t);
    AppendedText(t, block);
    var pre := LstripNewlines(Rstrip(t)) + "\n\n";
    TrimKeepsFree(t, kit.open);
    TrimKeepsFree(t, kit.close);
    FindEmpty(kit);
    FoundTrimmed(TestRecipe, t);
    FoundTrimmed(ShellSetting, t);
    FoundTrimmed(PythonBinding, t);
    assert pre + "" == pre && pre + block + "" == pre + block;
    Settled(t, pre, "", kit, wantShell, pre + block + "");
  }

  /** The marker pair is there and in order. */
  predicate Ordered(t: string, kit: Kit)
    requires kit.open != ""
  {
    var i := Find(t, kit.open, 0);
    i.Some? && Find(t, kit.close, i.value + |kit.open|).Some?
  }

  /** The opening marker is there without a closing one after it. */
  predicate Misordered(t: string, kit: Kit)
    requires kit.open != ""
  { Find(t, kit.open, 0).Some? && !Ordered(t, kit) }

  lemma ReplaceCase(t: string, kit: Kit, wantShell: bool)
    requires KitOk(kit) && Found(TestRecipe, Unmanaged(t, kit)) && Ordered(t, kit)
    requires Count(t, kit.open) == 1 && Count(t, kit.close) == 1
    ensures var i := Find(t, kit.open, 0).value;
            var e := Find(t, kit.close, i + |kit.open|).value + |kit.close|;
            var block := BlockFor(Unmanaged(t, kit), kit, wantShell);
            var y := Sub(t, kit, block);
            && e <= |t| && y == t[..i] + block + t[e..]
            && Unmanaged(y, kit) == Unmanaged(t, kit) == t[..i] + t[e..]
            && Merge(y, kit, wantShell) == Some(y)
  {
    hide Find, OccursAt, Found, MarkerLike, TestRecipe, ShellSetting, PythonBinding, Merge, BlockFor, Count, Sub;
    var i := Find(t, kit.open, 0).value;
    var j := Find(t, kit.close, i + |kit.open|).value;
    var block := BlockFor(Unmanaged(t, kit), kit, wantShell);
    PairShape(t, kit, i, j, "");
    PairShape(t, kit, i, j, block);
    assert t[..i] + "" + t[j + |kit.close|..] == t[..i] + t[j + |kit.close|..];
    Settled(t, t[..i], t[j + |kit.close|..], kit, wantShell, Sub(t, kit, block));
  }

  lemma MisorderedCase(t: string, kit: Kit, text: string)
    requires kit.open != "" && Misordered(t, kit)
    ensures Sub(t, kit, text) == t && Unmanaged(t, kit) == t
  {
    hide Find, OccursAt;
  }

  /** The merge is idempotent: for every Justfile it accepts, its own output comes back unchanged. */
  lemma MergeIsIdempotent(original: string, kit: Kit, wantShell: bool)
    requires KitOk(kit)
    ensures var y := Merge(original, kit, wantShell);
            y.Some? ==> Merge(y.value, kit, wantShell) == y
  {
    hide Find, OccursAt, Found, MarkerLike, TestRecipe, ShellSetting, PythonBinding, BlockFor, Sub, WithTest, Rstrip,
         LstripNewlines;
    var t := WithTest(original, kit);
    TestGuaranteed(original, kit);
    if Merge(original, kit, wantShell).Some? {
      if Find(t, kit.open, 0).None? {
        assert Free(t, kit);
        AppendCase(t, kit, wantShell);
      } else if Ordered(t, kit) {
        CountSome(t, kit.open);
        ReplaceCase(t, kit, wantShell);
      } else {
        MisorderedCase(t, kit, BlockFor(Unmanaged(t, kit), kit, wantShell));
        KeepsTest(t, kit);
      }
    }
  }

  lemma CountSome(t: string, m: string)
    requires m != ""
    ensures Find(t, m, 0).Some? <==> Count(t, m) > 0
  {
  }

  lemma KeepsTest(t: string, kit: Kit)
    requires kit.open != "" && Found(TestRecipe, Unmanaged(t, kit))
    ensures WithTest(t, kit) == t
  {
    hide Found, Unmanaged;
  }

  /** With an ordered pair and a `test` recipe in place, everything outside the markers stays
      character for character, so the consumer part is the same text. */
  lemma TextOutsideMarkersKept(original: string, kit: Kit, wantShell: bool)
    requires KitOk(kit) && Found(TestRecipe, Unmanaged(original, kit)) && Ordered(original, kit)
    requires Count(original, kit.open) == 1 && Count(original, kit.close) == 1
    ensures var i := Find(original, kit.open, 0).value;
            var e := Find(original, kit.close, i + |kit.open|).value + |kit.close|;
            var y := Merge(original, kit, wantShell);
            && e <= |original| && y.Some?
            && y.value == original[..i] + BlockFor(Unmanaged(original, kit), kit, wantShell) + original[e..]
            && Unmanaged(y.value, kit) == Unmanaged(original, kit) == original[..i] + original[e..]
  {
    hide Find, OccursAt, Found, MarkerLike, TestRecipe, Sub, Count, BlockFor, WithTest, Unmanaged;
    KeepsTest(original, kit);
    ReplaceCase(original, kit, wantShell);
  }

  // ---------------------------------------------------------------- when the block is really there

  /** The text holds the managed block with exactly the lines that its own consumer part calls for. */
  ghost predicate Installed(y: string, kit: Kit, wantShell: bool)
    requires kit.open != ""
  {
    exists pre, post :: y == Around(pre, BlockFor(Unmanaged(y, kit), kit, wantShell), post)
  }

  function Around(pre: string, block: string, post: string): string { pre + block + post }

  lemma BlockIsOrdered(pre: string, inner: string, post: string, kit: Kit)
    requires MarkersOk(kit) && HashFree(inner) && Count(Marked(pre, inner, post, kit), kit.open) == 1
    ensures Ordered(Marked(pre, inner, post, kit), kit)
  {
    hide Find, OccursAt, Count, MarkerLike, HashFree, Marked;
    var t := Marked(pre, inner, post, kit);
    MarkedOccurrences(pre, inner, post, kit);
    MarkedParts(pre, inner, post, kit);
    OnlyOne(t, kit.open, |pre|);
    FindHere(kit.close, post);
    SkipHashFree(inner, kit.close + post, kit.close);
    FindFrom(t, kit.close, |pre| + |kit.open|);
  }

  lemma MisorderedLacksBlock(t: string, kit: Kit, wantShell: bool)
    requires KitOk(kit) && Misordered(t, kit) && Count(t, kit.open) == 1
    ensures !Installed(t, kit, wantShell)
  {
    hide Find, OccursAt, Count, MarkerLike, HashFree, Marked, Ordered, Found, Inner, Unmanaged;
    var shell := wantShell && !Found(ShellSetting, Unmanaged(t, kit));
    var python := !Found(PythonBinding, Unmanaged(t, kit));
    var inner := Inner(kit, shell, python);
    InnerHashFree(kit, shell, python);
    forall pre, post ensures t != Around(pre, Block(kit, shell, python), post) {
      AroundIsMarked(pre, inner, post, kit);
      if t == Marked(pre, inner, post, kit) { BlockIsOrdered(pre, inner, post, kit); }
    }
  }

  lemma AroundIsMarked(pre: string, inner: string, post: string, kit: Kit)
    ensures Around(pre, kit.open + inner + kit.close, post) == Marked(pre, inner, post, kit)
  {
  }

  lemma MarkedOccurrences(pre: string, inner: string, post: string, kit: Kit)
    ensures OccursAt(Marked(pre, inner, post, kit), kit.open, |pre|)
  {
  }

  /** Marker search on text that only gained white space at its end. */
  lemma FindTrailingSpace(u: string, w: string, m: string)
    requires MarkerLike(m) && AllSpace(w)
    ensures Find(u + w, m, 0) == Find(u, m, 0)
  {
    hide Find;
    var s := u + w;
    assert s[..|u|] == u;
    FindInPrefix(s, |u|, m);
    forall j: nat | j + |m| > |u| ensures !OccursAt(s, m, j) { OccurrenceElement(s, m, j, |m| - 1); }
  }

  /** Two texts whose markers are found alike, up to a shift, are ordered alike. */
  lemma MisorderedAlike(a: string, b: string, kit: Kit, shift: nat)
    requires MarkersOk(kit)
    requires Find(b, kit.open, 0) == match Find(a, kit.open, 0) case None => None case Some(i) => Some(shift + i)
    requires Find(a, kit.open, 0).Some? ==>
               var n := Find(a, kit.open, 0).value + |kit.open|;
               Find(a[n..], kit.close, 0).None? <==> Find(b[shift + n..], kit.close, 0).None?
    ensures Misordered(a, kit) <==> Misordered(b, kit)
  {
    hide Find, OccursAt, MarkerLike;
    match Find(a, kit.open, 0)
    case None =>
    case Some(i) =>
      FindFrom(a, kit.close, i + |kit.open|);
      FindFrom(b, kit.close, shift + i + |kit.open|);
  }

  lemma OrderUnderTrailingSpace(u: string, w: string, kit: Kit)
    requires MarkersOk(kit) && AllSpace(w)
    ensures Misordered(u, kit) <==> Misordered(u + w, kit)
  {
    hide Find, OccursAt, MarkerLike, Misordered, AllSpace;
    FindTrailingSpace(u, w, kit.open);
    if Find(u, kit.open, 0).Some? {
      var n := Find(u, kit.open, 0).value + |kit.open|;
      assert (u + w)[n..] == u[n..] + w;
      FindTrailingSpace(u[n..], w, kit.close);
    }
    MisorderedAlike(u, u + w, kit, 0);
  }

  lemma OrderUnderTail(a: string, tail: string, kit: Kit)
    requires MarkersOk(kit) && Free(tail, kit) && tail != "" && tail[0] == '\n'
    ensures Misordered(a, kit) <==> Misordered(a + tail, kit)
  {
    hide Find, OccursAt, MarkerLike, Misordered;
    FindBefore(a, tail, kit.open);
    if Find(a, kit.open, 0).Some? {
      var n := Find(a, kit.open, 0).value + |kit.open|;
      assert (a + tail)[n..] == a[n..] + tail;
      FindBefore(a[n..], tail, kit.close);
    }
    MisorderedAlike(a, a + tail, kit, 0);
  }

  lemma OrderUnderNewlines(w: string, t: string, kit: Kit)
    requires MarkersOk(kit) && HashFree(w)
    ensures Misordered(t, kit) <==> Misordered(w + t, kit)
  {
    hide Find, OccursAt, MarkerLike, Misordered, HashFree;
    SkipHashFree(w, t, kit.open);
    if Find(t, kit.open, 0).Some? {
      var n := Find(t, kit.open, 0).value + |kit.open|;
      assert (w + t)[|w| + n..] == t[n..];
    }
    MisorderedAlike(t, w + t, kit, |w|);
  }

  /** Appending the recipe does not change the order of the markers. */
  lemma RecipeKeepsOrder(original: string, kit: Kit)
    requires KitOk(kit)
    ensures Misordered(WithTest(original, kit), kit) <==> Misordered(original, kit)
  {
    hide Find, OccursAt, Unmanaged, Found, Rstrip, LstripNewlines, MarkerLike, TestRecipe, Misordered, AllSpace;
    if !Found(TestRecipe, Unmanaged(original, kit)) {
      var a, tail := Rstrip(original), "\n\n" + kit.testRecipe;
      var full := Rstrip(original) + "\n\n" + kit.testRecipe;
      assert full == a + tail && original == a + original[|a|..];
      FreeAfterBlank("\n\n", kit.testRecipe, kit);
      OrderUnderTrailingSpace(a, original[|a|..], kit);
      OrderUnderTail(a, tail, kit);
      var t := LstripNewlines(full);
      var w := full[..|full| - |t|];
      assert full == w + t;
      OrderUnderNewlines(w, t, kit);
    }
  }

  /** The accepted Justfile ends up with the managed block if and only if its markers are not in
      the wrong order; then the text is left alone and no block is ever installed. */
  lemma BlockInstalledIff(original: string, kit: Kit, wantShell: bool)
    requires KitOk(kit) && Merge(original, kit, wantShell).Some?
    ensures Installed(Merge(original, kit, wantShell).value, kit, wantShell) <==> !Misordered(original, kit)
  {
    hide Find, OccursAt, Found, MarkerLike, TestRecipe, ShellSetting, PythonBinding, Sub, Unmanaged, WithTest, BlockFor,
         Rstrip, LstripNewlines, HashFree, Count, Installed;
    var t := WithTest(original, kit);
    var block := BlockFor(Unmanaged(t, kit), kit, wantShell);
    TestGuaranteed(original, kit);
    RecipeKeepsOrder(original, kit);
    CountSome(t, kit.open);
    if Misordered(t, kit) {
      MisorderedCase(t, kit, block);
      MisorderedLacksBlock(t, kit, wantShell);
    } else if Ordered(t, kit) {
      ReplaceInstalls(t, kit, wantShell);
    } else {
      CountSome(t, kit.close);
      AppendInstalls(t, kit, wantShell);
    }
  }

  lemma ReplaceInstalls(t: string, kit: Kit, wantShell: bool)
    requires KitOk(kit) && Found(TestRecipe, Unmanaged(t, kit)) && Ordered(t, kit)
    requires Count(t, kit.open) == 1 && Count(t, kit.close) == 1
    ensures Installed(Sub(t, kit, BlockFor(Unmanaged(t, kit), kit, wantShell)), kit, wantShell)
  {
    hide Find, OccursAt, Found, HashFree, MarkerLike, TestRecipe, Sub, Unmanaged, BlockFor, Count, Installed, Merge;
    ReplaceCase(t, kit, wantShell);
    var y := Sub(t, kit, BlockFor(Unmanaged(t, kit), kit, wantShell));
    var i := Find(t, kit.open, 0).value;
    var e := Find(t, kit.close, i + |kit.open|).value + |kit.close|;
    HoldsBlock(y, kit, wantShell, t[..i], t[e..]);
  }

  lemma HoldsBlock(y: string, kit: Kit, wantShell: bool, pre: string, post: string)
    requires kit.open != "" && y == pre + BlockFor(Unmanaged(y, kit), kit, wantShell) + post
    ensures Installed(y, kit, wantShell)
  {
    hide Unmanaged, BlockFor;
    assert y == Around(pre, BlockFor(Unmanaged(y, kit), kit, wantShell), post);
  }

  lemma AppendInstalls(t: string, kit: Kit, wantShell: bool)
    requires KitOk(kit) && Free(t, kit) && Found(TestRecipe, Unmanaged(t, kit))
    ensures Installed(LstripNewlines(Rstrip(t) + "\n\n" + BlockFor(Unmanaged(t, kit), kit, wantShell)), kit, wantShell)
  {
    hide Find, OccursAt, Found, HashFree, MarkerLike, TestRecipe, Unmanaged, BlockFor, Rstrip, LstripNewlines,
         Installed, Merge;
    AppendCase(t, kit, wantShell);
    var y := LstripNewlines(Rstrip(t) + "\n\n" + BlockFor(Unmanaged(t, kit), kit, wantShell));
    HoldsBlock(y, kit, wantShell, LstripNewlines(Rstrip(t)) + "\n\n", "");
  }

  lemma MisorderedMarkers(kit: Kit, body: string)
    requires MarkersOk(kit) && Free(body, kit)
    ensures var t := kit.close + ("\n" + (kit.open + ("\n" + body)));
            Misordered(t, kit) && Count(t, kit.open) == 1 && Count(t, kit.close) == 1
  {
    hide Find, OccursAt, MarkerLike, HashFree, Count;
    var last := "\n" + body;
    var opening := kit.open + last;
    var mid := "\n" + opening;
    var t := kit.close + mid;
    NewlineHashFree();
    FreeAfterBlank("\n", body, kit);
    FindHere(kit.open, last);
    SkipHashFree("\n", opening, kit.open);
    SkipOther(kit.close, mid, kit.open);
    var n := |kit.close| + 1 + |kit.open|;
    assert t[n..] == last && t[|kit.close|..] == mid;
    FindFrom(t, kit.close, n);
    FindHere(kit.close, mid);
    SkipOther(kit.open, last, kit.close);
    SkipHashFree("\n", opening, kit.close);
    CountOne(t, kit.open, |kit.close| + 1);
    CountOne(t, kit.close, 0);
  }

  /** Such texts exist for every kit: a closing marker above an opening one, then any text with a
      `test` recipe, is accepted, returned as it is, and has no block. */
  lemma MisorderedIsAccepted(kit: Kit, body: string, wantShell: bool)
    requires KitOk(kit) && Free(body, kit) && Found(TestRecipe, body)
    ensures var t := kit.close + ("\n" + (kit.open + ("\n" + body)));
            && Misordered(t, kit) && Merge(t, kit, wantShell) == Some(t) && !Installed(t, kit, wantShell)
  {
    hide Find, OccursAt, Found, MarkerLike, TestRecipe, Sub, Unmanaged, BlockFor, HashFree, Count, Installed, Ordered;
    var t := kit.close + ("\n" + (kit.open + ("\n" + body)));
    MisorderedMarkers(kit, body);
    MisorderedCase(t, kit, BlockFor(Unmanaged(t, kit), kit, wantShell));
    var a := kit.close + "\n" + kit.open + "\n";
    assert t == a + body;
    FoundAppend(TestRecipe, a, body);
    MisorderedLacksBlock(t, kit, wantShell);
  }

  lemma NewlineHashFree()
    ensures HashFree("\n")
  {
  }

  /** A text without markers is accepted and does change. */
  lemma FreeTextGetsBlock(text: string, kit: Kit, wantShell: bool)
    requires KitOk(kit) && Free(text, kit) && Found(TestRecipe, text)
    ensures var y := Merge(text, kit, wantShell); y.Some? && y.value != text
  {
    hide Find, OccursAt, Found, MarkerLike, TestRecipe, BlockFor, Sub, Unmanaged, Count, HashFree, Rstrip,
         LstripNewlines;
    UnmanagedStop(text, kit);
    KeepsTest(text, kit);
    CountSome(text, kit.open);
    CountSome(text, kit.close);
    AppendCase(text, kit, wantShell);
    AppendInstalls(text, kit, wantShell);
    FreeLacksBlock(text, kit, wantShell);
  }

  lemma FreeLacksBlock(t: string, kit: Kit, wantShell: bool)
    requires KitOk(kit) && Free(t, kit)
    ensures !Installed(t, kit, wantShell)
  {
    hide Find, Found, MarkerLike, HashFree, Unmanaged, Around, OccursAt;
    var block := BlockFor(Unmanaged(t, kit), kit, wantShell);
    forall pre, post ensures t != Around(pre, block, post) { AroundOccurs(pre, block, post, kit.open); }
  }

  lemma AroundOccurs(pre: string, block: string, post: string, m: string)
    requires m <= block
    ensures OccursAt(Around(pre, block, post), m, |pre|)
  {
    assert Around(pre, block, post)[|pre|..|pre| + |m|] == block[..|m|];
  }

  // ---------------------------------------------------------------- an empty Justfile

  /** What an empty Justfile becomes, and its consumer part: the recommended recipe and nothing else. */
  function KitPart(kit: Kit): string { LstripNewlines(Rstrip(LstripNewlines(kit.testRecipe))) + "\n\n" }

  function KitText(kit: Kit, wantShell: bool): string
    requires kit.open != ""
  { KitPart(kit) + BlockFor(KitPart(kit), kit, wantShell) }

  lemma EmptyTextLacksTest(kit: Kit)
    requires KitOk(kit)
    ensures WithTest("", kit) == LstripNewlines(kit.testRecipe)
  {
    hide Find, OccursAt, Found, MarkerLike, TestRecipe, Robust, HashFree, Unmanaged, Rstrip, LstripNewlines, AllSpace;
    FindEmpty(kit);
    UnmanagedStop("", kit);
    PatternsAreRobust();
    EmptyIsSpace();
    if Found(TestRecipe, "") { MatchIsVisible(TestRecipe, ""); }
    MatchIsVisible(TestRecipe, kit.testRecipe);
    LstripBlank(kit.testRecipe);
  }

  lemma EmptyIsSpace()
    ensures AllSpace("") && Rstrip("") == ""
  {
  }

  lemma LstripBlank(s: string)
    requires !AllSpace(s)
    ensures LstripNewlines("" + "\n\n" + s) == LstripNewlines(s)
  {
    hide LstripNewlines;
    var r := LstripNewlines(s);
    LstripEmpty(s);
    var w := "\n\n" + s[..|s| - |r|];
    assert "" + "\n\n" + s == w + r;
    LstripUnique("" + "\n\n" + s, w, r);
  }

  /** The merge of an empty text depends on the kit alone. */
  lemma MergeOfEmpty(kit: Kit, wantShell: bool)
    requires KitOk(kit)
    ensures Merge("", kit, wantShell) == Some(KitText(kit, wantShell))
    ensures Unmanaged(KitText(kit, wantShell), kit) == KitPart(kit)
  {
    hide Find, OccursAt, Found, MarkerLike, TestRecipe, BlockFor, Sub, Unmanaged, WithTest, Count, HashFree,
         Rstrip, LstripNewlines;
    EmptyTextLacksTest(kit);
    var t := LstripNewlines(kit.testRecipe);
    FreeSuffix(kit.testRecipe, |kit.testRecipe| - |t|, kit.open);
    FreeSuffix(kit.testRecipe, |kit.testRecipe| - |t|, kit.close);
    TestGuaranteed("", kit);
    CountSome(t, kit.open);
    CountSome(t, kit.close);
    AppendCase(t, kit, wantShell);
  }

  // ---------------------------------------------------------------- the kit as it is shipped

  /** Neither the `#` of a marker nor a carriage return. */
  predicate Ordinary(s: string) { forall i :: 0 <= i < |s| ==> s[i] != '#' && s[i] != '\r' }

  lemma OrdinaryMeans(s: string)
    requires Ordinary(s)
    ensures HashFree(s) && Plain(s) && NoArrow(s)
  {
  }

  lemma OrdinaryConcat(a: string, b: string)
    requires Ordinary(a) && Ordinary(b)
    ensures Ordinary(a + b)
  {
  }

  /** Every `#` is followed by something else than the arrows of a marker. */
  predicate NoArrow(s: string) {
    forall i :: 0 <= i < |s| && s[i] == '#' ==> i + 2 < |s| && s[i + 2] != '>' && s[i + 2] != '<'
  }

  lemma NoArrowConcat(a: string, b: string)
    requires NoArrow(a) && NoArrow(b)
    ensures NoArrow(a + b)
  {
    var s := a + b;
    forall i | 0 <= i < |s| && s[i] == '#' ensures i + 2 < |s| && s[i + 2] != '>' && s[i + 2] != '<' {
      if i < |a| { assert a[i] == '#'; } else { assert b[i - |a|] == '#'; }
    }
  }

  lemma NoArrowIsFree(s: string, m: string)
    requires NoArrow(s) && |m| > 2 && m[0] == '#' && (m[2] == '>' || m[2] == '<')
    ensures Find(s, m, 0).None?
  {
    hide Find;
    forall j: nat ensures !OccursAt(s, m, j) {
      OccurrenceElement(s, m, j, 0);
      OccurrenceElement(s, m, j, 2);
    }
  }

  /** Text that may precede the recipe: no marker, no carriage return, and it ends a line. */
  predicate Preamble(s: string) { NoArrow(s) && Plain(s) && (s == "" || s[|s| - 1] == '\n') }

  lemma CommentIsPreamble(text: string)
    requires Ordinary(text) && text != "" && text[0] != '>' && text[0] != '<' && text[|text| - 1] == '\n'
    ensures Preamble(Comment(text))
  {
  }

  lemma PreambleBefore(a: string, t: string)
    requires Preamble(a) && NoArrow(t) && Plain(t) && Found(TestRecipe, t)
    ensures NoArrow(a + t) && Plain(a + t) && Found(TestRecipe, a + t)
  {
    hide Found, TestRecipe, NoArrow;
    NoArrowConcat(a, t);
    FoundAppend(TestRecipe, a, t);
  }

  lemma ScLintOpen()
    ensures MarkerLike(SC_LINT_OPEN) && Plain(SC_LINT_OPEN)
  {
  }

  lemma ScLintClose()
    ensures MarkerLike(SC_LINT_CLOSE) && Plain(SC_LINT_CLOSE)
  {
  }

  lemma ScLintMarkersDiffer()
    ensures |SC_LINT_OPEN| == |SC_LINT_CLOSE| && SC_LINT_OPEN != SC_LINT_CLOSE
  {
    assert SC_LINT_OPEN[2] == '>' && SC_LINT_CLOSE[2] == '<';
  }

  lemma ScLintLines()
    ensures Ordinary(SC_LINT_SHELL) && Ordinary(SC_LINT_IMPORT)
  {
  }

  lemma ScLintPython()
    ensures Ordinary(SC_LINT_PYTHON)
  {
    assert Ordinary(SC_LINT_PYTHONA) && Ordinary(SC_LINT_PYTHONB);
    hide Ordinary, Preamble;
    OrdinaryConcat(SC_LINT_PYTHONA, SC_LINT_PYTHONB);
  }

  lemma ScLintPhrase1A()
    ensures Ordinary(SC_LINT_NOTE_1A) && SC_LINT_NOTE_1A != ""
    ensures SC_LINT_NOTE_1A[0] != '>' && SC_LINT_NOTE_1A[0] != '<'
  {
  }

  lemma ScLintPhrase1B()
    ensures Ordinary(SC_LINT_NOTE_1B) && SC_LINT_NOTE_1B != ""
  {
  }

  lemma ScLintPhrase1C()
    ensures Ordinary(SC_LINT_NOTE_1C) && SC_LINT_NOTE_1C != ""
    ensures SC_LINT_NOTE_1C[|SC_LINT_NOTE_1C| - 1] == '\n'
  {
  }

  lemma ScLintNote1()
    ensures Preamble(Comment(SC_LINT_NOTE_1))
  {
    hide Ordinary, Preamble;
    ScLintPhrase1A();
    ScLintPhrase1B();
    ScLintPhrase1C();
    OrdinaryConcat(SC_LINT_NOTE_1B, SC_LINT_NOTE_1C);
    OrdinaryConcat(SC_LINT_NOTE_1A, SC_LINT_NOTE_1B + SC_LINT_NOTE_1C);
    CommentIsPreamble(SC_LINT_NOTE_1);
  }

  lemma ScLintPhrase2A()
    ensures Ordinary(SC_LINT_NOTE_2A) && SC_LINT_NOTE_2A != ""
    ensures SC_LINT_NOTE_2A[0] != '>' && SC_LINT_NOTE_2A[0] != '<'
  {
  }

  lemma ScLintPhrase2B()
    ensures Ordinary(SC_LINT_NOTE_2B) && SC_LINT_NOTE_2B != ""
    ensures SC_LINT_NOTE_2B[|SC_LINT_NOTE_2B| - 1] == '\n'
  {
  }

  lemma ScLintNote2()
    ensures Preamble(Comment(SC_LINT_NOTE_2))
  {
    hide Ordinary, Preamble;
    ScLintPhrase2A();
    ScLintPhrase2B();
    OrdinaryConcat(SC_LINT_NOTE_2A, SC_LINT_NOTE_2B);
    CommentIsPreamble(SC_LINT_NOTE_2);
  }

  lemma ScLintNote3()
    ensures Preamble(Comment(SC_LINT_NOTE_3))
  {
    assert Ordinary(SC_LINT_NOTE_3A) && Ordinary(SC_LINT_NOTE_3B);
    assert SC_LINT_NOTE_3A[0] != '>' && SC_LINT_NOTE_3A[0] != '<' && SC_LINT_NOTE_3B[|SC_LINT_NOTE_3B| - 1] == '\n';
    hide Ordinary, Preamble;
    OrdinaryConcat(SC_LINT_NOTE_3A, SC_LINT_NOTE_3B);
    CommentIsPreamble(SC_LINT_NOTE_3);
  }

  lemma ScLintNote4()
    ensures Preamble(Comment(SC_LINT_NOTE_4))
  {
    assert Ordinary(SC_LINT_NOTE_4A) && Ordinary(SC_LINT_NOTE_4B);
    assert SC_LINT_NOTE_4A[0] != '>' && SC_LINT_NOTE_4A[0] != '<' && SC_LINT_NOTE_4B[|SC_LINT_NOTE_4B| - 1] == '\n';
    hide Ordinary, Preamble;
    OrdinaryConcat(SC_LINT_NOTE_4A, SC_LINT_NOTE_4B);
    CommentIsPreamble(SC_LINT_NOTE_4);
  }

  lemma ScLintBody()
    ensures Ordinary(SC_LINT_BODY) && SC_LINT_BODY != "" && SC_LINT_BODY[0] == '\n'
  {
    assert Ordinary(SC_LINT_BODYA) && Ordinary(SC_LINT_BODYB);
    assert SC_LINT_BODYA[0] == '\n';
    hide Ordinary, Preamble;
    OrdinaryConcat(SC_LINT_BODYA, SC_LINT_BODYB);
  }

  lemma ScLintRecipe()
    ensures Ordinary(SC_LINT_RECIPE) && TestRecipe(SC_LINT_RECIPE, Some('\n'))
  {
    assert SC_LINT_RECIPE[..4] == "test";
  }

  lemma FoundAtStart(p: Pattern, q: string, rest: string)
    requires rest != "" && p(q, Some(rest[0]))
    ensures Found(p, q + rest)
  {
    assert (q + rest)[0..|q|] == q;
    assert MatchAt(p, q + rest, 0, |q|);
  }

  lemma ScLintRecipeText()
    ensures var t := SC_LINT_RECIPE + SC_LINT_BODY;
            NoArrow(t) && Plain(t) && Found(TestRecipe, t)
  {
    hide Ordinary, NoArrow, Found, TestRecipe, Plain;
    ScLintRecipe();
    ScLintBody();
    OrdinaryConcat(SC_LINT_RECIPE, SC_LINT_BODY);
    OrdinaryMeans(SC_LINT_RECIPE + SC_LINT_BODY);
    FoundAtStart(TestRecipe, SC_LINT_RECIPE, SC_LINT_BODY);
  }

  lemma ScLintTest()
    ensures Free(SC_LINT_TEST, SC_LINT_KIT) && Found(TestRecipe, SC_LINT_TEST) && Plain(SC_LINT_TEST)
  {
    hide Find, Found, TestRecipe, NoArrow, Plain, Preamble, Comment;
    ScLintRecipeText();
    ScLintNote1();
    ScLintNote2();
    ScLintNote3();
    ScLintNote4();
    var t4 := Comment(SC_LINT_NOTE_4) + (SC_LINT_RECIPE + SC_LINT_BODY);
    var t3 := Comment(SC_LINT_NOTE_3) + t4;
    PreambleBefore(Comment(SC_LINT_NOTE_4), SC_LINT_RECIPE + SC_LINT_BODY);
    PreambleBefore(Comment(SC_LINT_NOTE_3), t4);
    PreambleBefore(Comment(SC_LINT_NOTE_2), t3);
    PreambleBefore(Comment(SC_LINT_NOTE_1), Comment(SC_LINT_NOTE_2) + t3);
    assert SC_LINT_OPEN[2] == '>' && SC_LINT_CLOSE[2] == '<';
    NoArrowIsFree(SC_LINT_TEST, SC_LINT_OPEN);
    NoArrowIsFree(SC_LINT_TEST, SC_LINT_CLOSE);
  }

  /** The shipped markers, lines and recipe satisfy everything the theorems above ask of a kit, and
      are free of carriage returns. */
  lemma ScLintKit()
    ensures KitOk(SC_LINT_KIT) && PlainKit(SC_LINT_KIT)
  {
    hide Find, Found, TestRecipe, MarkerLike, HashFree, Plain, Ordinary;
    ScLintOpen();
    ScLintClose();
    ScLintMarkersDiffer();
    ScLintLines();
    ScLintPython();
    OrdinaryMeans(SC_LINT_SHELL);
    OrdinaryMeans(SC_LINT_PYTHON);
    OrdinaryMeans(SC_LINT_IMPORT);
    ScLintTest();
  }
}
