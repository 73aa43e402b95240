/** The whole of `main` in plugins/sc-lint/install.py: the targets are computed from the checkout
    itself, since the wanted Justfile is the checkout's own with the managed block merged in. */
module InstallerRuns {
  import opened Search
  import opened Installer
  import opened InstallerTheorems
  import J = Justfile
  import JustfileTheorems
  import C = JustfileConsumer

  const JUSTFILE: Path := "Justfile"

  /** What does not depend on the checkout: the kit's other files, the target that holds the
      persisted answers, the text of the kit, and the two directions between text and bytes. */
  datatype Inputs = Inputs(
    files: map<Path, Bytes>, persisted: set<Path>, kit: J.Kit, wantShell: bool, defaultText: string,
    encode: string -> Bytes, decode: Bytes -> Option<string>)

  /** Reading translates every carriage return away: bytes that decode give translated text, and
      translated text survives being written and read. */
  ghost predicate CodecOk(inputs: Inputs) {
    && (forall b :: inputs.decode(b).Some? ==> J.Plain(inputs.decode(b).value))
    && (forall s :: J.Plain(s) ==> inputs.decode(inputs.encode(s)) == Some(s))
  }

  ghost predicate InputsOk(inputs: Inputs) {
    && inputs.kit.open != "" && inputs.kit.close != "" && J.KitOk(inputs.kit) && J.PlainKit(inputs.kit)
    && J.Plain(inputs.defaultText) && CodecOk(inputs)
  }

  /** The Justfile to merge into; `None` when its bytes are no text. */
  function Original(files: map<Path, Bytes>, inputs: Inputs): Option<string> {
    if JUSTFILE in files then inputs.decode(files[JUSTFILE]) else Some(inputs.defaultText)
  }

  /** `desired`; `None` is an error that ends the run with exit 2. */
  function Desired(files: map<Path, Bytes>, inputs: Inputs): Option<Targets>
    requires inputs.kit.open != "" && inputs.kit.close != ""
  {
    match Original(files, inputs)
    case None => None
    case Some(original) =>
      match J.Merge(original, inputs.kit, inputs.wantShell)
      case None => None
      case Some(merged) =>
        Some(Targets(inputs.files[JUSTFILE := inputs.encode(merged)], inputs.persisted + {JUSTFILE}))
  }

  // ---------------------------------------------------------------- the merge stays in plain text

  lemma PlainConcat(a: string, b: string)
    requires J.Plain(a) && J.Plain(b)
    ensures J.Plain(a + b)
  {
  }

  lemma PlainSlice(s: string, i: nat, j: nat)
    requires J.Plain(s) && i <= j <= |s|
    ensures J.Plain(s[i..j])
  {
  }

  lemma {:induction false} SubPlain(t: string, kit: J.Kit, text: string)
    requires J.Plain(t) && J.Plain(text) && kit.open != ""
    ensures J.Plain(J.Sub(t, kit, text))
    decreases |t|
  {
    hide Find, OccursAt, J.Plain;
    match Find(t, kit.open, 0)
    case None =>
    case Some(i) =>
      match Find(t, kit.close, i + |kit.open|)
      case None =>
      case Some(j) =>
        var rest := t[j + |kit.close|..];
        PlainSlice(t, 0, i);
        PlainSlice(t, j + |kit.close|, |t|);
        assert t[0..i] == t[..i] && t[j + |kit.close|..|t|] == rest;
        SubPlain(rest, kit, text);
        PlainConcat(t[..i], text);
        PlainConcat(t[..i] + text, J.Sub(rest, kit, text));
  }

  /** Trimming the front of `Rstrip(t) + blank line + tail` keeps the text plain. */
  lemma AppendedPlain(t: string, tail: string)
    requires J.Plain(t) && J.Plain(tail)
    ensures J.Plain(J.LstripNewlines(J.Rstrip(t) + "\n\n" + tail))
  {
    hide J.Rstrip, J.LstripNewlines;
    var full := J.Rstrip(t) + "\n\n" + tail;
    PlainSlice(t, 0, |J.Rstrip(t)|);
    assert t[..|J.Rstrip(t)|] == J.Rstrip(t);
    PlainConcat(J.Rstrip(t), "\n\n");
    PlainConcat(J.Rstrip(t) + "\n\n", tail);
    PlainSlice(full, |full| - |J.LstripNewlines(full)|, |full|);
  }

  lemma BlockPlain(kit: J.Kit, shell: bool, python: bool)
    requires J.PlainKit(kit)
    ensures J.Plain(J.Block(kit, shell, python))
  {
  }

  lemma MergePlain(original: string, kit: J.Kit, wantShell: bool)
    requires J.KitOk(kit) && J.PlainKit(kit) && J.Plain(original)
    ensures var y := J.Merge(original, kit, wantShell); y.Some? ==> J.Plain(y.value)
  {
    hide Find, OccursAt, J.Found, J.Sub, J.Count, J.Rstrip, J.LstripNewlines, J.Block, J.Plain, J.TestRecipe,
         J.HashFree;
    assert J.Plain(kit.testRecipe);
    AppendedPlain(original, kit.testRecipe);
    var t := J.WithTest(original, kit);
    var u := J.Unmanaged(t, kit);
    var shell, python := wantShell && !J.Found(J.ShellSetting, u), !J.Found(J.PythonBinding, u);
    BlockPlain(kit, shell, python);
    SubPlain(t, kit, J.Block(kit, shell, python));
    AppendedPlain(t, J.Block(kit, shell, python));
  }

  // ---------------------------------------------------------------- the targets do not move

  /** Files after which the wanted targets are still those of `files`: the Justfile is as it was,
      or already reads as wanted. */
  lemma TargetsStable(files: map<Path, Bytes>, after: map<Path, Bytes>, inputs: Inputs, t: Targets)
    requires InputsOk(inputs) && Desired(files, inputs) == Some(t)
    requires || (JUSTFILE in after && after[JUSTFILE] == t.files[JUSTFILE])
             || SameAt(files, after, JUSTFILE)
    ensures Desired(after, inputs) == Some(t)
  {
    hide J.Merge, J.KitOk, J.PlainKit, J.Plain;
    var original := Original(files, inputs).value;
    var merged := J.Merge(original, inputs.kit, inputs.wantShell).value;
    MergePlain(original, inputs.kit, inputs.wantShell);
    JustfileTheorems.MergeIsIdempotent(original, inputs.kit, inputs.wantShell);
    assert inputs.decode(inputs.encode(merged)) == Some(merged);
  }

  /** Stopped between two file operations or finished, an install leaves a checkout from which the
      same targets are computed. */
  lemma InstallConverges(
    repo: Repo, inputs: Inputs, t: Targets, digest: Bytes -> Digest, gone: set<Path>, written: set<Path>)
    requires InputsOk(inputs) && Desired(repo.files, inputs) == Some(t) && Partway(repo, t, gone, written)
    ensures Desired(Interrupted(repo, t, gone, written).files, inputs) == Some(t)
    ensures Desired(Installed(repo, t, digest).files, inputs) == Some(t)
  {
    hide Desired, CodecOk, J.KitOk, J.PlainKit, J.Plain;
    JustfileIsTarget(repo.files, inputs, t);
    assert JUSTFILE !in Retired(repo, t);
    TargetsStable(repo.files, Applied(repo.files, t, gone, written), inputs, t);
    TargetsStable(repo.files, Installed(repo, t, digest).files, inputs, t);
  }

  /** An accepted install that was stopped between two file operations: the next run computes the
      same targets, is accepted, and ends where the first would have. */
  lemma InterruptedRunResumes(
    repo: Repo, inputs: Inputs, t: Targets, digest: Bytes -> Digest, gone: set<Path>, written: set<Path>)
    requires InputsOk(inputs) && Desired(repo.files, inputs) == Some(t) && !Refused(repo, t, digest, false)
    requires Partway(repo, t, gone, written)
    ensures var mid := Interrupted(repo, t, gone, written);
            && Desired(mid.files, inputs) == Some(t) && !Refused(mid, t, digest, false)
            && Installed(mid, t, digest) == Installed(repo, t, digest)
  {
    hide *;
    InstallConverges(repo, inputs, t, digest, gone, written);
    InterruptedInstallResumes(repo, t, digest, gone, written);
  }

  // ---------------------------------------------------------------- stopped inside a write

  /** Stopped inside the write of any file but the Justfile, the next run computes the same targets;
      whether it is accepted is decided by that file (`TornInstallResumesIff`). */
  lemma TornRunResumesIff(
    repo: Repo, inputs: Inputs, t: Targets, digest: Bytes -> Digest, gone: set<Path>, written: set<Path>,
    p: Path, c: Bytes)
    requires InputsOk(inputs) && Desired(repo.files, inputs) == Some(t) && !Refused(repo, t, digest, false)
    requires Injective(digest) && Partway(repo, t, gone, written)
    requires p in Changed(repo, t) && p !in written && p != JUSTFILE
    ensures var mid := Torn(repo, t, gone, written, p, c);
            && Desired(mid.files, inputs) == Some(t)
            && (!Refused(mid, t, digest, false) <==>
                c == t.files[p] || p in inputs.persisted || (p in Managed(repo) && c == Contents(repo.files, p)))
            && Installed(mid, t, digest) == Installed(repo, t, digest)
  {
    hide Desired, CodecOk, J.KitOk, J.PlainKit, J.Plain, Refused, Installed, Injective;
    JustfileIsTarget(repo.files, inputs, t);
    assert JUSTFILE !in Retired(repo, t);
    TargetsStable(repo.files, Torn(repo, t, gone, written, p, c).files, inputs, t);
    TornInstallRefusedIff(repo, t, digest, gone, written, p, c);
    TornInstallResumesIff(repo, t, digest, gone, written, p, c);
  }

  /** Asking for other contents at one exempt target that is there changes that file only. */
  lemma RetargetOne(repo: Repo, t: Targets, digest: Bytes -> Digest, p: Path, w: Bytes)
    requires p in t.files && p in t.special && p in repo.files
    ensures var t' := t.(files := t.files[p := w]);
            && (Refused(repo, t', digest, false) <==> Refused(repo, t, digest, false))
            && Installed(repo, t', digest).files == Installed(repo, t, digest).files[p := w]
  {
    var t' := t.(files := t.files[p := w]);
    forall q ensures Conflict(repo, t', digest, q) <==> Conflict(repo, t, digest, q) {}
    var a, b := Installed(repo, t', digest).files, Installed(repo, t, digest).files[p := w];
    forall q ensures SameAt(a, b, q) { RetargetAt(repo, t, digest, p, w, q); }
    hide *;
    RefusedIff(repo, t, digest);
    RefusedIff(repo, t', digest);
    SameEverywhere(a, b);
  }

  lemma RetargetAt(repo: Repo, t: Targets, digest: Bytes -> Digest, p: Path, w: Bytes, q: Path)
    requires p in t.files && p in t.special && p in repo.files
    ensures SameAt(
              Installed(repo, t.(files := t.files[p := w]), digest).files,
              Installed(repo, t, digest).files[p := w], q)
  {
    var t' := t.(files := t.files[p := w]);
    InstallAchievesTargets(repo, t', digest, q);
    InstallAchievesTargets(repo, t, digest, q);
    if q !in t.files && q !in Managed(repo) {
      StrangersUntouched(repo, t', digest, q);
      StrangersUntouched(repo, t, digest, q);
    }
  }

  /** Stopped inside the write of the Justfile with `b` on disk, the next run takes that for the
      consumer's text. It fails if that is no text or has a marker conflict; otherwise it is accepted
      and ends like the uninterrupted install, but for a Justfile merged from `b`. So it resumes if
      and only if `b` happens to merge to the same text. */
  lemma TornJustfileRun(
    repo: Repo, inputs: Inputs, t: Targets, digest: Bytes -> Digest, gone: set<Path>, written: set<Path>, b: Bytes)
    requires InputsOk(inputs) && Desired(repo.files, inputs) == Some(t) && !Refused(repo, t, digest, false)
    requires Partway(repo, t, gone, written) && JUSTFILE in Changed(repo, t) && JUSTFILE !in written
    ensures var mid := Torn(repo, t, gone, written, JUSTFILE, b);
            match MergeOf(b, inputs)
            case None => Desired(mid.files, inputs) == None
            case Some(text) =>
              var next := Desired(mid.files, inputs);
              && next.Some? && !Refused(mid, next.value, digest, false)
              && Installed(mid, next.value, digest).files ==
                 Installed(repo, t, digest).files[JUSTFILE := inputs.encode(text)]
              && (next == Some(t) <==> t.files[JUSTFILE] == inputs.encode(text))
  {
    var mid := Torn(repo, t, gone, written, JUSTFILE, b);
    TargetsFrom(repo.files, mid.files, inputs, t);
    JustfileIsTarget(repo.files, inputs, t);
    hide Desired, InputsOk, Refused, Installed, Retired, Changed, Applied, MergeOf;
    TornInstallRefusedIff(repo, t, digest, gone, written, JUSTFILE, b);
    if MergeOf(b, inputs).Some? { RetargetOne(mid, t, digest, JUSTFILE, inputs.encode(MergeOf(b, inputs).value)); }
  }

  /** The targets of another Justfile differ from `t` in that file only. */
  lemma TargetsFrom(files: map<Path, Bytes>, other: map<Path, Bytes>, inputs: Inputs, t: Targets)
    requires inputs.kit.open != "" && inputs.kit.close != ""
    requires Desired(files, inputs) == Some(t) && JUSTFILE in other
    ensures match MergeOf(other[JUSTFILE], inputs)
            case None => Desired(other, inputs) == None
            case Some(text) => Desired(other, inputs) == Some(t.(files := t.files[JUSTFILE := inputs.encode(text)]))
    ensures Desired(other, inputs) == Some(t) <==>
            MergeOf(other[JUSTFILE], inputs).Some? &&
            t.files[JUSTFILE] == inputs.encode(MergeOf(other[JUSTFILE], inputs).value)
  {
    hide J.Merge;
    var m := MergeOf(other[JUSTFILE], inputs);
    if m.Some? {
      var w := inputs.encode(m.value);
      assert inputs.files[JUSTFILE := w] == t.files[JUSTFILE := w];
      assert t.files[JUSTFILE := w][JUSTFILE] == w;
    }
  }

  /** The merge of the text that `b` decodes to. */
  function MergeOf(b: Bytes, inputs: Inputs): Option<string>
    requires inputs.kit.open != "" && inputs.kit.close != ""
  {
    match inputs.decode(b)
    case None => None
    case Some(text) => J.Merge(text, inputs.kit, inputs.wantShell)
  }

  /** Every write of the Justfile passes through the empty file. Stopped there, the next run is
      accepted and installs a Justfile made of the kit alone: nothing of the consumer's is left. */
  lemma TruncatedJustfileRun(
    repo: Repo, inputs: Inputs, t: Targets, digest: Bytes -> Digest, gone: set<Path>, written: set<Path>)
    requires InputsOk(inputs) && Desired(repo.files, inputs) == Some(t) && !Refused(repo, t, digest, false)
    requires Partway(repo, t, gone, written) && JUSTFILE in Changed(repo, t) && JUSTFILE !in written
    ensures var mid := Torn(repo, t, gone, written, JUSTFILE, inputs.encode(""));
            var text := JustfileTheorems.KitText(inputs.kit, inputs.wantShell);
            var next := Desired(mid.files, inputs);
            && next.Some? && !Refused(mid, next.value, digest, false)
            && Installed(mid, next.value, digest).files ==
               Installed(repo, t, digest).files[JUSTFILE := inputs.encode(text)]
            && J.Unmanaged(text, inputs.kit) == JustfileTheorems.KitPart(inputs.kit)
  {
    hide Desired, J.Merge, J.KitOk, J.PlainKit, Refused, Installed, Retired, Changed, Torn,
         JustfileTheorems.KitText, JustfileTheorems.KitPart, J.Unmanaged;
    assert inputs.decode(inputs.encode("")) == Some("");
    JustfileTheorems.MergeOfEmpty(inputs.kit, inputs.wantShell);
    TornJustfileRun(repo, inputs, t, digest, gone, written, inputs.encode(""));
  }

  /** This does happen: the first install into any repository whose Justfile has a `test` recipe of
      its own writes that file, so it can be stopped there. */
  lemma FirstInstallWritesJustfile(text: string, inputs: Inputs, digest: Bytes -> Digest)
    requires InputsOk(inputs) && inputs.files == map[] && J.Plain(text)
    requires J.Free(text, inputs.kit) && J.Found(J.TestRecipe, text)
    ensures var repo := Repo(map[JUSTFILE := inputs.encode(text)], Missing);
            var t := Desired(repo.files, inputs);
            t.Some? && !Refused(repo, t.value, digest, false) && JUSTFILE in Changed(repo, t.value)
  {
    hide J.KitOk, J.PlainKit, J.Plain, J.Merge, J.Found, J.TestRecipe;
    var repo := Repo(map[JUSTFILE := inputs.encode(text)], Missing);
    assert inputs.decode(inputs.encode(text)) == Some(text);
    JustfileTheorems.FreeTextGetsBlock(text, inputs.kit, inputs.wantShell);
    var merged := J.Merge(text, inputs.kit, inputs.wantShell).value;
    MergePlain(text, inputs.kit, inputs.wantShell);
    assert inputs.decode(inputs.encode(merged)) == Some(merged);
    var t := Desired(repo.files, inputs).value;
    assert t.files == map[JUSTFILE := inputs.encode(merged)];
    assert Differs(repo, t, JUSTFILE);
  }

  lemma JustfileIsTarget(files: map<Path, Bytes>, inputs: Inputs, t: Targets)
    requires inputs.kit.open != "" && inputs.kit.close != "" && Desired(files, inputs) == Some(t)
    ensures JUSTFILE in t.files && t.special == inputs.persisted + {JUSTFILE}
  {
  }

  /** Which targets are computed, and when there are any: the Justfile, if there is one, must be text
      with as many opening as closing markers and at most one. The kit's own Justfile entry gives way
      to the merged text, and the Justfile joins the persisted answers in being exempt. */
  lemma DesiredMeans(files: map<Path, Bytes>, inputs: Inputs, text: Option<string>)
    requires InputsOk(inputs)
    requires text == if JUSTFILE in files then inputs.decode(files[JUSTFILE]) else Some(inputs.defaultText)
    ensures Desired(files, inputs).Some? <==>
            && text.Some?
            && |C.Occurrences(text.value, inputs.kit.open)| == |C.Occurrences(text.value, inputs.kit.close)| <= 1
    ensures Desired(files, inputs).Some? ==>
              var t, merged := Desired(files, inputs).value, J.Merge(text.value, inputs.kit, inputs.wantShell);
              && merged.Some? && t.files == inputs.files[JUSTFILE := inputs.encode(merged.value)]
              && forall p :: p in t.special <==> p in inputs.persisted || p == "Justfile"
  {
    hide J.Merge, J.KitOk, J.PlainKit, J.Plain, CodecOk, C.Occurrences;
    if text.Some? { C.AcceptedIff(text.value, inputs.kit, inputs.wantShell); }
  }

  /** What a successful install does to the consumer's Justfile: it can be read again, has the merged
      text, and up to white space at its ends the consumer's part is where the new one begins. */
  lemma ConsumerTextSurvives(repo: Repo, inputs: Inputs, t: Targets, digest: Bytes -> Digest, text: string)
    requires InputsOk(inputs) && Desired(repo.files, inputs) == Some(t)
    requires JUSTFILE in repo.files && inputs.decode(repo.files[JUSTFILE]) == Some(text)
    ensures var after, kit := Installed(repo, t, digest).files, inputs.kit;
            && JUSTFILE in after && inputs.decode(after[JUSTFILE]).Some?
            && var new' := inputs.decode(after[JUSTFILE]).value;
               && C.Trim(J.Unmanaged(text, kit)) <= J.LstripNewlines(J.Unmanaged(new', kit))
               && J.Merge(text, kit, inputs.wantShell) == Some(new')
  {
    JustfileIsTarget(repo.files, inputs, t);
    var merged := J.Merge(text, inputs.kit, inputs.wantShell).value;
    assert t.files[JUSTFILE] == inputs.encode(merged);
    assert inputs.decode(inputs.encode(merged)) == Some(merged) by {
      hide J.Merge, J.KitOk, J.PlainKit, J.Plain;
      MergePlain(text, inputs.kit, inputs.wantShell);
    }
    hide J.Merge, J.KitOk, J.PlainKit, J.Plain, J.Unmanaged, J.LstripNewlines, C.Trim, Installed, CodecOk;
    InstallAchievesTargets(repo, t, digest, JUSTFILE);
    C.ConsumerTextKept(text, inputs.kit, inputs.wantShell);
  }

  /** The program itself: compute the targets, then install them. */
  method RunInstaller(c: Checkout, inputs: Inputs, dryRun: bool, probe: Probe) returns (exit: int)
    requires inputs.kit.open != "" && inputs.kit.close != ""
    modifies c
    ensures var t := Desired(old(c.files), inputs);
            && (t.None? ==> exit == 2)
            && (t.Some? ==>
                  (exit == 2 <==> Refused(old(c.View()), t.value, c.digest, dryRun) || (dryRun && probe != Clean)))
            && (exit != 2 && !dryRun ==> exit == 0 && c.View() == Installed(old(c.View()), t.value, c.digest))
    ensures exit == 2 || dryRun ==> c.View() == old(c.View())
  {
    var t := Desired(c.files, inputs);
    if t.None? { return 2; }
    exit := c.Install(t.value, dryRun, probe);
  }

  /** A second run right after a successful one recomputes everything and changes nothing. */
  method InstallTwice(c: Checkout, inputs: Inputs, probe: Probe) returns (first: int, second: int, ghost between: Repo)
    requires InputsOk(inputs) && forall p :: p in inputs.files ==> !Unsafe(p)
    modifies c
    ensures first == 0 ==> second == 0 && c.View() == between
    ensures first == 0 ==>
              var t := Desired(between.files, inputs);
              t.Some? && Changed(between, t.value) == {} && Retired(between, t.value) == {}
    ensures first != 0 ==> between == old(c.View())
  {
    hide Desired, Refused, Unsafe, Applied, Changed, Retired, CodecOk, J.KitOk, J.PlainKit, J.Plain;
    ghost var repo := c.View();
    ghost var t := Desired(c.files, inputs);
    first := RunInstaller(c, inputs, false, probe);
    between := c.View();
    if first == 0 {
      SafeTargets(repo.files, inputs);
      InstallConverges(repo, inputs, t.value, c.digest, {}, {});
      InstallIsFixedPoint(repo, t.value, c.digest, false);
    }
    second := RunInstaller(c, inputs, false, probe);
  }

  lemma SafeTargets(files: map<Path, Bytes>, inputs: Inputs)
    requires inputs.kit.open != "" && inputs.kit.close != "" && Desired(files, inputs).Some?
    requires forall p :: p in inputs.files ==> !Unsafe(p)
    ensures !exists p :: p in Desired(files, inputs).value.files && Unsafe(p)
  {
    hide J.Merge;
    assert !Unsafe(JUSTFILE) by {
      forall i | 0 <= i < |JUSTFILE| ensures !OccursAt(JUSTFILE, "..", i) { OccurrenceElement(JUSTFILE, "..", i, 0); }
    }
  }

  // ---------------------------------------------------------------- an instance

  /** One number per character, and back; carriage returns do not decode. */
  function Codes(s: string): Bytes { seq(|s|, i requires 0 <= i < |s| => s[i] as int) }

  predicate IsCode(n: int) { (0 <= n < 0xD800 || 0xE000 <= n < 0x11_0000) && n != 13 }

  function Characters(b: Bytes): Option<string> {
    if forall i :: 0 <= i < |b| ==> IsCode(b[i])
    then Some(seq(|b|, i requires 0 <= i < |b| => if IsCode(b[i]) then b[i] as char else ' '))
    else None
  }

  lemma CodesRoundTrip(s: string)
    requires J.Plain(s)
    ensures Characters(Codes(s)) == Some(s)
  {
    assert forall i :: 0 <= i < |s| ==> IsCode(Codes(s)[i]);
    assert Characters(Codes(s)).value == s;
  }

  /** The shipped kit meets all that is asked of the inputs. */
  lemma ScLintInputs(files: map<Path, Bytes>, wantShell: bool)
    ensures InputsOk(Inputs(files, {}, J.SC_LINT_KIT, wantShell, "", Codes, Characters))
  {
    hide J.KitOk, J.PlainKit, Characters, Codes;
    JustfileTheorems.ScLintKit();
    assert |J.SC_LINT_OPEN| > 0 && |J.SC_LINT_CLOSE| > 0;
    forall s | J.Plain(s) ensures Characters(Codes(s)) == Some(s) { CodesRoundTrip(s); }
    forall b | Characters(b).Some? ensures J.Plain(Characters(b).value) { CharactersPlain(b); }
  }

  lemma CharactersPlain(b: Bytes)
    requires Characters(b).Some?
    ensures J.Plain(Characters(b).value)
  {
    var s := Characters(b).value;
    forall i | 0 <= i < |s| ensures s[i] != '\r' { assert IsCode(b[i]) && s[i] as int == b[i]; }
  }
}
