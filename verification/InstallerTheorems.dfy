/** What the installer guarantees over any history of edits and installs. */
module InstallerTheorems {
  import opened Search
  import opened Installer

  ghost predicate Injective(digest: Bytes -> Digest) {
    forall a, b :: digest(a) == digest(b) ==> a == b
  }

  // ---------------------------------------------------------------- histories

  /** Between installs anybody may write or delete any file of the checkout, as an install that was
      stopped does too; the manifest may be damaged or removed, but not be forged. */
  datatype Event =
    | Edit(path: Path, content: Option<Bytes>)
    | DamageManifest
    | RemoveManifest
    | Run(targets: Targets, dryRun: bool, probe: Probe)

  /** The checkout, and the target contents of its last successful install under this manifest. */
  datatype History = History(repo: Repo, last: Option<map<Path, Bytes>>)

  ghost predicate Succeeds(repo: Repo, e: Event, digest: Bytes -> Digest)
    requires e.Run?
  { !e.dryRun && !Refused(repo, e.targets, digest, false) }

  ghost function Next(h: History, e: Event, digest: Bytes -> Digest): History {
    match e
    case Edit(p, None) => h.(repo := h.repo.(files := h.repo.files - {p}))
    case Edit(p, Some(c)) => h.(repo := h.repo.(files := h.repo.files[p := c]))
    case DamageManifest => h.(repo := h.repo.(manifest := Unreadable))
    case RemoveManifest => History(h.repo.(manifest := Missing), None)
    case Run(t, _, _) =>
      if Succeeds(h.repo, e, digest) then History(Installed(h.repo, t, digest), Some(t.files)) else h
  }

  /** Every history that starts from a checkout without a manifest. */
  ghost function Play(start: map<Path, Bytes>, events: seq<Event>, digest: Bytes -> Digest): History {
    if events == [] then History(Repo(start, Missing), None)
    else Next(Play(start, events[..|events| - 1], digest), events[|events| - 1], digest)
  }

  /** Unless it is damaged, the manifest records exactly the digests of the last successful install. */
  predicate Recorded(h: History, digest: Bytes -> Digest) {
    match h.last
    case None => !h.repo.manifest.Holds?
    case Some(files) => h.repo.manifest == Holds(DigestAll(files, digest)) || h.repo.manifest == Unreadable
  }

  lemma {:induction false} AlwaysRecorded(start: map<Path, Bytes>, events: seq<Event>, digest: Bytes -> Digest)
    ensures Recorded(Play(start, events, digest), digest)
  {
    if events == [] {
    } else {
      hide Refused, Applied;
      AlwaysRecorded(start, events[..|events| - 1], digest);
    }
  }

  /** The file at `p` is not the same before and after. */
  predicate Touched(before: Repo, after: Repo, p: Path) {
    || (p in before.files) != (p in after.files)
    || (p in before.files && p in after.files && before.files[p] != after.files[p])
  }

  /** Whatever happened before, an install touches an ordinary file only if it reads exactly as the
      previous successful install left it, and one that it did not install only if it is absent. So
      it neither overwrites nor deletes what somebody edited, nor brings back what somebody deleted. */
  lemma InstallRespectsEdits(
    start: map<Path, Bytes>, events: seq<Event>, run: Event, digest: Bytes -> Digest, p: Path)
    requires run.Run? && p !in run.targets.special && Injective(digest)
    requires var h := Play(start, events, digest);
             Touched(h.repo, Next(h, run, digest).repo, p)
    ensures var h := Play(start, events, digest);
            && (h.last.Some? && p in h.last.value ==> Contents(h.repo.files, p) == h.last.value[p])
            && (p in h.repo.files ==> h.last.Some? && p in h.last.value)
  {
    hide Play, Unsafe;
    var h, t := Play(start, events, digest), run.targets;
    AlwaysRecorded(start, events, digest);
    assert p in Retired(h.repo, t) || p in Changed(h.repo, t);
    assert !Clash(h.repo, t, p);
    assert !RetireConflict(h.repo, t, digest, p);
    assert !EditConflict(h.repo, t, digest, p);
    if h.last.Some? && p in h.last.value {
      assert digest(Contents(h.repo.files, p)) == digest(h.last.value[p]);
    }
  }

  /** Files that are neither wanted nor managed are never touched. */
  lemma StrangersUntouched(repo: Repo, t: Targets, digest: Bytes -> Digest, p: Path)
    requires p !in t.files && p !in Managed(repo)
    ensures !Touched(repo, Installed(repo, t, digest), p)
  {
  }

  // ---------------------------------------------------------------- what an install achieves

  /** Afterwards every target reads as wanted and nothing retired is left; a target is missing
      exactly when it was absent before and its wanted content is empty. */
  lemma InstallAchievesTargets(repo: Repo, t: Targets, digest: Bytes -> Digest, p: Path)
    ensures var after := Installed(repo, t, digest);
            && (p in t.files ==> Contents(after.files, p) == t.files[p])
            && (p in t.files ==> (p !in after.files <==> p !in repo.files && t.files[p] == []))
            && (p in Managed(repo) && p !in t.files ==> p !in after.files)
  {
    var after := Installed(repo, t, digest);
    assert p in t.files ==> (p in Changed(repo, t) <==> Differs(repo, t, p));
    assert p in Managed(repo) && p !in t.files && p in repo.files ==> p in Retired(repo, t);
  }

  /** A successful install is a fixed point: run again on the same targets it finds nothing to
      change or retire and leaves the checkout as it is, dry or not. It is accepted again exactly
      when no target has an unsafe name, since the manifest now lists all of them. */
  lemma InstallIsFixedPoint(repo: Repo, t: Targets, digest: Bytes -> Digest, dryRun: bool)
    ensures var after := Installed(repo, t, digest);
            && Changed(after, t) == {} && Retired(after, t) == {}
            && Installed(after, t, digest) == after
            && (Refused(after, t, digest, dryRun) <==> exists p :: p in t.files && Unsafe(p))
  {
    var after := Installed(repo, t, digest);
    forall p ensures !Differs(after, t, p) && !Clash(after, t, p) {
      InstallAchievesTargets(repo, t, digest, p);
    }
    hide Unsafe;
    assert Managed(after) == DigestAll(t.files, digest);
    assert Changed(after, t) == {} && Retired(after, t) == {};
    NothingApplied(after.files, t);
    assert forall p :: p in Managed(after) <==> p in t.files;
  }

  /** The one target that is missing afterwards: wanted empty, absent before. */
  lemma EmptyTargetIsNotCreated(p: Path, digest: Bytes -> Digest)
    ensures var repo, t := Repo(map[], Missing), Targets(map[p := []], {});
            !Refused(repo, t, digest, false) && p in t.files && p !in Installed(repo, t, digest).files
  {
  }

  // ---------------------------------------------------------------- interrupted installs

  /** The checkout of an install that was stopped between two file operations, after unlinking
      `gone` and writing `written`; the manifest, written last, is still the old one. */
  function Interrupted(repo: Repo, t: Targets, gone: set<Path>, written: set<Path>): Repo
    requires written <= t.files.Keys
  { Repo(Applied(repo.files, t, gone, written), repo.manifest) }

  /** Stopped while it wrote `p`: the file was truncated and got as far as `c`. */
  function Torn(repo: Repo, t: Targets, gone: set<Path>, written: set<Path>, p: Path, c: Bytes): Repo
    requires written <= t.files.Keys
  { Repo(Applied(repo.files, t, gone, written)[p := c], repo.manifest) }

  /** Stopped while it wrote the manifest, when all files were in place. */
  function TornManifest(repo: Repo, t: Targets): Repo {
    Repo(Applied(repo.files, t, Retired(repo, t), Changed(repo, t)), Unreadable)
  }

  /** `gone` and `written` are some of the files the install was to remove and to write. */
  predicate Partway(repo: Repo, t: Targets, gone: set<Path>, written: set<Path>) {
    gone <= Retired(repo, t) && written <= Changed(repo, t)
  }

  /** The file at `p` is the same in both. */
  predicate SameAt(a: map<Path, Bytes>, b: map<Path, Bytes>, p: Path) {
    (p in a <==> p in b) && (p in a && p in b ==> a[p] == b[p])
  }

  /** The file at `p` alone makes a real install stop. */
  predicate Conflict(repo: Repo, t: Targets, digest: Bytes -> Digest, p: Path) {
    Clash(repo, t, p) || RetireConflict(repo, t, digest, p) || EditConflict(repo, t, digest, p)
  }

  lemma RefusedIff(repo: Repo, t: Targets, digest: Bytes -> Digest)
    ensures Refused(repo, t, digest, false) <==>
            || repo.manifest.Unreadable? || (exists p :: p in Managed(repo) && Unsafe(p))
            || exists p :: Conflict(repo, t, digest, p)
  {
    hide Unsafe, Clash, RetireConflict, EditConflict, Managed;
    if p :| Clash(repo, t, p) { assert Conflict(repo, t, digest, p); }
    if p :| RetireConflict(repo, t, digest, p) { assert Conflict(repo, t, digest, p); }
    if p :| EditConflict(repo, t, digest, p) { assert Conflict(repo, t, digest, p); }
  }

  lemma ConflictIsLocal(repo: Repo, other: Repo, t: Targets, digest: Bytes -> Digest, p: Path)
    requires repo.manifest == other.manifest && SameAt(repo.files, other.files, p)
    ensures Conflict(repo, t, digest, p) <==> Conflict(other, t, digest, p)
  {
  }

  /** Removed or written files do not conflict any more, and the others are as they were. */
  lemma InterruptedConflicts(
    repo: Repo, t: Targets, digest: Bytes -> Digest, gone: set<Path>, written: set<Path>, p: Path)
    requires Partway(repo, t, gone, written) && !Conflict(repo, t, digest, p)
    ensures !Conflict(Interrupted(repo, t, gone, written), t, digest, p)
  {
    var mid := Interrupted(repo, t, gone, written);
    if p !in gone && p !in written { ConflictIsLocal(repo, mid, t, digest, p); }
  }

  /** Installing from any state in which only files due to be removed or written have changed, and
      none of those due to be written is gone, ends where installing from `repo` does. */
  lemma PartwayInstalls(repo: Repo, t: Targets, digest: Bytes -> Digest, files: map<Path, Bytes>)
    requires forall p :: p !in Changed(repo, t) && p !in Retired(repo, t) ==> SameAt(repo.files, files, p)
    requires forall p :: p in Changed(repo, t) ==> p in files || t.files[p] != []
    ensures Installed(Repo(files, repo.manifest), t, digest) == Installed(repo, t, digest)
  {
    var mid := Repo(files, repo.manifest);
    var a, b := Installed(mid, t, digest).files, Installed(repo, t, digest).files;
    forall p ensures SameAt(a, b, p) { PartwayInstallsAt(repo, t, digest, files, p); }
    hide *;
    SameEverywhere(a, b);
    assert Installed(mid, t, digest).manifest == Installed(repo, t, digest).manifest by {
      InstalledManifest(mid, t, digest);
      InstalledManifest(repo, t, digest);
    }
  }

  lemma InstalledManifest(repo: Repo, t: Targets, digest: Bytes -> Digest)
    ensures Installed(repo, t, digest).manifest == Holds(DigestAll(t.files, digest))
  {
  }

  lemma SameEverywhere(a: map<Path, Bytes>, b: map<Path, Bytes>)
    requires forall p :: SameAt(a, b, p)
    ensures a == b
  {
    forall p ensures p in a <==> p in b { assert SameAt(a, b, p); }
    forall p | p in a ensures a[p] == b[p] { assert SameAt(a, b, p); }
    assert a.Keys == b.Keys;
  }

  lemma PartwayInstallsAt(repo: Repo, t: Targets, digest: Bytes -> Digest, files: map<Path, Bytes>, p: Path)
    requires p !in Changed(repo, t) && p !in Retired(repo, t) ==> SameAt(repo.files, files, p)
    requires p in Changed(repo, t) ==> p in files || t.files[p] != []
    ensures SameAt(Installed(Repo(files, repo.manifest), t, digest).files, Installed(repo, t, digest).files, p)
  {
    var mid := Repo(files, repo.manifest);
    InstallAchievesTargets(mid, t, digest, p);
    InstallAchievesTargets(repo, t, digest, p);
    assert p in Changed(repo, t) <==> Differs(repo, t, p);
    if p !in t.files && p !in Managed(repo) {
      StrangersUntouched(mid, t, digest, p);
      StrangersUntouched(repo, t, digest, p);
    }
  }

  lemma InterruptedFiles(repo: Repo, t: Targets, gone: set<Path>, written: set<Path>)
    requires Partway(repo, t, gone, written)
    ensures var files := Interrupted(repo, t, gone, written).files;
            && (forall p :: p !in gone && p !in written ==> SameAt(repo.files, files, p))
            && (forall p :: p in Changed(repo, t) ==> p in files || t.files[p] != [])
  {
    var files := Interrupted(repo, t, gone, written).files;
    forall p | p in Changed(repo, t) ensures p in files || t.files[p] != [] {
      assert p !in Retired(repo, t);
    }
  }

  /** Stopped between two file operations, an accepted install can be run again with the same targets: it is
      accepted and ends where the uninterrupted install would have. */
  lemma InterruptedInstallResumes(
    repo: Repo, t: Targets, digest: Bytes -> Digest, gone: set<Path>, written: set<Path>)
    requires !Refused(repo, t, digest, false) && Partway(repo, t, gone, written)
    ensures var mid := Interrupted(repo, t, gone, written);
            !Refused(mid, t, digest, false) && Installed(mid, t, digest) == Installed(repo, t, digest)
  {
    var mid := Interrupted(repo, t, gone, written);
    InterruptedFiles(repo, t, gone, written);
    hide Unsafe, Conflict, Refused, Applied, SameAt, Changed, Retired, Installed;
    RefusedIff(repo, t, digest);
    RefusedIff(mid, t, digest);
    forall p ensures !Conflict(mid, t, digest, p) { InterruptedConflicts(repo, t, digest, gone, written, p); }
    PartwayInstalls(repo, t, digest, mid.files);
  }

  /** Stopped inside the write of `p`, it can be run again if and only if the partial file is
      complete after all, or exempt from ownership checks, or happens to have the recorded digest.
      When it can, it ends where the uninterrupted install would have. */
  lemma TornInstallRefusedIff(
    repo: Repo, t: Targets, digest: Bytes -> Digest, gone: set<Path>, written: set<Path>, p: Path, c: Bytes)
    requires !Refused(repo, t, digest, false) && Partway(repo, t, gone, written)
    requires p in Changed(repo, t) && p !in written
    ensures var mid := Torn(repo, t, gone, written, p, c);
            && (Refused(mid, t, digest, false) <==>
                c != t.files[p] && p !in t.special && (p in Managed(repo) ==> digest(c) != Managed(repo)[p]))
            && Installed(mid, t, digest) == Installed(repo, t, digest)
  {
    var before, mid := Interrupted(repo, t, gone, written), Torn(repo, t, gone, written, p, c);
    InterruptedFiles(repo, t, gone, written);
    assert Conflict(mid, t, digest, p) <==>
           c != t.files[p] && p !in t.special && (p in Managed(repo) ==> digest(c) != Managed(repo)[p]);
    forall q | q != p ensures SameAt(before.files, mid.files, q) {}
    hide Unsafe, Conflict, Refused, Applied, Changed, Retired, Installed;
    RefusedIff(repo, t, digest);
    RefusedIff(mid, t, digest);
    forall q | q != p ensures !Conflict(mid, t, digest, q) {
      InterruptedConflicts(repo, t, digest, gone, written, q);
      ConflictIsLocal(before, mid, t, digest, q);
    }
    PartwayInstalls(repo, t, digest, mid.files);
  }

  /** Without digest collisions, in terms of the file alone: it is complete, or exempt, or a managed
      file that reads as it did before the install. */
  lemma TornInstallResumesIff(
    repo: Repo, t: Targets, digest: Bytes -> Digest, gone: set<Path>, written: set<Path>, p: Path, c: Bytes)
    requires Injective(digest) && !Refused(repo, t, digest, false) && Partway(repo, t, gone, written)
    requires p in Changed(repo, t) && p !in written
    ensures !Refused(Torn(repo, t, gone, written, p, c), t, digest, false) <==>
            c == t.files[p] || p in t.special || (p in Managed(repo) && c == Contents(repo.files, p))
  {
    assert p in Managed(repo) && p !in t.special ==> digest(Contents(repo.files, p)) == Managed(repo)[p] by {
      assert !EditConflict(repo, t, digest, p);
    }
    hide Refused, Torn, Changed, Managed;
    TornInstallRefusedIff(repo, t, digest, gone, written, p, c);
  }

  /** Such stops exist: every write passes through the empty file. In a fresh checkout that is
      refused for every ordinary target with something in it. */
  lemma TruncatedFileIsRefused(p: Path, wanted: Bytes, digest: Bytes -> Digest)
    requires wanted != []
    ensures var repo, t := Repo(map[], Missing), Targets(map[p := wanted], {});
            && !Refused(repo, t, digest, false) && p in Changed(repo, t)
            && Refused(Torn(repo, t, {}, {}, p, []), t, digest, false)
  {
    var repo, t := Repo(map[], Missing), Targets(map[p := wanted], {});
    assert Differs(repo, t, p);
    TornInstallRefusedIff(repo, t, digest, {}, {}, p, []);
  }

  /** Stopped inside the manifest, every later run is refused, whatever its targets, until somebody
      removes the manifest; then the same targets are accepted and the install completes. */
  lemma TornManifestRecovery(repo: Repo, t: Targets, digest: Bytes -> Digest, other: Targets, dryRun: bool)
    ensures var mid := TornManifest(repo, t);
            && Refused(mid, other, digest, dryRun)
            && !Refused(mid.(manifest := Missing), t, digest, false)
            && Installed(mid.(manifest := Missing), t, digest) == Installed(repo, t, digest)
  {
    var done, bare := Installed(repo, t, digest), TornManifest(repo, t).(manifest := Missing);
    assert bare.files == done.files;
    forall p ensures !Differs(bare, t, p) && !Clash(bare, t, p) { InstallAchievesTargets(repo, t, digest, p); }
    hide Unsafe, Applied;
    assert Changed(bare, t) == {} && Retired(bare, t) == {};
    NothingApplied(bare.files, t);
  }

  /** However an install was stopped, it touched only files that the whole install touches. */
  lemma StoppedInstallTouchesLess(
    repo: Repo, t: Targets, digest: Bytes -> Digest, gone: set<Path>, written: set<Path>, p: Path, c: Bytes, q: Path)
    requires Partway(repo, t, gone, written) && p in Changed(repo, t) && p !in written
    requires || Touched(repo, Interrupted(repo, t, gone, written), q)
             || Touched(repo, Torn(repo, t, gone, written, p, c), q)
    ensures Touched(repo, Installed(repo, t, digest), q)
  {
  }

  // ---------------------------------------------------------------- what a dry run predicts

  /** After an accepted dry run: if it announced nothing, the install is accepted and keeps every
      file. Otherwise the install is refused exactly when a managed file due to change was edited,
      which the dry run does not look for, and if not it touches exactly the announced files. */
  lemma DryRunPredicts(repo: Repo, t: Targets, digest: Bytes -> Digest)
    requires !Refused(repo, t, digest, true)
    ensures Changed(repo, t) + Retired(repo, t) == {} ==>
              !Refused(repo, t, digest, false) && Installed(repo, t, digest).files == repo.files
    ensures Refused(repo, t, digest, false) <==> exists p :: EditConflict(repo, t, digest, p)
    ensures forall p :: Touched(repo, Installed(repo, t, digest), p) <==> p in Changed(repo, t) + Retired(repo, t)
  {
    hide Unsafe;
    var changed, retired := Changed(repo, t), Retired(repo, t);
    if changed + retired == {} {
      forall p ensures !EditConflict(repo, t, digest, p) { assert p !in changed + retired; }
      assert changed == {} && retired == {};
      NothingApplied(repo.files, t);
    }
  }

  /** The same for the program: a dry run and then the real install, on one checkout. */
  method DryRunThenInstall(c: Checkout, t: Targets, probe: Probe) returns (dryExit: int, exit: int)
    modifies c
    ensures dryExit == 0 ==> exit == 0 && c.files == old(c.files)
    ensures dryExit == 1 ==> (exit == 2 <==> exists p :: EditConflict(old(c.View()), t, c.digest, p))
    ensures dryExit == 1 && exit != 2 ==>
              forall p :: Touched(old(c.View()), c.View(), p) <==>
                          p in Changed(old(c.View()), t) + Retired(old(c.View()), t)
  {
    hide Refused, EditConflict, Touched;
    ghost var repo := c.View();
    dryExit := c.Install(t, true, probe);
    if dryExit != 2 { DryRunPredicts(repo, t, c.digest); }
    exit := c.Install(t, false, probe);
  }

  /** An edit that a dry run lets through: a managed file that no longer has its recorded digest,
      and is due to change. */
  lemma EditSlipsPastDryRun(p: Path, edited: Bytes, recorded: Digest, wanted: Bytes, digest: Bytes -> Digest)
    requires !Unsafe(p) && edited != wanted && digest(edited) != recorded
    ensures var repo := Repo(map[p := edited], Holds(map[p := recorded]));
            var t := Targets(map[p := wanted], {});
            && !Refused(repo, t, digest, true) && Changed(repo, t) == {p} && Retired(repo, t) == {}
            && EditConflict(repo, t, digest, p) && Refused(repo, t, digest, false)
  {
    hide Unsafe;
    var repo := Repo(map[p := edited], Holds(map[p := recorded]));
    var t := Targets(map[p := wanted], {});
    assert EditConflict(repo, t, digest, p);
  }
}
