/** Reconciling a checkout with the sc-lint kit: plugins/sc-lint/install.py, `main`. */
module Installer {
  import opened Search

  type Path = string
  type Bytes = seq<int>
  type Digest = string
  type Digests = map<Path, Digest>

  /** What `desired` computes: wanted contents, and the targets exempt from ownership checks. */
  datatype Targets = Targets(files: map<Path, Bytes>, special: set<Path>)

  /** The manifest file: missing, not to be parsed, or the digests of the last successful install. */
  datatype Manifest = Missing | Unreadable | Holds(digests: Digests)

  /** The checkout: its files, and the manifest. */
  datatype Repo = Repo(files: map<Path, Bytes>, manifest: Manifest)

  function Managed(repo: Repo): Digests { if repo.manifest.Holds? then repo.manifest.digests else map[] }

  /** `path.read_bytes() if path.exists() else b""` */
  function Contents(files: map<Path, Bytes>, p: Path): Bytes { if p in files then files[p] else [] }

  /** Absolute, or with a `..` component. */
  predicate Unsafe(p: Path) {
    || (p != "" && p[0] == '/')
    || exists i :: 0 <= i < |p| && OccursAt(p, "..", i) &&
                   (i == 0 || p[i - 1] == '/') && (i + 2 == |p| || p[i + 2] == '/')
  }

  /** A pre-existing file that an install would take over. */
  predicate Clash(repo: Repo, t: Targets, p: Path) {
    && p in t.files && p !in t.special && p !in Managed(repo)
    && p in repo.files && repo.files[p] != t.files[p]
  }

  /** A managed file that is no longer wanted and was edited. */
  predicate RetireConflict(repo: Repo, t: Targets, digest: Bytes -> Digest, p: Path) {
    p in Managed(repo) && p !in t.files && p in repo.files && digest(repo.files[p]) != Managed(repo)[p]
  }

  predicate Differs(repo: Repo, t: Targets, p: Path) {
    p in t.files && Contents(repo.files, p) != t.files[p]
  }

  /** A managed file that is due to change and was edited. */
  predicate EditConflict(repo: Repo, t: Targets, digest: Bytes -> Digest, p: Path) {
    && Differs(repo, t, p) && p !in t.special && p in Managed(repo)
    && digest(Contents(repo.files, p)) != Managed(repo)[p]
  }

  function Changed(repo: Repo, t: Targets): set<Path> { set p | p in t.files && Differs(repo, t, p) }

  function Retired(repo: Repo, t: Targets): set<Path> {
    set p | p in Managed(repo) && p !in t.files && p in repo.files
  }

  /** The install stops before touching anything. */
  ghost predicate Refused(repo: Repo, t: Targets, digest: Bytes -> Digest, dryRun: bool) {
    || repo.manifest.Unreadable?
    || (exists p :: Clash(repo, t, p))
    || (exists p :: p in Managed(repo) && Unsafe(p))
    || (exists p :: RetireConflict(repo, t, digest, p))
    || (!dryRun && exists p :: EditConflict(repo, t, digest, p))
  }

  /** The files after unlinking `gone` and writing `written`. */
  function Applied(files: map<Path, Bytes>, t: Targets, gone: set<Path>, written: set<Path>): map<Path, Bytes>
    requires written <= t.files.Keys
  { map p | p in (files.Keys - gone) + written :: if p in written then t.files[p] else files[p] }

  lemma NothingApplied(files: map<Path, Bytes>, t: Targets)
    ensures Applied(files, t, {}, {}) == files
  {
  }

  lemma AppliedUnlink(files: map<Path, Bytes>, t: Targets, gone: set<Path>, p: Path)
    ensures Applied(files, t, gone, {}) - {p} == Applied(files, t, gone + {p}, {})
  {
  }

  lemma AppliedWrite(files: map<Path, Bytes>, t: Targets, gone: set<Path>, written: set<Path>, p: Path)
    requires written <= t.files.Keys && p in t.files
    ensures Applied(files, t, gone, written)[p := t.files[p]] == Applied(files, t, gone, written + {p})
  {
  }

  function DigestAll(files: map<Path, Bytes>, digest: Bytes -> Digest): Digests {
    map p | p in files :: digest(files[p])
  }

  function Installed(repo: Repo, t: Targets, digest: Bytes -> Digest): Repo {
    Repo(Applied(repo.files, t, Retired(repo, t), Changed(repo, t)), Holds(DigestAll(t.files, digest)))
  }

  /** Outcome of the `just --list` probe, which only a dry run makes. */
  datatype Probe = Clean | Collides | Unavailable

  // ---------------------------------------------------------------- the installer

  /** A checkout changed in place. Every loop visits its keys in an arbitrary order, so nothing
      below depends on the order of a dictionary. */
  class Checkout {
    const digest: Bytes -> Digest
    var files: map<Path, Bytes>
    var manifest: Manifest

    constructor (files: map<Path, Bytes>, manifest: Manifest, digest: Bytes -> Digest)
      ensures this.digest == digest && View() == Repo(files, manifest)
    {
      this.files, this.manifest, this.digest := files, manifest, digest;
    }

    function View(): Repo
      reads this
    { Repo(files, manifest) }

    /** Lines 302-312. */
    method FindClashes(t: Targets) returns (clashes: set<Path>)
      ensures forall p :: p in clashes <==> Clash(View(), t, p)
    {
      clashes := {};
      var rest := t.files.Keys;
      while rest != {}
        invariant rest <= t.files.Keys
        invariant forall p :: p in clashes <==> Clash(View(), t, p) && p !in rest
        decreases rest
      {
        var p :| p in rest;
        rest := rest - {p};
        if p in t.special || p in Managed(View()) || p !in files { continue; }
        if files[p] != t.files[p] { clashes := clashes + {p}; }
      }
    }

    /** Lines 320-335; `None` is a conflict. */
    method PlanRetired(t: Targets) returns (retired: Option<set<Path>>)
      ensures retired.None? <==> (exists p :: p in Managed(View()) && Unsafe(p)) ||
                                 (exists p :: RetireConflict(View(), t, digest, p))
      ensures retired.Some? ==> retired.value == Retired(View(), t)
    {
      var managed := Managed(View());
      var found: set<Path> := {};
      var rest := managed.Keys;
      while rest != {}
        invariant rest <= managed.Keys
        invariant forall p :: p in managed && p !in rest ==> !Unsafe(p) && !RetireConflict(View(), t, digest, p)
        invariant forall p :: p in found <==> p in Retired(View(), t) && p !in rest
        decreases rest
      {
        var p :| p in rest;
        if Unsafe(p) { return None; }
        rest := rest - {p};
        if p in t.files || p !in files { continue; }
        if digest(files[p]) != managed[p] {
          assert RetireConflict(View(), t, digest, p);
          return None;
        }
        found := found + {p};
      }
      retired := Some(found);
    }

    /** Lines 336-340; `None` is a conflict. */
    method PlanChanges(t: Targets, dryRun: bool) returns (changes: Option<set<Path>>)
      ensures changes.None? <==> !dryRun && exists p :: EditConflict(View(), t, digest, p)
      ensures changes.Some? ==> changes.value == Changed(View(), t)
    {
      var found: set<Path> := {};
      var rest := t.files.Keys;
      while rest != {}
        invariant rest <= t.files.Keys
        invariant !dryRun ==> forall p :: p in t.files && p !in rest ==> !EditConflict(View(), t, digest, p)
        invariant forall p :: p in found <==> p in Changed(View(), t) && p !in rest
        decreases rest
      {
        var p :| p in rest;
        var current := Contents(files, p);
        if current != t.files[p] {
          if !dryRun && p !in t.special && p in Managed(View()) && digest(current) != Managed(View())[p] {
            assert EditConflict(View(), t, digest, p);
            return None;
          }
          found := found + {p};
        }
        rest := rest - {p};
      }
      changes := Some(found);
    }

    /** Lines 350-353, with the manifest written last. */
    method Apply(t: Targets, retired: set<Path>, changes: set<Path>)
      requires retired !! changes && retired <= files.Keys && changes <= t.files.Keys
      modifies this
      ensures files == Applied(old(files), t, retired, changes)
      ensures manifest == Holds(DigestAll(t.files, digest))
    {
      hide Applied;
      ghost var before := files;
      NothingApplied(files, t);
      assert retired - retired == {};
      var rest := retired;
      while rest != {}
        invariant rest <= retired
        invariant files == Applied(before, t, retired - rest, {})
        invariant manifest == old(manifest)
        decreases rest
      {
        var p :| p in rest;
        AppliedUnlink(before, t, retired - rest, p);
        assert retired - (rest - {p}) == (retired - rest) + {p};
        files := files - {p};
        rest := rest - {p};
      }
      assert retired - rest == retired && changes - changes == {};
      rest := changes;
      while rest != {}
        invariant rest <= changes
        invariant files == Applied(before, t, retired, changes - rest)
        invariant manifest == old(manifest)
        decreases rest
      {
        var p :| p in rest;
        AppliedWrite(before, t, retired, changes - rest, p);
        assert changes - (rest - {p}) == (changes - rest) + {p};
        files := files[p := t.files[p]];
        rest := rest - {p};
      }
      assert changes - rest == changes;
      manifest := Holds(DigestAll(t.files, digest));
    }

    method Install(t: Targets, dryRun: bool, probe: Probe) returns (exit: int)
      modifies this
      ensures exit == 2 <==> Refused(old(View()), t, digest, dryRun) || (dryRun && probe != Clean)
      ensures exit == 2 || dryRun ==> View() == old(View())
      ensures exit != 2 && dryRun ==>
                exit == if Changed(View(), t) + Retired(View(), t) != {} then 1 else 0
      ensures exit != 2 && !dryRun ==> exit == 0 && View() == Installed(old(View()), t, digest)
    {
      if manifest.Unreadable? { return 2; }
      var clashes := FindClashes(t);
      if clashes != {} {
        var p :| p in clashes;
        assert Clash(View(), t, p);
        return 2;
      }
      var retired := PlanRetired(t);
      if retired.None? { return 2; }
      var changes := PlanChanges(t, dryRun);
      if changes.None? { return 2; }
      if dryRun {
        if probe != Clean { return 2; }
        return if changes.value + retired.value != {} then 1 else 0;
      }
      Apply(t, retired.value, changes.value);
      return 0;
    }
  }
}
