/** When the installer accepts, in terms of what was installed last and what the files hold now:
    plugins/sc-lint/install.py, `main`, without its digests. */
module InstallerAcceptance {
  import opened Search
  import opened Installer
  import opened InstallerTheorems

  // ---------------------------------------------------------------- unsafe names

  /** The path with these components. */
  function Join(parts: seq<string>): Path {
    if parts == [] then "" else if |parts| == 1 then parts[0] else parts[0] + "/" + Join(parts[1..])
  }

  predicate SlashFree(parts: seq<string>) { forall i :: 0 <= i < |parts| ==> '/' !in parts[i] }

  predicate DotDotAt(p: Path, i: int) {
    && 0 <= i && i + 2 <= |p| && p[i] == '.' && p[i + 1] == '.'
    && (i == 0 || p[i - 1] == '/') && (i + 2 == |p| || p[i + 2] == '/')
  }

  predicate HasDotDot(p: Path) { exists i :: 0 <= i < |p| && DotDotAt(p, i) }

  lemma UnsafeSpelled(p: Path)
    ensures Unsafe(p) <==> (p != "" && p[0] == '/') || HasDotDot(p)
  {
    forall i | 0 <= i && i + 2 <= |p| ensures OccursAt(p, "..", i) <==> p[i] == '.' && p[i + 1] == '.' {
      assert p[i..i + 2] == [p[i], p[i + 1]];
    }
    if i :| DotDotAt(p, i) { assert OccursAt(p, "..", i); }
    if i :| 0 <= i < |p| && OccursAt(p, "..", i) &&
            (i == 0 || p[i - 1] == '/') && (i + 2 == |p| || p[i + 2] == '/') {
      assert i + 2 <= |p| && DotDotAt(p, i);
    }
  }

  lemma DotDotAlone(a: string)
    requires '/' !in a
    ensures HasDotDot(a) <==> a == ".."
  {
    if a == ".." { assert DotDotAt(a, 0); }
    forall i | 0 <= i < |a| ensures a[i] != '/' { assert a[i] in a; }
  }

  lemma DotDotFirst(a: string, rest: string)
    requires '/' !in a
    ensures HasDotDot(a + "/" + rest) <==> a == ".." || HasDotDot(rest)
  {
    var p, n := a + "/" + rest, |a| + 1;
    forall i | 0 <= i < |a| ensures p[i] == a[i] && p[i] != '/' { assert a[i] in a; }
    assert p[|a|] == '/' && p[n..] == rest;
    if a == ".." { assert DotDotAt(p, 0); }
    if i :| DotDotAt(rest, i) { assert DotDotAt(p, n + i); }
    if i :| DotDotAt(p, i) {
      if i < |a| {
        assert i == 0;
        assert |a| == 2;
      } else {
        assert DotDotAt(rest, i - n);
      }
    }
  }

  lemma {:induction false} DotDotMeans(parts: seq<string>)
    requires parts != [] && SlashFree(parts)
    ensures HasDotDot(Join(parts)) <==> ".." in parts
  {
    assert '/' !in parts[0];
    if |parts| == 1 {
      assert Join(parts) == parts[0] && parts == [parts[0]];
      DotDotAlone(Join(parts));
      assert ".." in parts <==> parts[0] == "..";
    } else {
      var rest := parts[1..];
      assert parts == [parts[0]] + rest;
      DotDotMeans(rest);
      DotDotFirst(parts[0], Join(rest));
    }
  }

  /** A name is unsafe if and only if it is absolute or one of its components is `..`. */
  lemma UnsafeMeans(parts: seq<string>)
    requires parts != [] && SlashFree(parts)
    ensures Unsafe(Join(parts)) <==> (|parts| > 1 && parts[0] == "") || ".." in parts
  {
    var p := Join(parts);
    UnsafeSpelled(p);
    DotDotMeans(parts);
    assert '/' !in parts[0];
    assert p != "" && p[0] == '/' <==> |parts| > 1 && parts[0] == "" by {
      if parts[0] != "" { assert p[0] == parts[0][0]; }
    }
  }

  // ---------------------------------------------------------------- acceptance after any history

  /** An ordinary target that was not installed last is there with other bytes. */
  predicate Occupied(files: map<Path, Bytes>, last: map<Path, Bytes>, t: Targets, p: Path) {
    p in t.files && p !in t.special && p !in last && p in files && files[p] != t.files[p]
  }

  /** A file that was installed last and is not wanted any more is there with other bytes. */
  predicate EditedAndUnwanted(files: map<Path, Bytes>, last: map<Path, Bytes>, t: Targets, p: Path) {
    p in last && p !in t.files && p in files && files[p] != last[p]
  }

  /** An ordinary file that was installed last reads neither as installed nor as wanted now; one
      that is missing reads as empty. */
  predicate EditedAndDue(files: map<Path, Bytes>, last: map<Path, Bytes>, t: Targets, p: Path) {
    && p in last && p in t.files && p !in t.special
    && var now := if p in files then files[p] else [];
       now != t.files[p] && now != last[p]
  }

  ghost predicate MustRefuse(files: map<Path, Bytes>, last: map<Path, Bytes>, t: Targets, dryRun: bool) {
    || (exists p :: p in last && Unsafe(p))
    || (exists p :: Occupied(files, last, t, p))
    || (exists p :: EditedAndUnwanted(files, last, t, p))
    || (!dryRun && exists p :: EditedAndDue(files, last, t, p))
  }

  function LastFiles(h: History): map<Path, Bytes> { if h.last.Some? then h.last.value else map[] }

  /** Digests of what was installed stand for it. */
  lemma DigestsStandForFiles(repo: Repo, last: map<Path, Bytes>, t: Targets, digest: Bytes -> Digest, dryRun: bool)
    requires Injective(digest) && !repo.manifest.Unreadable? && Managed(repo) == DigestAll(last, digest)
    ensures Refused(repo, t, digest, dryRun) <==> MustRefuse(repo.files, last, t, dryRun)
  {
    forall p
      ensures (p in Managed(repo) <==> p in last) && (Clash(repo, t, p) <==> Occupied(repo.files, last, t, p))
      ensures RetireConflict(repo, t, digest, p) <==> EditedAndUnwanted(repo.files, last, t, p)
      ensures EditConflict(repo, t, digest, p) <==> EditedAndDue(repo.files, last, t, p)
    {
    }
    hide Unsafe, Clash, RetireConflict, EditConflict, Occupied, EditedAndUnwanted, EditedAndDue, Managed;
    if p :| Clash(repo, t, p) { assert Occupied(repo.files, last, t, p); }
    if p :| RetireConflict(repo, t, digest, p) { assert EditedAndUnwanted(repo.files, last, t, p); }
    if p :| EditConflict(repo, t, digest, p) { assert EditedAndDue(repo.files, last, t, p); }
    if p :| Occupied(repo.files, last, t, p) { assert Clash(repo, t, p); }
    if p :| EditedAndUnwanted(repo.files, last, t, p) { assert RetireConflict(repo, t, digest, p); }
    if p :| EditedAndDue(repo.files, last, t, p) { assert EditConflict(repo, t, digest, p); }
  }

  /** Whatever happened before, and as long as the manifest can be read, an install is refused if and
      only if a name installed last is unsafe, an ordinary target that was not installed last is
      occupied by other bytes, or a file installed last was edited and is now unwanted or due to
      change; a dry run does not look at the last. */
  lemma RefusedAfterHistory(
    start: map<Path, Bytes>, events: seq<Event>, t: Targets, dryRun: bool, digest: Bytes -> Digest)
    requires Injective(digest) && !Play(start, events, digest).repo.manifest.Unreadable?
    ensures var h := Play(start, events, digest);
            Refused(h.repo, t, digest, dryRun) <==> MustRefuse(h.repo.files, LastFiles(h), t, dryRun)
  {
    var h := Play(start, events, digest);
    AlwaysRecorded(start, events, digest);
    hide Play, Refused, MustRefuse;
    assert h.last.None? ==> Managed(h.repo) == DigestAll(map[], digest);
    DigestsStandForFiles(h.repo, LastFiles(h), t, digest, dryRun);
  }

  predicate Damaged(events: seq<Event>) {
    exists i :: 0 <= i < |events| && events[i] == DamageManifest &&
      forall j :: i < j < |events| ==> events[j] != RemoveManifest
  }

  lemma DamagedStep(events: seq<Event>, e: Event)
    ensures Damaged(events + [e]) <==> e == DamageManifest || (Damaged(events) && e != RemoveManifest)
  {
    var all := events + [e];
    if Damaged(events) && e != RemoveManifest {
      var i :| 0 <= i < |events| && events[i] == DamageManifest &&
        forall j :: i < j < |events| ==> events[j] != RemoveManifest;
      assert all[i] == DamageManifest;
    }
    if e == DamageManifest { assert all[|events|] == DamageManifest; }
    if Damaged(all) && e != DamageManifest {
      var i :| 0 <= i < |all| && all[i] == DamageManifest && forall j :: i < j < |all| ==> all[j] != RemoveManifest;
      assert all[|events|] == e && events[i] == DamageManifest;
      forall j | i < j < |events| ensures events[j] != RemoveManifest { assert all[j] == events[j]; }
    }
  }

  /** The manifest cannot be read if and only if it was damaged and not removed since: no install
      repairs it, and every one is refused. */
  lemma {:induction false} UnreadableIff(start: map<Path, Bytes>, events: seq<Event>, digest: Bytes -> Digest)
    ensures Play(start, events, digest).repo.manifest.Unreadable? <==> Damaged(events)
  {
    if events == [] {
    } else {
      var before, e := events[..|events| - 1], events[|events| - 1];
      assert events == before + [e];
      UnreadableIff(start, before, digest);
      DamagedStep(before, e);
      hide Damaged, Applied;
      if e.Run? { assert Succeeds(Play(start, before, digest).repo, e, digest) ==> !Damaged(before); }
    }
  }

  /** After a successful install and no edits, new targets are accepted unless they want a file
      that somebody else's bytes occupy, or the first install left an unsafe name. */
  lemma NewTargetsRefusedIff(repo: Repo, installed: Targets, t: Targets, digest: Bytes -> Digest, dryRun: bool)
    ensures Refused(Installed(repo, installed, digest), t, digest, dryRun) <==>
            || (exists p :: p in installed.files && Unsafe(p))
            || (exists p :: p !in installed.files && p !in Managed(repo) && p in t.files && p !in t.special &&
                            p in repo.files && repo.files[p] != t.files[p])
  {
    var after := Installed(repo, installed, digest);
    forall p
      ensures p in Managed(after) <==> p in installed.files
      ensures !RetireConflict(after, t, digest, p) && !EditConflict(after, t, digest, p)
      ensures Clash(after, t, p) <==>
              p !in installed.files && p !in Managed(repo) && p in t.files && p !in t.special &&
              p in repo.files && repo.files[p] != t.files[p]
    {
      InstallAchievesTargets(repo, installed, digest, p);
      if p !in installed.files && p !in Managed(repo) { StrangersUntouched(repo, installed, digest, p); }
    }
    hide Unsafe, Clash, RetireConflict, EditConflict, Managed, Applied;
  }
}
