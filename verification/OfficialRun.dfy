/** The official benchmark run: scripts/smoke/benchmark_official.py. Every external command may
    fail in any combination; a `Script` says how each one ends. */
module OfficialRun {
  import opened Search
  import opened PythonText

  type Branch = string
  type Commit = nat

  // ---------------------------------------------------------------- repository

  /** A checkout: what HEAD reaches, the local branches, and the remote-tracking branches, each
      as the set of commits reachable from it. `current` is `None` for a detached HEAD. */
  datatype Git = Git(
    current: Option<Branch>, head: set<Commit>, locals: map<Branch, set<Commit>>, tracking: map<Branch, set<Commit>>)

  predicate ValidGit(g: Git) {
    g.current.Some? ==> g.current.value in g.locals && g.locals[g.current.value] == g.head
  }

  /** `git rev-list origin/b..HEAD` */
  function Ahead(g: Git, b: Branch): set<Commit>
    requires b in g.tracking
  { g.head - g.tracking[b] }

  /** The remote takes a push only if it moves the branch forward. */
  predicate FastForward(g: Git, b: Branch) {
    b in g.locals && (b in g.tracking ==> g.tracking[b] <= g.locals[b])
  }

  /** `git push origin b` sends the local branch `b`, whatever HEAD is. */
  function Push(g: Git, b: Branch): Git
    requires b in g.locals
  { g.(tracking := g.tracking[b := g.locals[b]]) }

  /** `git reset --hard origin/b` moves HEAD and the checked-out branch. */
  function HardReset(g: Git, b: Branch): Git
    requires b in g.tracking
  {
    g.(head := g.tracking[b],
       locals := if g.current.Some? then g.locals[g.current.value := g.tracking[b]] else g.locals)
  }

  /** The remote branch holds the commit. */
  predicate OnRemote(g: Git, b: Branch, c: Commit) { b in g.tracking && c in g.tracking[b] }

  function AddCommit(g: Git, c: Commit): Git {
    g.(head := g.head + {c},
       locals := if g.current.Some? then g.locals[g.current.value := g.head + {c}] else g.locals)
  }

  lemma AddCommitFacts(g: Git, c: Commit)
    requires ValidGit(g)
    ensures var after := AddCommit(g, c);
            ValidGit(after) && after.head == g.head + {c} && after.current == g.current
  {
  }

  lemma PushFacts(g: Git, b: Branch)
    ensures FastForward(g, b) ==> b in g.locals
    ensures b in g.locals ==>
              Push(g, b).head == g.head && Push(g, b).current == g.current && Push(g, b).locals == g.locals
  {
  }

  /** HEAD is not ahead of the remote branch, or the push that saves its commits is taken. */
  predicate CanSync(g: Git, b: Branch) {
    b in g.tracking && (Ahead(g, b) != {} ==> FastForward(g, b))
  }

  /** The synchronization step when all its commands succeed: push what is stranded, then reset. */
  function Synchronized(g: Git, b: Branch): Git
    requires CanSync(g, b)
  { if Ahead(g, b) == {} then HardReset(g, b) else HardReset(Push(g, b), b) }

  /** The remote branch, or the local branch of the same name, contains all that HEAD reaches. */
  predicate Covered(g: Git, b: Branch) {
    (b in g.tracking && g.head <= g.tracking[b]) || (b in g.locals && g.head <= g.locals[b])
  }

  /** Exactly when a successful synchronization keeps every commit of HEAD: HEAD was not ahead, or
      the branch that got pushed contains it. */
  lemma SyncKeepsHeadIff(g: Git, b: Branch)
    requires CanSync(g, b)
    ensures g.head <= Synchronized(g, b).head <==> Covered(g, b)
  {
    NotAhead(g, b);
  }

  lemma NotAhead(g: Git, b: Branch)
    requires b in g.tracking
    ensures Ahead(g, b) == {} <==> g.head <= g.tracking[b]
  {
    if Ahead(g, b) == {} {
      forall c | c in g.head ensures c in g.tracking[b] { assert c !in Ahead(g, b); }
    }
  }

  /** On the checked-out branch that is always so. */
  lemma SyncOfCurrentBranchKeepsHead(g: Git, b: Branch)
    requires ValidGit(g) && g.current == Some(b) && CanSync(g, b)
    ensures g.head <= Synchronized(g, b).head && ValidGit(Synchronized(g, b))
  {
    SyncKeepsHeadIff(g, b);
  }

  /** What a run that succeeds leaves behind: synchronize, commit the evidence, push the branch. */
  function Published(g: Git, b: Branch, evidence: Commit): Git
    requires CanPublish(g, b, evidence)
  { Push(AddCommit(Synchronized(g, b), evidence), b) }

  predicate CanPublish(g: Git, b: Branch, evidence: Commit) {
    CanSync(g, b) && FastForward(AddCommit(Synchronized(g, b), evidence), b)
  }

  /** A caller can tell beforehand whether the remote takes both pushes: the checked-out branch
      must not have diverged, any other branch must be there locally and not be outrun. */
  predicate Pushable(g: Git, b: Branch) {
    && b in g.tracking
    && if g.current == Some(b) then g.head <= g.tracking[b] || g.tracking[b] <= g.head
       else b in g.locals && g.tracking[b] <= g.locals[b]
  }

  lemma CanPublishIff(g: Git, b: Branch, evidence: Commit)
    requires ValidGit(g)
    ensures CanPublish(g, b, evidence) <==> Pushable(g, b)
  {
    if b in g.tracking { NotAhead(g, b); }
  }

  /** The evidence commit reaches the remote branch of a successful run exactly when that branch is
      the one checked out, or already had the commit. */
  lemma EvidencePublishedIff(g: Git, b: Branch, evidence: Commit)
    requires ValidGit(g) && CanPublish(g, b, evidence)
    ensures OnRemote(Published(g, b, evidence), b, evidence) <==>
            g.current == Some(b) || (b in g.locals && evidence in g.locals[b])
  {
  }

  // ---------------------------------------------------------------- how the commands end

  /** A command that must succeed either does or raises; one that may fail also has an exit code. */
  datatype Code = Exit(code: int) | NotExecuted

  datatype Tree = CleanTree | DirtyTree | StatusFailed

  datatype Script = Script(
    whoami: bool, accountMatches: bool, resetBefore: bool, treeBeforeSync: Tree, showBranch: bool,
    fetch: Option<map<Branch, set<Commit>>>, revList: bool, revParse: bool, deployKey: bool, strandedPush: Code,
    hardReset: bool, treeAfterSync: Tree,
    build: bool, sign: bool, binaries: bool, runner: Code, resetAfterMeasure: bool,
    rebuild: Code, publish: Code, staged: Code, headRevision: bool, commit: Code, evidence: Commit,
    evidencePush: Code, treeAfterPush: Tree, resetAtEnd: bool)

  /** Every command does its part; the matrix may measure PASS or FAIL, and there are staged
      reports to commit. */
  predicate Flawless(s: Script) {
    && s.whoami && s.accountMatches && s.resetBefore && s.treeBeforeSync == CleanTree && s.showBranch
    && s.fetch.Some? && s.revList && s.revParse && s.deployKey && s.strandedPush == Exit(0)
    && s.hardReset && s.treeAfterSync == CleanTree && s.build && s.sign && s.binaries
    && (s.runner == Exit(0) || s.runner == Exit(1)) && s.resetAfterMeasure
    && s.rebuild == Exit(0) && s.publish == Exit(0) && s.staged == Exit(1) && s.headRevision && s.commit == Exit(0)
    && s.evidencePush == Exit(0) && s.treeAfterPush == CleanTree && s.resetAtEnd
  }

  /** `branch_override or current_branch()`: an empty override counts as none. */
  function Target(g: Git, branchOverride: Option<Branch>): Option<Branch> {
    if branchOverride.None? || branchOverride.value == "" then g.current else branchOverride
  }

  /** Without an override only integration branches; with one any name git would take as such. */
  predicate Admissible(name: Branch, branchOverride: Option<Branch>) {
    if branchOverride.None? then "integrate/phase-" <= name
    else name != "" && name[0] != '-' && forall i :: 0 <= i < |name| ==> !IsSpace(name[i])
  }

  function Fetched(g: Git, s: Script): Git {
    if s.fetch.Some? then g.(tracking := s.fetch.value) else g
  }

  /** What a caller can check beforehand: there is an admissible branch, and after the fetch the
      remote takes what the run has to push. */
  predicate Ready(g: Git, s: Script, branchOverride: Option<Branch>) {
    var b := Target(g, branchOverride);
    b.Some? && Admissible(b.value, branchOverride) && s.fetch.Some? && Pushable(Fetched(g, s), b.value)
  }

  /** The stages a run goes through, in the order it reaches them; `Error` is where an
      OfficialBenchmarkError was raised or returned. */
  datatype Step =
    | AccountVerified | Reset(ok: bool) | Synced | Built | Measured(failed: bool)
    | Committed(c: Commit) | EvidencePushed | Error

  // ---------------------------------------------------------------- how far a script lets a run get

  predicate NoOverride(branchOverride: Option<Branch>) { branchOverride.None? || branchOverride.value == "" }

  predicate AccountOk(s: Script) { s.whoami && s.accountMatches }

  /** There is an admissible branch; asking git for the current one works where it is needed. */
  predicate BranchOk(g: Git, s: Script, branchOverride: Option<Branch>) {
    var b := Target(g, branchOverride);
    b.Some? && Admissible(b.value, branchOverride) && (NoOverride(branchOverride) ==> s.showBranch)
  }

  /** What HEAD is ahead is saved: the commands for that matter only when it is ahead. */
  predicate SavesStranded(g: Git, s: Script, b: Branch) {
    && s.revList && b in g.tracking
    && (Ahead(g, b) != {} ==> s.revParse && s.deployKey && s.strandedPush == Exit(0) && FastForward(g, b))
  }

  predicate SyncOk(g: Git, s: Script, branchOverride: Option<Branch>) {
    && s.treeBeforeSync == CleanTree && BranchOk(g, s, branchOverride) && s.fetch.Some?
    && SavesStranded(Fetched(g, s), s, Target(g, branchOverride).value)
    && s.hardReset && s.treeAfterSync == CleanTree
  }

  predicate BuildOk(s: Script) { s.build && s.sign && s.binaries }

  predicate MeasureOk(s: Script) { s.runner == Exit(0) || s.runner == Exit(1) }

  predicate CommitOk(s: Script) {
    s.rebuild == Exit(0) && s.publish == Exit(0) && s.staged == Exit(1) && s.headRevision && s.commit == Exit(0)
  }

  /** The evidence push, from a checkout that is synchronized. */
  predicate PushOk(g: Git, s: Script, b: Branch) {
    s.deployKey && s.evidencePush == Exit(0) && FastForward(AddCommit(g, s.evidence), b)
  }

  lemma SavedCanSync(g: Git, s: Script, b: Branch)
    requires SavesStranded(g, s, b)
    ensures CanSync(g, b)
  {
  }

  /** How many of the eight stages a run reaches. */
  function StagesReached(g: Git, s: Script, branchOverride: Option<Branch>): (n: nat)
    ensures n <= 8 && (n >= 3 ==> SyncOk(g, s, branchOverride))
  {
    if !AccountOk(s) then 0
    else if !s.resetBefore then 1
    else if !SyncOk(g, s, branchOverride) then 2
    else if !BuildOk(s) then 3
    else if !MeasureOk(s) then 4
    else if !s.resetAfterMeasure then 5
    else if !CommitOk(s) then 6
    else
      var f, b := Fetched(g, s), Target(g, branchOverride).value;
      SavedCanSync(f, s, b);
      if !PushOk(Synchronized(f, b), s, b) then 7 else 8
  }

  /** All that has to go right for exit 0, spelled out: every command on the way, in its own terms,
      and a checkout whose branch the remote takes. Saving stranded commits matters only if there are any. */
  predicate Everything(g: Git, s: Script, branchOverride: Option<Branch>) {
    && s.whoami && s.accountMatches && s.resetBefore && s.treeBeforeSync == CleanTree
    && (NoOverride(branchOverride) ==> s.showBranch) && s.fetch.Some? && s.revList && s.hardReset
    && s.treeAfterSync == CleanTree && s.build && s.sign && s.binaries && s.runner == Exit(0) && s.resetAfterMeasure
    && s.rebuild == Exit(0) && s.publish == Exit(0) && s.staged == Exit(1) && s.headRevision && s.commit == Exit(0)
    && s.deployKey && s.evidencePush == Exit(0) && s.treeAfterPush == CleanTree && s.resetAtEnd
    && var b := if branchOverride == None || branchOverride == Some("") then g.current else branchOverride;
       b.Some? && NameTaken(b.value, branchOverride != None) && RemoteTakes(g, s, b.value)
  }

  /** An integration branch; any name without a leading dash and white space if one was asked for. */
  predicate NameTaken(name: Branch, asked: bool) {
    && (!asked ==> "integrate/phase-" <= name)
    && (asked ==> name != "" && name[0] != '-' && forall i :: 0 <= i < |name| ==> !IsSpace(name[i]))
  }

  /** The remote has the branch and has not diverged from what is pushed to it; the commands that
      save stranded commits succeed if there are any. */
  predicate RemoteTakes(g: Git, s: Script, b: Branch)
    requires s.fetch.Some?
  {
    && b in s.fetch.value
    && var remote := s.fetch.value[b];
       && (if g.current == Some(b) then g.head <= remote || remote <= g.head
           else b in g.locals && remote <= g.locals[b])
       && (g.head <= remote || (s.revParse && s.strandedPush == Exit(0)))
  }

  lemma NameRule(name: Branch, branchOverride: Option<Branch>)
    ensures Admissible(name, branchOverride) <==> NameTaken(name, branchOverride != None)
  {
  }

  lemma EverythingIff(g: Git, s: Script, branchOverride: Option<Branch>)
    requires ValidGit(g)
    ensures Everything(g, s, branchOverride) <==>
            && StagesReached(g, s, branchOverride) == 8 && s.runner == Exit(0)
            && s.treeAfterPush == CleanTree && s.resetAtEnd
  {
    var b := Target(g, branchOverride);
    if b.Some? && s.fetch.Some? {
      var f := Fetched(g, s);
      CanPublishIff(f, b.value, s.evidence);
      if b.value in f.tracking { NotAhead(f, b.value); }
      assert RemoteTakes(g, s, b.value) <==>
             Pushable(f, b.value) && (Ahead(f, b.value) != {} ==> s.revParse && s.strandedPush == Exit(0));
      NameRule(b.value, branchOverride);
    }
    hide NameTaken, RemoteTakes, Admissible, Pushable;
  }

  lemma FlawlessReachesAll(g: Git, s: Script, branchOverride: Option<Branch>)
    requires ValidGit(g) && Flawless(s) && Ready(g, s, branchOverride)
    ensures StagesReached(g, s, branchOverride) == 8 && s.treeAfterPush == CleanTree && s.resetAtEnd
  {
    var b := Target(g, branchOverride).value;
    CanPublishIff(Fetched(g, s), b, s.evidence);
  }

  /** Every stage carried out, up to the final cleanup. */
  function Completed(failed: bool, evidence: Commit): seq<Step> {
    [AccountVerified, Reset(true), Synced, Built, Measured(failed), Reset(true), Committed(evidence), EvidencePushed]
  }

  /** The first `n` stages, then possibly an account reset that failed. */
  function Reached(n: nat, resetFailed: bool, failed: bool, evidence: Commit): seq<Step>
    requires n <= 8
  { Completed(failed, evidence)[..n] + (if resetFailed then [Reset(false)] else []) }

  /** Every stage went through and the tree is still clean. */
  predicate NoError(g: Git, s: Script, branchOverride: Option<Branch>) {
    StagesReached(g, s, branchOverride) == 8 && s.treeAfterPush == CleanTree
  }

  /** The whole log of a run: the stages it reaches, the error if there was one, and the last reset. */
  function FullLog(g: Git, s: Script, branchOverride: Option<Branch>): seq<Step> {
    var n := StagesReached(g, s, branchOverride);
    Reached(n, n == 1 || n == 5, s.runner == Exit(1), s.evidence) +
    (if NoError(g, s, branchOverride) then [] else [Error]) + (if n >= 1 then [Reset(s.resetAtEnd)] else [])
  }

  lemma LogIsFull(g: Git, s: Script, branchOverride: Option<Branch>, n: nat, r: bool, error: bool, log: seq<Step>)
    requires n == StagesReached(g, s, branchOverride) && (r <==> n == 1 || n == 5)
    requires error <==> !(n == 8 && s.treeAfterPush == CleanTree)
    requires log == Reached(n, r, s.runner == Exit(1), s.evidence) + (if error then [Error] else []) +
                    (if n >= 1 then [Reset(s.resetAtEnd)] else [])
    ensures log == FullLog(g, s, branchOverride)
  {
  }

  /** The checkout of a run that got past its synchronization. */
  function Left(g: Git, s: Script, branchOverride: Option<Branch>): Git
    requires SyncOk(g, s, branchOverride)
  {
    var f, b, n := Fetched(g, s), Target(g, branchOverride).value, StagesReached(g, s, branchOverride);
    SavedCanSync(f, s, b);
    var synced := Synchronized(f, b);
    if n < 7 then synced else if n == 7 then AddCommit(synced, s.evidence) else Push(AddCommit(synced, s.evidence), b)
  }

  /** A stop is legal where the source can stop: a failing reset only in place of a succeeding one. */
  predicate LegalStop(n: nat, resetFailed: bool) { n <= 8 && (resetFailed ==> n == 1 || n == 5) }

  lemma StageTraces(failed: bool, evidence: Commit)
    ensures var sync := [AccountVerified, Reset(true), Synced];
            && Reached(0, false, failed, evidence) == []
            && Reached(1, true, failed, evidence) == [AccountVerified, Reset(false)]
            && Reached(2, false, failed, evidence) == [AccountVerified, Reset(true)]
            && Reached(3, false, failed, evidence) == sync
            && Reached(4, false, failed, evidence) == sync + [Built]
            && Reached(5, true, failed, evidence) == sync + [Built] + [Measured(failed)] + [Reset(false)]
            && Reached(6, false, failed, evidence) == sync + [Built] + [Measured(failed)] + [Reset(true)]
    ensures Reached(7, false, failed, evidence) == Reached(6, false, failed, evidence) + [Committed(evidence)]
    ensures Reached(8, false, failed, evidence) ==
            Reached(6, false, failed, evidence) + [Committed(evidence), EvidencePushed]
  {
  }

  lemma ReachedStages(n: nat, resetFailed: bool, failed: bool, evidence: Commit)
    requires LegalStop(n, resetFailed)
    ensures var t := Reached(n, resetFailed, failed, evidence);
            && |t| == n + (if resetFailed then 1 else 0)
            && (forall i :: 0 <= i < n ==> t[i] == Completed(failed, evidence)[i])
            && (resetFailed ==> t[n] == Reset(false))
  {
  }

  lemma ReachedFacts(n: nat, resetFailed: bool, failed: bool, evidence: Commit)
    requires LegalStop(n, resetFailed)
    ensures var t := Reached(n, resetFailed, failed, evidence);
            && (AccountVerified in t <==> n >= 1) && (Synced in t <==> n >= 3) && (Built in t <==> n >= 4)
            && (forall b :: Measured(b) in t <==> n >= 5 && b == failed)
            && (forall c :: Committed(c) in t <==> n >= 7 && c == evidence)
            && (EvidencePushed in t <==> n >= 8) && Error !in t
  {
    hide Reached;
    ReachedStages(n, resetFailed, failed, evidence);
    var t := Reached(n, resetFailed, failed, evidence);
    assert n >= 1 ==> t[0] == AccountVerified;
    assert n >= 3 ==> t[2] == Synced;
    assert n >= 4 ==> t[3] == Built;
    assert n >= 5 ==> t[4] == Measured(failed);
    assert n >= 7 ==> t[6] == Committed(evidence);
    assert n >= 8 ==> t[7] == EvidencePushed;
  }

  lemma FullLogSteps(g: Git, s: Script, branchOverride: Option<Branch>)
    ensures var log, n := FullLog(g, s, branchOverride), StagesReached(g, s, branchOverride);
            && (AccountVerified in log <==> n >= 1) && (Synced in log <==> n >= 3) && (Built in log <==> n >= 4)
            && (forall b :: Measured(b) in log <==> n >= 5 && b == (s.runner == Exit(1)))
            && (forall c :: Committed(c) in log <==> n >= 7 && c == s.evidence)
            && (EvidencePushed in log <==> n >= 8)
            && (Error in log <==> !(n == 8 && s.treeAfterPush == CleanTree))
  {
    var n := StagesReached(g, s, branchOverride);
    ReachedFacts(n, n == 1 || n == 5, s.runner == Exit(1), s.evidence);
    hide StagesReached, Reached;
  }

  /** What each logged step says about the commands: no step is logged unless they succeeded. */
  lemma LoggedStepsMean(g: Git, s: Script, branchOverride: Option<Branch>)
    ensures var log := FullLog(g, s, branchOverride);
            && (AccountVerified in log <==> s.whoami && s.accountMatches)
            && (Synced in log ==>
                  && s.resetBefore && s.treeBeforeSync == CleanTree && s.fetch.Some? && s.revList && s.hardReset
                  && s.treeAfterSync == CleanTree)
            && (Built in log ==> Synced in log && s.build && s.sign && s.binaries)
            && (forall failed :: Measured(failed) in log ==>
                  Built in log && s.runner == Exit(if failed then 1 else 0))
            && (forall c :: Committed(c) in log ==>
                  && c == s.evidence && s.resetAfterMeasure && s.rebuild == Exit(0) && s.publish == Exit(0)
                  && s.staged == Exit(1) && s.headRevision && s.commit == Exit(0))
            && (EvidencePushed in log ==> Committed(s.evidence) in log && s.deployKey && s.evidencePush == Exit(0))
            && (Error in log <==> !(EvidencePushed in log && s.treeAfterPush == CleanTree))
  {
    FullLogSteps(g, s, branchOverride);
    hide FullLog, NoError, Reached, Completed, Fetched, Target, FastForward, AddCommit, Synchronized, Ahead,
         Admissible;
  }

  lemma ReachedOrder(n: nat, resetFailed: bool, failed: bool, evidence: Commit)
    requires LegalStop(n, resetFailed)
    ensures CommitsAfterReset(Reached(n, resetFailed, failed, evidence))
  {
    hide Reached;
    ReachedStages(n, resetFailed, failed, evidence);
    var t := Reached(n, resetFailed, failed, evidence);
    forall i | 0 <= i < |t| && t[i].Committed?
      ensures exists j, k :: 0 <= j < k < i && t[j].Measured? && t[k] == Reset(true)
    {
      assert t[4].Measured? && t[5] == Reset(true);
    }
  }

  /** Evidence is committed only after a reset that succeeded after the measurement. */
  predicate CommitsAfterReset(log: seq<Step>) {
    forall i :: 0 <= i < |log| && log[i].Committed? ==>
      exists j, k :: 0 <= j < k < i && log[j].Measured? && log[k] == Reset(true)
  }

  lemma AppendKeepsOrder(log: seq<Step>, step: Step)
    requires CommitsAfterReset(log) && !step.Committed?
    ensures CommitsAfterReset(log + [step])
  {
    var longer := log + [step];
    forall i | 0 <= i < |longer| && longer[i].Committed?
      ensures exists j, k :: 0 <= j < k < i && longer[j].Measured? && longer[k] == Reset(true)
    {
      var j, k :| 0 <= j < k < i && log[j].Measured? && log[k] == Reset(true);
      assert longer[j] == log[j] && longer[k] == log[k];
    }
  }

  /** Once the account is verified, the run ends by resetting it. */
  predicate EndsWithReset(log: seq<Step>) {
    AccountVerified in log ==> log != [] && log[|log| - 1].Reset?
  }

  // ---------------------------------------------------------------- the orchestrator

  class OfficialBenchmark {
    const branchOverride: Option<Branch>
    var accountVerified: bool
    var git: Git
    var log: seq<Step>

    constructor (git: Git, branchOverride: Option<Branch>)
      ensures this.git == git && this.branchOverride == branchOverride && !accountVerified && log == []
    {
      this.git, this.branchOverride, accountVerified, log := git, branchOverride, false, [];
    }

    /** The run synchronizes the checked-out branch. */
    predicate Ordinary() { NoOverride(branchOverride) }

    /** There is an admissible branch to synchronize, and synchronizing it can succeed. */
    predicate Prepared(g: Git, s: Script) {
      var b := Target(g, branchOverride);
      b.Some? && Admissible(b.value, branchOverride) && s.fetch.Some? && CanSync(Fetched(g, s), b.value)
    }

    /** The branch to synchronize covers HEAD, in the remote's version or the local one. */
    predicate KeepsHead(g: Git, s: Script) {
      var b := Target(g, branchOverride);
      b.Some? ==> Covered(Fetched(g, s), b.value)
    }

    /** `after` is what a successful run makes of `g`. */
    predicate Succeeds(g: Git, s: Script, after: Git) {
      var b := Target(g, branchOverride);
      && Ready(g, s, branchOverride)
      && CanPublish(Fetched(g, s), b.value, s.evidence) && after == Published(Fetched(g, s), b.value, s.evidence)
    }

    /** The run got past its synchronization: HEAD is the synchronized branch and at most the evidence. */
    predicate PastSync(g: Git, s: Script, after: Git) {
      && Prepared(g, s)
      && var head := Synchronized(Fetched(g, s), Target(g, branchOverride).value).head;
         head <= after.head <= head + {s.evidence}
    }

    lemma SyncedKeepsHeadIff(g: Git, s: Script, after: Git)
      requires PastSync(g, s, after) && s.evidence !in g.head
      ensures g.head <= after.head <==> KeepsHead(g, s)
    {
      var f, b := Fetched(g, s), Target(g, branchOverride).value;
      SyncKeepsHeadIff(f, b);
      var head := Synchronized(f, b).head;
      if g.head <= after.head {
        forall c | c in g.head ensures c in head { assert c in head + {s.evidence}; }
      }
    }

    lemma ReadyIsPublishable(g: Git, s: Script)
      requires ValidGit(g)
      ensures Ready(g, s, branchOverride) <==>
              Prepared(g, s) && CanPublish(Fetched(g, s), Target(g, branchOverride).value, s.evidence)
    {
      var b := Target(g, branchOverride);
      if b.Some? { CanPublishIff(Fetched(g, s), b.value, s.evidence); }
    }

    lemma SuccessPublishesIff(g: Git, s: Script, after: Git)
      requires ValidGit(g) && Succeeds(g, s, after)
      ensures Target(g, branchOverride).Some?
      ensures var b := Target(g, branchOverride).value;
              OnRemote(after, b, s.evidence) <==>
              g.current == Some(b) || (b in g.locals && s.evidence in g.locals[b])
    {
      EvidencePublishedIff(Fetched(g, s), Target(g, branchOverride).value, s.evidence);
    }

    lemma OrdinaryKeepsHead(g: Git, s: Script)
      requires ValidGit(g) && Ordinary()
      ensures KeepsHead(g, s)
    {
    }

    method Record(step: Step)
      modifies this`log
      ensures log == old(log) + [step]
    {
      log := log + [step];
    }

    /** `reset_disposable_account`, as one command that succeeds or raises. */
    method ResetAccount(succeeds: bool) returns (ok: bool)
      modifies this`log
      ensures ok == succeeds && log == old(log) + [Reset(succeeds)]
    {
      Record(Reset(succeeds));
      ok := succeeds;
    }

    /** `push_stranded_commit_if_needed`; false is the error. */
    method PushStranded(branch: Branch, s: Script) returns (ok: bool)
      modifies this`git
      ensures git.head == old(git.head) && git.locals == old(git.locals) && git.current == old(git.current)
      ensures ok <==> SavesStranded(old(git), s, branch)
      ensures ok ==> CanSync(old(git), branch)
      ensures ok ==> git == if Ahead(old(git), branch) == {} then old(git) else Push(old(git), branch)
      ensures !ok ==> git == old(git)
    {
      if !s.revList || branch !in git.tracking { return false; }
      if Ahead(git, branch) == {} { return true; }
      if !s.revParse || !s.deployKey { return false; }
      if s.strandedPush != Exit(0) || !FastForward(git, branch) { return false; }
      git := Push(git, branch);
      ok := true;
    }

    /** The branch to use: `branch_override or current_branch()`, then its name check. */
    method ChooseBranch(s: Script) returns (branch: Option<Branch>)
      ensures branch == if BranchOk(git, s, branchOverride) then Target(git, branchOverride) else None
    {
      var name: Branch;
      if branchOverride.None? || branchOverride.value == "" {
        if !s.showBranch || git.current.None? { return None; }
        name := git.current.value;
      } else {
        name := branchOverride.value;
      }
      if branchOverride.None? {
        if !("integrate/phase-" <= name) { return None; }
      } else if name == "" || name[0] == '-' || exists i :: 0 <= i < |name| && IsSpace(name[i]) {
        return None;
      }
      branch := Some(name);
    }

    /** Fetch, save what is stranded, reset to the remote branch. */
    method Synchronize(name: Branch, s: Script) returns (ok: bool)
      requires ValidGit(git)
      modifies this`git
      ensures ValidGit(git) && git.current == old(git.current)
      ensures ok <==> s.fetch.Some? && SavesStranded(Fetched(old(git), s), s, name) && s.hardReset &&
                      s.treeAfterSync == CleanTree
      ensures ok ==> CanSync(Fetched(old(git), s), name)
      ensures ok ==> git == Synchronized(Fetched(old(git), s), name)
      ensures git.head == old(git.head) || (s.hardReset && SavesStranded(Fetched(old(git), s), s, name))
      ensures Covered(Fetched(old(git), s), name) ==> old(git.head) <= git.head
    {
      if s.fetch.None? { return false; }
      git := git.(tracking := s.fetch.value);
      ghost var fetched := git;
      ok := PushStranded(name, s);
      if !ok || !s.hardReset { return false; }
      git := HardReset(git, name);
      SyncKeepsHeadIff(fetched, name);
      ok := s.treeAfterSync == CleanTree;
    }

    /** `preflight`; `None` is an OfficialBenchmarkError. Whatever happens, HEAD's commits are only
        ever dropped by synchronizing a branch that does not cover them. */
    method Preflight(s: Script) returns (branch: Option<Branch>)
      requires ValidGit(git)
      requires log == [] && !accountVerified
      modifies this
      ensures ValidGit(git) && git.current == old(git.current)
      ensures branch.Some? <==> AccountOk(s) && s.resetBefore && SyncOk(old(git), s, branchOverride)
      ensures branch.Some? ==> s.treeBeforeSync == CleanTree
      ensures branch.Some? ==> Prepared(old(git), s) && branch == Target(old(git), branchOverride)
      ensures branch.Some? ==> git == Synchronized(Fetched(old(git), s), branch.value)
      ensures git.head != old(git.head) ==> AccountOk(s) && s.resetBefore && s.treeBeforeSync == CleanTree
      ensures KeepsHead(old(git), s) ==> old(git.head) <= git.head
      ensures accountVerified <==> AccountVerified in log
      ensures branch.Some? ==> accountVerified && log == [AccountVerified, Reset(true), Synced]
      ensures branch.None? ==> log == if AccountOk(s) then [AccountVerified, Reset(s.resetBefore)] else []
    {
      hide CanSync, SavesStranded, Synchronized, Fetched, Covered, Admissible, Target;
      if !s.whoami || !s.accountMatches { return None; }
      accountVerified := true;
      Record(AccountVerified);
      var ok := ResetAccount(s.resetBefore);
      if !ok || s.treeBeforeSync != CleanTree { return None; }
      branch := ChooseBranch(s);
      if branch.None? { return None; }
      ok := Synchronize(branch.value, s);
      if !ok { return None; }
      Record(Synced);
    }

    /** `measure`: `None` is an error, otherwise whether the matrix measured a FAIL. */
    method Measure(s: Script) returns (failed: Option<bool>)
      modifies this`log
      ensures failed.None? <==> s.runner != Exit(0) && s.runner != Exit(1)
      ensures failed.Some? ==> failed.value == (s.runner == Exit(1)) && log == old(log) + [Measured(failed.value)]
      ensures failed.None? ==> log == old(log)
    {
      if s.runner == Exit(0) {
        Record(Measured(false));
        return Some(false);
      }
      if s.runner != Exit(1) { return None; }
      Record(Measured(true));
      return Some(true);
    }

    /** `render_publish_and_push`; false is an error, raised or returned. */
    method RenderPublishPush(branch: Branch, s: Script) returns (ok: bool)
      requires ValidGit(git)
      modifies this`git, this`log
      ensures ValidGit(git) && old(git.head) <= git.head && git.current == old(git.current)
      ensures git.head <= old(git.head) + {s.evidence}
      ensures ok ==> FastForward(AddCommit(old(git), s.evidence), branch)
      ensures ok ==> git == Push(AddCommit(old(git), s.evidence), branch)
      ensures ok <==> CommitOk(s) && PushOk(old(git), s, branch) && s.treeAfterPush == CleanTree
      ensures git == if !CommitOk(s) then old(git)
                     else if !PushOk(old(git), s, branch) then AddCommit(old(git), s.evidence)
                     else Push(AddCommit(old(git), s.evidence), branch)
      ensures log == old(log) + (if !CommitOk(s) then []
                                 else if !PushOk(old(git), s, branch) then [Committed(s.evidence)]
                                 else [Committed(s.evidence), EvidencePushed])
      ensures log != old(log) ==> s.evidence in git.head
    {
      hide AddCommit, Push, FastForward;
      AddCommitFacts(git, s.evidence);
      if s.rebuild != Exit(0) || s.publish != Exit(0) { return false; }
      if s.staged != Exit(1) { return false; }
      if !s.headRevision || s.commit != Exit(0) { return false; }
      git := AddCommit(git, s.evidence);
      Record(Committed(s.evidence));
      if !s.deployKey || s.evidencePush != Exit(0) || !FastForward(git, branch) { return false; }
      PushFacts(git, branch);
      git := Push(git, branch);
      Record(EvidencePushed);
      ok := s.treeAfterPush == CleanTree;
    }

    /** `finalize`: a measured FAIL outranks every infrastructure error. */
    static method Finalize(failed: Option<bool>, infrastructureError: bool) returns (exit: int)
      ensures exit == if failed == Some(true) then 1 else if infrastructureError then 2 else 0
    {
      if failed.Some? && failed.value { return 1; }
      if infrastructureError { return 2; }
      return 0;
    }

    /** The `try` body of `execute`: the stages in order, up to the first error. `n` is how many
        were reached and `r` whether an account reset was what failed. */
    method Stages(s: Script) returns (failed: Option<bool>, error: bool, ghost n: nat, ghost r: bool)
      requires ValidGit(git) && log == [] && !accountVerified
      modifies this
      ensures ValidGit(git) && git.current == old(git.current)
      ensures KeepsHead(old(git), s) ==> old(git.head) <= git.head
      ensures n >= 3 ==> PastSync(old(git), s, git)
      ensures LegalStop(n, r) && log == Reached(n, r, s.runner == Exit(1), s.evidence)
      ensures accountVerified <==> n >= 1
      ensures failed == if n >= 5 then Some(s.runner == Exit(1)) else None
      ensures !error ==> n == 8 && Succeeds(old(git), s, git)
      ensures n >= 7 ==> s.evidence in git.head
      ensures n == StagesReached(old(git), s, branchOverride) &&
              (n >= 5 ==> s.runner == Exit(0) || s.runner == Exit(1))
      ensures (r <==> n == 1 || n == 5) && (n >= 3 ==> git == Left(old(git), s, branchOverride))
      ensures !error <==> n == 8 && s.treeAfterPush == CleanTree
      ensures git.head != old(git.head) ==>
                s.whoami && s.accountMatches && s.resetBefore && s.treeBeforeSync == CleanTree
    {
      hide Reached, Completed, CanSync, Synchronized, Pushable, Ready, Covered, FastForward, AddCommit, Push, SyncOk,
           Fetched, Target;
      error, failed, r := true, None, false;
      ghost var before := git;
      ghost var m, e := s.runner == Exit(1), s.evidence;
      StageTraces(m, e);
      ReadyIsPublishable(git, s);
      var branch := Preflight(s);
      if branch.None? {
        n, r := if !AccountOk(s) then 0 else if s.resetBefore then 2 else 1, AccountOk(s) && !s.resetBefore;
        return;
      }
      n := 3;
      if !s.build || !s.sign || !s.binaries { return; }
      Record(Built);
      n := 4;
      failed := Measure(s);
      if failed.None? { return; }
      var ok := ResetAccount(s.resetAfterMeasure);
      if !ok {
        n, r := 5, true;
        return;
      }
      ghost var count := |log|;
      ok := RenderPublishPush(branch.value, s);
      n := 6 + |log| - count;
      error := !ok;
    }

    /** The `finally` block and the verdict. */
    method Conclude(s: Script, failed: Option<bool>, error: bool, ghost n: nat, ghost r: bool) returns (exit: int)
      requires LegalStop(n, r) && log == Reached(n, r, s.runner == Exit(1), s.evidence)
      requires accountVerified <==> n >= 1
      requires failed == if n >= 5 then Some(s.runner == Exit(1)) else None
      requires !error ==> n == 8
      modifies this`log
      ensures exit == 0 || exit == 1 || exit == 2
      ensures exit == 1 <==> Measured(true) in log
      ensures exit == 0 <==> log == Completed(false, s.evidence) + [Reset(true)]
      ensures log != [] && EndsWithReset(log) && CommitsAfterReset(log)
      ensures exit == 2 <==> Measured(true) !in log && (Error in log || log[|log| - 1] == Reset(false))
      ensures (Synced in log <==> n >= 3) && (Committed(s.evidence) in log <==> n >= 7)
      ensures exit == 0 <==> !error && s.resetAtEnd && s.runner != Exit(1)
      ensures exit == 1 <==> n >= 5 && s.runner == Exit(1)
      ensures log == old(log) + (if error then [Error] else []) + (if n >= 1 then [Reset(s.resetAtEnd)] else [])
    {
      hide CommitsAfterReset, Reached, LegalStop, Completed;
      ghost var m := s.runner == Exit(1);
      ReachedFacts(n, r, m, s.evidence);
      ReachedOrder(n, r, m, s.evidence);
      if error {
        AppendKeepsOrder(log, Error);
        Record(Error);
      }
      var broken := error;
      if accountVerified {
        AppendKeepsOrder(log, Reset(s.resetAtEnd));
        var ok := ResetAccount(s.resetAtEnd);
        FinalTrace(n, r, m, s.evidence, error, ok);
        broken := broken || !ok;
      }
      SuccessHasNoError(s.evidence);
      exit := Finalize(failed, broken);
    }

    /** `execute`: the first error ends the stages, cleanup runs in any case. */
    method Execute(s: Script) returns (exit: int)
      requires ValidGit(git)
      modifies this
      ensures ValidGit(git) && git.current == old(git.current)
      ensures exit == 0 || exit == 1 || exit == 2
      ensures exit == 1 <==> Measured(true) in log
      ensures exit == 0 <==> log == Completed(false, s.evidence) + [Reset(true)]
      ensures log != [] && EndsWithReset(log) && CommitsAfterReset(log)
      ensures exit == 2 <==> Measured(true) !in log && (Error in log || log[|log| - 1] == Reset(false))
      ensures Committed(s.evidence) in log ==> s.evidence in git.head
      // HEAD's commits: kept on every exit where the branch covers them, and only then once synchronized
      ensures Ordinary() || KeepsHead(old(git), s) ==> old(git.head) <= git.head
      ensures Synced in log && s.evidence !in old(git.head) ==>
                (old(git.head) <= git.head <==> KeepsHead(old(git), s))
      // success: possible exactly when the caller's checkout is ready, and what it leaves behind
      ensures exit == 0 ==> Succeeds(old(git), s, git)
      ensures Flawless(s) && Ready(old(git), s, branchOverride) ==> exit == if s.runner == Exit(1) then 1 else 0
      ensures exit == 0 <==> Everything(old(git), s, branchOverride)
      ensures exit == 1 <==> StagesReached(old(git), s, branchOverride) >= 5 && s.runner == Exit(1)
      ensures log == FullLog(old(git), s, branchOverride)
      ensures StagesReached(old(git), s, branchOverride) >= 3 ==> git == Left(old(git), s, branchOverride)
      // the checkout is moved only for the right account, after its reset, and from a clean tree
      ensures git.head != old(git.head) ==>
                s.whoami && s.accountMatches && s.resetBefore && s.treeBeforeSync == CleanTree
      // without an override only integration branches, with one no option and no white space
      ensures exit == 0 && branchOverride.None? ==> "integrate/phase-" <= git.current.value
      ensures exit == 0 && !Ordinary() ==>
                && branchOverride.value[0] != '-'
                && forall i :: 0 <= i < |branchOverride.value| ==> !IsSpace(branchOverride.value[i])
      ensures exit == 0 ==>
                var b := Target(old(git), branchOverride).value;
                OnRemote(git, b, s.evidence) <==>
                old(git.current) == Some(b) || (b in old(git.locals) && s.evidence in old(git.locals)[b])
    {
      hide *;
      ghost var before := git;
      if Ordinary() { OrdinaryKeepsHead(git, s); }
      EverythingIff(git, s, branchOverride);
      if Flawless(s) && Ready(git, s, branchOverride) { FlawlessReachesAll(git, s, branchOverride); }
      accountVerified, log := false, [];
      ghost var n, r;
      var failed, error;
      failed, error, n, r := Stages(s);
      exit := Conclude(s, failed, error, n, r);
      LogIsFull(before, s, branchOverride, n, r, error, log);
      if n >= 3 && s.evidence !in before.head { SyncedKeepsHeadIff(before, s, git); }
      if Succeeds(before, s, git) {
        SuccessPublishesIff(before, s, git);
        SuccessBranch(before, s, git);
      }
    }

    lemma SuccessBranch(g: Git, s: Script, after: Git)
      requires Succeeds(g, s, after)
      ensures branchOverride.None? ==> g.current.Some? && "integrate/phase-" <= g.current.value
      ensures !Ordinary() ==>
                && branchOverride.value[0] != '-'
                && forall i :: 0 <= i < |branchOverride.value| ==> !IsSpace(branchOverride.value[i])
    {
    }

    /** Any number of runs, each failing wherever it likes: without an override every evidence
        commit ever made is still reachable from HEAD, pushed or waiting for the next run. */
    method ExecuteAll(scripts: seq<Script>) returns (exits: seq<int>, evidence: set<Commit>)
      requires ValidGit(git)
      modifies this
      ensures ValidGit(git) && |exits| == |scripts|
      ensures Ordinary() ==> old(git.head) <= git.head && evidence <= git.head
      ensures forall i :: 0 <= i < |scripts| && exits[i] == 0 ==> scripts[i].evidence in evidence
    {
      hide Completed, FullLog, Left, Everything, StagesReached, KeepsHead, Succeeds, Target, OnRemote, Ready,
           CommitsAfterReset, EndsWithReset, Flawless;
      exits, evidence := [], {};
      while |exits| < |scripts|
        invariant |exits| <= |scripts| && ValidGit(git)
        invariant Ordinary() ==> old(git.head) <= git.head && evidence <= git.head
        invariant forall i :: 0 <= i < |exits| && exits[i] == 0 ==> scripts[i].evidence in evidence
      {
        var s := scripts[|exits|];
        var exit := Execute(s);
        SuccessCommits(s.evidence);
        if Committed(s.evidence) in log { evidence := evidence + {s.evidence}; }
        exits := exits + [exit];
      }
    }
  }

  /** A run whose every command succeeds. */
  function FlawlessScript(remote: map<Branch, set<Commit>>, evidence: Commit): (s: Script)
    ensures Flawless(s) && s.runner == Exit(0) && s.fetch == Some(remote) && s.evidence == evidence
  {
    Script(true, true, true, CleanTree, true, Some(remote), true, true, true, Exit(0), true, CleanTree,
           true, true, true, Exit(0), true, Exit(0), Exit(0), Exit(1), true, Exit(0), evidence, Exit(0),
           CleanTree, true)
  }

  /** Both halves fail together: on branch `mine` with an unpushed commit, a flawless run that is
      told to use `other` exits 0, has reset the commit away and published no evidence anywhere. */
  method OverrideRunLosesWork(mine: Branch, other: Branch, base: Commit, work: Commit, evidence: Commit)
    returns (run: OfficialBenchmark, exit: int)
    requires mine != other && Admissible(other, Some(other))
    requires base != work && base != evidence && work != evidence
    ensures exit == 0 && run.branchOverride == Some(other)
    ensures work !in run.git.head
    ensures forall b :: b in run.git.tracking ==> evidence !in run.git.tracking[b]
  {
    var git := Git(Some(mine), {base, work}, map[mine := {base, work}, other := {base}], map[]);
    var s := FlawlessScript(map[other := {base}], evidence);
    run := new OfficialBenchmark(git, Some(other));
    ghost var fetched := Fetched(git, s);
    assert work in Ahead(fetched, other);
    CanPublishIff(fetched, other, evidence);
    assert Ready(git, s, Some(other));
    exit := run.Execute(s);
    assert run.git.tracking == map[other := {base}];
  }

  lemma SuccessCommits(evidence: Commit)
    ensures Committed(evidence) in Completed(false, evidence) + [Reset(true)]
  {
    assert (Completed(false, evidence) + [Reset(true)])[6] == Committed(evidence);
  }

  lemma SuccessHasNoError(evidence: Commit)
    ensures Error !in Completed(false, evidence) + [Reset(true)]
  {
  }

  /** The finished log is the full success trace exactly when nothing failed. */
  lemma FinalTrace(n: nat, r: bool, failed: bool, evidence: Commit, error: bool, ok: bool)
    requires LegalStop(n, r) && (!error ==> n == 8)
    ensures var t := Reached(n, r, failed, evidence) + (if error then [Error] else []) + [Reset(ok)];
            t == Completed(false, evidence) + [Reset(true)] <==> !error && ok && !failed
  {
    var t := Reached(n, r, failed, evidence) + (if error then [Error] else []) + [Reset(ok)];
    var goal := Completed(false, evidence) + [Reset(true)];
    if error {
      var i := |Reached(n, r, failed, evidence)|;
      assert t[i] == Error;
      assert forall j :: 0 <= j < |goal| ==> goal[j] != Error;
    } else {
      assert Completed(failed, evidence)[..8] == Completed(failed, evidence);
      assert t == Completed(failed, evidence) + [Reset(ok)];
      assert t[4] == Measured(failed) && goal[4] == Measured(false);
      assert t[8] == Reset(ok) && goal[8] == Reset(true);
    }
  }
}
