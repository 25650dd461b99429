/**
  When a full run captured at commit S still speaks for commit U: comparison of whole trees, release
  validation, and the branch decision.

  Digests are injective, so captured outputs are compared by content. Git is a finite graph of commits
  whose parents precede them, each with a tree of contents.
 */
module CarryOver {
  import opened Bytes
  import opened ProsePaths

  type Content = seq<byte>
  type Commit = nat
  type Tree = map<Path, Content>

  /** A trusted run: the commit it was captured at, its receipt's identity, and its generated files. */
  datatype Run = Run(commit: Commit, receipt: nat, outputs: Tree)

  /** A release-validation receipt. */
  datatype Release = Release(target: Commit, version: string, source: Commit, boundReceipt: nat, artifacts: Tree)

  /** The repository and what is stored beside it. `versions` and `subjects` are the package version and
      manifest subject committed in each tree; `validFloors` holds the floor declarations valid for a
      source; `supported` the commits within the supported input profile. */
  datatype Repo = Repo(
    parents: seq<seq<Commit>>,
    trees: seq<Tree>,
    versions: seq<string>,
    subjects: seq<Commit>,
    supported: set<Commit>,
    validFloors: set<(Commit, Content)>,
    releases: map<Commit, Release>)

  ghost predicate Valid(repo: Repo) {
    && |repo.trees| == |repo.versions| == |repo.subjects| == |repo.parents|
    && (forall c, i :: 0 <= c < |repo.parents| && 0 <= i < |repo.parents[c]| ==> repo.parents[c][i] < c)
  }

  // ---------------------------------------------------------------- commits

  /** a is c or reachable from c through parents. */
  predicate IsAncestor(repo: Repo, a: Commit, c: Commit)
    requires Valid(repo) && c < |repo.parents|
    decreases c
  {
    a == c || exists i :: 0 <= i < |repo.parents[c]| && IsAncestor(repo, a, repo.parents[c][i])
  }

  lemma {:induction false} AncestorTransitive(repo: Repo, a: Commit, b: Commit, c: Commit)
    requires Valid(repo) && b < |repo.parents| && c < |repo.parents|
    requires IsAncestor(repo, a, b) && IsAncestor(repo, b, c)
    ensures IsAncestor(repo, a, c)
    decreases c
  {
    if b != c {
      var i :| 0 <= i < |repo.parents[c]| && IsAncestor(repo, b, repo.parents[c][i]);
      AncestorTransitive(repo, a, b, repo.parents[c][i]);
    }
  }

  lemma {:induction false} AncestorExists(repo: Repo, a: Commit, c: Commit)
    requires Valid(repo) && c < |repo.parents| && IsAncestor(repo, a, c)
    ensures a <= c
    decreases c
  {
    if a != c {
      var i :| 0 <= i < |repo.parents[c]| && IsAncestor(repo, a, repo.parents[c][i]);
      AncestorExists(repo, a, repo.parents[c][i]);
    }
  }

  /** A line of descent: each commit after the first is a parent of the one before. */
  ghost predicate IsLine(repo: Repo, line: seq<Commit>)
    requires Valid(repo)
  {
    |line| > 0 && line[0] < |repo.parents| && forall i :: 0 <= i < |line| - 1 ==> Descends(repo, line, i)
  }

  ghost predicate Descends(repo: Repo, line: seq<Commit>, i: nat)
    requires Valid(repo) && i < |line| - 1
  {
    line[i] < |repo.parents| && line[i + 1] in repo.parents[line[i]]
  }

  /** The ancestors are the ends of the lines. */
  lemma AncestorExactly(repo: Repo, a: Commit, c: Commit)
    requires Valid(repo) && c < |repo.parents|
    ensures IsAncestor(repo, a, c) <==> exists line :: IsLine(repo, line) && line[0] == c && line[|line| - 1] == a
  {
    if IsAncestor(repo, a, c) { var line := LineTo(repo, a, c); }
    if line :| IsLine(repo, line) && line[0] == c && line[|line| - 1] == a { LineEnds(repo, line); }
  }

  lemma {:induction false} LineTo(repo: Repo, a: Commit, c: Commit) returns (line: seq<Commit>)
    requires Valid(repo) && c < |repo.parents| && IsAncestor(repo, a, c)
    ensures IsLine(repo, line) && line[0] == c && line[|line| - 1] == a
    decreases c
  {
    if a == c { return [c]; }
    var i :| 0 <= i < |repo.parents[c]| && IsAncestor(repo, a, repo.parents[c][i]);
    var rest := LineTo(repo, a, repo.parents[c][i]);
    line := [c] + rest;
    forall k | 0 <= k < |line| - 1 ensures Descends(repo, line, k) {
      if k > 0 { assert Descends(repo, rest, k - 1); }
    }
  }

  lemma {:induction false} LineEnds(repo: Repo, line: seq<Commit>)
    requires Valid(repo) && IsLine(repo, line)
    ensures IsAncestor(repo, line[|line| - 1], line[0])
    decreases |line|
  {
    if |line| > 1 {
      assert Descends(repo, line, 0);
      forall i | 0 <= i < |line| - 2 ensures Descends(repo, line[1..], i) { assert Descends(repo, line, i + 1); }
      LineEnds(repo, line[1..]);
    }
  }

  /** The two trees agree on p: both lack it, or both hold the same content. */
  predicate Agree(s: Tree, t: Tree, p: Path) {
    (p in s <==> p in t) && (p in s ==> s[p] == t[p])
  }

  /** The changed paths, as a diff without rename detection lists them. */
  ghost predicate ListsChanges(s: Tree, t: Tree, paths: seq<Path>) {
    forall p :: p in paths <==> !Agree(s, t, p)
  }

  // ---------------------------------------------------------------- comparing inputs

  datatype Refusal = NotAncestor | FloorWithoutProjection | UnsupportedInputs | ForeignRun
                   | GeneratedDiffers | ForbiddenPath
                   | NoTrustedRuns | NoReceipt | IdentityMismatch | NoBoundRun | IncompleteOutputs
                   | BadArtifacts | ForeignSubject | UnprosaicChange | NoValidatedRelease | UnsupportedRef

  datatype Comparison = Comparison(prose: seq<Path>, artifacts: seq<Path>)

  /** A run registered with all three generated files, as entry verification demands. */
  predicate Complete(run: Run) {
    run.outputs.Keys == GENERATED
  }

  /** A changed path the comparison lets pass. */
  predicate PathAllowed(repo: Repo, run: Run, t: Tree, allowed: set<Path>, p: Path)
    requires Complete(run)
  {
    if p in GENERATED then
      && p in t && t[p] == run.outputs[p]
      && (p == FLOOR_PATH ==> (run.commit, t[p]) in repo.validFloors)
    else if IsProtected(p) then false
    else IsProse(p) || (p in allowed && !HasCodeSuffix(p))
  }

  /** The whole comparison accepts. */
  ghost predicate Compares(repo: Repo, run: Run, target: Commit, allowed: set<Path>)
    requires Valid(repo) && Complete(run) && target < |repo.parents| && run.commit < |repo.parents|
  {
    var s, t := repo.trees[run.commit], repo.trees[target];
    && IsAncestor(repo, run.commit, target)
    && (!Agree(s, t, FLOOR_PATH) ==> !Agree(s, t, PROJECTION_PATH))
    && run.commit in repo.supported && target in repo.supported
    && forall p :: !Agree(s, t, p) ==> PathAllowed(repo, run, t, allowed, p)
  }

  /** The changed paths outside `except` are Markdown documents, of the listed ones or of the archive. */
  ghost predicate DocumentsOnly(s: Tree, t: Tree, except: set<Path>) {
    forall p :: !Agree(s, t, p) && p !in except ==> EndsWith(p, MD) && (p in DOC_FILES || ARCHIVE <= p)
  }

  /** The changed paths are listed documents that make no claim about the proofs, or notes directly in the archive. */
  ghost predicate HarmlessEdits(s: Tree, t: Tree) {
    forall p :: !Agree(s, t, p) ==> IsHarmless(p)
  }

  ghost predicate IsHarmless(p: Path) {
    || (p in DOC_FILES && p != "ASSUMPTIONS.md" && p != "PROOF_MANIFEST.md")
    || exists name :: '/' !in name && p == ARCHIVE + name + MD
  }

  /** The generated files as the run left them, wherever they changed. */
  ghost predicate CapturedOnly(s: Tree, t: Tree, run: Run)
    requires Complete(run)
  {
    forall p :: p in GENERATED && !Agree(s, t, p) ==> p in t && t[p] == run.outputs[p]
  }

  /** The changed paths in allowed are data: no protected input, no code. */
  ghost predicate DataOnly(s: Tree, t: Tree, allowed: set<Path>) {
    forall p :: p in allowed && !Agree(s, t, p) && p !in GENERATED ==>
      && p !in PROTECTED_INPUTS && (forall i :: 0 <= i < |PROTECTED_PREFIXES| ==> !(PROTECTED_PREFIXES[i] <= p))
      && (forall i :: 0 <= i < |CODE_SUFFIXES| ==> !EndsWith(p, CODE_SUFFIXES[i]) || p in DOC_FILES || ARCHIVE <= p)
  }

  /** Documents, captured files and data are all that changed. */
  ghost predicate OnlyPermittedChanges(s: Tree, t: Tree, run: Run, allowed: set<Path>)
    requires Complete(run)
  {
    DocumentsOnly(s, t, GENERATED + allowed) && CapturedOnly(s, t, run) && DataOnly(s, t, allowed)
  }

  /** Prose is a Markdown document, listed or of the archive. */
  lemma ProseIsDocument(p: Path)
    requires IsProse(p)
    ensures EndsWith(p, MD) && (p in DOC_FILES || ARCHIVE <= p)
  {
    ProseExactly(p);
    if p in DOC_FILES { DocFilesAreMarkdown(p); }
  }

  /** What an accepted comparison says of the changed paths. */
  lemma ComparedPaths(repo: Repo, run: Run, target: Commit, allowed: set<Path>)
    requires Valid(repo) && Complete(run) && target < |repo.parents| && run.commit < |repo.parents|
    requires Compares(repo, run, target, allowed)
    ensures var s, t := repo.trees[run.commit], repo.trees[target];
      && DocumentsOnly(s, t, GENERATED + allowed) && CapturedOnly(s, t, run) && DataOnly(s, t, allowed)
      && (!Agree(s, t, FLOOR_PATH) ==>
            !Agree(s, t, PROJECTION_PATH) && FLOOR_PATH in t && (run.commit, t[FLOOR_PATH]) in repo.validFloors)
  {
    hide IsAncestor, IsDocumentation, EndsWith;
    var s, t := repo.trees[run.commit], repo.trees[target];
    forall p | !Agree(s, t, p) && p !in GENERATED && IsProse(p)
      ensures EndsWith(p, MD) && (p in DOC_FILES || ARCHIVE <= p)
    {
      ProseIsDocument(p);
    }
  }

  /** The later commit builds on the earlier one, and both are within the supported profile. */
  ghost predicate BothSupported(repo: Repo, source: Commit, target: Commit)
    requires Valid(repo) && target < |repo.parents|
  {
    IsAncestor(repo, source, target) && source in repo.supported && target in repo.supported
  }

  lemma ComparisonMeans(repo: Repo, run: Run, target: Commit, allowed: set<Path>)
    requires Valid(repo) && Complete(run) && target < |repo.parents| && run.commit < |repo.parents|
    ensures Compares(repo, run, target, allowed) ==>
      OnlyPermittedChanges(repo.trees[run.commit], repo.trees[target], run, allowed)
  {
    hide Compares, DocumentsOnly, CapturedOnly, DataOnly;
    if Compares(repo, run, target, allowed) { ComparedPaths(repo, run, target, allowed); }
  }

  lemma HarmlessIsProse(p: Path)
    requires IsHarmless(p)
    ensures IsProse(p) && p !in GENERATED
  {
    if p in DOC_FILES && p != "ASSUMPTIONS.md" && p != "PROOF_MANIFEST.md" {
      ProseExactly(p);
    } else {
      var name :| '/' !in name && p == ARCHIVE + name + MD;
      NoteIsProse(name);
    }
    if p in GENERATED { GeneratedIsProtected(p); }
  }

  /** Harmless edits on top of a run's commit are accepted. */
  lemma HarmlessCompares(repo: Repo, run: Run, target: Commit, allowed: set<Path>)
    requires Valid(repo) && Complete(run) && target < |repo.parents| && run.commit < |repo.parents|
    requires IsAncestor(repo, run.commit, target) && run.commit in repo.supported && target in repo.supported
    requires HarmlessEdits(repo.trees[run.commit], repo.trees[target])
    ensures Compares(repo, run, target, allowed)
  {
    hide IsAncestor, IsProse, IsProtected, IsHarmless;
    var s, t := repo.trees[run.commit], repo.trees[target];
    forall p | !Agree(s, t, p) ensures p !in GENERATED && IsProse(p) { HarmlessIsProse(p); }
    forall p | IsProse(p) ensures !IsProtected(p) { ProseUnprotected(p); }
  }

  lemma ProseUnprotected(p: Path)
    requires IsProse(p)
    ensures !IsProtected(p)
  {
  }

  /** Given the changed paths and the rest of the comparison, what is left is to go through them. */
  lemma ComparesListed(repo: Repo, run: Run, target: Commit, allowed: set<Path>, paths: seq<Path>)
    requires Valid(repo) && Complete(run) && target < |repo.parents| && run.commit < |repo.parents|
    requires ListsChanges(repo.trees[run.commit], repo.trees[target], paths)
    requires IsAncestor(repo, run.commit, target) && run.commit in repo.supported && target in repo.supported
    requires FLOOR_PATH in paths ==> PROJECTION_PATH in paths
    ensures Compares(repo, run, target, allowed)
      <==> forall k :: 0 <= k < |paths| ==> PathAllowed(repo, run, repo.trees[target], allowed, paths[k])
  {
    hide IsAncestor, PathAllowed;
    assert FLOOR_PATH in paths <==> !Agree(repo.trees[run.commit], repo.trees[target], FLOOR_PATH);
    assert PROJECTION_PATH in paths <==> !Agree(repo.trees[run.commit], repo.trees[target], PROJECTION_PATH);
  }

  /** What is asked before the changed paths are gone through. */
  lemma ComparesNeeds(repo: Repo, run: Run, target: Commit, allowed: set<Path>, paths: seq<Path>)
    requires Valid(repo) && Complete(run) && target < |repo.parents| && run.commit < |repo.parents|
    requires ListsChanges(repo.trees[run.commit], repo.trees[target], paths)
    ensures Compares(repo, run, target, allowed) ==>
      && IsAncestor(repo, run.commit, target) && run.commit in repo.supported && target in repo.supported
      && (FLOOR_PATH in paths ==> PROJECTION_PATH in paths)
  {
    hide IsAncestor, PathAllowed;
    assert FLOOR_PATH in paths <==> !Agree(repo.trees[run.commit], repo.trees[target], FLOOR_PATH);
    assert PROJECTION_PATH in paths <==> !Agree(repo.trees[run.commit], repo.trees[target], PROJECTION_PATH);
  }

  /** How a path is refused, case by case. */
  lemma PathRefused(repo: Repo, run: Run, t: Tree, allowed: set<Path>, p: Path)
    requires Complete(run)
    ensures p in GENERATED <==> p == PROJECTION_PATH || p == STATE_PATH || p == FLOOR_PATH
    ensures p in GENERATED ==> p in run.outputs
    ensures p == PROJECTION_PATH || p == STATE_PATH ==>
      (PathAllowed(repo, run, t, allowed, p) <==> p in t && t[p] == run.outputs[p])
    ensures p == FLOOR_PATH ==>
      (PathAllowed(repo, run, t, allowed, p) <==>
       p in t && t[p] == run.outputs[p] && (run.commit, t[p]) in repo.validFloors)
    ensures p !in GENERATED ==>
      (PathAllowed(repo, run, t, allowed, p) <==>
       !IsProtected(p) && (IsProse(p) || (p in allowed && !HasCodeSuffix(p))))
  {
    hide IsProtected, IsProse, HasCodeSuffix;
  }

  /** The paths are told apart into prose and the rest. */
  ghost predicate Divides(paths: seq<Path>, prose: seq<Path>, artifacts: seq<Path>) {
    && (forall p :: p in prose <==> p in paths && p !in GENERATED && IsProse(p))
    && (forall p :: p in artifacts <==> p in paths && (p in GENERATED || !IsProse(p)))
  }

  lemma DividesStart()
    ensures Divides([], [], [])
  {
  }

  lemma DividesStep(paths: seq<Path>, prose: seq<Path>, artifacts: seq<Path>, path: Path)
    requires Divides(paths, prose, artifacts)
    ensures path !in GENERATED && IsProse(path) ==> Divides(paths + [path], prose + [path], artifacts)
    ensures path in GENERATED || !IsProse(path) ==> Divides(paths + [path], prose, artifacts + [path])
  {
    hide IsProse;
  }

  /** The changed paths, one after the other. */
  method ComparePaths(repo: Repo, run: Run, t: Tree, allowed: set<Path>, paths: seq<Path>)
    returns (r: Result<Comparison, Refusal>)
    requires Complete(run)
    ensures r.Ok? <==> forall k :: 0 <= k < |paths| ==> PathAllowed(repo, run, t, allowed, paths[k])
    ensures r.Ok? ==> Divides(paths, r.value.prose, r.value.artifacts)
    ensures r.Err? ==>
      exists i ::
        && 0 <= i < |paths| && !PathAllowed(repo, run, t, allowed, paths[i])
        && (forall k :: 0 <= k < i ==> PathAllowed(repo, run, t, allowed, paths[k]))
        && r.error == if paths[i] in GENERATED then GeneratedDiffers else ForbiddenPath
  {
    hide *;
    var prose, artifacts := [], [];
    DividesStart();
    for i := 0 to |paths|
      invariant forall k :: 0 <= k < i ==> PathAllowed(repo, run, t, allowed, paths[k])
      invariant Divides(paths[..i], prose, artifacts)
    {
      var path := paths[i];
      assert paths[..i + 1] == paths[..i] + [path];
      PathRefused(repo, run, t, allowed, path);
      DividesStep(paths[..i], prose, artifacts, path);
      if path == PROJECTION_PATH || path == STATE_PATH {
        if path !in t || t[path] != run.outputs[path] { return Err(GeneratedDiffers); }
        artifacts := artifacts + [path];
      } else if path == FLOOR_PATH {
        if path !in t || (run.commit, t[path]) !in repo.validFloors { return Err(GeneratedDiffers); }
        if t[path] != run.outputs[path] { return Err(GeneratedDiffers); }
        artifacts := artifacts + [path];
      } else if IsProtected(path) {
        return Err(ForbiddenPath);
      } else if IsProse(path) {
        prose := prose + [path];
      } else if path in allowed && !HasCodeSuffix(path) {
        artifacts := artifacts + [path];
      } else {
        return Err(ForbiddenPath);
      }
    }
    assert paths[..|paths|] == paths;
    return Ok(Comparison(prose, artifacts));
  }

  method CompareInputs(repo: Repo, run: Run, source: Commit, target: Commit, allowed: set<Path>, paths: seq<Path>)
    returns (r: Result<Comparison, Refusal>)
    requires Valid(repo) && Complete(run)
    requires source < |repo.parents| && target < |repo.parents| && run.commit < |repo.parents|
    requires ListsChanges(repo.trees[source], repo.trees[target], paths)
    ensures r.Ok? <==> source == run.commit && Compares(repo, run, target, allowed)
    ensures r.Ok? ==> Divides(paths, r.value.prose, r.value.artifacts)
    ensures r.Ok? ==> OnlyPermittedChanges(repo.trees[source], repo.trees[target], run, allowed)
    ensures r == Err(NotAncestor) <==> !IsAncestor(repo, source, target)
    ensures r == Err(FloorWithoutProjection) <==>
      IsAncestor(repo, source, target) && FLOOR_PATH in paths && PROJECTION_PATH !in paths
    ensures r == Err(UnsupportedInputs) <==>
      && IsAncestor(repo, source, target) && (FLOOR_PATH in paths ==> PROJECTION_PATH in paths)
      && (source !in repo.supported || target !in repo.supported)
  {
    ComparisonMeans(repo, run, target, allowed);
    if source == run.commit { ComparesNeeds(repo, run, target, allowed, paths); }
    var t := repo.trees[target];
    hide *;
    if !IsAncestor(repo, source, target) { return Err(NotAncestor); }
    if FLOOR_PATH in paths && PROJECTION_PATH !in paths { return Err(FloorWithoutProjection); }
    if source !in repo.supported || target !in repo.supported { return Err(UnsupportedInputs); }
    if run.commit != source { return Err(ForeignRun); }
    ComparesListed(repo, run, target, allowed, paths);
    r := ComparePaths(repo, run, t, allowed, paths);
  }

  // ---------------------------------------------------------------- releases

  const MANIFEST := "der-verified/acceptance.toml"
  const MIRROR := "der-verified/der.inventory.toml.vendored-copy"
  const STORE := "der-verified/evidence/acceptance-records/"

  /** A file name directly in the evidence store: one part, ending in .json. */
  predicate IsRecord(p: Path) {
    && STORE <= p && '/' !in p[|STORE|..]
    && |p| > |STORE| + 5 && EndsWith(p, ".json")
  }

  predicate IsBundlePath(p: Path) {
    p == MANIFEST || p == MIRROR || STORE <= p
  }

  /** The committed release bundle of a tree; none if the store holds anything but records. */
  function CommittedArtifacts(t: Tree): Option<Tree> {
    if forall p :: p in t && STORE <= p ==> IsRecord(p) then Some(map p | p in t && IsBundlePath(p) :: t[p])
    else None
  }

  predicate BundleComplete(files: Tree) {
    MANIFEST in files && MIRROR in files && |files| >= 3
  }

  predicate RunsOk(repo: Repo, runs: seq<Run>) {
    forall i :: 0 <= i < |runs| ==> Complete(runs[i]) && runs[i].commit < |repo.parents|
  }

  /** The newest trusted run at source with the bound receipt. */
  function FindRun(runs: seq<Run>, source: Commit, bound: nat): Option<Run> {
    if |runs| == 0 then None
    else if runs[0].commit == source && runs[0].receipt == bound then Some(runs[0])
    else FindRun(runs[1..], source, bound)
  }

  /** A tree publishes every captured output exactly. */
  predicate PublishesOutputs(t: Tree, run: Run)
    requires Complete(run)
  {
    forall p :: p in GENERATED ==> p in t && t[p] == run.outputs[p]
  }

  /** The release receipt of `target` holds for `version`, bound to `run`. */
  ghost predicate ReleaseHolds(repo: Repo, runs: seq<Run>, target: Commit, version: string, run: Run)
    requires Valid(repo) && RunsOk(repo, runs) && target < |repo.parents|
  {
    && target in repo.releases
    && var release := repo.releases[target];
    && release.target == target && release.version == version && repo.versions[target] == version
    && FindRun(runs, release.source, release.boundReceipt) == Some(run)
    && run in runs
    && PublishesOutputs(repo.trees[target], run)
    && CommittedArtifacts(repo.trees[target]) == Some(release.artifacts) && BundleComplete(release.artifacts)
    && repo.subjects[target] == release.source
    && CommittedArtifacts(repo.trees[run.commit]).Some?
    && Compares(repo, run, target, ReleaseArtifacts(repo, run, target))
  }

  /** The paths a release may change beyond prose: its own bundle and the one it supersedes. */
  ghost function ReleaseArtifacts(repo: Repo, run: Run, target: Commit): set<Path>
    requires Valid(repo) && target < |repo.parents| && run.commit < |repo.parents|
    requires target in repo.releases && CommittedArtifacts(repo.trees[run.commit]).Some?
  {
    repo.releases[target].artifacts.Keys + CommittedArtifacts(repo.trees[run.commit]).value.Keys
  }

  lemma {:induction false} FindRunCorrect(runs: seq<Run>, source: Commit, bound: nat)
    ensures FindRun(runs, source, bound).Some? ==>
      var run := FindRun(runs, source, bound).value; run in runs && run.commit == source && run.receipt == bound
    ensures FindRun(runs, source, bound).None? ==>
      forall i :: 0 <= i < |runs| ==> runs[i].commit != source || runs[i].receipt != bound
  {
    if |runs| > 0 && !(runs[0].commit == source && runs[0].receipt == bound) {
      FindRunCorrect(runs[1..], source, bound);
      forall i | 0 <= i < |runs| && FindRun(runs, source, bound).None?
        ensures runs[i].commit != source || runs[i].receipt != bound
      {
        if i > 0 { assert runs[i] == runs[1..][i - 1]; }
      }
    }
  }

  /** run is the first of the list with that commit and receipt. */
  ghost predicate FirstWith(runs: seq<Run>, source: Commit, bound: nat, run: Run) {
    exists i :: 0 <= i < |runs| && runs[i] == run && run.commit == source && run.receipt == bound
      && forall k :: 0 <= k < i ==> runs[k].commit != source || runs[k].receipt != bound
  }

  lemma {:induction false} FindRunFirst(runs: seq<Run>, source: Commit, bound: nat, run: Run)
    ensures FindRun(runs, source, bound) == Some(run) <==> FirstWith(runs, source, bound, run)
  {
    if |runs| > 0 && (runs[0].commit != source || runs[0].receipt != bound) {
      var tail := runs[1..];
      FindRunFirst(tail, source, bound, run);
      if i :| 0 <= i < |runs| && runs[i] == run && run.commit == source && run.receipt == bound
              && forall k :: 0 <= k < i ==> runs[k].commit != source || runs[k].receipt != bound
      {
        assert tail[i - 1] == run;
      }
      if i :| 0 <= i < |tail| && tail[i] == run && run.commit == source && run.receipt == bound
              && forall k :: 0 <= k < i ==> tail[k].commit != source || tail[k].receipt != bound
      {
        assert runs[i + 1] == run;
        forall k | 0 <= k < i + 1 ensures runs[k].commit != source || runs[k].receipt != bound {
          if k > 0 { assert runs[k] == tail[k - 1]; }
        }
      }
    }
  }

  /** The bundle a tree commits: exactly its manifest, its mirror and the files of its store, all of them records. */
  ghost predicate IsBundleOf(files: Tree, t: Tree) {
    && (forall p :: p in files <==> p in t && (p == MANIFEST || p == MIRROR || STORE <= p))
    && (forall p :: p in files ==> files[p] == t[p])
    && (forall p :: p in t && STORE <= p ==>
          exists name :: name != "" && '/' !in name && p == STORE + name + ".json")
  }

  lemma BundleExactly(t: Tree, files: Tree)
    ensures CommittedArtifacts(t) == Some(files) <==> IsBundleOf(files, t)
  {
    forall p | STORE <= p
      ensures IsRecord(p) <==> exists name :: name != "" && '/' !in name && p == STORE + name + ".json"
    {
      RecordExactly(p);
    }
    hide IsRecord;
    if IsBundleOf(files, t) { assert files == map p | p in t && IsBundlePath(p) :: t[p]; }
  }

  lemma RecordExactly(p: Path)
    requires STORE <= p
    ensures IsRecord(p) <==> exists name :: name != "" && '/' !in name && p == STORE + name + ".json"
  {
    if IsRecord(p) { RecordName(p); }
    if name :| name != "" && '/' !in name && p == STORE + name + ".json" { NamedRecord(name); }
  }

  lemma RecordName(p: Path)
    requires IsRecord(p)
    ensures exists name :: name != "" && '/' !in name && p == STORE + name + ".json"
  {
    var rest := p[|STORE|..];
    var name := rest[..|rest| - 5];
    assert p[|p| - 5..] == rest[|rest| - 5..] == ".json";
    assert p == STORE + name + ".json";
  }

  lemma NamedRecord(name: string)
    requires name != "" && '/' !in name
    ensures IsRecord(STORE + name + ".json")
  {
    var p := STORE + name + ".json";
    assert p[|STORE|..] == name + ".json";
    assert p[|p| - 5..] == ".json";
  }

  /** No file of a bundle stands in the way of a release that names it. */
  lemma BundleAllowed(repo: Repo, run: Run, t: Tree, files: Tree, home: Tree, p: Path)
    requires Complete(run) && IsBundleOf(files, home) && p in files
    ensures PathAllowed(repo, run, t, files.Keys, p)
  {
    assert p == MANIFEST || p == MIRROR || IsRecord(p) by {
      if STORE <= p { RecordExactly(p); }
    }
    BundleUnprotected(p);
    BundleIsData(p);
    if p in GENERATED { GeneratedIsProtected(p); }
    hide IsBundleOf, IsProtected, IsProse, HasCodeSuffix;
  }

  lemma BundleUnprotected(p: Path)
    requires p == MANIFEST || p == MIRROR || IsRecord(p)
    ensures !IsProtected(p)
  {
    BundleBeginnings(p);
    if p in PROTECTED_INPUTS { InputsApart(p); }
    forall i | 0 <= i < |PROTECTED_PREFIXES| ensures !(PROTECTED_PREFIXES[i] <= p) {
      var prefix := PROTECTED_PREFIXES[i];
      assert p[0] != prefix[0] || p[1] != prefix[1] || p[13] != prefix[13];
    }
  }

  lemma BundleBeginnings(p: Path)
    requires p == MANIFEST || p == MIRROR || IsRecord(p)
    ensures |p| > 13 && p[0] == 'd' && p[1] == 'e' && (p[13] == 'a' || p[13] == 'd' || p[13] == 'e')
  {
    BundleLetters();
    if IsRecord(p) {
      assert p[0] == STORE[0] && p[1] == STORE[1] && p[13] == STORE[13];
    }
  }

  lemma BundleLetters()
    ensures |MANIFEST| > 13 && MANIFEST[0] == 'd' && MANIFEST[1] == 'e' && MANIFEST[13] == 'a'
    ensures |MIRROR| > 13 && MIRROR[0] == 'd' && MIRROR[1] == 'e' && MIRROR[13] == 'd'
    ensures |STORE| > 13 && STORE[0] == 'd' && STORE[1] == 'e' && STORE[13] == 'e'
  {
  }

  lemma InputsApart(p: Path)
    requires p in PROTECTED_INPUTS
    ensures |p| <= 13 || p[0] != 'd' || p[1] != 'e' || p[13] == 's' || p[13] == 'C' || p[13] == 'b'
  {
  }

  lemma BundleIsData(p: Path)
    requires p == MANIFEST || p == MIRROR || IsRecord(p)
    ensures !HasCodeSuffix(p)
  {
    var n := |p|;
    assert p[n - 1] == 'l' || (p[n - 1] == 'y' && p[n - 3] == 'o') || p[n - 1] == 'n' by {
      if IsRecord(p) { assert p[n - 5..][4] == p[n - 1]; }
    }
    assert p[n - 1] == 'l' ==> p[n - 2] == 'm' && p[n - 3] == 'o' && p[n - 4] == 't';
    assert p[n - 1] == 'n' ==> p[n - 2] == 'o';
  }

  /** A release receipt holds exactly when: */
  lemma ReleaseExactly(repo: Repo, runs: seq<Run>, target: Commit, version: string, run: Run)
    requires Valid(repo) && RunsOk(repo, runs) && target < |repo.parents|
    ensures ReleaseHolds(repo, runs, target, version, run) <==>
      && target in repo.releases
      && var release, t := repo.releases[target], repo.trees[target];
      && release.target == target && release.version == version == repo.versions[target]
      && FirstWith(runs, release.source, release.boundReceipt, run)
      && repo.subjects[target] == release.source
      && (forall p :: p in GENERATED ==> p in t && t[p] == run.outputs[p])
      && IsBundleOf(release.artifacts, t)
      && MANIFEST in release.artifacts && MIRROR in release.artifacts && |release.artifacts| >= 3
      && exists superseded ::
           && IsBundleOf(superseded, repo.trees[run.commit])
           && Compares(repo, run, target, release.artifacts.Keys + superseded.Keys)
  {
    if target in repo.releases {
      var release := repo.releases[target];
      FindRunFirst(runs, release.source, release.boundReceipt, run);
      FindRunCorrect(runs, release.source, release.boundReceipt);
      BundleExactly(repo.trees[target], release.artifacts);
      if FirstWith(runs, release.source, release.boundReceipt, run) {
        forall superseded
          ensures CommittedArtifacts(repo.trees[run.commit]) == Some(superseded)
                  <==> IsBundleOf(superseded, repo.trees[run.commit])
        {
          BundleExactly(repo.trees[run.commit], superseded);
        }
        hide FirstWith, FindRun, IsBundleOf, CommittedArtifacts, Compares;
        var files := CommittedArtifacts(repo.trees[run.commit]);
        if files.Some? { assert IsBundleOf(files.value, repo.trees[run.commit]); }
      }
    }
  }

  /** What changed from an accepted release's run to the release: documents, its bundle, and the captured files. */
  lemma ReleasedPaths(repo: Repo, runs: seq<Run>, target: Commit, version: string, run: Run)
    requires Valid(repo) && RunsOk(repo, runs) && target < |repo.parents|
    requires ReleaseHolds(repo, runs, target, version, run)
    ensures Complete(run) && run.commit < |repo.parents|
    ensures forall p :: !Agree(repo.trees[run.commit], repo.trees[target], p) && p !in GENERATED ==>
      (EndsWith(p, MD) && (p in DOC_FILES || ARCHIVE <= p)) || p == MANIFEST || p == MIRROR || STORE <= p
  {
    hide Compares, IsAncestor, EndsWith;
    var allowed := ReleaseArtifacts(repo, run, target);
    ComparedPaths(repo, run, target, allowed);
    assert forall p :: p in allowed ==> IsBundlePath(p);
  }

  /** diff lists the changed paths between any two commits. */
  ghost predicate DiffOk(repo: Repo, diff: (Commit, Commit) -> seq<Path>)
    requires Valid(repo)
  {
    forall s: Commit, t: Commit :: s < |repo.parents| && t < |repo.parents| ==>
      ListsChanges(repo.trees[s], repo.trees[t], diff(s, t))
  }

  /** revList lists every commit reachable from a commit, in some order. */
  ghost predicate RevListOk(repo: Repo, revList: Commit -> seq<Commit>)
    requires Valid(repo)
  {
    forall c: Commit, a: Commit :: c < |repo.parents| ==> (a in revList(c) <==> IsAncestor(repo, a, c))
  }

  method VerifyRelease(repo: Repo, runs: seq<Run>, diff: (Commit, Commit) -> seq<Path>, target: Commit, version: string)
    returns (r: Result<Run, Refusal>)
    requires Valid(repo) && RunsOk(repo, runs) && target < |repo.parents|
    requires DiffOk(repo, diff)
    ensures r.Ok? ==> ReleaseHolds(repo, runs, target, version, r.value)
    ensures r.Err? ==> forall run :: !ReleaseHolds(repo, runs, target, version, run)
  {
    hide Compares, ListsChanges, OnlyPermittedChanges;
    if target !in repo.releases { return Err(NoReceipt); }
    var release := repo.releases[target];
    if release.target != target || release.version != version || repo.versions[target] != version {
      return Err(IdentityMismatch);
    }
    var found := FindRun(runs, release.source, release.boundReceipt);
    FindRunCorrect(runs, release.source, release.boundReceipt);
    if found.None? { return Err(NoBoundRun); }
    var run := found.value;
    if !PublishesOutputs(repo.trees[target], run) { return Err(IncompleteOutputs); }
    var files := CommittedArtifacts(repo.trees[target]);
    if files.None? || !BundleComplete(files.value) || files.value != release.artifacts { return Err(BadArtifacts); }
    if repo.subjects[target] != release.source { return Err(ForeignSubject); }
    var superseded := CommittedArtifacts(repo.trees[run.commit]);
    if superseded.None? { return Err(BadArtifacts); }
    var allowed := files.value.Keys + superseded.value.Keys;
    var compared := CompareInputs(repo, run, release.source, target, allowed, diff(release.source, target));
    if compared.Err? { return Err(compared.error); }
    return Ok(run);
  }

  /** The first commit of the list with a release receipt. */
  function FirstReleased(repo: Repo, commits: seq<Commit>): Option<Commit> {
    if |commits| == 0 then None
    else if commits[0] in repo.releases then Some(commits[0])
    else FirstReleased(repo, commits[1..])
  }

  lemma {:induction false} FirstReleasedCorrect(repo: Repo, commits: seq<Commit>, i: nat)
    requires i <= |commits| && forall k :: 0 <= k < i ==> commits[k] !in repo.releases
    ensures FirstReleased(repo, commits) == FirstReleased(repo, commits[i..])
    ensures i == |commits| ==> FirstReleased(repo, commits) == None
  {
    if i > 0 {
      FirstReleasedCorrect(repo, commits[1..], i - 1);
      assert commits[1..][i - 1..] == commits[i..];
    } else {
      assert commits[0..] == commits;
    }
  }

  lemma {:induction false} FirstReleasedMember(repo: Repo, commits: seq<Commit>)
    ensures FirstReleased(repo, commits).Some? ==>
      FirstReleased(repo, commits).value in commits && FirstReleased(repo, commits).value in repo.releases
  {
    if |commits| > 0 && commits[0] !in repo.releases { FirstReleasedMember(repo, commits[1..]); }
  }

  /** U is covered by the release at T: T is validated, and only prose changed from T to U. */
  ghost predicate CoveredByRelease(repo: Repo, runs: seq<Run>, target: Commit, ancestor: Commit, run: Run)
    requires Valid(repo) && RunsOk(repo, runs) && target < |repo.parents| && ancestor < |repo.parents|
  {
    && target in repo.supported
    && ReleaseHolds(repo, runs, ancestor, repo.versions[ancestor], run)
    && forall p :: !Agree(repo.trees[ancestor], repo.trees[target], p) ==> IsProse(p)
  }

  /** Whatever changed from one commit to the other is a document, and the generated files did not. */
  ghost predicate OnlyDocumentsSince(repo: Repo, ancestor: Commit, target: Commit)
    requires Valid(repo) && target < |repo.parents| && ancestor < |repo.parents|
  {
    && DocumentsOnly(repo.trees[ancestor], repo.trees[target], {})
    && forall p :: p in GENERATED ==> Agree(repo.trees[ancestor], repo.trees[target], p)
  }

  lemma CoveredDocuments(repo: Repo, runs: seq<Run>, target: Commit, ancestor: Commit, run: Run)
    requires Valid(repo) && RunsOk(repo, runs) && target < |repo.parents| && ancestor < |repo.parents|
    requires CoveredByRelease(repo, runs, target, ancestor, run)
    ensures OnlyDocumentsSince(repo, ancestor, target)
  {
    hide ReleaseHolds, IsProse, EndsWith;
    var s, t := repo.trees[ancestor], repo.trees[target];
    forall p | IsProse(p)
      ensures EndsWith(p, MD) && (p in DOC_FILES || ARCHIVE <= p) && !IsProtected(p)
    {
      ProseIsDocument(p);
      ProseUnprotected(p);
    }
    forall p | p in GENERATED ensures Agree(s, t, p) { GeneratedIsProtected(p); }
  }

  method VerifyReleaseCommit(repo: Repo, runs: seq<Run>, diff: (Commit, Commit) -> seq<Path>,
                             revList: Commit -> seq<Commit>, target: Commit)
    returns (r: Result<(Commit, Run), Refusal>)
    requires Valid(repo) && RunsOk(repo, runs) && target < |repo.parents|
    requires DiffOk(repo, diff) && RevListOk(repo, revList)
    ensures r.Ok? ==>
      && FirstReleased(repo, revList(target)) == Some(r.value.0)
      && IsAncestor(repo, r.value.0, target) && r.value.0 < |repo.parents|
      && CoveredByRelease(repo, runs, target, r.value.0, r.value.1)
    ensures r.Err? ==> forall ancestor: Commit, run: Run ::
      ancestor < |repo.parents| && FirstReleased(repo, revList(target)) == Some(ancestor) ==>
        !CoveredByRelease(repo, runs, target, ancestor, run)
    ensures r.Ok? ==>
      && OnlyDocumentsSince(repo, r.value.0, target)
      && var commits := revList(target);
      && exists i :: 0 <= i < |commits| && commits[i] == r.value.0 && r.value.0 in repo.releases
           && forall k :: 0 <= k < i ==> commits[k] !in repo.releases
  {
    hide OnlyDocumentsSince;
    hide ReleaseHolds, IsAncestor, FirstReleased, IsProse;
    if target !in repo.supported { return Err(UnsupportedInputs); }
    var commits := revList(target);
    for i := 0 to |commits|
      invariant forall k :: 0 <= k < i ==> commits[k] !in repo.releases
    {
      var ancestor := commits[i];
      if ancestor !in repo.releases { continue; }
      FirstReleasedCorrect(repo, commits, i);
      assert FirstReleased(repo, commits) == Some(ancestor) by { FirstReleasedHere(repo, commits[i..]); }
      assert ancestor in commits;
      AncestorExists(repo, ancestor, target);
      var result := VerifyRelease(repo, runs, diff, ancestor, repo.versions[ancestor]);
      if result.Err? { return Err(result.error); }
      var paths := diff(ancestor, target);
      assert ListsChanges(repo.trees[ancestor], repo.trees[target], paths);
      if exists j :: 0 <= j < |paths| && !IsProse(paths[j]) { return Err(UnprosaicChange); }
      CoveredDocuments(repo, runs, target, ancestor, result.value);
      return Ok((ancestor, result.value));
    }
    FirstReleasedCorrect(repo, commits, |commits|);
    return Err(NoValidatedRelease);
  }

  lemma FirstReleasedHere(repo: Repo, commits: seq<Commit>)
    requires |commits| > 0 && commits[0] in repo.releases
    ensures FirstReleased(repo, commits) == Some(commits[0])
  {
  }

  // ---------------------------------------------------------------- the branch decision

  datatype Verdict = Direct(run: Run, comparison: Comparison) | ViaRelease(release: Commit, run: Run)

  /** A commit reachable from target but not from source has a release receipt. */
  ghost predicate ReleasedSince(repo: Repo, source: Commit, target: Commit)
    requires Valid(repo) && source < |repo.parents| && target < |repo.parents|
  {
    exists c: Commit ::
      c < |repo.parents| && IsAncestor(repo, c, target) && !IsAncestor(repo, c, source) && c in repo.releases
  }

  /** The first run, newest first, whose comparison with target accepts. */
  ghost function FirstComparing(repo: Repo, runs: seq<Run>, target: Commit): Option<Run>
    requires Valid(repo) && RunsOk(repo, runs) && target < |repo.parents|
  {
    if |runs| == 0 then None
    else if Compares(repo, runs[0], target, {}) then Some(runs[0])
    else FirstComparing(repo, runs[1..], target)
  }

  lemma {:induction false} FirstComparingSkips(repo: Repo, runs: seq<Run>, target: Commit, i: nat)
    requires Valid(repo) && RunsOk(repo, runs) && target < |repo.parents|
    requires i <= |runs| && forall k :: 0 <= k < i ==> !Compares(repo, runs[k], target, {})
    ensures FirstComparing(repo, runs, target)
      == if i < |runs| && Compares(repo, runs[i], target, {}) then Some(runs[i])
         else FirstComparing(repo, runs[i..], target)
  {
    hide Compares, IsAncestor;
    if i > 0 {
      FirstComparingSkips(repo, runs[1..], target, i - 1);
      assert runs[1..][i - 1..] == runs[i..];
    } else {
      assert runs[0..] == runs;
    }
  }

  lemma {:induction false} FirstComparingFirst(repo: Repo, runs: seq<Run>, target: Commit, run: Run)
    requires Valid(repo) && RunsOk(repo, runs) && target < |repo.parents|
    requires run in runs && Compares(repo, run, target, {})
    ensures FirstComparing(repo, runs, target).Some? && FirstComparing(repo, runs, target).value in runs
  {
    hide Compares, IsAncestor;
    if !Compares(repo, runs[0], target, {}) { FirstComparingFirst(repo, runs[1..], target, run); }
  }

  lemma DirectSupported(repo: Repo, run: Run, target: Commit)
    requires Valid(repo) && Complete(run) && target < |repo.parents| && run.commit < |repo.parents|
    requires Compares(repo, run, target, {})
    ensures BothSupported(repo, run.commit, target)
    ensures !ReleasedSince(repo, run.commit, target) ==> HoldsReleases(repo, run.commit, target)
  {
    hide IsAncestor, PathAllowed;
  }

  /** Every release that target builds on, source builds on too. */
  ghost predicate HoldsReleases(repo: Repo, source: Commit, target: Commit)
    requires Valid(repo) && source < |repo.parents| && target < |repo.parents|
  {
    forall c: Commit :: c < |repo.parents| && c in repo.releases && IsAncestor(repo, c, target) ==>
      IsAncestor(repo, c, source)
  }

  /** Some run's commit leads to target by harmless edits only, and no run's commit misses a release of target's. */
  ghost predicate Undisturbed(repo: Repo, runs: seq<Run>, target: Commit)
    requires Valid(repo) && RunsOk(repo, runs) && target < |repo.parents|
  {
    && (exists i :: 0 <= i < |runs| && BothSupported(repo, runs[i].commit, target)
                    && HarmlessEdits(repo.trees[runs[i].commit], repo.trees[target]))
    && forall i :: 0 <= i < |runs| ==> HoldsReleases(repo, runs[i].commit, target)
  }

  lemma UndisturbedIsDirect(repo: Repo, runs: seq<Run>, target: Commit)
    requires Valid(repo) && RunsOk(repo, runs) && target < |repo.parents|
    requires Undisturbed(repo, runs, target)
    ensures FirstComparing(repo, runs, target).Some?
    ensures var run := FirstComparing(repo, runs, target).value;
      Complete(run) && run.commit < |repo.parents| && !ReleasedSince(repo, run.commit, target)
  {
    hide Compares, HarmlessEdits, IsAncestor, FirstComparing;
    var i :| 0 <= i < |runs| && BothSupported(repo, runs[i].commit, target)
             && HarmlessEdits(repo.trees[runs[i].commit], repo.trees[target]);
    HarmlessCompares(repo, runs[i], target, {});
    FirstComparingFirst(repo, runs, target, runs[i]);
  }

  /**
    Verification of a branch commit. `trusted` is what the store yields: the verified runs, newest
    first, or a refusal.
   */
  method VerifyBranch(repo: Repo, trusted: Result<seq<Run>, Refusal>, diff: (Commit, Commit) -> seq<Path>,
                      revList: Commit -> seq<Commit>, target: Commit)
    returns (r: Result<Verdict, Refusal>)
    requires Valid(repo) && target < |repo.parents|
    requires trusted.Ok? ==> RunsOk(repo, trusted.value)
    requires DiffOk(repo, diff) && RevListOk(repo, revList)
    ensures r.Ok? ==> trusted.Ok?
    ensures r.Ok? && r.value.Direct? ==>
      && FirstComparing(repo, trusted.value, target) == Some(r.value.run)
      && Complete(r.value.run) && r.value.run.commit < |repo.parents|
      && Compares(repo, r.value.run, target, {}) && !ReleasedSince(repo, r.value.run.commit, target)
    ensures r.Ok? && r.value.ViaRelease? ==>
      && r.value.release < |repo.parents| && IsAncestor(repo, r.value.release, target)
      && CoveredByRelease(repo, trusted.value, target, r.value.release, r.value.run)
      && (FirstComparing(repo, trusted.value, target).Some? ==>
            var run := FirstComparing(repo, trusted.value, target).value;
            Complete(run) && run.commit < |repo.parents| && ReleasedSince(repo, run.commit, target))
    ensures trusted.Ok? && r.Err? ==>
      && (FirstComparing(repo, trusted.value, target).Some? ==>
            var run := FirstComparing(repo, trusted.value, target).value;
            Complete(run) && run.commit < |repo.parents| && ReleasedSince(repo, run.commit, target))
      && forall ancestor: Commit, run: Run ::
           ancestor < |repo.parents| && FirstReleased(repo, revList(target)) == Some(ancestor) ==>
             !CoveredByRelease(repo, trusted.value, target, ancestor, run)
    ensures r.Ok? && r.value.Direct? ==>
      && var run := r.value.run;
      && var s, t := repo.trees[run.commit], repo.trees[target];
      && DocumentsOnly(s, t, GENERATED) && CapturedOnly(s, t, run)
      && BothSupported(repo, run.commit, target)
      && HoldsReleases(repo, run.commit, target)
    ensures r.Ok? && r.value.ViaRelease? ==> OnlyDocumentsSince(repo, r.value.release, target)
    ensures trusted.Ok? && Undisturbed(repo, trusted.value, target) ==> r.Ok? && r.value.Direct?
  {
    hide DocumentsOnly, HarmlessEdits, CapturedOnly, DataOnly, OnlyDocumentsSince, Undisturbed;
    hide BothSupported, HoldsReleases;
    if trusted.Ok? && Undisturbed(repo, trusted.value, target) { UndisturbedIsDirect(repo, trusted.value, target); }
    hide Compares, IsAncestor, CoveredByRelease, FirstReleased, FirstComparing;
    if trusted.Err? { return Err(trusted.error); }
    var runs := trusted.value;
    for i := 0 to |runs|
      invariant forall k :: 0 <= k < i ==> !Compares(repo, runs[k], target, {})
    {
      var run := runs[i];
      var compared := CompareInputs(repo, run, run.commit, target, {}, diff(run.commit, target));
      FirstComparingSkips(repo, runs, target, i);
      if compared.Err? { continue; }
      var later, known := revList(target), revList(run.commit);
      if exists k :: 0 <= k < |later| && later[k] !in known && later[k] in repo.releases {
        assert ReleasedSince(repo, run.commit, target) by {
          var k :| 0 <= k < |later| && later[k] !in known && later[k] in repo.releases;
          assert later[k] in later;
          AncestorExists(repo, later[k], target);
        }
        var fallback := VerifyReleaseCommit(repo, runs, diff, revList, target);
        if fallback.Err? { return Err(fallback.error); }
        return Ok(ViaRelease(fallback.value.0, fallback.value.1));
      }
      assert !ReleasedSince(repo, run.commit, target);
      DirectSupported(repo, run, target);
      assert GENERATED + {} == GENERATED;
      return Ok(Direct(run, compared.value));
    }
    FirstComparingSkips(repo, runs, target, |runs|);
    assert FirstComparing(repo, runs, target).None? by { NoneComparing(repo, runs[|runs|..], target); }
    var fallback := VerifyReleaseCommit(repo, runs, diff, revList, target);
    if fallback.Err? { return Err(fallback.error); }
    return Ok(ViaRelease(fallback.value.0, fallback.value.1));
  }

  lemma NoneComparing(repo: Repo, runs: seq<Run>, target: Commit)
    requires Valid(repo) && target < |repo.parents| && |runs| == 0
    ensures FirstComparing(repo, runs, target).None?
  {
  }

  // ---------------------------------------------------------------- what an accepted carry-over means

  /** Every path of target equals the run's commit unless it is prose, an extra unprotected path, or a
      generated file equal to the captured output. */
  ghost predicate InputsUnchanged(repo: Repo, run: Run, target: Commit, extra: set<Path>)
    requires Valid(repo) && Complete(run) && run.commit < |repo.parents| && target < |repo.parents|
  {
    var s, t := repo.trees[run.commit], repo.trees[target];
    forall p :: Agree(s, t, p) || IsProse(p) || (p in extra && !IsProtected(p))
                || (p in GENERATED && p in t && t[p] == run.outputs[p])
  }

  /** A direct carry-over. */
  lemma DirectMeansUnchanged(repo: Repo, run: Run, target: Commit)
    requires Valid(repo) && Complete(run) && run.commit < |repo.parents| && target < |repo.parents|
    requires Compares(repo, run, target, {})
    ensures IsAncestor(repo, run.commit, target) && InputsUnchanged(repo, run, target, {})
  {
    hide IsAncestor, IsDocumentation, HasCodeSuffix, IsProtected;
  }

  /** A carry-over through a validated release followed by prose. */
  lemma ReleaseMeansUnchanged(repo: Repo, runs: seq<Run>, run: Run, ancestor: Commit, target: Commit)
    requires Valid(repo) && RunsOk(repo, runs) && target < |repo.parents| && ancestor < |repo.parents|
    requires IsAncestor(repo, ancestor, target) && CoveredByRelease(repo, runs, target, ancestor, run)
    ensures Complete(run) && run.commit < |repo.parents| && ancestor in repo.releases
    ensures CommittedArtifacts(repo.trees[run.commit]).Some?
    ensures IsAncestor(repo, run.commit, target)
    ensures InputsUnchanged(repo, run, target, ReleaseArtifacts(repo, run, ancestor))
    ensures PublishesOutputs(repo.trees[target], run)
  {
    assert IsAncestor(repo, run.commit, target) by { AncestorTransitive(repo, run.commit, ancestor, target); }
    hide IsAncestor, IsDocumentation, HasCodeSuffix;
    var s, t, u := repo.trees[run.commit], repo.trees[ancestor], repo.trees[target];
    forall p | p in GENERATED ensures p in u && u[p] == run.outputs[p] {
      GeneratedIsProtected(p);
      assert !IsProse(p);
      assert Agree(t, u, p);
    }
    hide IsProtected;
    forall p | !Agree(s, u, p) && !IsProse(p)
      ensures (p in ReleaseArtifacts(repo, run, ancestor) && !IsProtected(p)) || p in GENERATED
    {
      assert Agree(t, u, p);
      assert !Agree(s, t, p);
    }
  }

  /** Proof, build, tool and policy inputs other than the generated files never differ from the run's. */
  lemma ProtectedInputsUnchanged(repo: Repo, run: Run, target: Commit, extra: set<Path>, p: Path)
    requires Valid(repo) && Complete(run) && run.commit < |repo.parents| && target < |repo.parents|
    requires InputsUnchanged(repo, run, target, extra)
    requires IsProtected(p) && p !in GENERATED
    ensures Agree(repo.trees[run.commit], repo.trees[target], p)
  {
    hide IsDocumentation, IsProtected;
  }
}
