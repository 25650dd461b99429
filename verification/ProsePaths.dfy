/** Which paths of the repository are prose: documents that may change without a new full run. */
module ProsePaths {
  type Path = string

  const STATE_PATH := "lean/lid-source-state.txt"
  const FLOOR_PATH := "docs/proof-floor.json"
  const PROJECTION_PATH := "PROOF_MANIFEST.md"

  const GENERATED: set<Path> := {STATE_PATH, FLOOR_PATH, PROJECTION_PATH}

  const PROTECTED_INPUTS: set<Path> := {
    "check.sh", "der-verified/src", "der-verified/Cargo.toml", "Cargo.toml", "Cargo.lock",
    "rust-toolchain.toml", ".cargo", "der-verified/build.rs", FLOOR_PATH, "ASSUMPTIONS.md", PROJECTION_PATH}

  const PROTECTED_PREFIXES: seq<string> :=
    ["der-verified/src/", "lean/", "gates/", ".github/", ".cargo/", "docs/requirements/"]

  const DOC_FILES: set<Path> := {
    "README.md", "ARCHITECTURE.md", "ASSUMPTIONS.md", "CHANGELOG.md", "COVERAGE.md",
    "DECISIONS.md", "DER-REMAINING-WORK.md", "DOCS-SYNC.md", "PROOF_MANIFEST.md",
    "REPLAY.md", "SECURITY.md", "TODO.md", "der-verified/README.md",
    "docs/why-verified.md", "docs/verification-cost.md", "docs/STATUS-2026-09-28.md",
    "evidence/README.md", "docs/ci.md", "docs/release.md"}

  const CODE_SUFFIXES: seq<string> := [".rs", ".lean", ".py", ".sh", ".yml", ".yaml"]

  predicate EndsWith(p: Path, suffix: string) {
    |suffix| <= |p| && p[|p| - |suffix|..] == suffix
  }

  /** Proof, build, tool and policy inputs. */
  predicate IsProtected(p: Path) {
    p in PROTECTED_INPUTS || exists i :: 0 <= i < |PROTECTED_PREFIXES| && PROTECTED_PREFIXES[i] <= p
  }

  /** The parts of p between slashes. */
  function Split(p: Path): (parts: seq<string>)
    ensures |parts| > 0
  {
    if p == "" then [""]
    else
      var rest := Split(p[1..]);
      if p[0] == '/' then [""] + rest else [[p[0]] + rest[0]] + rest[1..]
  }

  predicate IsDocumentation(p: Path) {
    || p in DOC_FILES
    || ("docs/archive/" <= p && EndsWith(p, ".md")
        && forall part :: part in Split(p) ==> part != "" && part != "." && part != "..")
  }

  predicate IsProse(p: Path) {
    !IsProtected(p) && IsDocumentation(p)
  }

  predicate HasCodeSuffix(p: Path) {
    exists i :: 0 <= i < |CODE_SUFFIXES| && EndsWith(p, CODE_SUFFIXES[i])
  }

  lemma StateIsProtected()
    ensures IsProtected(STATE_PATH)
  {
    assert PROTECTED_PREFIXES[1] <= STATE_PATH;
  }

  lemma GeneratedIsProtected(p: Path)
    requires p in GENERATED
    ensures IsProtected(p)
  {
    StateIsProtected();
  }

  // ---------------------------------------------------------------- the parts of a path

  /** x stands at position i of p, from slash to slash. */
  predicate PartAt(p: Path, x: string, i: nat) {
    && i + |x| <= |p| && p[i..i + |x|] == x
    && (i == 0 || p[i - 1] == '/') && (i + |x| == |p| || p[i + |x|] == '/')
  }

  ghost predicate HasPart(p: Path, x: string) {
    exists i: nat :: PartAt(p, x, i)
  }

  /** A part seen from the second character on. */
  lemma PartShift(p: Path, x: string, i: nat)
    requires p != ""
    ensures PartAt(p, x, i + 1) <==> (i > 0 || p[0] == '/') && PartAt(p[1..], x, i)
  {
    if i + 1 + |x| <= |p| { assert p[i + 1..i + 1 + |x|] == p[1..][i..i + |x|]; }
  }

  lemma PartStart(p: Path, x: string)
    requires p != "" && x != ""
    ensures PartAt(p, x, 0) <==> p[0] == x[0] && PartAt(p[1..], x[1..], 0)
  {
    assert x == [x[0]] + x[1..];
    if |x| <= |p| { assert p[0..|x|] == [p[0]] + p[1..][0..|x| - 1]; }
  }

  lemma EmptyStart(p: Path)
    ensures PartAt(p, "", 0) <==> p == "" || p[0] == '/'
  {
  }

  lemma {:induction false} FirstPart(p: Path, x: string)
    requires '/' !in x
    ensures Split(p)[0] == x <==> PartAt(p, x, 0)
  {
    EmptyStart(p);
    if x == "" {
    } else if p == "" {
      assert !PartAt(p, x, 0);
    } else {
      PartStart(p, x);
      hide PartAt;
      assert x[0] in x && '/' !in x[1..];
      FirstPart(p[1..], x[1..]);
      var rest := Split(p[1..]);
      if p[0] != '/' {
        assert Split(p)[0] == [p[0]] + rest[0];
        assert x == [x[0]] + x[1..];
      }
    }
  }

  lemma {:induction false} FurtherParts(p: Path, x: string)
    requires '/' !in x
    ensures x in Split(p)[1..] <==> exists i: nat :: i > 0 && PartAt(p, x, i)
  {
    hide PartAt;
    if p == "" {
      forall i: nat ensures i > 0 ==> !PartAt(p, x, i) {
        if i > 0 { NoPart(x, i); }
      }
    } else {
      var tail := p[1..];
      FurtherParts(tail, x);
      FirstPart(tail, x);
      assert Split(tail) == [Split(tail)[0]] + Split(tail)[1..];
      forall i: nat ensures PartAt(p, x, i + 1) <==> (i > 0 || p[0] == '/') && PartAt(tail, x, i) {
        PartShift(p, x, i);
      }
      if i: nat :| i > 0 && PartAt(p, x, i) { assert PartAt(p, x, (i - 1) + 1) && PartAt(tail, x, i - 1); }
      if x in Split(p)[1..] {
        var i: nat :| (i > 0 || p[0] == '/') && PartAt(tail, x, i);
        assert PartAt(p, x, i + 1);
      }
    }
  }

  lemma NoPart(x: string, i: nat)
    requires i > 0
    ensures !PartAt("", x, i)
  {
  }

  lemma SplitParts(p: Path, x: string)
    requires '/' !in x
    ensures x in Split(p) <==> HasPart(p, x)
  {
    FirstPart(p, x);
    FurtherParts(p, x);
    assert Split(p) == [Split(p)[0]] + Split(p)[1..];
  }

  lemma {:induction false} SplitAfter(a: string, b: string)
    requires '/' !in a
    ensures Split(a + "/" + b) == [a] + Split(b)
  {
    var p := a + "/" + b;
    if a == "" {
      assert p[1..] == b;
    } else {
      assert a[0] in a && p[1..] == a[1..] + "/" + b;
      SplitAfter(a[1..], b);
      assert [a[0]] + a[1..] == a;
      assert ([a[1..]] + Split(b))[1..] == Split(b);
    }
  }

  lemma {:induction false} SplitPlain(a: string)
    requires '/' !in a
    ensures Split(a) == [a]
  {
    if a != "" {
      assert a[0] in a;
      SplitPlain(a[1..]);
      assert [a[0]] + a[1..] == a;
    }
  }

  // ---------------------------------------------------------------- what prose is

  const MD := ".md"
  const ARCHIVE := "docs/archive/"

  /** How they end. */
  lemma ListedEndings(p: Path)
    requires p in DOC_FILES
    ensures |p| > 3 && p[|p| - 3] == '.' && p[|p| - 2] == 'm' && p[|p| - 1] == 'd'
  {
  }

  lemma DocFilesAreMarkdown(p: Path)
    requires p in DOC_FILES
    ensures EndsWith(p, MD)
  {
    ListedEndings(p);
    var end := p[|p| - 3..];
    assert |end| == 3 && end[0] == '.' && end[1] == 'm' && end[2] == 'd';
    assert MD == ['.', 'm', 'd'];
  }

  lemma MarkdownInputs(p: Path)
    requires p in PROTECTED_INPUTS && EndsWith(p, MD)
    ensures p == "ASSUMPTIONS.md" || p == "PROOF_MANIFEST.md"
  {
    assert p[|p| - 1] == p[|p| - |MD|..][|MD| - 1] == 'd';
  }

  /** How the listed documents begin. */
  lemma ListedBeginnings(p: Path)
    requires p in DOC_FILES
    ensures |p| > 5 && p[0] != 'l' && p[0] != 'g' && p[0] != '.'
    ensures p[0] == 'd' ==>
      p == "der-verified/README.md" || (p[1] == 'o' && (p[5] != 'r' || p == "docs/release.md"))
  {
  }

  /** Each protected prefix and a listed document part early. */
  lemma ListedApart(p: Path, prefix: string)
    requires p in DOC_FILES && prefix in PROTECTED_PREFIXES
    ensures !(prefix <= p)
  {
    ListedBeginnings(p);
    if prefix == "der-verified/src/" {
      assert p == "der-verified/README.md" ==> p[13] != prefix[13];
      assert p[0] == 'd' && p != "der-verified/README.md" ==> p[1] != prefix[1];
      assert p[0] != 'd' ==> p[0] != prefix[0];
    } else if prefix == "docs/requirements/" {
      assert p == "docs/release.md" ==> p[7] != prefix[7];
      assert p == "der-verified/README.md" ==> p[1] != prefix[1];
      assert p[0] == 'd' && p[1] == 'o' && p != "docs/release.md" ==> p[5] != prefix[5];
      assert p[0] != 'd' ==> p[0] != prefix[0];
    } else {
      assert p[0] != prefix[0];
    }
  }

  lemma ListedUnprotected(p: Path)
    requires p in DOC_FILES && p != "ASSUMPTIONS.md" && p != "PROOF_MANIFEST.md"
    ensures !IsProtected(p)
  {
    DocFilesAreMarkdown(p);
    if p in PROTECTED_INPUTS { MarkdownInputs(p); }
    hide EndsWith;
    forall i | 0 <= i < |PROTECTED_PREFIXES| ensures !(PROTECTED_PREFIXES[i] <= p) {
      ListedApart(p, PROTECTED_PREFIXES[i]);
    }
  }

  lemma ArchiveUnprotected(p: Path)
    requires ARCHIVE <= p && EndsWith(p, MD)
    ensures !IsProtected(p)
  {
    assert p[..|ARCHIVE|] == ARCHIVE;
    assert p[0] == ARCHIVE[0] && p[1] == ARCHIVE[1] && p[5] == ARCHIVE[5];
    if p in PROTECTED_INPUTS { MarkdownInputs(p); }
    hide EndsWith;
    forall i | 0 <= i < |PROTECTED_PREFIXES| ensures !(PROTECTED_PREFIXES[i] <= p) {
      var prefix := PROTECTED_PREFIXES[i];
      assert p[0] != prefix[0] || p[1] != prefix[1] || p[5] != prefix[5];
    }
  }

  /**
    Prose is a listed document that makes no claim about the proofs, or a Markdown file of the archive whose path
    has no empty part and none that points elsewhere.
   */
  lemma ProseExactly(p: Path)
    ensures IsProse(p)
      <==> (p in DOC_FILES && p != "ASSUMPTIONS.md" && p != "PROOF_MANIFEST.md")
           || (ARCHIVE <= p && EndsWith(p, MD) && !HasPart(p, "") && !HasPart(p, ".") && !HasPart(p, ".."))
  {
    SplitParts(p, "");
    SplitParts(p, ".");
    SplitParts(p, "..");
    hide Split, HasPart, EndsWith;
    if p in DOC_FILES && p != "ASSUMPTIONS.md" && p != "PROOF_MANIFEST.md" { ListedUnprotected(p); }
    if ARCHIVE <= p && EndsWith(p, MD) { ArchiveUnprotected(p); }
    assert IsProtected("ASSUMPTIONS.md") && IsProtected("PROOF_MANIFEST.md");
  }

  /** Every Markdown file that stands directly in the archive is prose. */
  lemma NoteIsProse(name: string)
    requires '/' !in name
    ensures IsProse(ARCHIVE + name + MD)
  {
    var file := name + MD;
    var p := ARCHIVE + name + MD;
    assert p == "docs" + "/" + ("archive" + "/" + file);
    SplitAfter("docs", "archive" + "/" + file);
    SplitAfter("archive", file);
    SplitPlain(file);
    ArchiveUnprotected(p);
    assert Split(p) == ["docs", "archive", file];
  }
}
