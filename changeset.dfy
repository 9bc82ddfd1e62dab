/**
 * The changeset file both generators write: a front matter naming every workspace
 * package with a minor bump, then the brief summary.
 */
module Changeset {
  import opened Outcomes
  import opened Text

  /** The only name used when package detection throws. */
  const Placeholder: string := "placeholder-package-name"

  /** `.filter(Boolean)` over the `name` fields: absent and empty names are dropped. */
  function Named(names: seq<Option<string>>): (r: seq<string>)
    ensures forall x :: x in r <==> Some(x) in names && x != ""
    ensures |r| <= |names|
    decreases |names|
  {
    if names == [] then []
    else
      var rest := Named(names[1..]);
      assert forall x :: Some(x) in names <==> Some(x) == names[0] || Some(x) in names[1..];
      match names[0]
      case Some(n) => if n != "" then [n] + rest else rest
      case None => rest
  }

  /**
   * The package names: the detected ones, or the placeholder when detection fails
   * (`None`: the command or `JSON.parse` threw).
   */
  function PackageNames(detected: Option<seq<Option<string>>>): seq<string> {
    match detected
    case None => [Placeholder]
    case Some(names) => Named(names)
  }

  /** The placeholder appears when detection fails, and otherwise only if a package is really named so. */
  lemma PlaceholderOnlyOnFailure(detected: Option<seq<Option<string>>>)
    ensures detected.None? ==> PackageNames(detected) == [Placeholder]
    ensures detected.Some? ==> (Placeholder in PackageNames(detected) <==> Some(Placeholder) in detected.value)
    ensures detected == Some([]) ==> PackageNames(detected) == []
  {
  }

  /** Package names hold no newline when no detected name does. */
  lemma PackageNamesSingleLine(detected: Option<seq<Option<string>>>)
    requires detected.Some? ==> forall n :: Some(n) in detected.value ==> HasNoChar(n, '\n')
    ensures forall k :: 0 <= k < |PackageNames(detected)| ==> HasNoChar(PackageNames(detected)[k], '\n')
  {
    var pkgs := PackageNames(detected);
    if detected.None? {
      assert pkgs == [Placeholder];
      assert HasNoChar(Placeholder, '\n') by {
        forall i | 0 <= i < |Placeholder| ensures Placeholder[i] != '\n' {}
      }
    } else {
      forall k | 0 <= k < |pkgs| ensures HasNoChar(pkgs[k], '\n') {
        assert pkgs[k] in Named(detected.value);
      }
    }
  }

  /** Detected names keep their order: dropping nothing when every name is present and non-empty. */
  lemma {:induction false} NamedKeepsAll(names: seq<string>)
    requires forall k :: 0 <= k < |names| ==> names[k] != ""
    ensures Named(seq(|names|, k requires 0 <= k < |names| => Some(names[k]))) == names
    decreases |names|
  {
    if names != [] {
      var wrapped := seq(|names|, k requires 0 <= k < |names| => Some(names[k]));
      assert wrapped[1..] == seq(|names| - 1, k requires 0 <= k < |names| - 1 => Some(names[1..][k]));
      NamedKeepsAll(names[1..]);
      assert names == [names[0]] + names[1..];
    }
  }

  /** `"${pkg}": minor`. */
  function FrontmatterLine(pkg: string): string {
    "\"" + pkg + "\": minor"
  }

  function FrontmatterLines(pkgs: seq<string>): (r: seq<string>)
    ensures |r| == |pkgs| && forall k :: 0 <= k < |pkgs| ==> r[k] == FrontmatterLine(pkgs[k])
  {
    seq(|pkgs|, k requires 0 <= k < |pkgs| => FrontmatterLine(pkgs[k]))
  }

  /** The changeset file for the brief summary. */
  function ChangesetContent(pkgs: seq<string>, brief: string): string {
    "---\n" + Join(FrontmatterLines(pkgs), "\n") + "\n---\n\n" + brief + "\n"
  }

  lemma {:induction false} JoinConcat(a: seq<string>, b: seq<string>, sep: string)
    requires |a| >= 1 && |b| >= 1
    ensures Join(a + b, sep) == Join(a, sep) + sep + Join(b, sep)
    decreases |a|
  {
    if |a| == 1 {
      assert a + b == [a[0]] + b;
      JoinCons(a[0], b, sep);
    } else {
      assert a + b == [a[0]] + (a[1..] + b);
      JoinCons(a[0], a[1..] + b, sep);
      JoinConcat(a[1..], b, sep);
      JoinCons(a[0], a[1..], sep);
      assert [a[0]] + a[1..] == a;
    }
  }

  lemma FrontmatterLinesFree(pkgs: seq<string>)
    requires forall k :: 0 <= k < |pkgs| ==> HasNoChar(pkgs[k], '\n')
    ensures forall k :: 0 <= k < |pkgs| ==> HasNoChar(FrontmatterLines(pkgs)[k], '\n')
  {
    forall k | 0 <= k < |pkgs| ensures HasNoChar(FrontmatterLines(pkgs)[k], '\n') {
      NoNewlineConcat("\"", pkgs[k]);
      NoNewlineConcat("\"" + pkgs[k], "\": minor");
    }
  }

  /** The changeset file written as the join of its lines. */
  lemma ChangesetJoin(pkgs: seq<string>, brief: string, mid: seq<string>)
    requires mid == (if pkgs == [] then [""] else FrontmatterLines(pkgs))
    ensures Join(["---"] + mid + ["---", ""] + [brief + "\n"], "\n") == ChangesetContent(pkgs, brief)
  {
    var tail := ["---", "", brief + "\n"];
    MidJoin(pkgs, mid);
    TailJoin(brief, tail);
    JoinConcat(["---"] + mid, tail, "\n");
    JoinConcat(["---"], mid, "\n");
    assert ["---"] + mid + ["---", ""] + [brief + "\n"] == ["---"] + mid + tail;
    ContentRegroup(Join(FrontmatterLines(pkgs), "\n"), brief);
  }

  /** The changeset template and the joined lines are the same text, for any package lines and brief. */
  lemma ContentRegroup(lines: string, brief: string)
    ensures "---" + "\n" + lines + "\n" + ("---" + "\n" + ("" + "\n" + (brief + "\n")))
            == "---\n" + lines + "\n---\n\n" + brief + "\n"
  {
    assert "---" + "\n" == "---\n";
    assert "---" + "\n" + ("" + "\n" + (brief + "\n")) == "---\n\n" + brief + "\n";
    assert "\n" + ("---\n\n" + brief + "\n") == "\n---\n\n" + brief + "\n";
  }

  lemma MidJoin(pkgs: seq<string>, mid: seq<string>)
    requires mid == (if pkgs == [] then [""] else FrontmatterLines(pkgs))
    ensures Join(mid, "\n") == Join(FrontmatterLines(pkgs), "\n")
  {
  }

  lemma TailJoin(brief: string, tail: seq<string>)
    requires tail == ["---", "", brief + "\n"]
    ensures Join(tail, "\n") == "---" + "\n" + ("" + "\n" + (brief + "\n"))
  {
    JoinCons("---", ["", brief + "\n"], "\n");
    JoinCons("", [brief + "\n"], "\n");
  }

  /**
   * The lines of the changeset file: `---`, one line per package (a single empty line
   * when there are none), `---`, an empty line, then the brief summary's lines.
   */
  lemma ChangesetLines(pkgs: seq<string>, brief: string)
    requires forall k :: 0 <= k < |pkgs| ==> HasNoChar(pkgs[k], '\n')
    ensures Split(ChangesetContent(pkgs, brief), "\n") ==
            ["---"] + (if pkgs == [] then [""] else FrontmatterLines(pkgs)) + ["---", ""] + Split(brief + "\n", "\n")
  {
    var mid := if pkgs == [] then [""] else FrontmatterLines(pkgs);
    ChangesetJoin(pkgs, brief, mid);
    HeadLinesFree(pkgs, mid);
    SplitJoinPrefixChar(["---"] + mid + ["---", ""], brief + "\n", '\n');
  }

  /** The lines before the brief summary hold no newline. */
  lemma HeadLinesFree(pkgs: seq<string>, mid: seq<string>)
    requires forall k :: 0 <= k < |pkgs| ==> HasNoChar(pkgs[k], '\n')
    requires mid == (if pkgs == [] then [""] else FrontmatterLines(pkgs))
    ensures var parts := ["---"] + mid + ["---", ""];
      forall k :: 0 <= k < |parts| ==> HasNoChar(parts[k], '\n')
  {
    var parts := ["---"] + mid + ["---", ""];
    FrontmatterLinesFree(pkgs);
    forall k | 0 <= k < |parts| ensures HasNoChar(parts[k], '\n') {
      if 1 <= k <= |mid| { assert parts[k] == mid[k - 1]; }
    }
  }
}
