/**
 * The legacy generator (`generateChangesetSummary` of the older script): the commit
 * chunks carry a hash, a subject and a body; every subject is filed under one of
 * eighteen categories, and the first commit that would go to the missing `other`
 * category ends the run with an exception. The summary has no contributors section,
 * and the changeset file carries only the first three paragraphs of the summary.
 * Git's output and the package detection are parameters.
 */
module LegacyGenerator {
  import opened Outcomes
  import opened Text
  import opened GitLog
  import opened CommitHeader
  import opened Categories
  import opened Classify
  import opened DiffStat
  import opened Changeset
  import opened CurrentGenerator

  // ---------------------------------------------------------------------
  // Filing the commits

  /** The commits the loop looks at: the chunks with at least two lines, in order. */
  function ProcessedLegacy(chunks: seq<string>): (cs: seq<LegacyCommit>)
    ensures |cs| <= |chunks|
    decreases |chunks|
  {
    if chunks == [] then []
    else
      var pre := ProcessedLegacy(chunks[..|chunks| - 1]);
      match ParseLegacyCommit(chunks[|chunks| - 1])
      case None => pre
      case Some(c) => pre + [c]
  }

  /** The loop keeps the chunks' order: a concatenation records the commits of each part in turn. */
  lemma {:induction false} ProcessedLegacyAppend(a: seq<string>, b: seq<string>)
    ensures ProcessedLegacy(a + b) == ProcessedLegacy(a) + ProcessedLegacy(b)
    decreases |b|
  {
    if b == [] {
      assert a + b == a;
    } else {
      var init := b[..|b| - 1];
      assert (a + b)[..|a + b| - 1] == a + init;
      assert (a + b)[|a + b| - 1] == b[|b| - 1];
      ProcessedLegacyAppend(a, init);
    }
  }

  /** How each chunk reads, in order. */
  function LegacyReads(chunks: seq<string>): (r: seq<Option<LegacyCommit>>)
    ensures |r| == |chunks| && forall k :: 0 <= k < |chunks| ==> r[k] == ParseLegacyCommit(chunks[k])
  {
    seq(|chunks|, k requires 0 <= k < |chunks| => ParseLegacyCommit(chunks[k]))
  }

  /** The loop records the commits that the chunks read as, in order. */
  lemma {:induction false} ProcessedLegacyReads(chunks: seq<string>)
    ensures ProcessedLegacy(chunks) == Somes(LegacyReads(chunks))
    decreases |chunks|
  {
    if chunks != [] {
      var n := |chunks| - 1;
      ProcessedLegacyReads(chunks[..n]);
      ProcessedLegacyLast(chunks);
      assert LegacyReads(chunks)[..n] == LegacyReads(chunks[..n]);
    }
  }

  /** A commit is recorded iff some chunk reads as it: every chunk with enough lines is kept, and nothing else. */
  lemma ProcessedLegacyMembers(chunks: seq<string>, c: LegacyCommit)
    ensures c in ProcessedLegacy(chunks) <==> exists k :: 0 <= k < |chunks| && ParseLegacyCommit(chunks[k]) == Some(c)
  {
    ProcessedLegacyReads(chunks);
    SomesMembers(LegacyReads(chunks), c);
  }

  /** The last chunk adds its commit, if it reads as one, to those of the chunks before it. */
  lemma ProcessedLegacyLast(chunks: seq<string>)
    requires chunks != []
    ensures var n := |chunks| - 1;
      ProcessedLegacy(chunks) == ProcessedLegacy(chunks[..n]) + (match ParseLegacyCommit(chunks[n]) case None => [] case Some(c) => [c])
  {
    var n := |chunks| - 1;
    assert chunks[..n + 1] == chunks;
    match ParseLegacyCommit(chunks[n])
    case None => LegacyProcessedSkip(chunks, n);
    case Some(c) => LegacyProcessedTake(chunks, n, c);
  }

  /** When every chunk reads as a commit, the loop records exactly those commits, in order. */
  lemma {:induction false} ProcessedLegacyAllRead(chunks: seq<string>, cs: seq<LegacyCommit>)
    requires |chunks| == |cs| && forall i :: 0 <= i < |cs| ==> ParseLegacyCommit(chunks[i]) == Some(cs[i])
    ensures ProcessedLegacy(chunks) == cs
    decreases |chunks|
  {
    if chunks != [] {
      var n := |chunks| - 1;
      forall i | 0 <= i < n ensures ParseLegacyCommit(chunks[..n][i]) == Some(cs[..n][i]) {
        assert chunks[..n][i] == chunks[i];
      }
      ProcessedLegacyAllRead(chunks[..n], cs[..n]);
      ProcessedLegacyLast(chunks);
      TakeOneMore(cs, n);
      TakeAll(cs);
    }
  }

  /** Formatting well-formed commits as a log and reading it back processes the same commits, in order, with their bodies trimmed. */
  lemma ProcessedLegacyRoundTrip(cs: seq<LegacyCommit>)
    requires forall i :: 0 <= i < |cs| ==> WellFormed(LegacyEntry(cs[i]), 2)
    ensures ProcessedLegacy(Chunks(FormatLog(seq(|cs|, i requires 0 <= i < |cs| => LegacyEntry(cs[i]))))) ==
      seq(|cs|, i requires 0 <= i < |cs| => LegacyAsRead(cs[i]))
  {
    LegacyLogRoundTrip(cs);
    ProcessedLegacyAllRead(Chunks(FormatLog(seq(|cs|, i requires 0 <= i < |cs| => LegacyEntry(cs[i])))),
      seq(|cs|, i requires 0 <= i < |cs| => LegacyAsRead(cs[i])));
  }


  function LegacyRouteOf(c: LegacyCommit): Result<Routed, Crash> {
    RouteLegacy(c.subject, c.body)
  }

  /** The routes of the commits, in order, each a category and entry or the failure it raises. */
  function LegacyRoutes(cs: seq<LegacyCommit>): (r: seq<Result<Routed, Crash>>)
    ensures |r| == |cs| && forall k :: 0 <= k < |cs| ==> r[k] == LegacyRouteOf(cs[k])
  {
    seq(|cs|, k requires 0 <= k < |cs| => LegacyRouteOf(cs[k]))
  }

  /** The values of the steps, first to last, or the failure of the first step that fails. */
  function Collect<T, E>(xs: seq<Result<T, E>>): Result<seq<T>, E>
    decreases |xs|
  {
    if xs == [] then Ok([])
    else
      match Collect(xs[..|xs| - 1])
      case Failure(e) => Failure(e)
      case Ok(vs) =>
        match xs[|xs| - 1]
        case Failure(e) => Failure(e)
        case Ok(v) => Ok(vs + [v])
  }

  /** Where the commits go, first to last, or the failure of the first one that cannot be filed. */
  function FileAll(cs: seq<LegacyCommit>): Result<seq<Routed>, Crash> {
    Collect(LegacyRoutes(cs))
  }

  /** A filed commit goes to one of the eighteen declared categories, never to `other`. */
  lemma LegacyRouteNamed(c: LegacyCommit)
    requires LegacyRouteOf(c).Ok?
    ensures LegacyRouteOf(c).value.category in LegacyOrder && LegacyRouteOf(c).value.category != Other
  {
    LegacyOrderLacksOther();
  }

  /** The commit a failure names: `categories.other` is read while filing that commit's subject. */
  lemma LegacyRouteFailure(c: LegacyCommit)
    requires LegacyRouteOf(c).Failure?
    ensures LegacyRouteOf(c).error == MissingOther(c.subject)
  {
  }

  /**
   * Collecting succeeds exactly when every step succeeds, and then yields each step's
   * value in order; otherwise it fails with the error of the first step that fails.
   */
  lemma {:induction false} CollectCharacterized<T, E>(xs: seq<Result<T, E>>)
    ensures Collect(xs).Ok? <==> forall k :: 0 <= k < |xs| ==> xs[k].Ok?
    ensures Collect(xs).Ok? ==>
      |Collect(xs).value| == |xs| && forall k :: 0 <= k < |xs| ==> Collect(xs).value[k] == xs[k].value
    ensures Collect(xs).Failure? ==>
      exists k :: 0 <= k < |xs| && xs[k] == Failure(Collect(xs).error) && forall j :: 0 <= j < k ==> xs[j].Ok?
    decreases |xs|
  {
    if xs != [] {
      var init := xs[..|xs| - 1];
      CollectCharacterized(init);
      assert forall k :: 0 <= k < |init| ==> init[k] == xs[k];
      match Collect(init)
      case Failure(e) =>
        var k :| 0 <= k < |init| && init[k] == Failure(e) && forall j :: 0 <= j < k ==> init[j].Ok?;
        assert xs[k] == Failure(e);
      case Ok(vs) =>
        match xs[|xs| - 1]
        case Failure(e) =>
        case Ok(v) =>
          assert forall k :: 0 <= k < |vs| ==> (vs + [v])[k] == vs[k];
    }
  }

  /**
   * Filing succeeds exactly when every commit can be filed, and then yields each
   * commit's route in order; otherwise it fails with the error of the first commit
   * that cannot be filed.
   */
  lemma FileAllCharacterized(cs: seq<LegacyCommit>)
    ensures FileAll(cs).Ok? <==> forall k :: 0 <= k < |cs| ==> LegacyRouteOf(cs[k]).Ok?
    ensures FileAll(cs).Ok? ==>
      |FileAll(cs).value| == |cs| && forall k :: 0 <= k < |cs| ==> FileAll(cs).value[k] == LegacyRouteOf(cs[k]).value
    ensures FileAll(cs).Failure? ==>
      exists k :: 0 <= k < |cs| && LegacyRouteOf(cs[k]) == Failure(FileAll(cs).error)
                  && forall j :: 0 <= j < k ==> LegacyRouteOf(cs[j]).Ok?
  {
    CollectCharacterized(LegacyRoutes(cs));
  }

  /** One failed step ends the collection: the steps after it are never looked at. */
  lemma CollectFailureStays<T, E>(xs: seq<Result<T, E>>, x: Result<T, E>)
    requires Collect(xs).Failure?
    ensures Collect(xs + [x]) == Collect(xs)
  {
    assert (xs + [x])[..|xs|] == xs;
  }

  lemma CollectSnoc<T, E>(xs: seq<Result<T, E>>, x: Result<T, E>)
    requires Collect(xs).Ok?
    ensures Collect(xs + [x]) == match x
      case Failure(e) => Failure(e)
      case Ok(v) => Ok(Collect(xs).value + [v])
  {
    assert (xs + [x])[..|xs|] == xs;
  }

  lemma LegacyRoutesSnoc(cs: seq<LegacyCommit>, c: LegacyCommit)
    ensures LegacyRoutes(cs + [c]) == LegacyRoutes(cs) + [LegacyRouteOf(c)]
  {
  }

  /** A failure stays: the commits after the first one that cannot be filed are never reached. */
  lemma FileAllFailureStays(cs: seq<LegacyCommit>, c: LegacyCommit)
    requires FileAll(cs).Failure?
    ensures FileAll(cs + [c]) == FileAll(cs)
  {
    LegacyRoutesSnoc(cs, c);
    CollectFailureStays(LegacyRoutes(cs), LegacyRouteOf(c));
  }

  lemma FileAllSnoc(cs: seq<LegacyCommit>, c: LegacyCommit)
    requires FileAll(cs).Ok?
    ensures FileAll(cs + [c]) == match LegacyRouteOf(c)
      case Failure(e) => Failure(e)
      case Ok(r) => Ok(FileAll(cs).value + [r])
  {
    LegacyRoutesSnoc(cs, c);
    CollectSnoc(LegacyRoutes(cs), LegacyRouteOf(c));
  }

  lemma {:induction false} FailureSticks(chunks: seq<string>, j: nat)
    requires j <= |chunks| && FileAll(ProcessedLegacy(chunks[..j])).Failure?
    ensures FileAll(ProcessedLegacy(chunks)) == FileAll(ProcessedLegacy(chunks[..j]))
    decreases |chunks|
  {
    if j < |chunks| {
      var init := chunks[..|chunks| - 1];
      assert init[..j] == chunks[..j];
      FailureSticks(init, j);
      match ParseLegacyCommit(chunks[|chunks| - 1])
      case None =>
      case Some(c) => FileAllFailureStays(ProcessedLegacy(init), c);
    } else {
      assert chunks[..j] == chunks;
    }
  }

  lemma LegacyProcessedSkip(chunks: seq<string>, i: nat)
    requires i < |chunks| && ParseLegacyCommit(chunks[i]).None?
    ensures ProcessedLegacy(chunks[..i + 1]) == ProcessedLegacy(chunks[..i])
  {
    assert chunks[..i + 1][..i] == chunks[..i];
  }

  lemma LegacyProcessedTake(chunks: seq<string>, i: nat, c: LegacyCommit)
    requires i < |chunks| && ParseLegacyCommit(chunks[i]) == Some(c)
    ensures ProcessedLegacy(chunks[..i + 1]) == ProcessedLegacy(chunks[..i]) + [c]
  {
    assert chunks[..i + 1][..i] == chunks[..i];
  }

  // ---------------------------------------------------------------------
  // The category lists

  /** The category lists hold, by declaration position, the entries routed to each category. */
  ghost predicate LegacyFiling(buckets: seq<seq<string>>, rs: seq<Routed>) {
    |buckets| == |LegacyOrder| && forall p :: 0 <= p < |LegacyOrder| ==> buckets[p] == EntriesIn(rs, LegacyOrder[p])
  }

  lemma PositionInLegacyOrder(c: Category)
    requires c != Other
    ensures Position(c) < |LegacyOrder| && LegacyOrder[Position(c)] == c
  {
  }

  lemma LegacyOrderPosition(i: nat)
    requires i < |LegacyOrder|
    ensures Position(LegacyOrder[i]) == i
  {
  }

  /** The eighteen `commits` arrays of the legacy `categories` object. */
  class Ledger {
    var buckets: seq<seq<string>>

    constructor ()
      ensures buckets == seq(|LegacyOrder|, _ => [])
    {
      buckets := seq(|LegacyOrder|, _ => []);
    }

    /** `categories[type].commits.push(entry)`. */
    method Push(c: Category, entry: string)
      requires c != Other && |buckets| == |LegacyOrder|
      modifies this
      ensures buckets == old(buckets)[Position(c) := old(buckets)[Position(c)] + [entry]]
    {
      PositionInLegacyOrder(c);
      buckets := buckets[Position(c) := buckets[Position(c)] + [entry]];
    }
  }

  lemma LegacyFilingEmpty()
    ensures LegacyFiling(seq(|LegacyOrder|, _ => []), [])
  {
  }

  /** Pushing a filed entry onto its category's list keeps the lists in step with the routes. */
  lemma LegacyFilingSnoc(buckets: seq<seq<string>>, rs: seq<Routed>, r: Routed)
    requires LegacyFiling(buckets, rs) && r.category != Other
    ensures LegacyFiling(buckets[Position(r.category) := buckets[Position(r.category)] + [r.entry]], rs + [r])
  {
    PositionInLegacyOrder(r.category);
    forall p | 0 <= p < |LegacyOrder|
      ensures buckets[Position(r.category) := buckets[Position(r.category)] + [r.entry]][p]
              == EntriesIn(rs + [r], LegacyOrder[p])
    {
      EntriesInSnoc(rs, r, LegacyOrder[p]);
      LegacyOrderPosition(p);
    }
  }

  /**
   * The body of the `forEach` callback for a commit with at least two lines: file it, or
   * return the error `categories.other` raises.
   */
  method FileCommit(ledger: Ledger, c: LegacyCommit, ghost done: seq<LegacyCommit>) returns (crash: Option<Crash>)
    requires FileAll(done).Ok? && LegacyFiling(ledger.buckets, FileAll(done).value)
    modifies ledger
    ensures crash.None? <==> FileAll(done + [c]).Ok?
    ensures crash.Some? ==> FileAll(done + [c]) == Failure(crash.value)
    ensures crash.None? ==> LegacyFiling(ledger.buckets, FileAll(done + [c]).value)
  {
    FileAllSnoc(done, c);
    var routed := LegacyRouteOf(c);
    match routed {
      case Failure(e) =>
        crash := Some(e);
      case Ok(r) =>
        LegacyRouteNamed(c);
        LegacyFilingSnoc(ledger.buckets, FileAll(done).value, r);
        ledger.Push(r.category, r.entry);
        crash := None;
    }
  }

  /**
   * `commits.forEach(…)`: files every commit and stops at the first one that cannot be
   * filed, whose error it returns; otherwise each category holds the entries routed to it.
   */
  method FileCommits(chunks: seq<string>) returns (ledger: Ledger, crash: Option<Crash>)
    ensures fresh(ledger)
    ensures crash.None? <==> FileAll(ProcessedLegacy(chunks)).Ok?
    ensures crash.Some? ==> FileAll(ProcessedLegacy(chunks)) == Failure(crash.value)
    ensures crash.None? ==> LegacyFiling(ledger.buckets, FileAll(ProcessedLegacy(chunks)).value)
  {
    ledger := new Ledger();
    LegacyFilingEmpty();
    var i := 0;
    while i < |chunks|
      invariant 0 <= i <= |chunks|
      invariant FileAll(ProcessedLegacy(chunks[..i])).Ok?
      invariant LegacyFiling(ledger.buckets, FileAll(ProcessedLegacy(chunks[..i])).value)
    {
      var parsed := ParseLegacyCommit(chunks[i]);
      match parsed {
        case None =>
          LegacyProcessedSkip(chunks, i);
        case Some(commit) =>
          LegacyProcessedTake(chunks, i, commit);
          var failed := FileCommit(ledger, commit, ProcessedLegacy(chunks[..i]));
          if failed.Some? {
            FailureSticks(chunks, i + 1);
            crash := failed;
            return;
          }
      }
      i := i + 1;
    }
    crash := None;
    assert chunks[..|chunks|] == chunks;
  }

  /** Every filed commit appears exactly once among the eighteen lists. */
  lemma {:induction false} LegacyEveryCommitFiledOnce(rs: seq<Routed>)
    requires forall k :: 0 <= k < |rs| ==> rs[k].category != Other
    ensures Tally(rs, LegacyOrder) == |rs|
    decreases |rs|
  {
    if rs == [] {
      TallyEmpty(LegacyOrder);
    } else {
      var init := rs[..|rs| - 1];
      var last := rs[|rs| - 1];
      LegacyEveryCommitFiledOnce(init);
      assert rs == init + [last];
      TallySnoc(init, last, LegacyOrder);
      LegacyOrderLacksOther();
      HitsOnce(LegacyOrder, last.category);
    }
  }

  // ---------------------------------------------------------------------
  // The summary text

  /** The separator of paragraphs, at which the brief summary is cut. */
  const ParagraphBreak: string := "\n\n"

  const HeadingLine: string := "# Initial Release v0.1.0"
  const OverviewTitle: string := "## Overview"

  const StableVersion: string :=
    "This release represents the " + "initial stable version of the " + "project, incorporating all "
    + "development work to date. "
  const Foundation: string :=
    "It establishes the foundation " + "for future enhancements and " + "includes the core functionality "
    + "required for production use."
  const LegacyIntro: string := StableVersion + Foundation + ParagraphBreak

  const LegacyOverviewClosing: string :=
    "The changes span multiple areas of the codebase and represent the complete implementation of the initial feature set.\n\n"

  const LegacyReviewers: string :=
    "## For Reviewers\n\n"
    + "When reviewing this initial release, please consider:\n\n"
    + "- Overall architecture and code organization\n"
    + "- Completeness of the feature set\n"
    + "- Documentation quality\n"
    + "- Test coverage\n"
    + "- Performance considerations\n\n"

  /** The overview paragraph with the three numbers read from the stat text. */
  function LegacyOverview(files: string, insertions: string, deletions: string): string {
    OverviewHeading + OverviewParagraph(files, insertions, deletions)
  }

  function OverviewParagraph(files: string, insertions: string, deletions: string): string {
    ChangesAcross + files + FilesWith + insertions + AdditionsAnd + deletions + DeletionsEnd + LegacyOverviewClosing
  }

  /** A category's block: its title and its entries, or nothing when it has none. */
  function Block(c: Category, entries: seq<string>): string {
    if |entries| > 0 then SectionTitle(c) + Join(entries, "\n") + "\n\n" else ""
  }

  /** The blocks of the first `n` categories of the legacy declaration. */
  function LegacyBlocks(rs: seq<Routed>, n: nat): string
    requires n <= |LegacyOrder|
    decreases n
  {
    if n == 0 then ""
    else LegacyBlocks(rs, n - 1) + Block(LegacyOrder[n - 1], EntriesIn(rs, LegacyOrder[n - 1]))
  }

  /** The whole legacy summary for the filed commits, the chunk count and the stat text. */
  function LegacySummaryText(rs: seq<Routed>, commitCount: nat, fileStats: string): string {
    var overview := LegacyOverview(CountText(fileStats, FilesChanged), CountText(fileStats, Insertions),
                                   CountText(fileStats, Deletions));
    Heading + LegacyIntro + overview + LegacyBlocks(rs, |LegacyOrder|)
    + TechnicalDetails(commitCount, fileStats) + LegacyReviewers
  }

  lemma BlocksStep(rs: seq<Routed>, p: nat, entries: seq<string>)
    requires p < |LegacyOrder| && entries == EntriesIn(rs, LegacyOrder[p])
    ensures LegacyBlocks(rs, p + 1) == LegacyBlocks(rs, p) + Block(LegacyOrder[p], entries)
  {
  }

  lemma AppendBlock(start: string, blocks: string, title: string, body: string)
    ensures start + blocks + title + body + "\n\n" == start + (blocks + (title + body + "\n\n"))
  {
  }

  /** The `for (const [category, commits] of Object.entries(categories))` loop: one block per non-empty category. */
  method AppendBlocks(ledger: Ledger, ghost rs: seq<Routed>, start: string) returns (summary: string)
    requires LegacyFiling(ledger.buckets, rs)
    ensures summary == start + LegacyBlocks(rs, |LegacyOrder|)
  {
    summary := start;
    for p := 0 to |LegacyOrder|
      invariant summary == start + LegacyBlocks(rs, p)
    {
      var category := LegacyOrder[p];
      var entries := ledger.buckets[p];
      BlocksStep(rs, p, entries);
      if |entries| > 0 {
        AppendBlock(start, LegacyBlocks(rs, p), SectionTitle(category), Join(entries, "\n"));
        summary := summary + SectionTitle(category);
        summary := summary + Join(entries, "\n");
        summary := summary + "\n\n";
      }
    }
  }

  /** The summary, appended piece by piece as the script does, with one block per non-empty category. */
  method BuildLegacySummary(ledger: Ledger, ghost rs: seq<Routed>, commitCount: nat, fileStats: string)
    returns (summary: string)
    requires LegacyFiling(ledger.buckets, rs)
    ensures summary == LegacySummaryText(rs, commitCount, fileStats)
  {
    summary := Heading;
    summary := summary + LegacyIntro;
    var fileCount := CountText(fileStats, FilesChanged);
    var insertions := CountText(fileStats, Insertions);
    var deletions := CountText(fileStats, Deletions);
    summary := summary + LegacyOverview(fileCount, insertions, deletions);
    summary := AppendBlocks(ledger, rs, summary);
    summary := summary + TechnicalDetails(commitCount, fileStats);
    summary := summary + LegacyReviewers;
  }

  // ---------------------------------------------------------------------
  // The brief summary

  /** `summary.split('\n\n').slice(0, 3).join('\n\n')`. */
  function Brief(summary: string): string {
    var parts := Split(summary, ParagraphBreak);
    Join(parts[..if |parts| < 3 then |parts| else 3], ParagraphBreak)
  }

  /** A paragraph without a newline is cut off whole at the first paragraph break after it. */
  lemma ParagraphCons(a: string, rest: string)
    requires HasNoChar(a, '\n')
    ensures Split(a + ParagraphBreak + rest, ParagraphBreak) == [a] + Split(rest, ParagraphBreak)
  {
    var s := a + ParagraphBreak + rest;
    forall k | 0 <= k < |a| ensures !OccursAt(s, ParagraphBreak, k) {
      assert s[k] == a[k];
      assert s[k..k + 2][0] == s[k];
    }
    SplitCons(a, ParagraphBreak, rest);
  }

  lemma SplitThree(a: string, b: string, c: string, tail: string)
    requires HasNoChar(a, '\n') && HasNoChar(b, '\n') && HasNoChar(c, '\n')
    ensures Split(a + ParagraphBreak + b + ParagraphBreak + c + ParagraphBreak + tail, ParagraphBreak)
            == [a, b, c] + Split(tail, ParagraphBreak)
  {
    var sep := ParagraphBreak;
    assert a + sep + b + sep + c + sep + tail == a + sep + (b + sep + (c + sep + tail));
    ParagraphCons(a, b + sep + (c + sep + tail));
    ParagraphCons(b, c + sep + tail);
    ParagraphCons(c, tail);
    assert [a] + ([b] + ([c] + Split(tail, sep))) == [a, b, c] + Split(tail, sep);
  }

  lemma JoinThree(a: string, b: string, c: string)
    ensures Join([a, b, c], ParagraphBreak) == a + ParagraphBreak + b + ParagraphBreak + c
  {
    JoinCons(a, [b, c], ParagraphBreak);
    assert [a] + [b, c] == [a, b, c];
    JoinCons(b, [c], ParagraphBreak);
    assert [b] + [c] == [b, c];
  }

  /** Three newline-free paragraphs at the head of a text are its brief. */
  lemma BriefOfThree(a: string, b: string, c: string, tail: string)
    requires HasNoChar(a, '\n') && HasNoChar(b, '\n') && HasNoChar(c, '\n')
    ensures Brief(a + ParagraphBreak + b + ParagraphBreak + c + ParagraphBreak + tail)
            == a + ParagraphBreak + b + ParagraphBreak + c
  {
    SplitThree(a, b, c, tail);
    var parts := [a, b, c] + Split(tail, ParagraphBreak);
    assert parts[..3] == [a, b, c];
    JoinThree(a, b, c);
  }

  lemma IntroLacksNewline()
    ensures HasNoChar(HeadingLine, '\n') && HasNoChar(OverviewTitle, '\n')
    ensures HasNoChar(StableVersion + Foundation, '\n')
  {
    StableVersionLacksNewline();
    FoundationLacksNewline();
    NoNewlineConcat(StableVersion, Foundation);
  }

  lemma StableVersionLacksNewline()
    ensures HasNoChar(StableVersion, '\n')
  {
    NoNewlineConcat("This release represents the ", "initial stable version of the ");
    NoNewlineConcat("This release represents the " + "initial stable version of the ", "project, incorporating all ");
    NoNewlineConcat("This release represents the " + "initial stable version of the " + "project, incorporating all ",
                    "development work to date. ");
  }

  lemma FoundationLacksNewline()
    ensures HasNoChar(Foundation, '\n')
  {
    NoNewlineConcat("It establishes the foundation ", "for future enhancements and ");
    NoNewlineConcat("It establishes the foundation " + "for future enhancements and ", "includes the core functionality ");
    NoNewlineConcat("It establishes the foundation " + "for future enhancements and " + "includes the core functionality ",
                    "required for production use.");
  }

  /** The brief summary the legacy changeset carries: the title, the introduction and the Overview heading. */
  const LegacyBriefText: string := HeadingLine + ParagraphBreak + (StableVersion + Foundation) + ParagraphBreak + OverviewTitle

  /** The brief never depends on the commits or the stat text: it is always the same three paragraphs. */
  lemma LegacyBriefFixed(rs: seq<Routed>, commitCount: nat, fileStats: string)
    ensures Brief(LegacySummaryText(rs, commitCount, fileStats)) == LegacyBriefText
  {
    var paragraph := OverviewParagraph(CountText(fileStats, FilesChanged), CountText(fileStats, Insertions),
                                       CountText(fileStats, Deletions));
    var blocks, details := LegacyBlocks(rs, |LegacyOrder|), TechnicalDetails(commitCount, fileStats);
    HeadingsSplit();
    Regroup(HeadingLine, StableVersion + Foundation, OverviewTitle, ParagraphBreak, paragraph, blocks, details,
            LegacyReviewers);
    IntroLacksNewline();
    BriefOfThree(HeadingLine, StableVersion + Foundation, OverviewTitle, paragraph + blocks + details + LegacyReviewers);
  }

  lemma HeadingsSplit()
    ensures Heading == HeadingLine + ParagraphBreak && OverviewHeading == OverviewTitle + ParagraphBreak
  {
  }

  lemma Regroup(a: string, b: string, c: string, sep: string, p: string, x: string, y: string, z: string)
    ensures (a + sep) + (b + sep) + ((c + sep) + p) + x + y + z == a + sep + b + sep + c + sep + (p + x + y + z)
  {
  }

  // ---------------------------------------------------------------------
  // The whole run

  /** The two files: the full summary and the changeset file. */
  datatype LegacyReport = LegacyReport(summary: string, changeset: string)

  /**
   * The result of a run: the files, or the exception that ends it. `commits.length`
   * counts every non-blank chunk, also those skipped for having fewer than two lines.
   */
  function LegacyRun(commitLog: string, rawStat: string, detected: Option<seq<Option<string>>>): Result<LegacyReport, Crash> {
    var chunks := Chunks(commitLog);
    match FileAll(ProcessedLegacy(chunks))
    case Failure(e) => Failure(e)
    case Ok(rs) =>
      var summary := LegacySummaryText(rs, |chunks|, Trim(rawStat));
      Ok(LegacyReport(summary, ChangesetContent(PackageNames(detected), Brief(summary))))
  }

  /** The script's steps, in order. */
  method GenerateLegacy(commitLog: string, rawStat: string, detected: Option<seq<Option<string>>>)
    returns (out: Result<LegacyReport, Crash>)
    ensures out == LegacyRun(commitLog, rawStat, detected)
  {
    var fileStats := Trim(rawStat);
    var commits := Chunks(commitLog);
    var ledger, crash := FileCommits(commits);
    if crash.Some? {
      return Failure(crash.value);
    }
    var summary := BuildLegacySummary(ledger, FileAll(ProcessedLegacy(commits)).value, |commits|, fileStats);
    var brief := Brief(summary);
    var packageNames := PackageNames(detected);
    out := Ok(LegacyReport(summary, ChangesetContent(packageNames, brief)));
  }

  /**
   * A run fails exactly when some processed commit cannot be filed; the exception names
   * the subject of the first such commit.
   */
  lemma LegacyRunFails(commitLog: string, rawStat: string, detected: Option<seq<Option<string>>>)
    ensures var cs := ProcessedLegacy(Chunks(commitLog));
      && (LegacyRun(commitLog, rawStat, detected).Failure? <==>
          exists k :: 0 <= k < |cs| && LegacyRouteOf(cs[k]).Failure?)
      && (LegacyRun(commitLog, rawStat, detected).Failure? ==>
          exists k :: 0 <= k < |cs| && LegacyRun(commitLog, rawStat, detected).error == MissingOther(cs[k].subject)
                      && LegacyRouteOf(cs[k]).Failure? && forall j :: 0 <= j < k ==> LegacyRouteOf(cs[j]).Ok?)
  {
    var cs := ProcessedLegacy(Chunks(commitLog));
    LegacyRunFailure(commitLog, rawStat, detected);
    FileAllCharacterized(cs);
    if FileAll(cs).Failure? {
      var k :| 0 <= k < |cs| && LegacyRouteOf(cs[k]) == Failure(FileAll(cs).error)
               && forall j :: 0 <= j < k ==> LegacyRouteOf(cs[j]).Ok?;
      LegacyRouteFailure(cs[k]);
    }
  }

  /**
   * A commit stops the run exactly when no reading of its subject has a type other than
   * empty or `other`: unconventional subjects, `(scope): …`, `: …` and `other: …`.
   */
  lemma LegacyCrashCause(c: LegacyCommit)
    ensures LegacyRouteOf(c).Failure? <==>
            forall h :: Decomposes(LegacyKeywords, c.subject, h) ==> h.typeText == "" || ToLowerAscii(h.typeText) == "other"
  {
    LegacyFailsIff(c.subject, c.body);
  }

  /**
   * A run that succeeds lists every processed commit once among the category blocks,
   * and its changeset file carries the fixed brief.
   */
  lemma LegacyRunSucceeds(commitLog: string, rawStat: string, detected: Option<seq<Option<string>>>)
    requires LegacyRun(commitLog, rawStat, detected).Ok?
    ensures var cs := ProcessedLegacy(Chunks(commitLog));
      && FileAll(cs).Ok? && Tally(FileAll(cs).value, LegacyOrder) == |cs|
      && LegacyRun(commitLog, rawStat, detected).value.changeset
         == ChangesetContent(PackageNames(detected), LegacyBriefText)
  {
    var cs := ProcessedLegacy(Chunks(commitLog));
    LegacyRunOk(commitLog, rawStat, detected);
    var rs := FileAll(cs).value;
    FiledNamed(cs);
    LegacyEveryCommitFiledOnce(rs);
    LegacyBriefFixed(rs, |Chunks(commitLog)|, Trim(rawStat));
  }

  lemma LegacyRunFailure(commitLog: string, rawStat: string, detected: Option<seq<Option<string>>>)
    ensures LegacyRun(commitLog, rawStat, detected).Failure? <==> FileAll(ProcessedLegacy(Chunks(commitLog))).Failure?
    ensures LegacyRun(commitLog, rawStat, detected).Failure? ==>
              LegacyRun(commitLog, rawStat, detected).error == FileAll(ProcessedLegacy(Chunks(commitLog))).error
  {
  }

  lemma LegacyRunOk(commitLog: string, rawStat: string, detected: Option<seq<Option<string>>>)
    requires LegacyRun(commitLog, rawStat, detected).Ok?
    ensures FileAll(ProcessedLegacy(Chunks(commitLog))).Ok?
    ensures var summary := LegacySummaryText(FileAll(ProcessedLegacy(Chunks(commitLog))).value, |Chunks(commitLog)|, Trim(rawStat));
      LegacyRun(commitLog, rawStat, detected).value.changeset == ChangesetContent(PackageNames(detected), Brief(summary))
  {
  }

  /** Every commit filed by a run that completes went to one of the legacy categories. */
  lemma FiledNamed(cs: seq<LegacyCommit>)
    requires FileAll(cs).Ok?
    ensures |FileAll(cs).value| == |cs|
    ensures forall k :: 0 <= k < |FileAll(cs).value| ==> FileAll(cs).value[k].category != Other
  {
    FileAllCharacterized(cs);
    var rs := FileAll(cs).value;
    forall k | 0 <= k < |rs| ensures rs[k].category != Other {
      LegacyRouteNamed(cs[k]);
    }
  }
}
