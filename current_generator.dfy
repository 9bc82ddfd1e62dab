/**
 * The current generator (`generateChangesetSummary` of the current script): one pass over
 * the commit chunks records contributors and files every subject under a category, then
 * the summary is assembled section by section, and from it the changeset file and the
 * metadata record. Git's output, the package detection, the clock and the random
 * changeset id are parameters.
 */
module CurrentGenerator {
  import opened Outcomes
  import opened Text
  import opened GitLog
  import opened CoAuthors
  import opened Contributors
  import opened Categories
  import opened Classify
  import opened DiffStat
  import opened EmailMask
  import opened Changeset

  // ---------------------------------------------------------------------
  // What the commit loop records

  /** The commits the loop records: the chunks with at least four lines, in order. */
  function Processed(chunks: seq<string>): (cs: seq<Commit>)
    ensures |cs| <= |chunks|
    decreases |chunks|
  {
    if chunks == [] then []
    else
      var pre := Processed(chunks[..|chunks| - 1]);
      match ParseCommit(chunks[|chunks| - 1])
      case None => pre
      case Some(c) => pre + [c]
  }

  /** The loop keeps the chunks' order: a concatenation records the commits of each part in turn. */
  lemma {:induction false} ProcessedAppend(a: seq<string>, b: seq<string>)
    ensures Processed(a + b) == Processed(a) + Processed(b)
    decreases |b|
  {
    if b == [] {
      assert a + b == a;
    } else {
      var init := b[..|b| - 1];
      assert (a + b)[..|a + b| - 1] == a + init;
      assert (a + b)[|a + b| - 1] == b[|b| - 1];
      ProcessedAppend(a, init);
    }
  }

  /** How each chunk reads, in order. */
  function Reads(chunks: seq<string>): (r: seq<Option<Commit>>)
    ensures |r| == |chunks| && forall k :: 0 <= k < |chunks| ==> r[k] == ParseCommit(chunks[k])
  {
    seq(|chunks|, k requires 0 <= k < |chunks| => ParseCommit(chunks[k]))
  }

  /** The loop records the commits that the chunks read as, in order. */
  lemma {:induction false} ProcessedReads(chunks: seq<string>)
    ensures Processed(chunks) == Somes(Reads(chunks))
    decreases |chunks|
  {
    if chunks != [] {
      var n := |chunks| - 1;
      ProcessedReads(chunks[..n]);
      ProcessedLast(chunks);
      assert Reads(chunks)[..n] == Reads(chunks[..n]);
    }
  }

  /** A commit is recorded iff some chunk reads as it: every chunk with enough lines is kept, and nothing else. */
  lemma ProcessedMembers(chunks: seq<string>, c: Commit)
    ensures c in Processed(chunks) <==> exists k :: 0 <= k < |chunks| && ParseCommit(chunks[k]) == Some(c)
  {
    ProcessedReads(chunks);
    SomesMembers(Reads(chunks), c);
  }

  /** The last chunk adds its commit, if it reads as one, to those of the chunks before it. */
  lemma ProcessedLast(chunks: seq<string>)
    requires chunks != []
    ensures var n := |chunks| - 1;
      Processed(chunks) == Processed(chunks[..n]) + (match ParseCommit(chunks[n]) case None => [] case Some(c) => [c])
  {
    var n := |chunks| - 1;
    assert chunks[..n + 1] == chunks;
    match ParseCommit(chunks[n])
    case None => ProcessedSkip(chunks, n);
    case Some(c) => ProcessedTake(chunks, n, c);
  }

  /** When every chunk reads as a commit, the loop records exactly those commits, in order. */
  lemma {:induction false} ProcessedAllRead(chunks: seq<string>, cs: seq<Commit>)
    requires |chunks| == |cs| && forall i :: 0 <= i < |cs| ==> ParseCommit(chunks[i]) == Some(cs[i])
    ensures Processed(chunks) == cs
    decreases |chunks|
  {
    if chunks != [] {
      var n := |chunks| - 1;
      forall i | 0 <= i < n ensures ParseCommit(chunks[..n][i]) == Some(cs[..n][i]) {
        assert chunks[..n][i] == chunks[i];
      }
      ProcessedAllRead(chunks[..n], cs[..n]);
      ProcessedLast(chunks);
      TakeOneMore(cs, n);
      TakeAll(cs);
    }
  }

  /** Formatting well-formed commits as a log and reading it back records the same commits, in order, with their bodies trimmed. */
  lemma ProcessedRoundTrip(cs: seq<Commit>)
    requires forall i :: 0 <= i < |cs| ==> WellFormed(CommitEntry(cs[i]), 4)
    ensures Processed(Chunks(FormatLog(seq(|cs|, i requires 0 <= i < |cs| => CommitEntry(cs[i]))))) ==
      seq(|cs|, i requires 0 <= i < |cs| => CommitAsRead(cs[i]))
  {
    CommitLogRoundTrip(cs);
    ProcessedAllRead(Chunks(FormatLog(seq(|cs|, i requires 0 <= i < |cs| => CommitEntry(cs[i])))),
      seq(|cs|, i requires 0 <= i < |cs| => CommitAsRead(cs[i])));
  }


  function TrailerEvents(ts: seq<(string, string)>): seq<Event> {
    seq(|ts|, k requires 0 <= k < |ts| => CoAuthored(ts[k].0, ts[k].1))
  }

  /** The map writes of one commit: its author, then each co-author trailer of its body. */
  function CommitEvents(c: Commit): seq<Event> {
    [Authored(c.authorName, c.authorEmail)] + TrailerEvents(CoAuthorsOf(c.body))
  }

  function Events(cs: seq<Commit>): seq<Event>
    decreases |cs|
  {
    if cs == [] then [] else Events(cs[..|cs| - 1]) + CommitEvents(cs[|cs| - 1])
  }

  function RouteOf(c: Commit): Routed {
    RouteCurrent(c.subject, c.body)
  }

  /** Where each recorded commit went, in order. */
  function Routes(cs: seq<Commit>): (rs: seq<Routed>)
    ensures |rs| == |cs| && forall k :: 0 <= k < |cs| ==> rs[k] == RouteOf(cs[k])
  {
    seq(|cs|, k requires 0 <= k < |cs| => RouteOf(cs[k]))
  }

  /** `categories[key].commits` after the loop: the entries routed there, in order. */
  function EntriesIn(rs: seq<Routed>, cat: Category): seq<string>
    decreases |rs|
  {
    if rs == [] then []
    else
      var r := rs[|rs| - 1];
      EntriesIn(rs[..|rs| - 1], cat) + (if r.category == cat then [r.entry] else [])
  }

  /** The category lists, by declaration position, hold the entries routed to each category. */
  ghost predicate Filing(buckets: seq<seq<string>>, rs: seq<Routed>) {
    |buckets| == |CurrentOrder| && forall p :: 0 <= p < |CurrentOrder| ==> buckets[p] == EntriesIn(rs, CurrentOrder[p])
  }

  // ---------------------------------------------------------------------
  // The state of the loop

  /** The `contributors` map, the three role sets and the category lists, by declaration position. */
  class Aggregate {
    var records: map<string, Contributor>
    var order: seq<string>
    var authors: set<string>
    var coAuthors: set<string>
    var all: set<string>
    var buckets: seq<seq<string>>

    function State(): Roster
      reads this
    {
      Roster(records, order, authors, coAuthors, all)
    }

    constructor ()
      ensures State() == Empty
      ensures buckets == seq(|CurrentOrder|, _ => [])
    {
      records := map[];
      order := [];
      authors := {};
      coAuthors := {};
      all := {};
      buckets := seq(|CurrentOrder|, _ => []);
    }

    /** `contributors.set(authorId, …)` and the two `add`s for the commit's author. */
    method AddAuthor(name: string, email: string)
      modifies this
      ensures State() == Apply(old(State()), Authored(name, email))
      ensures buckets == old(buckets)
    {
      var id := IdOf(name, email);
      var n := if id in records then records[id].commits + 1 else 1;
      if id !in records {
        order := order + [id];
      }
      records := records[id := Contributor(name, email, n, false)];
      authors := authors + {id};
      all := all + {id};
    }

    /** One trailer: create the entry when missing, set its flag, and the two `add`s. */
    method AddCoAuthor(name: string, email: string)
      modifies this
      ensures State() == Apply(old(State()), CoAuthored(name, email))
      ensures buckets == old(buckets)
    {
      var id := IdOf(name, email);
      if id !in records {
        order := order + [id];
        records := records[id := Contributor(name, email, 0, true)];
      }
      var data := records[id];
      records := records[id := data.(isCoAuthor := true)];
      coAuthors := coAuthors + {id};
      all := all + {id};
    }

    /** `categories[key].commits.push(entry)`. */
    method Push(c: Category, entry: string)
      requires |buckets| == |CurrentOrder|
      modifies this
      ensures buckets == old(buckets)[Position(c) := old(buckets)[Position(c)] + [entry]]
      ensures State() == old(State())
    {
      PositionInCurrentOrder(c);
      buckets := buckets[Position(c) := buckets[Position(c)] + [entry]];
    }
  }

  lemma ReplaySnoc(es: seq<Event>, e: Event)
    ensures Replay(es + [e]) == Apply(Replay(es), e)
  {
    assert (es + [e])[..|es|] == es;
  }

  lemma TrailerEventsSnoc(ts: seq<(string, string)>, t: (string, string))
    ensures TrailerEvents(ts + [t]) == TrailerEvents(ts) + [CoAuthored(t.0, t.1)]
  {
  }

  /** One more trailer adds its write at the end. */
  lemma TrailerStep(base: seq<Event>, done: seq<(string, string)>, t: (string, string))
    ensures Replay(base + TrailerEvents(done + [t])) == Apply(Replay(base + TrailerEvents(done)), CoAuthored(t.0, t.1))
  {
    TrailerEventsSnoc(done, t);
    assert base + TrailerEvents(done + [t]) == (base + TrailerEvents(done)) + [CoAuthored(t.0, t.1)];
    ReplaySnoc(base + TrailerEvents(done), CoAuthored(t.0, t.1));
  }

  lemma EventsSnoc(cs: seq<Commit>, c: Commit)
    ensures Events(cs + [c]) == Events(cs) + CommitEvents(c)
  {
    assert (cs + [c])[..|cs|] == cs;
  }

  lemma EntriesInSnoc(rs: seq<Routed>, r: Routed, cat: Category)
    ensures EntriesIn(rs + [r], cat) == EntriesIn(rs, cat) + (if r.category == cat then [r.entry] else [])
  {
    assert (rs + [r])[..|rs|] == rs;
  }

  /** One more commit adds its author's write, then its trailers' writes. */
  lemma EventsOfNext(cs: seq<Commit>, c: Commit)
    ensures Events(cs + [c]) ==
            Events(cs) + [Authored(c.authorName, c.authorEmail)] + TrailerEvents(ReadAll(Scan(c.body, 0)))
  {
    EventsSnoc(cs, c);
    var a := Events(cs);
    var t := TrailerEvents(ReadAll(Scan(c.body, 0)));
    assert a + ([Authored(c.authorName, c.authorEmail)] + t) == a + [Authored(c.authorName, c.authorEmail)] + t;
  }

  lemma RoutesSnoc(cs: seq<Commit>, c: Commit)
    ensures Routes(cs + [c]) == Routes(cs) + [RouteOf(c)]
  {
  }

  /** Pushing a routed entry onto its category's list keeps the lists in step with the routes. */
  lemma FilingSnoc(buckets: seq<seq<string>>, rs: seq<Routed>, r: Routed)
    requires Filing(buckets, rs)
    ensures Filing(buckets[Position(r.category) := buckets[Position(r.category)] + [r.entry]], rs + [r])
  {
    PositionInCurrentOrder(r.category);
    forall p | 0 <= p < |CurrentOrder|
      ensures buckets[Position(r.category) := buckets[Position(r.category)] + [r.entry]][p]
              == EntriesIn(rs + [r], CurrentOrder[p])
    {
      EntriesInSnoc(rs, r, CurrentOrder[p]);
      CurrentOrderPosition(p);
    }
  }

  lemma FilingEmpty()
    ensures Filing(seq(|CurrentOrder|, _ => []), [])
  {
  }

  lemma ProcessedSkip(chunks: seq<string>, i: nat)
    requires i < |chunks| && ParseCommit(chunks[i]).None?
    ensures Processed(chunks[..i + 1]) == Processed(chunks[..i])
  {
    assert chunks[..i + 1][..i] == chunks[..i];
  }

  lemma ProcessedTake(chunks: seq<string>, i: nat, c: Commit)
    requires i < |chunks| && ParseCommit(chunks[i]) == Some(c)
    ensures Processed(chunks[..i + 1]) == Processed(chunks[..i]) + [c]
  {
    assert chunks[..i + 1][..i] == chunks[..i];
  }

  lemma TakeOneMore<T>(s: seq<T>, j: nat)
    requires j < |s|
    ensures s[..j + 1] == s[..j] + [s[j]]
  {
  }

  /** `coAuthorMatches.forEach(…)`: one map write per trailer that reads back. */
  method RecordTrailers(agg: Aggregate, body: string, ghost base: seq<Event>)
    requires agg.State() == Replay(base)
    modifies agg
    ensures agg.State() == Replay(base + TrailerEvents(CoAuthorsOf(body)))
    ensures agg.buckets == old(agg.buckets)
  {
    var matches := Scan(body, 0);
    ghost var done: seq<(string, string)> := [];
    assert base + TrailerEvents(done) == base;
    var j := 0;
    while j < |matches|
      invariant 0 <= j <= |matches|
      invariant done == ReadAll(matches[..j])
      invariant agg.State() == Replay(base + TrailerEvents(done))
      invariant agg.buckets == old(agg.buckets)
    {
      ReadAllSnoc(matches[..j], matches[j]);
      TakeOneMore(matches, j);
      var read := ReadTrailer(matches[j]);
      match read {
        case None =>
        case Some(t) =>
          TrailerStep(base, done, t);
          agg.AddCoAuthor(t.0, t.1);
          done := done + [t];
      }
      j := j + 1;
    }
    assert matches[..|matches|] == matches;
  }

  /** The body of the `forEach` callback for a commit with at least four lines. */
  method RecordCommit(agg: Aggregate, c: Commit, ghost cs: seq<Commit>)
    requires agg.State() == Replay(Events(cs))
    requires Filing(agg.buckets, Routes(cs))
    modifies agg
    ensures agg.State() == Replay(Events(cs + [c]))
    ensures Filing(agg.buckets, Routes(cs + [c]))
  {
    ReplaySnoc(Events(cs), Authored(c.authorName, c.authorEmail));
    agg.AddAuthor(c.authorName, c.authorEmail);
    RecordTrailers(agg, c.body, Events(cs) + [Authored(c.authorName, c.authorEmail)]);
    EventsOfNext(cs, c);
    var routed := RouteCurrent(c.subject, c.body);
    FilingSnoc(agg.buckets, Routes(cs), routed);
    agg.Push(routed.category, routed.entry);
    RoutesSnoc(cs, c);
  }

  /**
   * `commits.forEach(…)`: afterwards the map and the sets are the replay of every
   * recorded commit's writes, and each category holds the entries routed to it.
   */
  method Analyze(chunks: seq<string>) returns (agg: Aggregate)
    ensures fresh(agg)
    ensures agg.State() == Replay(Events(Processed(chunks)))
    ensures Filing(agg.buckets, Routes(Processed(chunks)))
  {
    agg := new Aggregate();
    FilingEmpty();
    var i := 0;
    while i < |chunks|
      invariant 0 <= i <= |chunks|
      invariant agg.State() == Replay(Events(Processed(chunks[..i])))
      invariant Filing(agg.buckets, Routes(Processed(chunks[..i])))
    {
      AnalyzeChunk(agg, chunks, i);
      i := i + 1;
    }
    assert chunks[..|chunks|] == chunks;
  }

  /** One turn of the loop: a chunk with too few lines is skipped, any other is recorded. */
  method AnalyzeChunk(agg: Aggregate, chunks: seq<string>, i: nat)
    requires i < |chunks|
    requires agg.State() == Replay(Events(Processed(chunks[..i])))
    requires Filing(agg.buckets, Routes(Processed(chunks[..i])))
    modifies agg
    ensures agg.State() == Replay(Events(Processed(chunks[..i + 1])))
    ensures Filing(agg.buckets, Routes(Processed(chunks[..i + 1])))
  {
    var parsed := ParseCommit(chunks[i]);
    match parsed {
      case None =>
        ProcessedSkip(chunks, i);
      case Some(commit) =>
        RecordCommit(agg, commit, Processed(chunks[..i]));
        ProcessedTake(chunks, i, commit);
    }
  }

  // ---------------------------------------------------------------------
  // What the loop's result says about the commits

  lemma {:induction false} AuthorshipsConcat(a: seq<Event>, b: seq<Event>)
    ensures Authorships(a + b) == Authorships(a) + Authorships(b)
    decreases |b|
  {
    if b != [] {
      assert (a + b)[..|a + b| - 1] == a + b[..|b| - 1];
      assert (a + b)[|a + b| - 1] == b[|b| - 1];
      AuthorshipsConcat(a, b[..|b| - 1]);
    } else {
      assert a + b == a;
    }
  }

  lemma {:induction false} TrailersAuthorNothing(ts: seq<(string, string)>)
    ensures Authorships(TrailerEvents(ts)) == 0
    decreases |ts|
  {
    if ts != [] {
      var init := ts[..|ts| - 1];
      assert TrailerEvents(ts)[..|ts| - 1] == TrailerEvents(init);
      TrailersAuthorNothing(init);
    }
  }

  /** Each recorded commit is one authorship: its trailers never count as commits. */
  lemma {:induction false} EventsAuthorships(cs: seq<Commit>)
    ensures Authorships(Events(cs)) == |cs|
    decreases |cs|
  {
    if cs != [] {
      var c := cs[|cs| - 1];
      EventsAuthorships(cs[..|cs| - 1]);
      AuthorshipsConcat(Events(cs[..|cs| - 1]), CommitEvents(c));
      AuthorshipsConcat([Authored(c.authorName, c.authorEmail)], TrailerEvents(CoAuthorsOf(c.body)));
      TrailersAuthorNothing(CoAuthorsOf(c.body));
    }
  }

  /** The `commits` fields over the whole map add up to the number of recorded commits. */
  lemma CommitsAddUp(chunks: seq<string>)
    ensures var r := Replay(Events(Processed(chunks)));
      Valid(r) && CommitSum(r.order, r.records) == |Processed(chunks)|
  {
    ReplayCommitSum(Events(Processed(chunks)));
    EventsAuthorships(Processed(chunks));
  }

  /** How many times `c` occurs in `order`. */
  function Hits(order: seq<Category>, c: Category): nat
    decreases |order|
  {
    if order == [] then 0 else Hits(order[..|order| - 1], c) + (if order[|order| - 1] == c then 1 else 0)
  }

  lemma {:induction false} HitsOnce(order: seq<Category>, c: Category)
    requires Distinct(order)
    ensures Hits(order, c) == (if c in order then 1 else 0)
    decreases |order|
  {
    if order != [] {
      var init, last := DistinctInit(order);
      HitsOnce(init, c);
      assert c in order <==> c in init || c == last;
    }
  }

  lemma DistinctInit(order: seq<Category>) returns (init: seq<Category>, last: Category)
    requires order != [] && Distinct(order)
    ensures init == order[..|order| - 1] && last == order[|order| - 1] && order == init + [last]
    ensures Distinct(init) && last !in init
  {
    init, last := order[..|order| - 1], order[|order| - 1];
    assert order == init + [last];
    forall k | 0 <= k < |init| ensures init[k] != last {
      assert init[k] == order[k];
    }
  }

  /** The number of entries over the categories of `order`. */
  function Tally(rs: seq<Routed>, order: seq<Category>): nat
    decreases |order|
  {
    if order == [] then 0 else Tally(rs, order[..|order| - 1]) + |EntriesIn(rs, order[|order| - 1])|
  }

  lemma {:induction false} TallySnoc(rs: seq<Routed>, r: Routed, order: seq<Category>)
    ensures Tally(rs + [r], order) == Tally(rs, order) + Hits(order, r.category)
    decreases |order|
  {
    if order != [] {
      TallySnoc(rs, r, order[..|order| - 1]);
      EntriesInSnoc(rs, r, order[|order| - 1]);
    }
  }

  lemma {:induction false} TallyEmpty(order: seq<Category>)
    ensures Tally([], order) == 0
    decreases |order|
  {
    if order != [] {
      TallyEmpty(order[..|order| - 1]);
    }
  }

  /** Every routed commit is filed under exactly one category. */
  lemma {:induction false} EveryCommitFiledOnce(rs: seq<Routed>)
    ensures Tally(rs, CurrentOrder) == |rs|
    decreases |rs|
  {
    if rs == [] {
      TallyEmpty(CurrentOrder);
    } else {
      var init := rs[..|rs| - 1];
      EveryCommitFiledOnce(init);
      assert rs == init + [rs[|rs| - 1]];
      TallySnoc(init, rs[|rs| - 1], CurrentOrder);
      CurrentOrderComplete();
      HitsOnce(CurrentOrder, rs[|rs| - 1].category);
    }
  }

  /** A category's list holds exactly the entries of the commits routed to it. */
  lemma {:induction false} EntriesInCharacterized(rs: seq<Routed>, cat: Category, e: string)
    ensures e in EntriesIn(rs, cat) <==> Routed(cat, e) in rs
    decreases |rs|
  {
    if rs != [] {
      var init := rs[..|rs| - 1];
      EntriesInCharacterized(init, cat, e);
      assert rs == init + [rs[|rs| - 1]];
    }
  }

  // ---------------------------------------------------------------------
  // The summary text

  const Heading: string := "# Initial Release v0.1.0\n\n"

  const Intro: string := "This release represents the initial stable version of the BRC Mono project.\n\n"

  const OverviewHeading: string := "## Overview\n\n"
  const ChangesAcross: string := "This release includes changes across "
  const FilesWith: string := " files with "
  const AdditionsAnd: string := " additions and "
  const DeletionsEnd: string := " deletions. "
  const OverviewClosing: string :=
    "The changes span multiple areas of the codebase and represent the complete implementation of the base app instances.\n\n"

  /** The overview paragraph with the three numbers read from the stat text. */
  function Overview(files: string, insertions: string, deletions: string): string {
    OverviewHeading + ChangesAcross + files + FilesWith + insertions + AdditionsAnd + deletions + DeletionsEnd
    + OverviewClosing
  }

  /** The heading of a category's block. */
  function SectionTitle(c: Category): string {
    "## " + Title(c) + "\n\n"
  }

  /** `text` followed by a category's block, or `text` alone when the category has no entries. */
  function WithSection(text: string, c: Category, entries: seq<string>): string {
    if |entries| > 0 then text + SectionTitle(c) + Join(entries, "\n") + "\n\n" else text
  }

  /** `text` followed by the blocks of the first `n` categories of the declaration. */
  function WithSections(text: string, rs: seq<Routed>, n: nat): string
    requires n <= |CurrentOrder|
    decreases n
  {
    if n == 0 then text
    else WithSection(WithSections(text, rs, n - 1), CurrentOrder[n - 1], EntriesIn(rs, CurrentOrder[n - 1]))
  }

  const TechnicalHeading: string := "## Technical Details\n\n"
  const BranchLine: string := "- **Branch:** This release merges `dev` into `main`\n"
  const CommitCountLead: string := "- **Commit Count:** "
  const CommitsIncluded: string := " commits included\n"
  const FileChangesLead: string := "- **File Changes:** "

  function TechnicalDetails(commitCount: nat, fileStats: string): string {
    TechnicalHeading + BranchLine + CommitCountLead + NatToString(commitCount) + CommitsIncluded
    + FileChangesLead + FileChanges(fileStats) + "\n\n"
  }

  const GitHubHeading: string := "### GitHub Information\n\n"
  const CollaborativeWork: string := "This changeset represents the collaborative work of multiple contributors. "
  const UsernamesDiffer: string := "GitHub usernames may differ from the author information above. "
  const SeePullRequest: string :=
    "To see the complete list of contributors with GitHub usernames, please check the PR history and commit details.\n\n"
  const GitHubNote: string := GitHubHeading + CollaborativeWork + UsernamesDiffer + SeePullRequest

  const ContributorsHeading: string := "## Contributors\n\n"
  const PrimaryHeading: string := "### Primary Authors\n\n"
  const CoAuthorsHeading: string := "### Co-Authors\n\n"

  /** `text` followed by a titled list, or `text` alone when the list is empty. */
  function WithBlock(text: string, title: string, lines: seq<string>): string {
    if |lines| > 0 then text + title + Join(lines, "\n") + "\n\n" else text
  }

  function ContributorsSection(r: Roster): string
    requires forall k :: 0 <= k < |r.order| ==> r.order[k] in r.records
  {
    var ranked := Ranked(r);
    var withPrimary := WithBlock(ContributorsHeading, PrimaryHeading, PrimaryLines(WithIdIn(ranked, r.authors)));
    WithBlock(withPrimary, CoAuthorsHeading, CoAuthorLines(Flagged(ranked))) + GitHubNote
  }

  const Reviewers: string :=
    "## For Reviewers\n\n"
    + "When reviewing this release, please consider:\n\n"
    + "- Overall architecture and code organization\n"
    + "- Completeness of the feature set\n"
    + "- Documentation quality\n"
    + "- Test coverage\n"
    + "- Performance considerations\n\n"

  /** The whole summary for the routed commits, the contributors section, the chunk count and the stat text. */
  function SummaryText(rs: seq<Routed>, contributors: string, commitCount: nat, fileStats: string): string {
    var overview := Overview(CountText(fileStats, FilesChanged), CountText(fileStats, Insertions),
                             CountText(fileStats, Deletions));
    WithSections(Heading + Intro + overview, rs, |CurrentOrder|)
    + TechnicalDetails(commitCount, fileStats)
    + contributors
    + Reviewers
  }

  /** The category loop: one block per category with entries, in declaration order. */
  method AppendSections(agg: Aggregate, ghost rs: seq<Routed>, start: string) returns (summary: string)
    requires Filing(agg.buckets, rs)
    ensures summary == WithSections(start, rs, |CurrentOrder|)
  {
    summary := start;
    for p := 0 to |CurrentOrder|
      invariant summary == WithSections(start, rs, p)
    {
      var category := CurrentOrder[p];
      var entries := agg.buckets[p];
      SectionsStep(start, rs, p, entries);
      if |entries| > 0 {
        summary := summary + SectionTitle(category);
        summary := summary + Join(entries, "\n");
        summary := summary + "\n\n";
      }
    }
  }

  lemma SectionsStep(text: string, rs: seq<Routed>, p: nat, entries: seq<string>)
    requires p < |CurrentOrder| && entries == EntriesIn(rs, CurrentOrder[p])
    ensures WithSections(text, rs, p + 1) == WithSection(WithSections(text, rs, p), CurrentOrder[p], entries)
  {
  }

  /** The contributors section, built as the script appends to it. */
  method BuildContributors(agg: Aggregate) returns (section: string)
    requires forall k :: 0 <= k < |agg.order| ==> agg.order[k] in agg.records
    ensures section == ContributorsSection(agg.State())
  {
    var sorted := Ranked(agg.State());
    var primary := PrimaryLines(WithIdIn(sorted, agg.authors));
    section := ContributorsHeading;
    if |primary| > 0 {
      section := section + PrimaryHeading;
      section := section + Join(primary, "\n");
      section := section + "\n\n";
    }
    var co := CoAuthorLines(Flagged(sorted));
    if |co| > 0 {
      section := section + CoAuthorsHeading;
      section := section + Join(co, "\n");
      section := section + "\n\n";
    }
    section := section + GitHubNote;
  }

  /** The summary, appended piece by piece as the script does, with one block per non-empty category. */
  method BuildSummary(agg: Aggregate, ghost rs: seq<Routed>, commitCount: nat, fileStats: string) returns (summary: string)
    requires Filing(agg.buckets, rs)
    requires forall k :: 0 <= k < |agg.order| ==> agg.order[k] in agg.records
    ensures summary == SummaryText(rs, ContributorsSection(agg.State()), commitCount, fileStats)
  {
    summary := Heading;
    summary := summary + Intro;
    var fileCount := CountText(fileStats, FilesChanged);
    var insertions := CountText(fileStats, Insertions);
    var deletions := CountText(fileStats, Deletions);
    summary := summary + Overview(fileCount, insertions, deletions);
    summary := AppendSections(agg, rs, summary);
    var contributorsSection := BuildContributors(agg);
    summary := summary + TechnicalDetails(commitCount, fileStats);
    summary := summary + contributorsSection;
    summary := summary + Reviewers;
  }

  /** The categories with at least one entry, in the order given. */
  function Filed(rs: seq<Routed>, order: seq<Category>): (r: seq<Category>)
    decreases |order|
  {
    if order == [] then []
    else
      var init := Filed(rs, order[..|order| - 1]);
      var c := order[|order| - 1];
      if EntriesIn(rs, c) != [] then init + [c] else init
  }

  lemma {:induction false} FiledMembers(rs: seq<Routed>, order: seq<Category>)
    ensures forall c :: c in Filed(rs, order) <==> c in order && EntriesIn(rs, c) != []
    decreases |order|
  {
    if order != [] {
      FiledMembers(rs, order[..|order| - 1]);
      assert order == order[..|order| - 1] + [order[|order| - 1]];
    }
  }

  /** `text` followed by the title and entries of each listed category, one after another. */
  function AppendBlocks(text: string, rs: seq<Routed>, order: seq<Category>): string
    decreases |order|
  {
    if order == [] then text
    else
      var c := order[|order| - 1];
      AppendBlocks(text, rs, order[..|order| - 1]) + SectionTitle(c) + Join(EntriesIn(rs, c), "\n") + "\n\n"
  }

  lemma {:induction false} SectionsAreFiledBlocks(text: string, rs: seq<Routed>, n: nat)
    requires n <= |CurrentOrder|
    ensures WithSections(text, rs, n) == AppendBlocks(text, rs, Filed(rs, CurrentOrder[..n]))
    decreases n
  {
    if n > 0 {
      SectionsAreFiledBlocks(text, rs, n - 1);
      var c := CurrentOrder[n - 1];
      FiledSnoc(rs, CurrentOrder[..n - 1], c);
      SectionStep(WithSections(text, rs, n - 1), text, rs, Filed(rs, CurrentOrder[..n - 1]), c);
      TakeOneMore(CurrentOrder, n - 1);
    }
  }

  lemma TakeOfTake<T>(s: seq<T>, n: nat)
    requires 0 < n <= |s|
    ensures s[..n][..n - 1] == s[..n - 1]
  {
  }

  lemma TakeAll<T>(s: seq<T>)
    ensures s[..|s|] == s
  {
  }

  /** Listing one more category lists it exactly when it has entries. */
  lemma FiledSnoc(rs: seq<Routed>, order: seq<Category>, c: Category)
    ensures Filed(rs, order + [c]) == if EntriesIn(rs, c) != [] then Filed(rs, order) + [c] else Filed(rs, order)
  {
    assert (order + [c])[..|order|] == order;
  }

  /** Adding a category's block to the blocks of a listing gives the blocks of the longer listing. */
  lemma SectionStep(prev: string, text: string, rs: seq<Routed>, f: seq<Category>, c: Category)
    requires prev == AppendBlocks(text, rs, f)
    ensures WithSection(prev, c, EntriesIn(rs, c))
            == AppendBlocks(text, rs, if EntriesIn(rs, c) != [] then f + [c] else f)
  {
    assert (f + [c])[..|f|] == f;
  }

  /**
   * The category blocks of the summary: exactly the categories some commit was routed
   * to, in declaration order, each with its title and entries.
   */
  lemma CategoryBlocks(text: string, rs: seq<Routed>, cat: Category)
    ensures WithSections(text, rs, |CurrentOrder|) == AppendBlocks(text, rs, Filed(rs, CurrentOrder))
    ensures cat in Filed(rs, CurrentOrder) <==> exists k :: 0 <= k < |rs| && rs[k].category == cat
  {
    SectionsAreFiledBlocks(text, rs, |CurrentOrder|);
    TakeAll(CurrentOrder);
    FiledMembers(rs, CurrentOrder);
    CurrentOrderComplete();
    if exists k :: 0 <= k < |rs| && rs[k].category == cat {
      var k :| 0 <= k < |rs| && rs[k].category == cat;
      EntriesInCharacterized(rs, cat, rs[k].entry);
    }
    if EntriesIn(rs, cat) != [] {
      var e := EntriesIn(rs, cat)[0];
      EntriesInCharacterized(rs, cat, e);
    }
  }

  /**
   * With git's stat text, per-file lines holding no counter-like text above the summary
   * line, the overview reports the summary line's three numbers (`0` for an absent
   * clause) and File Changes repeats the summary line.
   */
  lemma OverviewFromStat(perFile: string, f: nat, ins: Option<nat>, del: Option<nat>)
    requires NoCountIn(perFile, 0, |perFile|, FilesChanged)
    requires NoCountIn(perFile, 0, |perFile|, Insertions)
    requires NoCountIn(perFile, 0, |perFile|, Deletions)
    ensures var stat := perFile + "\n" + StatLine(f, ins, del);
      && CountText(stat, FilesChanged) == NatToString(f)
      && CountText(stat, Insertions) == Reported(ins)
      && CountText(stat, Deletions) == Reported(del)
      && FileChanges(stat) == StatLine(f, ins, del)
  {
    var line := StatLine(f, ins, del);
    CountTextAfterLines(perFile, line, FilesChanged);
    CountTextAfterLines(perFile, line, Insertions);
    CountTextAfterLines(perFile, line, Deletions);
    StatLineFiles(f, ins, del);
    StatLineInsertions(f, ins, del);
    StatLineDeletions(f, ins, del);
    FileChangesReportsSummary(perFile, f, ins, del);
  }

  /** With an empty diff every number is `0` and File Changes falls back to its fixed text. */
  lemma OverviewOfEmptyStat(raw: string)
    requires AllWhitespace(raw)
    ensures var stat := Trim(raw);
      && CountText(stat, FilesChanged) == "0"
      && CountText(stat, Insertions) == "0"
      && CountText(stat, Deletions) == "0"
      && FileChanges(stat) == "Multiple files affected"
  {
    TrimEmptyIff(raw);
    NoneReported("", FilesChanged);
    NoneReported("", Insertions);
    NoneReported("", Deletions);
    FileChangesFallback(raw);
  }

  // ---------------------------------------------------------------------
  // The metadata record and the whole run

  /** One entry of `contributorStats.contributors`, its e-mail masked. */
  datatype ContributorRecord = ContributorRecord(name: string, email: string, commits: nat, isCoAuthor: bool)

  datatype Metadata = Metadata(
    timestamp: string, mainRef: string, devRef: string, commitCount: nat,
    filesChanged: string, insertions: string, deletions: string,
    categories: seq<(string, nat)>, changesetId: string,
    totalContributors: nat, primaryAuthors: nat, coAuthors: nat,
    contributors: seq<ContributorRecord>)

  function MaskedRecord(c: Contributor): ContributorRecord {
    ContributorRecord(c.name, Mask(c.email), c.commits, c.isCoAuthor)
  }

  function Records(r: Roster): seq<ContributorRecord>
    requires forall k :: 0 <= k < |r.order| ==> r.order[k] in r.records
  {
    seq(|r.order|, k requires 0 <= k < |r.order| => MaskedRecord(r.records[r.order[k]]))
  }

  /** `{ feat: n, fix: n, … }` in declaration order. */
  function CategoryCounts(rs: seq<Routed>): seq<(string, nat)> {
    seq(|CurrentOrder|, p requires 0 <= p < |CurrentOrder| => (Key(CurrentOrder[p]), |EntriesIn(rs, CurrentOrder[p])|))
  }

  /** The metadata record of a run, from the chunk count, the stat text, the routes and the contributor state. */
  function MetadataOf(timestamp: string, mainRef: string, devRef: string, commitCount: nat, fileStats: string,
                      rs: seq<Routed>, r: Roster, changesetId: string): Metadata
    requires forall k :: 0 <= k < |r.order| ==> r.order[k] in r.records
  {
    Metadata(timestamp, mainRef, devRef, commitCount,
             CountText(fileStats, FilesChanged), CountText(fileStats, Insertions), CountText(fileStats, Deletions),
             CategoryCounts(rs), changesetId,
             |r.records|, |r.authors|, |r.coAuthors|, Records(r))
  }

  /** The three files and the record of one run. */
  datatype Report = Report(summary: string, changeset: string, metadata: Metadata)

  /**
   * What one run produces from the log and the stat text as git prints them, the package
   * detection result (`None` when it throws), the run's timestamp and the random changeset id.
   */
  function Run(timestamp: string, mainRef: string, devRef: string, commitLog: string, rawStat: string,
               detected: Option<seq<Option<string>>>, changesetId: string): Report
  {
    var chunks := Chunks(commitLog);
    ReportOf(Processed(chunks), |chunks|, Trim(rawStat), timestamp, mainRef, devRef, detected, changesetId)
  }

  /** The three outputs once the log is read: `cs` are the recorded commits, `commitCount` the chunks. */
  function ReportOf(cs: seq<Commit>, commitCount: nat, fileStats: string, timestamp: string, mainRef: string,
                    devRef: string, detected: Option<seq<Option<string>>>, changesetId: string): Report
  {
    var r := Replay(Events(cs));
    ReplayOrdered(Events(cs));
    var summary := SummaryText(Routes(cs), ContributorsSection(r), commitCount, fileStats);
    Report(summary, ChangesetContent(PackageNames(detected), summary),
           MetadataOf(timestamp, mainRef, devRef, commitCount, fileStats, Routes(cs), r, changesetId))
  }

  /** The report of a run, from its summary and its metadata record. */
  lemma ReportOfParts(cs: seq<Commit>, commitCount: nat, fileStats: string, timestamp: string, mainRef: string,
                      devRef: string, detected: Option<seq<Option<string>>>, changesetId: string, r: Roster,
                      summary: string, metadata: Metadata)
    requires r == Replay(Events(cs))
    requires forall k :: 0 <= k < |r.order| ==> r.order[k] in r.records
    requires summary == SummaryText(Routes(cs), ContributorsSection(r), commitCount, fileStats)
    requires metadata == MetadataOf(timestamp, mainRef, devRef, commitCount, fileStats, Routes(cs), r, changesetId)
    ensures ReportOf(cs, commitCount, fileStats, timestamp, mainRef, devRef, detected, changesetId)
            == Report(summary, ChangesetContent(PackageNames(detected), summary), metadata)
  {
  }

  /** `Object.entries(categories).reduce(…)`: each category's key with the length of its list. */
  method CountCategories(agg: Aggregate, ghost rs: seq<Routed>) returns (counts: seq<(string, nat)>)
    requires Filing(agg.buckets, rs)
    ensures counts == CategoryCounts(rs)
  {
    ghost var all := CategoryCounts(rs);
    counts := [];
    for p := 0 to |CurrentOrder|
      invariant counts == all[..p]
    {
      TakeOneMore(all, p);
      counts := counts + [(Key(CurrentOrder[p]), |agg.buckets[p]|)];
    }
    TakeAll(all);
  }

  /** `Array.from(contributors.entries()).map(…)`: the entries in insertion order, e-mails masked. */
  method MaskContributors(agg: Aggregate) returns (list: seq<ContributorRecord>)
    requires forall k :: 0 <= k < |agg.order| ==> agg.order[k] in agg.records
    ensures list == Records(agg.State())
  {
    ghost var all := Records(agg.State());
    list := [];
    for k := 0 to |agg.order|
      invariant list == all[..k]
    {
      var data := agg.records[agg.order[k]];
      TakeOneMore(all, k);
      list := list + [ContributorRecord(data.name, Mask(data.email), data.commits, data.isCoAuthor)];
    }
    TakeAll(all);
  }

  /** `metadataContent`: the run's identifiers, the numbers read from git, the category counts and the contributors. */
  method BuildMetadata(agg: Aggregate, ghost rs: seq<Routed>, timestamp: string, mainRef: string, devRef: string,
                       commitCount: nat, fileStats: string, changesetId: string) returns (metadata: Metadata)
    requires Filing(agg.buckets, rs)
    requires forall k :: 0 <= k < |agg.order| ==> agg.order[k] in agg.records
    ensures metadata == MetadataOf(timestamp, mainRef, devRef, commitCount, fileStats, rs, agg.State(), changesetId)
  {
    var counts := CountCategories(agg, rs);
    var contributorList := MaskContributors(agg);
    metadata := Metadata(timestamp, mainRef, devRef, commitCount,
                         CountText(fileStats, FilesChanged), CountText(fileStats, Insertions),
                         CountText(fileStats, Deletions), counts, changesetId,
                         |agg.records|, |agg.authors|, |agg.coAuthors|, contributorList);
  }

  /** One run of the script: the body of `generateChangesetSummary` after git has answered. */
  method Generate(timestamp: string, mainRef: string, devRef: string, commitLog: string, rawStat: string,
                  detected: Option<seq<Option<string>>>, changesetId: string) returns (out: Report)
    ensures out == Run(timestamp, mainRef, devRef, commitLog, rawStat, detected, changesetId)
  {
    var fileStats := Trim(rawStat);
    var commits := Chunks(commitLog);
    var agg := Analyze(commits);
    out := Assemble(agg, Processed(commits), |commits|, fileStats, timestamp, mainRef, devRef, detected, changesetId);
  }

  /** The second half of `generateChangesetSummary`: the summary, the changeset file and the metadata. */
  method Assemble(agg: Aggregate, ghost cs: seq<Commit>, commitCount: nat, fileStats: string, timestamp: string,
                  mainRef: string, devRef: string, detected: Option<seq<Option<string>>>, changesetId: string)
    returns (out: Report)
    requires agg.State() == Replay(Events(cs)) && Filing(agg.buckets, Routes(cs))
    ensures out == ReportOf(cs, commitCount, fileStats, timestamp, mainRef, devRef, detected, changesetId)
  {
    ReplayOrdered(Events(cs));
    var summary := BuildSummary(agg, Routes(cs), commitCount, fileStats);
    var briefSummary := summary;
    var packageNames := PackageNames(detected);
    var changesetContent := ChangesetContent(packageNames, briefSummary);
    var metadata := BuildMetadata(agg, Routes(cs), timestamp, mainRef, devRef, commitCount, fileStats, changesetId);
    out := Report(summary, changesetContent, metadata);
    ReportOfParts(cs, commitCount, fileStats, timestamp, mainRef, devRef, detected, changesetId, agg.State(),
                  summary, metadata);
  }

  /** The category counts of the metadata add up to the number of recorded commits. */
  lemma {:induction false} CountsSum(rs: seq<Routed>, n: nat)
    requires n <= |CurrentOrder|
    ensures SumCounts(CategoryCounts(rs)[..n]) == Tally(rs, CurrentOrder[..n])
    decreases n
  {
    if n > 0 {
      TakeOfTake(CategoryCounts(rs), n);
      TakeOfTake(CurrentOrder, n);
      CountsSum(rs, n - 1);
    }
  }

  function SumCounts(s: seq<(string, nat)>): nat
    decreases |s|
  {
    if s == [] then 0 else SumCounts(s[..|s| - 1]) + s[|s| - 1].1
  }

  lemma RosterSize(r: Roster)
    requires Valid(r)
    ensures |r.records| == |r.order| && |r.all| == |r.order|
  {
    ListingDistinct(r);
    DistinctCount(Listing(r));
    assert (set x | x in Listing(r) :: x.0) == r.records.Keys by {
      forall id | id in r.records ensures id in (set x | x in Listing(r) :: x.0) {
        assert (id, r.records[id]) in Listing(r);
      }
    }
  }

  /**
   * The metadata: the category counts are keyed in declaration order and add up to the
   * routed commits; the contributor totals are the sizes of the map and of the role sets;
   * the contributor entries follow the map's insertion order, each under the name of its
   * key, with the e-mail masked.
   */
  lemma MetadataFacts(timestamp: string, mainRef: string, devRef: string, commitCount: nat, fileStats: string,
                      rs: seq<Routed>, r: Roster, changesetId: string)
    requires Valid(r)
    ensures var m := MetadataOf(timestamp, mainRef, devRef, commitCount, fileStats, rs, r, changesetId);
      && m.commitCount == commitCount
      && |m.categories| == |CurrentOrder|
      && (forall p :: 0 <= p < |CurrentOrder| ==> m.categories[p].0 == Key(CurrentOrder[p]))
      && SumCounts(m.categories) == |rs|
      && m.totalContributors == |r.order| == |r.all|
      && m.primaryAuthors == |r.authors| && m.coAuthors == |r.coAuthors|
      && |m.contributors| == |r.order|
      && (forall k :: 0 <= k < |r.order| ==>
            m.contributors[k] == MaskedRecord(r.records[r.order[k]]) &&
            IdOf(m.contributors[k].name, r.records[r.order[k]].email) == r.order[k])
  {
    RosterSize(r);
    CountsSum(rs, |CurrentOrder|);
    TakeAll(CategoryCounts(rs));
    TakeAll(CurrentOrder);
    EveryCommitFiledOnce(rs);
  }

  /**
   * Over a run: `commitCount` counts every non-blank chunk, recorded or not, the category
   * counts add up to the recorded commits, and so do the `commits` fields of the map.
   */
  lemma RunCounts(timestamp: string, mainRef: string, devRef: string, commitLog: string, rawStat: string,
                  detected: Option<seq<Option<string>>>, changesetId: string)
    ensures var m := Run(timestamp, mainRef, devRef, commitLog, rawStat, detected, changesetId).metadata;
      var cs := Processed(Chunks(commitLog));
      var r := Replay(Events(cs));
      && m.commitCount == |Chunks(commitLog)| >= |cs|
      && SumCounts(m.categories) == |cs|
      && Valid(r) && CommitSum(r.order, r.records) == |cs|
  {
    var chunks := Chunks(commitLog);
    var cs := Processed(chunks);
    var r := Replay(Events(cs));
    ReplayValid(Events(cs));
    MetadataFacts(timestamp, mainRef, devRef, |chunks|, Trim(rawStat), Routes(cs), r, changesetId);
    CommitsAddUp(chunks);
  }

  /** The changeset file carries the whole summary as its brief, below one `minor` line per package. */
  lemma ChangesetOfRun(detected: Option<seq<Option<string>>>, summary: string)
    requires detected.Some? ==> forall n :: Some(n) in detected.value ==> HasNoChar(n, '\n')
    ensures var pkgs := PackageNames(detected);
      Split(ChangesetContent(pkgs, summary), "\n") ==
        ["---"] + (if pkgs == [] then [""] else FrontmatterLines(pkgs)) + ["---", ""] + Split(summary + "\n", "\n")
  {
    PackageNamesSingleLine(detected);
    ChangesetLines(PackageNames(detected), summary);
  }
}
