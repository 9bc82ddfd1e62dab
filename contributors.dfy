/**
 * The contributor bookkeeping of the current generator: the `contributors` map keyed by
 * `name <email>`, kept in insertion order as a JavaScript `Map` iterates, and the
 * `authors`, `coAuthors` and `all` sets. Every processed commit records its author and
 * then each `Co-authored-by:` trailer of its body; the state after a sequence of such
 * events is `Replay` of them.
 */
module Contributors {
  import opened Outcomes
  import opened Text

  /** One value of the `contributors` map. */
  datatype Contributor = Contributor(name: string, email: string, commits: nat, isCoAuthor: bool)

  /** The map key: `${name} <${email}>`. */
  function IdOf(name: string, email: string): string {
    name + " <" + email + ">"
  }

  /** A write to the map: the commit's author, or one of its trailers. */
  datatype Event = Authored(name: string, email: string) | CoAuthored(name: string, email: string)

  function EventId(e: Event): string {
    IdOf(e.name, e.email)
  }

  /** The map (its values and its key order) and the three role sets. */
  datatype Roster = Roster(
    records: map<string, Contributor>,
    order: seq<string>,
    authors: set<string>,
    coAuthors: set<string>,
    all: set<string>)

  const Empty: Roster := Roster(map[], [], {}, {}, {})

  /**
   * One write. An author overwrites the entry with its own name and e-mail, one more
   * commit and `isCoAuthor: false`; a trailer creates the entry with no commits when it
   * is missing, and otherwise only sets `isCoAuthor`. `Map.set` keeps the position of a
   * key already present and appends a new one.
   */
  function Apply(r: Roster, e: Event): Roster {
    var id := EventId(e);
    var order := if id in r.records then r.order else r.order + [id];
    match e
    case Authored(name, email) =>
      var n := if id in r.records then r.records[id].commits + 1 else 1;
      Roster(r.records[id := Contributor(name, email, n, false)], order,
             r.authors + {id}, r.coAuthors, r.all + {id})
    case CoAuthored(name, email) =>
      var prior := if id in r.records then r.records[id] else Contributor(name, email, 0, true);
      Roster(r.records[id := prior.(isCoAuthor := true)], order,
             r.authors, r.coAuthors + {id}, r.all + {id})
  }

  /** The state after the events, applied first to last. */
  function Replay(es: seq<Event>): Roster
    decreases |es|
  {
    if es == [] then Empty else Apply(Replay(es[..|es| - 1]), es[|es| - 1])
  }

  // ---------------------------------------------------------------------
  // Reference definitions over the events

  /** How many of the events are authorships of `id`. */
  function AuthoredCount(es: seq<Event>, id: string): nat
    decreases |es|
  {
    if es == [] then 0
    else AuthoredCount(es[..|es| - 1], id)
         + (if es[|es| - 1].Authored? && EventId(es[|es| - 1]) == id then 1 else 0)
  }

  /** How many of the events are trailers naming `id`. */
  function TrailerCount(es: seq<Event>, id: string): nat
    decreases |es|
  {
    if es == [] then 0
    else TrailerCount(es[..|es| - 1], id)
         + (if es[|es| - 1].CoAuthored? && EventId(es[|es| - 1]) == id then 1 else 0)
  }

  /** How many of the events are authorships at all. */
  function Authorships(es: seq<Event>): nat
    decreases |es|
  {
    if es == [] then 0 else Authorships(es[..|es| - 1]) + (if es[|es| - 1].Authored? then 1 else 0)
  }

  /** The last event that names `id`. */
  function LastMention(es: seq<Event>, id: string): (r: Option<Event>)
    decreases |es|
  {
    if es == [] then None
    else if EventId(es[|es| - 1]) == id then Some(es[|es| - 1])
    else LastMention(es[..|es| - 1], id)
  }

  /** The shape the map and the sets keep. */
  ghost predicate Valid(r: Roster) {
    && (forall i, j :: 0 <= i < j < |r.order| ==> r.order[i] != r.order[j])
    && (forall id :: id in r.records <==> id in r.order)
    && r.all == r.records.Keys
    && r.all == r.authors + r.coAuthors
    && (forall id :: id in r.records ==> IdOf(r.records[id].name, r.records[id].email) == id)
  }

  /** The sum of `commits` over the keys in `ids`. */
  function CommitSum(ids: seq<string>, records: map<string, Contributor>): nat
    requires forall k :: 0 <= k < |ids| ==> ids[k] in records
    decreases |ids|
  {
    if ids == [] then 0
    else CommitSum(ids[..|ids| - 1], records) + records[ids[|ids| - 1]].commits
  }

  // ---------------------------------------------------------------------
  // What the state says about the events

  lemma ApplyValid(r: Roster, e: Event)
    requires Valid(r)
    ensures Valid(Apply(r, e))
  {
    ApplyDistinct(r, e);
    ApplyKeys(r, e);
    ApplySets(r, e);
    ApplyIds(r, e);
  }

  lemma ApplyDistinct(r: Roster, e: Event)
    requires forall i, j :: 0 <= i < j < |r.order| ==> r.order[i] != r.order[j]
    requires forall id :: id in r.records <==> id in r.order
    ensures var r' := Apply(r, e); forall i, j :: 0 <= i < j < |r'.order| ==> r'.order[i] != r'.order[j]
  {
    var id := EventId(e);
    var r' := Apply(r, e);
    if id !in r.records {
      assert r'.order == r.order + [id];
      forall i, j | 0 <= i < j < |r'.order| ensures r'.order[i] != r'.order[j] {
        if j == |r.order| { assert r'.order[i] == r.order[i]; }
      }
    }
  }

  lemma ApplyKeys(r: Roster, e: Event)
    requires forall id :: id in r.records <==> id in r.order
    ensures var r' := Apply(r, e); forall id :: id in r'.records <==> id in r'.order
  {
  }

  lemma ApplySets(r: Roster, e: Event)
    requires r.all == r.records.Keys && r.all == r.authors + r.coAuthors
    ensures var r' := Apply(r, e); r'.all == r'.records.Keys && r'.all == r'.authors + r'.coAuthors
  {
  }

  lemma ApplyIds(r: Roster, e: Event)
    requires forall id :: id in r.records ==> IdOf(r.records[id].name, r.records[id].email) == id
    ensures var r' := Apply(r, e); forall id :: id in r'.records ==> IdOf(r'.records[id].name, r'.records[id].email) == id
  {
  }

  lemma {:induction false} ReplayValid(es: seq<Event>)
    ensures Valid(Replay(es))
    decreases |es|
  {
    if es != [] {
      ReplayValid(es[..|es| - 1]);
      ApplyValid(Replay(es[..|es| - 1]), es[|es| - 1]);
    }
  }

  /** Every id in the insertion order of a replayed state has a record. */
  lemma ReplayOrdered(es: seq<Event>)
    ensures forall k :: 0 <= k < |Replay(es).order| ==> Replay(es).order[k] in Replay(es).records
  {
    ReplayValid(es);
  }

  /**
   * The map after the events: a key is present exactly when an event named it; its
   * commits are the authorships of it; its flag is set exactly when the last event
   * naming it was a trailer; it is an author (co-author) exactly when some authorship
   * (trailer) named it.
   */
  lemma {:induction false} ReplayCharacterized(es: seq<Event>, id: string)
    ensures var r := Replay(es);
      && (id in r.records <==> LastMention(es, id).Some?)
      && (id in r.records ==> r.records[id].commits == AuthoredCount(es, id))
      && (id in r.records ==> (r.records[id].isCoAuthor <==> LastMention(es, id).value.CoAuthored?))
      && (id in r.authors <==> AuthoredCount(es, id) > 0)
      && (id in r.coAuthors <==> TrailerCount(es, id) > 0)
    decreases |es|
  {
    if es != [] {
      ReplayCharacterized(es[..|es| - 1], id);
      ReplayValid(es[..|es| - 1]);
    }
  }

  /** A contributor known only from trailers has no commits. */
  lemma TrailerOnlyHasNoCommits(es: seq<Event>, id: string)
    requires id in Replay(es).records && AuthoredCount(es, id) == 0
    ensures Replay(es).records[id].commits == 0 && id !in Replay(es).authors && id in Replay(es).coAuthors
  {
    ReplayCharacterized(es, id);
    ReplayValid(es);
  }

  /** Replacing the value of a key that occurs once changes the sum by the difference. */
  lemma {:induction false} CommitSumUpdate(ids: seq<string>, records: map<string, Contributor>, id: string, c: Contributor)
    requires forall k :: 0 <= k < |ids| ==> ids[k] in records
    requires forall i, j :: 0 <= i < j < |ids| ==> ids[i] != ids[j]
    requires id in records
    ensures CommitSum(ids, records[id := c]) + (if id in ids then records[id].commits else 0)
            == CommitSum(ids, records) + (if id in ids then c.commits else 0)
    decreases |ids|
  {
    if ids != [] {
      var init := ids[..|ids| - 1];
      assert forall k :: 0 <= k < |init| ==> init[k] == ids[k];
      CommitSumUpdate(init, records, id, c);
      if ids[|ids| - 1] == id {
        assert id !in init;
      } else {
        assert id in ids <==> id in init;
      }
    }
  }

  /** Appending a new key adds its commits. */
  lemma CommitSumAppend(ids: seq<string>, records: map<string, Contributor>, id: string, c: Contributor)
    requires forall k :: 0 <= k < |ids| ==> ids[k] in records
    requires id !in ids
    ensures CommitSum(ids + [id], records[id := c]) == CommitSum(ids, records) + c.commits
  {
    assert (ids + [id])[..|ids|] == ids;
    CommitSumFresh(ids, records, id, c);
  }

  lemma {:induction false} CommitSumFresh(ids: seq<string>, records: map<string, Contributor>, id: string, c: Contributor)
    requires forall k :: 0 <= k < |ids| ==> ids[k] in records
    requires id !in ids
    ensures CommitSum(ids, records[id := c]) == CommitSum(ids, records)
    decreases |ids|
  {
    if ids != [] {
      var init := ids[..|ids| - 1];
      assert forall k :: 0 <= k < |init| ==> init[k] == ids[k];
      CommitSumFresh(init, records, id, c);
    }
  }

  /** The commits over the whole map add up to the number of authorships. */
  lemma {:induction false} ReplayCommitSum(es: seq<Event>)
    ensures Valid(Replay(es))
    ensures CommitSum(Replay(es).order, Replay(es).records) == Authorships(es)
    decreases |es|
  {
    ReplayValid(es);
    if es != [] {
      ReplayCommitSum(es[..|es| - 1]);
      CommitSumApply(Replay(es[..|es| - 1]), es[|es| - 1]);
    }
  }

  /** One write adds one commit to the sum when it is an authorship, and none otherwise. */
  lemma CommitSumApply(r: Roster, e: Event)
    requires Valid(r)
    ensures Valid(Apply(r, e))
    ensures CommitSum(Apply(r, e).order, Apply(r, e).records)
            == CommitSum(r.order, r.records) + (if e.Authored? then 1 else 0)
  {
    ApplyValid(r, e);
    var id := EventId(e);
    var r' := Apply(r, e);
    if id in r.records {
      CommitSumUpdate(r.order, r.records, id, r'.records[id]);
    } else {
      CommitSumAppend(r.order, r.records, id, r'.records[id]);
    }
  }
  // ---------------------------------------------------------------------
  // Ordering and listing the contributors

  /** `Array.from(contributors.entries())`: key and value pairs in insertion order. */
  function Listing(r: Roster): (l: seq<(string, Contributor)>)
    requires forall k :: 0 <= k < |r.order| ==> r.order[k] in r.records
    ensures |l| == |r.order|
    ensures forall k :: 0 <= k < |l| ==> l[k] == (r.order[k], r.records[r.order[k]])
  {
    seq(|r.order|, k requires 0 <= k < |r.order| => (r.order[k], r.records[r.order[k]]))
  }

  /** The comparator: more commits first, then names in order. */
  predicate Before(a: Contributor, b: Contributor) {
    a.commits > b.commits || (a.commits == b.commits && StrLess(a.name, b.name))
  }

  lemma BeforeIrreflexive(a: Contributor)
    ensures !Before(a, a)
  {
    StrLessIrreflexive(a.name);
  }

  lemma BeforeTransitive(a: Contributor, b: Contributor, c: Contributor)
    requires Before(a, b) && Before(b, c)
    ensures Before(a, c)
  {
    if a.commits == b.commits && b.commits == c.commits {
      StrLessTransitive(a.name, b.name, c.name);
    }
  }

  /** No entry is placed after one it should precede. */
  predicate Ordered(s: seq<(string, Contributor)>) {
    forall i, j :: 0 <= i < j < |s| ==> !Before(s[j].1, s[i].1)
  }

  /** Insertion behind every entry that `x` does not strictly precede, which keeps equal entries in arrival order. */
  function Insert(x: (string, Contributor), s: seq<(string, Contributor)>): (r: seq<(string, Contributor)>)
    ensures multiset(r) == multiset(s) + multiset{x}
    decreases |s|
  {
    if s == [] then [x]
    else if Before(x.1, s[0].1) then [x] + s
    else
      assert s == [s[0]] + s[1..];
      [s[0]] + Insert(x, s[1..])
  }

  /** `sort` with the comparator: the entries inserted one by one, first to last. */
  function Sort(s: seq<(string, Contributor)>): (r: seq<(string, Contributor)>)
    decreases |s|
  {
    if s == [] then [] else Insert(s[|s| - 1], Sort(s[..|s| - 1]))
  }

  lemma {:induction false} InsertOrdered(x: (string, Contributor), s: seq<(string, Contributor)>)
    requires Ordered(s)
    ensures Ordered(Insert(x, s))
    decreases |s|
  {
    if s != [] {
      if Before(x.1, s[0].1) {
        var r := [x] + s;
        forall i, j | 0 <= i < j < |r| ensures !Before(r[j].1, r[i].1) {
          if i == 0 {
            if Before(s[j - 1].1, x.1) {
              BeforeTransitive(s[j - 1].1, x.1, s[0].1);
              if j - 1 == 0 { BeforeIrreflexive(s[0].1); }
            }
          }
        }
      } else {
        var t := s[1..];
        assert Ordered(t);
        InsertOrdered(x, t);
        var u := Insert(x, t);
        var r := [s[0]] + u;
        forall i, j | 0 <= i < j < |r| ensures !Before(r[j].1, r[i].1) {
          if i == 0 {
            var y := u[j - 1];
            assert y in multiset(u);
            assert y in multiset(t) || y == x;
            if y != x {
              var k :| 0 <= k < |t| && t[k] == y;
              assert s[k + 1] == y;
            }
          } else {
            assert r[i] == u[i - 1] && r[j] == u[j - 1];
          }
        }
      }
    }
  }

  /** The sorted contributors are in comparator order and are the same entries. */
  lemma {:induction false} SortCorrect(s: seq<(string, Contributor)>)
    ensures Ordered(Sort(s))
    ensures multiset(Sort(s)) == multiset(s)
    decreases |s|
  {
    SortOrdered(s);
    SortPermutes(s);
  }

  lemma {:induction false} SortOrdered(s: seq<(string, Contributor)>)
    ensures Ordered(Sort(s))
    decreases |s|
  {
    if s != [] {
      SortOrdered(s[..|s| - 1]);
      InsertOrdered(s[|s| - 1], Sort(s[..|s| - 1]));
    }
  }

  lemma {:induction false} SortPermutes(s: seq<(string, Contributor)>)
    ensures multiset(Sort(s)) == multiset(s)
    decreases |s|
  {
    if s != [] {
      var init := s[..|s| - 1];
      SortPermutes(init);
      assert s == init + [s[|s| - 1]];
    }
  }

  /** `commitCount === 1 ? 'commit' : 'commits'`. */
  function CommitWord(n: nat): string {
    if n == 1 then "commit" else "commits"
  }

  function PrimaryLine(c: Contributor): string {
    "- **" + c.name + "** (" + NatToString(c.commits) + " " + CommitWord(c.commits) + ")"
  }

  function CoAuthorLine(c: Contributor): string {
    "- **" + c.name + "**"
  }

  /** `.filter(([id, _]) => contributorRoles.authors.has(id))`. */
  function WithIdIn(s: seq<(string, Contributor)>, ids: set<string>): seq<(string, Contributor)>
    decreases |s|
  {
    if s == [] then [] else (if s[0].0 in ids then [s[0]] else []) + WithIdIn(s[1..], ids)
  }

  /** `.filter(([_, data]) => data.isCoAuthor)`. */
  function Flagged(s: seq<(string, Contributor)>): seq<(string, Contributor)>
    decreases |s|
  {
    if s == [] then [] else (if s[0].1.isCoAuthor then [s[0]] else []) + Flagged(s[1..])
  }

  function PrimaryLines(s: seq<(string, Contributor)>): (r: seq<string>)
    ensures |r| == |s| && forall k :: 0 <= k < |s| ==> r[k] == PrimaryLine(s[k].1)
  {
    seq(|s|, k requires 0 <= k < |s| => PrimaryLine(s[k].1))
  }

  function CoAuthorLines(s: seq<(string, Contributor)>): (r: seq<string>)
    ensures |r| == |s| && forall k :: 0 <= k < |s| ==> r[k] == CoAuthorLine(s[k].1)
  {
    seq(|s|, k requires 0 <= k < |s| => CoAuthorLine(s[k].1))
  }

  predicate DistinctIds(s: seq<(string, Contributor)>) {
    forall i, j :: 0 <= i < j < |s| ==> s[i].0 != s[j].0
  }

  lemma {:induction false} OnceAtMost(s: seq<(string, Contributor)>, x: (string, Contributor))
    requires DistinctIds(s)
    ensures multiset(s)[x] <= 1
    decreases |s|
  {
    if s != [] {
      var init := s[..|s| - 1];
      assert s == init + [s[|s| - 1]];
      assert DistinctIds(init);
      OnceAtMost(init, x);
      forall k | 0 <= k < |init| ensures init[k] != s[|s| - 1] {
        assert init[k].0 == s[k].0;
      }
    }
  }

  lemma TwiceCounted(s: seq<(string, Contributor)>, i: nat, j: nat)
    requires i < j < |s|
    ensures s[i] == s[j] ==> multiset(s)[s[i]] >= 2
  {
    assert s == s[..j] + s[j..];
    assert s[i] in s[..j];
    assert s[j] in s[j..];
  }

  /** With distinct keys, the key determines the entry. */
  lemma SameKeySame(a: seq<(string, Contributor)>, x: (string, Contributor), y: (string, Contributor))
    requires DistinctIds(a)
    ensures x in a && y in a && x.0 == y.0 ==> x == y
  {
    if x in a && y in a && x.0 == y.0 {
      var p :| 0 <= p < |a| && a[p] == x;
      var q :| 0 <= q < |a| && a[q] == y;
      assert p == q;
    }
  }

  /** Reordering entries whose value is fixed by their key keeps the keys distinct. */
  lemma PermutedDistinct(a: seq<(string, Contributor)>, b: seq<(string, Contributor)>)
    requires multiset(a) == multiset(b) && DistinctIds(a)
    ensures DistinctIds(b)
  {
    forall i, j | 0 <= i < j < |b| ensures b[i].0 != b[j].0 {
      assert b[i] in multiset(a) && b[j] in multiset(a);
      SameKeySame(a, b[i], b[j]);
      TwiceCounted(b, i, j);
      OnceAtMost(a, b[i]);
    }
  }

  /** The author filter keeps exactly the entries whose key is in the set. */
  lemma {:induction false} WithIdInMembers(s: seq<(string, Contributor)>, ids: set<string>)
    ensures forall x :: x in WithIdIn(s, ids) <==> x in s && x.0 in ids
    decreases |s|
  {
    if s != [] {
      WithIdInMembers(s[1..], ids);
      assert s == [s[0]] + s[1..];
    }
  }

  /** The co-author filter keeps exactly the flagged entries. */
  lemma {:induction false} FlaggedMembers(s: seq<(string, Contributor)>)
    ensures forall x :: x in Flagged(s) <==> x in s && x.1.isCoAuthor
    decreases |s|
  {
    if s != [] {
      FlaggedMembers(s[1..]);
      assert s == [s[0]] + s[1..];
    }
  }

  lemma {:induction false} WithIdInDistinct(s: seq<(string, Contributor)>, ids: set<string>)
    requires DistinctIds(s)
    ensures DistinctIds(WithIdIn(s, ids))
    decreases |s|
  {
    if s != [] {
      assert DistinctIds(s[1..]);
      WithIdInDistinct(s[1..], ids);
      WithIdInMembers(s[1..], ids);
      var t := WithIdIn(s[1..], ids);
      if s[0].0 in ids {
        forall j | 0 < j < |t| + 1 ensures s[0].0 != ([s[0]] + t)[j].0 {
          assert ([s[0]] + t)[j] == t[j - 1];
          assert t[j - 1] in s[1..];
        }
      }
    }
  }

  lemma {:induction false} WithIdInOrdered(s: seq<(string, Contributor)>, ids: set<string>)
    requires Ordered(s)
    ensures Ordered(WithIdIn(s, ids))
    decreases |s|
  {
    if s != [] {
      assert Ordered(s[1..]);
      WithIdInOrdered(s[1..], ids);
      WithIdInMembers(s[1..], ids);
      var t := WithIdIn(s[1..], ids);
      if s[0].0 in ids {
        forall j | 0 < j < |t| + 1 ensures !Before(([s[0]] + t)[j].1, s[0].1) {
          assert ([s[0]] + t)[j] == t[j - 1];
          assert t[j - 1] in s[1..];
        }
      }
    }
  }

  lemma {:induction false} FlaggedOrdered(s: seq<(string, Contributor)>)
    requires Ordered(s)
    ensures Ordered(Flagged(s))
    decreases |s|
  {
    if s != [] {
      assert Ordered(s[1..]);
      FlaggedOrdered(s[1..]);
      FlaggedMembers(s[1..]);
      var t := Flagged(s[1..]);
      if s[0].1.isCoAuthor {
        forall j | 0 < j < |t| + 1 ensures !Before(([s[0]] + t)[j].1, s[0].1) {
          assert ([s[0]] + t)[j] == t[j - 1];
          assert t[j - 1] in s[1..];
        }
      }
    }
  }

  lemma {:induction false} FlaggedDistinct(s: seq<(string, Contributor)>)
    requires DistinctIds(s)
    ensures DistinctIds(Flagged(s))
    decreases |s|
  {
    if s != [] {
      assert DistinctIds(s[1..]);
      FlaggedDistinct(s[1..]);
      FlaggedMembers(s[1..]);
      var t := Flagged(s[1..]);
      if s[0].1.isCoAuthor {
        forall j | 0 < j < |t| + 1 ensures s[0].0 != ([s[0]] + t)[j].0 {
          assert ([s[0]] + t)[j] == t[j - 1];
          assert t[j - 1] in s[1..];
        }
      }
    }
  }

  /** Distinct keys: as many entries as keys. */
  lemma {:induction false} DistinctCount(s: seq<(string, Contributor)>)
    requires DistinctIds(s)
    ensures |set x | x in s :: x.0| == |s|
    decreases |s|
  {
    if s != [] {
      var init, last := DistinctSnoc(s);
      DistinctCount(init);
      KeySetSnoc(init, last);
    }
  }

  lemma DistinctSnoc(s: seq<(string, Contributor)>) returns (init: seq<(string, Contributor)>, last: (string, Contributor))
    requires s != [] && DistinctIds(s)
    ensures s == init + [last] && DistinctIds(init)
    ensures last.0 !in (set x | x in init :: x.0)
  {
    init, last := s[..|s| - 1], s[|s| - 1];
    assert s == init + [last];
    forall k | 0 <= k < |init| ensures init[k].0 != last.0 {
      assert init[k] == s[k];
    }
  }

  lemma KeySetSnoc(init: seq<(string, Contributor)>, last: (string, Contributor))
    ensures (set x | x in init + [last] :: x.0) == (set x | x in init :: x.0) + {last.0}
  {
  }

  /** The contributors in the order the summary lists them. */
  function Ranked(r: Roster): seq<(string, Contributor)>
    requires forall k :: 0 <= k < |r.order| ==> r.order[k] in r.records
  {
    Sort(Listing(r))
  }

  /** The ranked contributors: the map's entries, each once, in comparator order. */
  lemma RankedFacts(r: Roster)
    requires Valid(r)
    ensures Ordered(Ranked(r)) && DistinctIds(Ranked(r))
    ensures forall x: (string, Contributor) :: x in Ranked(r) <==> x.0 in r.records && x.1 == r.records[x.0]
  {
    var l := Listing(r);
    ListingDistinct(r);
    SortCorrect(l);
    PermutedDistinct(l, Sort(l));
    forall x: (string, Contributor) ensures x in Sort(l) <==> x in l {
      assert x in Sort(l) <==> x in multiset(Sort(l));
    }
  }

  lemma ListingDistinct(r: Roster)
    requires Valid(r)
    ensures DistinctIds(Listing(r))
    ensures forall x: (string, Contributor) :: x in Listing(r) <==> x.0 in r.records && x.1 == r.records[x.0]
  {
    var l := Listing(r);
    forall x: (string, Contributor) | x.0 in r.records && x.1 == r.records[x.0] ensures x in l {
      var k :| 0 <= k < |r.order| && r.order[k] == x.0;
      assert l[k] == x;
    }
  }

  /**
   * Primary Authors: every author exactly once, in comparator order, each with its commit
   * count and `commit` or `commits`.
   */
  lemma PrimaryAuthorsListed(es: seq<Event>)
    ensures Valid(Replay(es))
    ensures var r := Replay(es); var p := WithIdIn(Ranked(r), r.authors);
      && Ordered(p) && DistinctIds(p)
      && (set x | x in p :: x.0) == r.authors
      && |PrimaryLines(p)| == |r.authors|
      && forall x :: x in p ==> x.1 == r.records[x.0] && x.1.commits == AuthoredCount(es, x.0) > 0
  {
    ReplayValid(es);
    AuthorListing(Replay(es));
    AuthorCommits(es);
  }

  /** An author's count is the number of commits it authored, and is positive. */
  lemma AuthorCommit(es: seq<Event>, id: string)
    requires id in Replay(es).authors && id in Replay(es).records
    ensures Replay(es).records[id].commits == AuthoredCount(es, id) > 0
  {
    ReplayCharacterized(es, id);
  }

  /** Each listed author's count is the number of commits it authored, and is positive. */
  lemma AuthorCommits(es: seq<Event>)
    ensures Valid(Replay(es))
    ensures var r := Replay(es);
      forall x :: x in WithIdIn(Ranked(r), r.authors) ==> x.1.commits == AuthoredCount(es, x.0) > 0
  {
    var r := Replay(es);
    ReplayValid(es);
    AuthorEntries(r);
    forall x | x in WithIdIn(Ranked(r), r.authors) ensures x.1.commits == AuthoredCount(es, x.0) > 0 {
      AuthorCommit(es, x.0);
    }
  }

  /** Each entry of the author listing is an author's map entry. */
  lemma AuthorEntries(r: Roster)
    requires Valid(r)
    ensures forall x :: x in WithIdIn(Ranked(r), r.authors) ==> x.0 in r.authors && x.0 in r.records && x.1 == r.records[x.0]
  {
    RankedFacts(r);
    WithIdInMembers(Ranked(r), r.authors);
  }

  /** The author listing of a map: each author's entry once, in comparator order. */
  lemma AuthorListing(r: Roster)
    requires Valid(r)
    ensures var p := WithIdIn(Ranked(r), r.authors);
      && Ordered(p) && DistinctIds(p)
      && (set x | x in p :: x.0) == r.authors
      && |p| == |r.authors|
      && forall x :: x in p ==> x.0 in r.authors && x.0 in r.records && x.1 == r.records[x.0]
  {
    RankedFacts(r);
    assert r.authors <= r.records.Keys;
    FilterListing(Ranked(r), r.authors, r.records);
  }

  /** Filtering a ranked listing by a set of keys of the map keeps each of those keys' entries once. */
  lemma FilterListing(s: seq<(string, Contributor)>, ids: set<string>, records: map<string, Contributor>)
    requires Ordered(s) && DistinctIds(s) && ids <= records.Keys
    requires forall x: (string, Contributor) :: x in s <==> x.0 in records && x.1 == records[x.0]
    ensures var p := WithIdIn(s, ids);
      && Ordered(p) && DistinctIds(p)
      && (set x | x in p :: x.0) == ids
      && |p| == |ids|
      && forall x :: x in p ==> x.0 in ids && x.0 in records && x.1 == records[x.0]
  {
    var p := WithIdIn(s, ids);
    WithIdInDistinct(s, ids);
    WithIdInOrdered(s, ids);
    WithIdInMembers(s, ids);
    forall id | id in ids ensures id in (set x | x in p :: x.0) {
      assert (id, records[id]) in p;
    }
    DistinctCount(p);
  }

  /**
   * Co-Authors: exactly the contributors whose flag is set, in comparator order; each
   * is a co-author whose last mention was a trailer.
   */
  lemma CoAuthorsListed(es: seq<Event>)
    ensures Valid(Replay(es))
    ensures var r := Replay(es); var c := Flagged(Ranked(r));
      && Ordered(c) && DistinctIds(c)
      && (set x | x in c :: x.0) == (set id | id in r.records && r.records[id].isCoAuthor)
      && (set x | x in c :: x.0) <= r.coAuthors
      && |CoAuthorLines(c)| == |set id | id in r.records && r.records[id].isCoAuthor|
      && forall x :: x in c ==>
           x.1 == r.records[x.0] && LastMention(es, x.0).Some? && LastMention(es, x.0).value.CoAuthored?
  {
    ReplayValid(es);
    FlaggedListing(Replay(es));
    CoAuthorMentions(es);
  }

  /** Each listed co-author was last mentioned by a trailer, and so is in the co-author set. */
  lemma CoAuthorMentions(es: seq<Event>)
    ensures Valid(Replay(es))
    ensures var r := Replay(es);
      forall x :: x in Flagged(Ranked(r)) ==>
        LastMention(es, x.0).Some? && LastMention(es, x.0).value.CoAuthored? && x.0 in r.coAuthors
  {
    var r := Replay(es);
    ReplayValid(es);
    FlaggedEntries(r);
    forall x | x in Flagged(Ranked(r))
      ensures LastMention(es, x.0).Some? && LastMention(es, x.0).value.CoAuthored? && x.0 in r.coAuthors
    {
      CoAuthorMention(es, x.0);
    }
  }

  /** A flagged key was last mentioned by a trailer, and is in the co-author set. */
  /** Each entry of the co-author listing is a flagged map entry. */
  lemma FlaggedEntries(r: Roster)
    requires Valid(r)
    ensures forall x :: x in Flagged(Ranked(r)) ==> x.0 in r.records && x.1 == r.records[x.0] && x.1.isCoAuthor
  {
    RankedFacts(r);
    FlaggedMembers(Ranked(r));
  }

  lemma CoAuthorMention(es: seq<Event>, id: string)
    requires id in Replay(es).records && Replay(es).records[id].isCoAuthor
    ensures LastMention(es, id).Some? && LastMention(es, id).value.CoAuthored? && id in Replay(es).coAuthors
  {
    ReplayCharacterized(es, id);
    LastTrailerCounted(es, id);
  }

  /** The flagged listing of a map: each flagged entry once, in comparator order. */
  lemma FlaggedListing(r: Roster)
    requires Valid(r)
    ensures var c := Flagged(Ranked(r));
      && Ordered(c) && DistinctIds(c)
      && (set x | x in c :: x.0) == (set id | id in r.records && r.records[id].isCoAuthor)
      && |c| == |set id | id in r.records && r.records[id].isCoAuthor|
      && forall x :: x in c ==> x.0 in r.records && x.1 == r.records[x.0] && x.1.isCoAuthor
  {
    RankedFacts(r);
    FlagListing(Ranked(r), r.records);
  }

  /** Keeping the flagged entries of a ranked listing keeps each flagged key's entry once. */
  lemma FlagListing(s: seq<(string, Contributor)>, records: map<string, Contributor>)
    requires Ordered(s) && DistinctIds(s)
    requires forall x: (string, Contributor) :: x in s <==> x.0 in records && x.1 == records[x.0]
    ensures var c := Flagged(s);
      && Ordered(c) && DistinctIds(c)
      && (set x | x in c :: x.0) == (set id | id in records && records[id].isCoAuthor)
      && |c| == |set id | id in records && records[id].isCoAuthor|
      && forall x :: x in c ==> x.0 in records && x.1 == records[x.0] && x.1.isCoAuthor
  {
    var c := Flagged(s);
    FlaggedDistinct(s);
    FlaggedOrdered(s);
    FlaggedMembers(s);
    forall id | id in records && records[id].isCoAuthor ensures id in (set x | x in c :: x.0) {
      assert (id, records[id]) in c;
    }
    DistinctCount(c);
  }

  /** When the last mention is a trailer, some trailer names the key. */
  lemma {:induction false} LastTrailerCounted(es: seq<Event>, id: string)
    requires LastMention(es, id).Some? && LastMention(es, id).value.CoAuthored?
    ensures TrailerCount(es, id) > 0
    decreases |es|
  {
    if EventId(es[|es| - 1]) != id {
      LastTrailerCounted(es[..|es| - 1], id);
    }
  }

  /** The author listing is never longer than the map, and the flagged listing is not either. */
  lemma ListingsWithinMap(r: Roster)
    requires Valid(r)
    ensures |WithIdIn(Ranked(r), r.authors)| <= |r.order|
    ensures |Flagged(Ranked(r))| <= |r.order|
  {
    var l := Listing(r);
    SortCorrect(l);
    assert |Sort(l)| == |l| by {
      assert |multiset(Sort(l))| == |multiset(l)|;
    }
    FilterShorter(Sort(l), r.authors);
  }

  lemma {:induction false} FilterShorter(s: seq<(string, Contributor)>, ids: set<string>)
    ensures |WithIdIn(s, ids)| <= |s| && |Flagged(s)| <= |s|
    decreases |s|
  {
    if s != [] { FilterShorter(s[1..], ids); }
  }
}
