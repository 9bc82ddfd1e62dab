/**
 * Reading the output of `git log --pretty=format:...`: the text is cut at the entry
 * delimiter, blank chunks are dropped, and each chunk is split into lines, giving a
 * fixed number of header lines and the body made of the remaining lines.
 */
module GitLog {
  import opened Outcomes
  import opened Text

  /** The marker the log format writes after every entry. */
  const Delimiter: string := "--COMMIT_DELIMITER--"

  /** `.filter((c) => c.trim())`: the pieces whose trimmed text is not empty, in order. */
  function NonBlank(pieces: seq<string>): (r: seq<string>)
    ensures |r| <= |pieces|
    ensures forall i :: 0 <= i < |r| ==> Trim(r[i]) != ""
    ensures forall x :: x in r <==> x in pieces && Trim(x) != ""
  {
    if pieces == [] then []
    else (if Trim(pieces[0]) != "" then [pieces[0]] else []) + NonBlank(pieces[1..])
  }

  /** The filter keeps the input's order: filtering a concatenation filters each part. */
  lemma {:induction false} NonBlankAppend(a: seq<string>, b: seq<string>)
    ensures NonBlank(a + b) == NonBlank(a) + NonBlank(b)
    decreases |a|
  {
    if a == [] {
      assert a + b == b;
    } else {
      assert (a + b)[0] == a[0];
      assert (a + b)[1..] == a[1..] + b;
      NonBlankAppend(a[1..], b);
    }
  }

  /** The chunks both generators iterate over; `commits.length` counts these. */
  function Chunks(log: string): seq<string> {
    NonBlank(Split(log, Delimiter))
  }

  /** `commit.trim().split('\n')`. */
  function Lines(chunk: string): seq<string> {
    Split(Trim(chunk), "\n")
  }

  /** A chunk read as `n` header lines, each trimmed, and the trimmed body. */
  datatype Entry = Entry(fields: seq<string>, body: string)

  /** The first `n` lines, each trimmed. */
  function HeaderFields(lines: seq<string>, n: nat): (r: seq<string>)
    requires n <= |lines|
    ensures |r| == n && forall i :: 0 <= i < n ==> r[i] == Trim(lines[i])
  {
    seq(n, i requires 0 <= i < n => Trim(lines[i]))
  }

  /** `lines.slice(n).join('\n').trim()`. */
  function BodyOf(lines: seq<string>, n: nat): (r: string)
    requires n <= |lines|
    ensures Trimmed(r)
  {
    Trim(Join(lines[n..], "\n"))
  }

  /**
   * How a chunk is read with `n` header lines: `None` when it has fewer lines (the
   * callback returns early); otherwise the first `n` lines trimmed, and the rest as the body.
   */
  function ParseEntry(chunk: string, n: nat): (r: Option<Entry>)
    ensures r.None? <==> |Lines(chunk)| < n
    ensures r.Some? ==> r.value == Entry(HeaderFields(Lines(chunk), n), BodyOf(Lines(chunk), n))
  {
    var lines := Lines(chunk);
    if |lines| < n then None else Some(Entry(HeaderFields(lines, n), BodyOf(lines, n)))
  }

  /** The commit record of the current generator: `%h`, `%an`, `%ae`, `%s`, then `%b`. */
  datatype Commit = Commit(hash: string, authorName: string, authorEmail: string, subject: string, body: string)

  function ParseCommit(chunk: string): (r: Option<Commit>)
    ensures r.Some? <==> |Lines(chunk)| >= 4
  {
    match ParseEntry(chunk, 4)
    case None => None
    case Some(e) => Some(Commit(e.fields[0], e.fields[1], e.fields[2], e.fields[3], e.body))
  }

  /** The commit record of the legacy generator: `%h`, `%s`, then `%b`. */
  datatype LegacyCommit = LegacyCommit(hash: string, subject: string, body: string)

  function ParseLegacyCommit(chunk: string): (r: Option<LegacyCommit>)
    ensures r.Some? <==> |Lines(chunk)| >= 2
  {
    match ParseEntry(chunk, 2)
    case None => None
    case Some(e) => Some(LegacyCommit(e.fields[0], e.fields[1], e.body))
  }

  // ---------------------------------------------------------------------
  // The text git writes, and reading it back

  /**
   * One entry as the format writes it: each field, the body, then the delimiter, one per line.
   * The body is `%b` as git prints it, so for a commit with a message body it ends with the
   * message's final newline, and a blank line comes before the delimiter.
   */
  function FormatEntry(e: Entry): string {
    Join(e.fields + [e.body], "\n") + "\n" + Delimiter
  }

  /** `format:` output separates consecutive entries by a newline and ends without one. */
  function FormatLog(es: seq<Entry>): string
    decreases |es|
  {
    if es == [] then ""
    else if |es| == 1 then FormatEntry(es[0])
    else FormatEntry(es[0]) + "\n" + FormatLog(es[1..])
  }

  /**
   * An entry that reads back: `n` header lines that are trimmed and hold no newline, a
   * non-empty first and last header line, and no delimiter anywhere. The body may start or
   * end with any whitespace, as `%b` does; the reader trims it.
   */
  ghost predicate WellFormed(e: Entry, n: nat) {
    && n >= 1 && |e.fields| == n
    && (forall i :: 0 <= i < n ==> Trimmed(e.fields[i]) && HasNoChar(e.fields[i], '\n'))
    && e.fields[0] != "" && e.fields[n - 1] != ""
    && (forall i :: 0 <= i < n ==> Free(e.fields[i], Delimiter))
    && Free(e.body, Delimiter)
  }

  /** What reading gives back for an entry: the same header lines and the trimmed body. */
  function AsRead(e: Entry): Entry {
    Entry(e.fields, Trim(e.body))
  }

  /** The text between two delimiters, preceded by `pre` (the newline between entries, or nothing). */
  function Piece(pre: string, e: Entry): string {
    pre + Join(e.fields + [e.body], "\n") + "\n"
  }

  /** The trimmed chunk: the header lines, then the body without its trailing whitespace when the body is not blank. */
  function Core(e: Entry): string {
    if Trim(e.body) == "" then Join(e.fields, "\n") else Join(e.fields + [TrimEnd(e.body)], "\n")
  }

  /** Where the trimmed text of a text that is not blank sits in it. */
  lemma TrimBounds(b: string) returns (i: nat, j: nat)
    requires Trim(b) != ""
    ensures 0 <= i < j <= |b| && Trim(b) == b[i..j]
    ensures AllWhitespace(b[..i]) && AllWhitespace(b[j..]) && !IsWhitespace(b[j - 1])
  {
    var t := TrimStart(b);
    TrimStartSuffix(b);
    TrimEndPrefix(t);
    i := |b| - |t|;
    j := i + |TrimEnd(t)|;
    assert b[i..] == t;
    assert Trim(b) == t[..|TrimEnd(t)|] == b[i..j];
    assert b[j..] == t[|TrimEnd(t)|..];
    var m := Trim(b);
    assert b[j - 1] == m[|m| - 1];
  }

  /** `TrimEnd` stops at the last character that is not whitespace. */
  lemma {:induction false} TrimEndAt(b: string, j: nat)
    requires 0 < j <= |b| && !IsWhitespace(b[j - 1]) && AllWhitespace(b[j..])
    ensures TrimEnd(b) == b[..j]
    decreases |b|
  {
    if |b| > j {
      var c := b[..|b| - 1];
      assert IsWhitespace(b[j..][|b| - 1 - j]);
      forall x | 0 <= x < |c[j..]| ensures IsWhitespace(c[j..][x]) {
        assert c[j..][x] == b[j..][x];
      }
      TrimEndAt(c, j);
      assert c[..j] == b[..j];
    } else {
      assert b[..j] == b;
    }
  }

  /** A body that is not blank loses only its trailing whitespace to `TrimEnd`, keeping its leading whitespace and its trimmed text. */
  lemma BodyEnd(b: string) returns (lead: string)
    requires Trim(b) != ""
    ensures TrimEnd(b) == lead + Trim(b) && AllWhitespace(lead)
  {
    var i, j := TrimBounds(b);
    TrimEndAt(b, j);
    lead := b[..i];
    assert b[..j] == b[..i] + b[i..j];
  }

  /** What `TrimEnd` drops is the whitespace at the end. */
  lemma BodyTail(b: string)
    ensures b == TrimEnd(b) + b[|TrimEnd(b)|..] && AllWhitespace(b[|TrimEnd(b)|..])
  {
    TrimEndPrefix(b);
    assert b == b[..|TrimEnd(b)|] + b[|TrimEnd(b)|..];
  }

  lemma DelimiterLacksNewline()
    ensures HasNoChar(Delimiter, '\n') && |Delimiter| == 20
  {
  }

  lemma JoinFirst(parts: seq<string>, sep: string)
    requires |parts| >= 1 && parts[0] != ""
    ensures |Join(parts, sep)| > 0 && Join(parts, sep)[0] == parts[0][0]
  {
  }

  lemma JoinLast(parts: seq<string>, sep: string)
    requires |parts| >= 1 && parts[|parts| - 1] != ""
    ensures var j := Join(parts, sep); |j| > 0 && j[|j| - 1] == parts[|parts| - 1][|parts[|parts| - 1]| - 1]
  {
    var n := |parts|;
    if n > 1 {
      assert parts == parts[..n - 1] + [parts[n - 1]];
      JoinSnoc(parts[..n - 1], parts[n - 1], sep);
    }
  }

  /** The piece of a well-formed entry is its core between whitespace, and the core is trimmed. */
  lemma PieceLayout(pre: string, e: Entry, n: nat) returns (w: string)
    requires WellFormed(e, n) && AllWhitespace(pre)
    ensures Trimmed(Core(e)) && Core(e) != ""
    ensures Piece(pre, e) == pre + Core(e) + w && AllWhitespace(w)
  {
    if Trim(e.body) == "" {
      w := BlankBodyLayout(pre, e, n);
    } else {
      assert Trimmed(e.fields[0]);
      w := BodyLayout(pre, e.fields, e.body);
    }
  }

  lemma BlankBodyLayout(pre: string, e: Entry, n: nat) returns (w: string)
    requires WellFormed(e, n) && AllWhitespace(pre) && Trim(e.body) == ""
    ensures Trimmed(Join(e.fields, "\n")) && Join(e.fields, "\n") != ""
    ensures Piece(pre, e) == pre + Join(e.fields, "\n") + w && AllWhitespace(w)
  {
    var j := Join(e.fields, "\n");
    JoinFirst(e.fields, "\n");
    JoinLast(e.fields, "\n");
    JoinSnoc(e.fields, e.body, "\n");
    TrimEmptyIff(e.body);
    w := "\n" + e.body + "\n";
    assert Piece(pre, e) == pre + j + w;
  }

  lemma BodyLayout(pre: string, fields: seq<string>, body: string) returns (w: string)
    requires |fields| >= 1 && fields[0] != "" && !IsWhitespace(fields[0][0]) && Trim(body) != ""
    ensures var core := Join(fields + [TrimEnd(body)], "\n"); Trimmed(core) && core != ""
    ensures pre + Join(fields + [body], "\n") + "\n" == pre + Join(fields + [TrimEnd(body)], "\n") + w
    ensures AllWhitespace(w)
  {
    var core := TrimEnd(body);
    var lead := BodyEnd(body);
    BodyTail(body);
    var tail := body[|core|..];
    w := tail + "\n";
    JoinSnoc(fields, body, "\n");
    JoinSnoc(fields, core, "\n");
    var j := Join(fields, "\n");
    assert pre + (j + "\n" + (core + tail)) + "\n" == pre + (j + "\n" + core) + (tail + "\n");
    CoreEnds(fields, core);
  }

  /** Header lines with a non-empty first line, followed by a trimmed, non-empty body line, join to a trimmed text. */
  lemma CoreEnds(fields: seq<string>, core: string)
    requires |fields| >= 1 && fields[0] != "" && !IsWhitespace(fields[0][0])
    requires core != "" && !IsWhitespace(core[|core| - 1])
    ensures var j := Join(fields + [core], "\n"); Trimmed(j) && j != ""
  {
    JoinFirst(fields + [core], "\n");
    JoinLast(fields + [core], "\n");
  }

  /** A well-formed entry's piece is trimmed to its core. */
  lemma TrimPiece(pre: string, e: Entry, n: nat)
    requires WellFormed(e, n) && AllWhitespace(pre)
    ensures Trim(Piece(pre, e)) == Core(e)
  {
    var w := PieceLayout(pre, e, n);
    TrimUnique(pre, Core(e), w);
  }

  /** The lines of a core are the header lines followed by the lines of the body, up to its trailing whitespace. */
  lemma CoreLines(e: Entry, n: nat)
    requires WellFormed(e, n)
    ensures Split(Core(e), "\n") == e.fields + (if Trim(e.body) == "" then [] else Split(TrimEnd(e.body), "\n"))
  {
    if Trim(e.body) == "" {
      SplitJoinChar(e.fields, '\n');
    } else {
      SplitJoinPrefixChar(e.fields, TrimEnd(e.body), '\n');
    }
  }

  /** Reading back the piece of a well-formed entry gives the entry with its body trimmed. */
  lemma ParsePiece(pre: string, e: Entry, n: nat)
    requires WellFormed(e, n) && AllWhitespace(pre)
    ensures ParseEntry(Piece(pre, e), n) == Some(AsRead(e))
  {
    TrimPiece(pre, e, n);
    CoreLines(e, n);
    var lines := Lines(Piece(pre, e));
    assert lines[..n] == e.fields;
    forall i | 0 <= i < n ensures Trim(lines[i]) == e.fields[i] {
      TrimOfTrimmed(e.fields[i]);
    }
    if Trim(e.body) == "" {
      assert lines[n..] == [];
      assert Trim("") == "";
    } else {
      assert lines[n..] == Split(TrimEnd(e.body), "\n");
      BodyReadBack(e.body);
    }
    var r := ParseEntry(Piece(pre, e), n).value;
    assert r.fields == e.fields;
  }

  /** The lines of a body that is not blank, joined and trimmed again, give the trimmed body. */
  lemma BodyReadBack(b: string)
    requires Trim(b) != ""
    ensures Trim(Join(Split(TrimEnd(b), "\n"), "\n")) == Trim(b)
  {
    var lead := BodyEnd(b);
    JoinSplit(TrimEnd(b), "\n");
    assert lead + Trim(b) + "" == TrimEnd(b);
    TrimUnique(lead, Trim(b), "");
  }

  /** The joined text of a well-formed entry holds no delimiter. */
  lemma EntryTextFree(e: Entry, n: nat)
    requires WellFormed(e, n)
    ensures Free(Join(e.fields + [e.body], "\n"), Delimiter)
  {
    DelimiterLacksNewline();
    var parts := e.fields + [e.body];
    forall i | 0 <= i < |parts| ensures Free(parts[i], Delimiter) {
      if i < n { assert parts[i] == e.fields[i]; }
    }
    FreeJoin(parts, '\n', Delimiter);
  }

  /** The first occurrence of the delimiter in `piece + Delimiter + more` is the one after the piece. */
  lemma PieceThenDelimiter(pre: string, e: Entry, n: nat, more: string)
    requires WellFormed(e, n) && (pre == "" || pre == "\n")
    ensures Split(Piece(pre, e) + Delimiter + more, Delimiter) == [Piece(pre, e)] + Split(more, Delimiter)
  {
    var p := Piece(pre, e);
    var body := pre + Join(e.fields + [e.body], "\n");
    assert p == body + "\n";
    DelimiterLacksNewline();
    EntryTextFree(e, n);
    assert Free(body, Delimiter) by {
      if pre == "\n" {
        assert body == [] + ['\n'] + Join(e.fields + [e.body], "\n");
        FreeAcross([], '\n', Join(e.fields + [e.body], "\n"), Delimiter);
      } else {
        assert body == Join(e.fields + [e.body], "\n");
      }
    }
    var s := p + Delimiter + more;
    forall k | 0 <= k < |p| ensures !OccursAt(s, Delimiter, k) {
      if k + 20 <= |s| {
        if k + 20 <= |body| {
          assert s[k..k + 20] == body[k..k + 20];
          assert !OccursAt(body, Delimiter, k);
        } else {
          assert s[k..k + 20][|body| - k] == '\n';
          assert Delimiter[|body| - k] != '\n';
        }
      }
    }
    SplitCons(p, Delimiter, more);
  }

  /** The pieces the delimiter cuts a log into: one per entry, then the empty text after the last delimiter. */
  function Pieces(pre: string, es: seq<Entry>): seq<string>
    decreases |es|
  {
    if es == [] then [""]
    else [Piece(pre, es[0])] + Pieces("\n", es[1..])
  }

  ghost predicate AllWellFormed(es: seq<Entry>, n: nat) {
    forall i :: 0 <= i < |es| ==> WellFormed(es[i], n)
  }

  lemma AllWellFormedTail(es: seq<Entry>, n: nat)
    requires |es| >= 1 && AllWellFormed(es, n)
    ensures WellFormed(es[0], n) && AllWellFormed(es[1..], n)
  {
    forall i | 0 <= i < |es[1..]| ensures WellFormed(es[1..][i], n) {
      assert es[1..][i] == es[i + 1];
    }
  }

  lemma FormatLogCons(pre: string, es: seq<Entry>)
    requires |es| >= 1
    ensures |es| == 1 ==> pre + FormatLog(es) == Piece(pre, es[0]) + Delimiter + ""
    ensures |es| > 1 ==> pre + FormatLog(es) == Piece(pre, es[0]) + Delimiter + ("\n" + FormatLog(es[1..]))
  {
    var j := Join(es[0].fields + [es[0].body], "\n");
    assert Piece(pre, es[0]) == pre + j + "\n";
    assert FormatEntry(es[0]) == j + "\n" + Delimiter;
    if |es| > 1 {
      var f := FormatLog(es[1..]);
      assert FormatLog(es) == (j + "\n" + Delimiter) + "\n" + f;
      Regroup(pre, j, "\n", Delimiter, f);
    } else {
      Regroup(pre, j, "\n", Delimiter, []);
    }
  }

  lemma Regroup(pre: string, j: string, nl: string, d: string, f: string)
    ensures pre + ((j + nl + d) + nl + f) == (pre + j + nl) + d + (nl + f)
    ensures pre + (j + nl + d) == (pre + j + nl) + d + []
  {
  }

  lemma {:induction false} SplitLog(pre: string, es: seq<Entry>, n: nat)
    requires |es| >= 1 && (pre == "" || pre == "\n")
    requires AllWellFormed(es, n)
    ensures Split(pre + FormatLog(es), Delimiter) == Pieces(pre, es)
    decreases |es|
  {
    AllWellFormedTail(es, n);
    FormatLogCons(pre, es);
    if |es| == 1 {
      PieceThenDelimiter(pre, es[0], n, "");
      assert Split("", Delimiter) == [""];
    } else {
      PieceThenDelimiter(pre, es[0], n, "\n" + FormatLog(es[1..]));
      SplitLog("\n", es[1..], n);
    }
  }

  /** Every piece but the final empty one is kept by the blank filter. */
  lemma {:induction false} NonBlankPieces(pre: string, es: seq<Entry>, n: nat)
    requires pre == "" || pre == "\n"
    requires AllWellFormed(es, n)
    ensures NonBlank(Pieces(pre, es)) == KeptPieces(pre, es)
    decreases |es|
  {
    if es == [] {
      assert Trim("") == "";
    } else {
      AllWellFormedTail(es, n);
      TrimPiece(pre, es[0], n);
      var w := PieceLayout(pre, es[0], n);
      NonBlankPieces("\n", es[1..], n);
    }
  }

  /** The pieces the blank filter keeps: one per entry. */
  function KeptPieces(pre: string, es: seq<Entry>): (r: seq<string>)
    decreases |es|
    ensures |r| == |es|
  {
    if es == [] then [] else [Piece(pre, es[0])] + KeptPieces("\n", es[1..])
  }

  lemma {:induction false} KeptPiecesAt(pre: string, es: seq<Entry>, i: nat)
    requires i < |es|
    ensures KeptPieces(pre, es)[i] == Piece(if i == 0 then pre else "\n", es[i])
    decreases |es|
  {
    if i > 0 {
      KeptPiecesAt("\n", es[1..], i - 1);
    }
  }

  /**
   * Reading a log of well-formed entries gives back one chunk per entry, and each chunk
   * parses to its entry with the body trimmed: the reading inverts the format.
   */
  lemma LogRoundTrip(es: seq<Entry>, n: nat)
    requires AllWellFormed(es, n)
    ensures |Chunks(FormatLog(es))| == |es|
    ensures forall i :: 0 <= i < |es| ==> ParseEntry(Chunks(FormatLog(es))[i], n) == Some(AsRead(es[i]))
  {
    if es == [] {
      assert Split("", Delimiter) == [""];
      assert Trim("") == "";
    } else {
      var chunks := ChunksOfLog(es, n);
      forall i | 0 <= i < |es| ensures ParseEntry(chunks[i], n) == Some(AsRead(es[i])) {
        var pre := if i == 0 then "" else "\n";
        assert AllWhitespace(pre);
        KeptPiecesAt("", es, i);
        ParsePiece(pre, es[i], n);
      }
    }
  }

  /** A non-empty log is cut into one kept piece per entry. */
  lemma ChunksOfLog(es: seq<Entry>, n: nat) returns (chunks: seq<string>)
    requires |es| >= 1 && AllWellFormed(es, n)
    ensures chunks == Chunks(FormatLog(es)) == KeptPieces("", es)
  {
    SplitLog("", es, n);
    assert "" + FormatLog(es) == FormatLog(es);
    NonBlankPieces("", es, n);
    chunks := KeptPieces("", es);
  }

  /** A commit as the current generator's format writes it. */
  function CommitEntry(c: Commit): Entry {
    Entry([c.hash, c.authorName, c.authorEmail, c.subject], c.body)
  }

  /** A commit as the legacy generator's format writes it. */
  function LegacyEntry(c: LegacyCommit): Entry {
    Entry([c.hash, c.subject], c.body)
  }

  /** A commit as the current generator reads it back: the body trimmed. */
  function CommitAsRead(c: Commit): Commit {
    c.(body := Trim(c.body))
  }

  /** A commit as the legacy generator reads it back: the body trimmed. */
  function LegacyAsRead(c: LegacyCommit): LegacyCommit {
    c.(body := Trim(c.body))
  }

  /** The current generator reads back every commit of a log of well-formed commits, with its body trimmed. */
  lemma CommitLogRoundTrip(cs: seq<Commit>)
    requires forall i :: 0 <= i < |cs| ==> WellFormed(CommitEntry(cs[i]), 4)
    ensures var chunks := Chunks(FormatLog(seq(|cs|, i requires 0 <= i < |cs| => CommitEntry(cs[i]))));
      |chunks| == |cs| && forall i :: 0 <= i < |cs| ==> ParseCommit(chunks[i]) == Some(CommitAsRead(cs[i]))
  {
    var es := seq(|cs|, i requires 0 <= i < |cs| => CommitEntry(cs[i]));
    LogRoundTrip(es, 4);
  }

  /** The legacy generator reads back every commit of a log of well-formed commits, with its body trimmed. */
  lemma LegacyLogRoundTrip(cs: seq<LegacyCommit>)
    requires forall i :: 0 <= i < |cs| ==> WellFormed(LegacyEntry(cs[i]), 2)
    ensures var chunks := Chunks(FormatLog(seq(|cs|, i requires 0 <= i < |cs| => LegacyEntry(cs[i]))));
      |chunks| == |cs| && forall i :: 0 <= i < |cs| ==> ParseLegacyCommit(chunks[i]) == Some(LegacyAsRead(cs[i]))
  {
    var es := seq(|cs|, i requires 0 <= i < |cs| => LegacyEntry(cs[i]));
    LogRoundTrip(es, 2);
  }
}
