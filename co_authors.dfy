/**
 * The co-author trailer expression of the current generator,
 *   /Co-authored-by:\s+([^<]+)\s+<([^>]+)>/
 * used once with the global flag to collect every matching text of a commit body,
 * and once more on each collected text to read its two groups.
 */
module CoAuthors {
  import opened Outcomes
  import opened Text

  /** The literal the expression starts with; matched case-sensitively. */
  const Marker: string := "Co-authored-by:"

  /** A match at some position: where it ends, and its two capture groups. */
  datatype Trailer = Trailer(end: nat, nameGroup: string, emailGroup: string)

  /** The length of the whitespace run that starts at `i`. */
  function WhitespaceRun(s: string, i: nat): (n: nat)
    requires i <= |s|
    ensures i + n <= |s|
    decreases |s| - i
  {
    if i < |s| && IsWhitespace(s[i]) then 1 + WhitespaceRun(s, i + 1) else 0
  }

  /** The run is all whitespace, and stops at the end of the text or at a character that is not. */
  lemma {:induction false} WhitespaceRunSpec(s: string, i: nat)
    requires i <= |s|
    ensures forall k :: i <= k < i + WhitespaceRun(s, i) ==> IsWhitespace(s[k])
    ensures i + WhitespaceRun(s, i) == |s| || !IsWhitespace(s[i + WhitespaceRun(s, i)])
    decreases |s| - i
  {
    if i < |s| && IsWhitespace(s[i]) {
      WhitespaceRunSpec(s, i + 1);
    }
  }

  /**
   * The expression tried at `p`, with the backtracking resolved:
   * after the marker at least one whitespace character; group 1 then runs up to the
   * character before the first `<` (which must be whitespace, for the second `\s+`),
   * and starts after the longest whitespace run that still leaves it one character;
   * group 2 runs from after the `<` to the first `>`, and must not be empty.
   */
  function MatchAt(s: string, p: nat): (r: Option<Trailer>)
    requires p <= |s|
  {
    var a := p + |Marker|;
    if !(OccursAt(s, Marker, p) && a < |s| && IsWhitespace(s[a])) then None
    else
      var lt := FindChar(s, '<', a);
      if lt.None? || lt.value < a + 3 || !IsWhitespace(s[lt.value - 1]) then None
      else
        var q := lt.value;
        var gt := FindChar(s, '>', q + 1);
        if gt.None? || gt.value < q + 2 then None
        else
          var run := WhitespaceRun(s, a);
          var lead := if run < q - 2 - a then run else q - 2 - a;
          Some(Trailer(gt.value + 1, s[a + lead..q - 1], s[q + 1..gt.value]))
  }

  /** `MatchAt` read off the facts its branches test; `b` is where group 1 starts and `e` where the match ends. */
  lemma MatchAtFromFacts(s: string, p: nat, q: nat, r: nat, lead: nat, b: nat, e: nat)
    requires p + |Marker| < |s| && OccursAt(s, Marker, p) && IsWhitespace(s[p + |Marker|])
    requires FindChar(s, '<', p + |Marker|) == Some(q) && q >= p + |Marker| + 3 && IsWhitespace(s[q - 1])
    requires FindChar(s, '>', q + 1) == Some(r) && r >= q + 2
    requires lead == (if WhitespaceRun(s, p + |Marker|) < q - 2 - (p + |Marker|)
                      then WhitespaceRun(s, p + |Marker|) else q - 2 - (p + |Marker|))
    requires b == p + |Marker| + lead && e == r + 1
    ensures b <= q - 1 && MatchAt(s, p) == Some(Trailer(e, s[b..q - 1], s[q + 1..r]))
  {
  }

  /** The first `c` at or after `i` is at `j`. */
  lemma FindCharAt(s: string, c: char, i: nat, j: nat)
    requires i <= j < |s| && s[j] == c && forall k :: i <= k < j ==> s[k] != c
    ensures FindChar(s, c, i) == Some(j)
  {
  }

  /** The positions a match is made of. */
  lemma MatchAtParts(s: string, p: nat) returns (a: nat, lead: nat, q: nat, r: nat)
    requires p <= |s| && MatchAt(s, p).Some?
    ensures a == p + |Marker| && OccursAt(s, Marker, p)
    ensures 1 <= lead && a + lead < q - 1 && q + 2 <= r < |s|
    ensures forall k :: a <= k < a + lead ==> IsWhitespace(s[k])
    ensures IsWhitespace(s[q - 1]) && s[q] == '<' && s[r] == '>'
    ensures forall k :: a <= k < q ==> s[k] != '<'
    ensures forall k :: q + 1 <= k < r ==> s[k] != '>'
    ensures lead == (if WhitespaceRun(s, a) < q - 2 - a then WhitespaceRun(s, a) else q - 2 - a)
    ensures MatchAt(s, p).value == Trailer(r + 1, s[a + lead..q - 1], s[q + 1..r])
  {
    a := p + |Marker|;
    q := FindChar(s, '<', a).value;
    r := FindChar(s, '>', q + 1).value;
    var run := WhitespaceRun(s, a);
    lead := if run < q - 2 - a then run else q - 2 - a;
    WhitespaceRunSpec(s, a);
  }

  /** The text of a trailer: the marker, whitespace, a name without `<`, whitespace, then `<email>` with an email without `>`. */
  ghost predicate TrailerText(m: string, name: string, email: string) {
    exists w1: string, w2: string ::
      && |w1| > 0 && AllWhitespace(w1) && |w2| > 0 && AllWhitespace(w2)
      && name != "" && HasNoChar(name, '<') && email != "" && HasNoChar(email, '>')
      && m == Marker + w1 + name + w2 + "<" + email + ">"
  }

  lemma SliceJoin(s: string, i: nat, j: nat, k: nat)
    requires i <= j <= k <= |s|
    ensures s[i..k] == s[i..j] + s[j..k]
  {
  }

  lemma AllWhitespaceSlice(s: string, i: nat, j: nat)
    requires i <= j <= |s| && forall k :: i <= k < j ==> IsWhitespace(s[k])
    ensures AllWhitespace(s[i..j])
  {
    forall t | 0 <= t < j - i ensures IsWhitespace(s[i..j][t]) {
      assert s[i..j][t] == s[i + t];
    }
  }

  lemma NoCharSlice(s: string, c: char, i: nat, j: nat)
    requires i <= j <= |s| && forall k :: i <= k < j ==> s[k] != c
    ensures HasNoChar(s[i..j], c)
  {
    forall t | 0 <= t < j - i ensures s[i..j][t] != c {
      assert s[i..j][t] == s[i + t];
    }
  }

  /** A text cut at six positions is the concatenation of the seven pieces. */
  lemma SliceSeven(s: string, i0: nat, i1: nat, i2: nat, i3: nat, i4: nat, i5: nat, i6: nat, i7: nat)
    requires i0 <= i1 <= i2 <= i3 <= i4 <= i5 <= i6 <= i7 <= |s|
    ensures s[i0..i7] == s[i0..i1] + s[i1..i2] + s[i2..i3] + s[i3..i4] + s[i4..i5] + s[i5..i6] + s[i6..i7]
  {
    SliceJoin(s, i0, i6, i7);
    SliceJoin(s, i0, i5, i6);
    SliceJoin(s, i0, i4, i5);
    SliceJoin(s, i0, i3, i4);
    SliceJoin(s, i0, i2, i3);
    SliceJoin(s, i0, i1, i2);
  }

  /** The slice facts of a match make its text a trailer text. */
  lemma ShapeFromParts(s: string, p: nat, a: nat, lead: nat, q: nat, r: nat)
    requires a == p + |Marker| && OccursAt(s, Marker, p)
    requires 1 <= lead && a + lead < q - 1 && q + 2 <= r < |s|
    requires forall k :: a <= k < a + lead ==> IsWhitespace(s[k])
    requires IsWhitespace(s[q - 1]) && s[q] == '<' && s[r] == '>'
    requires forall k :: a <= k < q ==> s[k] != '<'
    requires forall k :: q + 1 <= k < r ==> s[k] != '>'
    ensures TrailerText(s[p..r + 1], s[a + lead..q - 1], s[q + 1..r])
  {
    PiecesOfMatch(s, p, a, lead, q, r);
    TrailerOfPieces(s, p, a, lead, q, r);
  }

  /** The pieces of a match, each of its kind. */
  lemma PiecesOfMatch(s: string, p: nat, a: nat, lead: nat, q: nat, r: nat)
    requires a == p + |Marker| && OccursAt(s, Marker, p)
    requires 1 <= lead && a + lead < q - 1 && q + 2 <= r < |s|
    requires forall k :: a <= k < a + lead ==> IsWhitespace(s[k])
    requires IsWhitespace(s[q - 1]) && s[q] == '<' && s[r] == '>'
    requires forall k :: a <= k < q ==> s[k] != '<'
    requires forall k :: q + 1 <= k < r ==> s[k] != '>'
    ensures AllWhitespace(s[a..a + lead]) && AllWhitespace(s[q - 1..q])
    ensures HasNoChar(s[a + lead..q - 1], '<') && HasNoChar(s[q + 1..r], '>')
    ensures s[p..a] == Marker && s[q..q + 1] == "<" && s[r..r + 1] == ">"
  {
    AllWhitespaceSlice(s, a, a + lead);
    AllWhitespaceSlice(s, q - 1, q);
    NoCharSlice(s, '<', a + lead, q - 1);
    NoCharSlice(s, '>', q + 1, r);
    MarkerAndBrackets(s, p, a, q, r);
  }

  /** Pieces of the right kinds, cut at the positions of a match, make a trailer text. */
  lemma TrailerOfPieces(s: string, p: nat, a: nat, lead: nat, q: nat, r: nat)
    requires a == p + |Marker| && 1 <= lead && a + lead < q - 1 && q + 2 <= r < |s|
    requires AllWhitespace(s[a..a + lead]) && AllWhitespace(s[q - 1..q])
    requires HasNoChar(s[a + lead..q - 1], '<') && HasNoChar(s[q + 1..r], '>')
    requires s[p..a] == Marker && s[q..q + 1] == "<" && s[r..r + 1] == ">"
    ensures TrailerText(s[p..r + 1], s[a + lead..q - 1], s[q + 1..r])
  {
    SliceSeven(s, p, a, a + lead, q - 1, q, q + 1, r, r + 1);
    TrailerTextOf(s[p..r + 1], s[p..a], s[a..a + lead], s[a + lead..q - 1], s[q - 1..q],
                  s[q..q + 1], s[q + 1..r], s[r..r + 1]);
  }

  lemma MarkerAndBrackets(s: string, p: nat, a: nat, q: nat, r: nat)
    requires a == p + |Marker| && OccursAt(s, Marker, p)
    requires a <= q < r < |s| && s[q] == '<' && s[r] == '>'
    ensures s[p..a] == Marker && s[q..q + 1] == "<" && s[r..r + 1] == ">"
  {
  }

  /** Seven pieces of the right kinds, one after another, make a trailer text. */
  lemma TrailerTextOf(m: string, marker: string, w1: string, name: string, w2: string, lt: string,
                      email: string, gt: string)
    requires marker == Marker && lt == "<" && gt == ">"
    requires |w1| > 0 && AllWhitespace(w1) && |w2| > 0 && AllWhitespace(w2)
    requires name != "" && HasNoChar(name, '<') && email != "" && HasNoChar(email, '>')
    requires m == marker + w1 + name + w2 + lt + email + gt
    ensures TrailerText(m, name, email)
  {
  }

  /** A match covers exactly a trailer text, whose name and email are the two groups. */
  lemma MatchSound(s: string, p: nat)
    requires p <= |s| && MatchAt(s, p).Some?
    ensures MatchAt(s, p).value.end <= |s|
    ensures var t := MatchAt(s, p).value; TrailerText(s[p..t.end], t.nameGroup, t.emailGroup)
  {
    var a, lead, q, r := MatchAtParts(s, p);
    ShapeFromParts(s, p, a, lead, q, r);
  }

  /** `Co-authored-by: <name> <<email>>`, the trailer as git writes it. */
  function FormatTrailer(name: string, email: string): string {
    Marker + " " + name + " <" + email + ">"
  }

  lemma FormattedSlices(s: string, p: nat, name: string, email: string)
    requires p + |FormatTrailer(name, email)| <= |s|
    requires s[p..p + |FormatTrailer(name, email)|] == FormatTrailer(name, email)
    ensures var a := p + |Marker|; var q := a + 1 + |name| + 1; var r := q + 1 + |email|;
      && r < |s| && s[p..a] == Marker && s[a..a + 1] == " " && s[a + 1..q - 1] == name
      && s[q - 1..q + 1] == " <" && s[q + 1..r] == email && s[r..r + 1] == ">"
  {
    var x4 := Marker + " " + name + " <" + email;
    var x3 := Marker + " " + name + " <";
    var x2 := Marker + " " + name;
    var x1 := Marker + " ";
    PeelSlice(s, p, x4, ">");
    PeelSlice(s, p, x3, email);
    PeelSlice(s, p, x2, " <");
    PeelSlice(s, p, x1, name);
    PeelSlice(s, p, Marker, " ");
  }

  /** The slices of a git-written trailer satisfy each test of `MatchAt`. */
  lemma FormattedFacts(s: string, p: nat, name: string, email: string, a: nat, q: nat, r: nat)
    requires name != "" && !IsWhitespace(name[0]) && HasNoChar(name, '<')
    requires email != "" && HasNoChar(email, '>')
    requires a == p + |Marker| && q == a + 1 + |name| + 1 && r == q + 1 + |email| && r < |s|
    requires s[p..a] == Marker && s[a..a + 1] == " " && s[a + 1..q - 1] == name
    requires s[q - 1..q + 1] == " <" && s[q + 1..r] == email && s[r..r + 1] == ">"
    ensures OccursAt(s, Marker, p) && IsWhitespace(s[a]) && IsWhitespace(s[q - 1])
    ensures FindChar(s, '<', a) == Some(q) && FindChar(s, '>', q + 1) == Some(r)
    ensures WhitespaceRun(s, a) == 1
  {
    assert s[a] == s[a..a + 1][0];
    assert s[q - 1] == s[q - 1..q + 1][0];
    assert s[q] == s[q - 1..q + 1][1];
    assert s[r] == s[r..r + 1][0];
    forall k | a + 1 <= k < q - 1 ensures s[k] != '<' {
      assert s[k] == s[a + 1..q - 1][k - a - 1];
    }
    FindCharAt(s, '<', a, q);
    forall k | q + 1 <= k < r ensures s[k] != '>' {
      assert s[k] == s[q + 1..r][k - q - 1];
    }
    FindCharAt(s, '>', q + 1, r);
    assert s[a + 1] == s[a + 1..q - 1][0];
  }

  /** A trailer written by git is matched at its start, and the groups are the name and the email. */
  lemma MatchFormatted(s: string, p: nat, name: string, email: string)
    requires name != "" && !IsWhitespace(name[0]) && HasNoChar(name, '<')
    requires email != "" && HasNoChar(email, '>')
    requires p + |FormatTrailer(name, email)| <= |s|
    requires s[p..p + |FormatTrailer(name, email)|] == FormatTrailer(name, email)
    ensures MatchAt(s, p) == Some(Trailer(p + |FormatTrailer(name, email)|, name, email))
  {
    var a := p + |Marker|;
    var q := a + 1 + |name| + 1;
    var r := q + 1 + |email|;
    FormattedSlices(s, p, name, email);
    FormattedFacts(s, p, name, email, a, q, r);
    MatchAtFromFacts(s, p, q, r, 1, a + 1, r + 1);
  }

  /**
   * Every trailer text is matched where it starts, and the match ends where the text does:
   * whitespace is neither `<` nor `>`, so the first `<` is the one before the email and the
   * first `>` after it is the closing one.
   */
  lemma MatchComplete(s: string, p: nat, e: nat, name: string, email: string)
    requires p <= e <= |s| && TrailerText(s[p..e], name, email)
    ensures MatchAt(s, p).Some? && MatchAt(s, p).value.end == e
  {
    var w1, w2, a, b, c, q, r := TrailerPositions(s, p, e, name, email);
    SliceAt(s, a, w1, 0);
    SliceAt(s, c, w2, |w2| - 1);
    OpenBracketFound(s, a, b, c, q, w1, name, w2);
    CloseBracketFound(s, q, r, email);
    var run := WhitespaceRun(s, a);
    var lead := if run < q - 2 - a then run else q - 2 - a;
    MatchAtFromFacts(s, p, q, r, lead, a + lead, r + 1);
  }

  /** The whitespace runs of a trailer text, and the slices its pieces occupy. */
  lemma TrailerPositions(s: string, p: nat, e: nat, name: string, email: string)
    returns (w1: string, w2: string, a: nat, b: nat, c: nat, q: nat, r: nat)
    requires p <= e <= |s| && TrailerText(s[p..e], name, email)
    ensures |w1| > 0 && AllWhitespace(w1) && |w2| > 0 && AllWhitespace(w2)
    ensures name != "" && HasNoChar(name, '<') && email != "" && HasNoChar(email, '>')
    ensures a == p + |Marker| && b == a + |w1| && c == b + |name| && q == c + |w2| && r == q + 1 + |email|
    ensures r + 1 == e && s[p..a] == Marker && s[a..b] == w1 && s[b..c] == name && s[c..q] == w2
    ensures s[q..q + 1] == "<" && s[q + 1..r] == email && s[r..r + 1] == ">"
  {
    w1, w2 :|
      && |w1| > 0 && AllWhitespace(w1) && |w2| > 0 && AllWhitespace(w2)
      && name != "" && HasNoChar(name, '<') && email != "" && HasNoChar(email, '>')
      && s[p..e] == Marker + w1 + name + w2 + "<" + email + ">";
    a := p + |Marker|;
    b := a + |w1|;
    c := b + |name|;
    q := c + |w2|;
    r := q + 1 + |email|;
    TrailerSlices(s, p, e, w1, name, w2, email, a, b, c, q, r);
  }

  /** The pieces of a trailer text, read off the text it occupies. */
  lemma TrailerSlices(s: string, p: nat, e: nat, w1: string, name: string, w2: string, email: string,
                       a: nat, b: nat, c: nat, q: nat, r: nat)
    requires p <= e <= |s| && s[p..e] == Marker + w1 + name + w2 + "<" + email + ">"
    requires a == p + |Marker| && b == a + |w1| && c == b + |name| && q == c + |w2| && r == q + 1 + |email|
    ensures r + 1 == e && s[p..a] == Marker && s[a..b] == w1 && s[b..c] == name && s[c..q] == w2
    ensures s[q..q + 1] == "<" && s[q + 1..r] == email && s[r..r + 1] == ">"
  {
    var x5 := Marker + w1 + name + w2 + "<" + email;
    var x4 := Marker + w1 + name + w2 + "<";
    var x3 := Marker + w1 + name + w2;
    var x2 := Marker + w1 + name;
    var x1 := Marker + w1;
    PeelSlice(s, p, x5, ">");
    PeelSlice(s, p, x4, email);
    PeelSlice(s, p, x3, "<");
    PeelSlice(s, p, x2, w2);
    PeelSlice(s, p, x1, name);
    PeelSlice(s, p, Marker, w1);
  }

  /** The first `<` after the marker is the one after the second whitespace run. */
  lemma OpenBracketFound(s: string, a: nat, b: nat, c: nat, q: nat, w1: string, name: string, w2: string)
    requires b == a + |w1| && c == b + |name| && q == c + |w2| && q < |s|
    requires s[a..b] == w1 && s[b..c] == name && s[c..q] == w2 && s[q..q + 1] == "<"
    requires AllWhitespace(w1) && HasNoChar(name, '<') && AllWhitespace(w2)
    ensures FindChar(s, '<', a) == Some(q)
  {
    SliceAt(s, q, "<", 0);
    WhitespaceLacks(w1, '<');
    WhitespaceLacks(w2, '<');
    SegmentLacks(s, a, w1, '<');
    SegmentLacks(s, b, name, '<');
    SegmentLacks(s, c, w2, '<');
    FindCharAt(s, '<', a, q);
  }

  /** The first `>` after the `<` is the one after the email. */
  lemma CloseBracketFound(s: string, q: nat, r: nat, email: string)
    requires r == q + 1 + |email| && r < |s| && s[q + 1..r] == email && s[r..r + 1] == ">"
    requires HasNoChar(email, '>')
    ensures FindChar(s, '>', q + 1) == Some(r)
  {
    SliceAt(s, r, ">", 0);
    SegmentLacks(s, q + 1, email, '>');
    FindCharAt(s, '>', q + 1, r);
  }

  /** Neither angle bracket is whitespace. */
  lemma WhitespaceLacks(w: string, c: char)
    requires AllWhitespace(w) && (c == '<' || c == '>')
    ensures HasNoChar(w, c)
  {
    forall k | 0 <= k < |w| ensures w[k] != c {
      assert IsWhitespace(w[k]);
    }
  }

  /** A segment of the text without `c` leaves `c` out of the positions it occupies. */
  lemma SegmentLacks(s: string, i: nat, t: string, c: char)
    requires i + |t| <= |s| && s[i..i + |t|] == t && HasNoChar(t, c)
    ensures forall k :: i <= k < i + |t| ==> s[k] != c
  {
    forall k | i <= k < i + |t| ensures s[k] != c {
      SliceAt(s, i, t, k - i);
    }
  }

  // ---------------------------------------------------------------------
  // The global scan and the second reading

  /** The leftmost match at or after `from`: where it starts, and the match. */
  function FindFrom(s: string, from: nat): (r: Option<(nat, Trailer)>)
    requires from <= |s|
    decreases |s| - from
    ensures r.Some? ==> from <= r.value.0 <= |s| && MatchAt(s, r.value.0) == Some(r.value.1)
    ensures r.Some? ==> forall k :: from <= k < r.value.0 ==> MatchAt(s, k).None?
    ensures r.None? ==> forall k :: from <= k <= |s| ==> MatchAt(s, k).None?
  {
    if MatchAt(s, from).Some? then Some((from, MatchAt(s, from).value))
    else if from == |s| then None
    else FindFrom(s, from + 1)
  }

  /** `body.match(re) || []` with the global flag: every matched text, left to right, each search resuming where the last match ended. */
  function Scan(s: string, from: nat): (ms: seq<string>)
    requires from <= |s|
    decreases |s| - from
  {
    match FindFrom(s, from)
    case None => []
    case Some((p, t)) =>
      MatchSound(s, p);
      [s[p..t.end]] + Scan(s, t.end)
  }

  /** Every text the scan collects is a trailer text. */
  lemma {:induction false} ScanTexts(s: string, from: nat)
    requires from <= |s|
    ensures forall m :: m in Scan(s, from) ==> exists name, email :: TrailerText(m, name, email)
    decreases |s| - from
  {
    match FindFrom(s, from)
    case None =>
    case Some((p, t)) =>
      MatchSound(s, p);
      ScanTexts(s, t.end);
  }

  /** The second, non-global reading of a collected text: its trimmed name and email, if it matches. */
  function ReadTrailer(m: string): Option<(string, string)> {
    match FindFrom(m, 0)
    case None => None
    case Some((_, t)) => Some((Trim(t.nameGroup), Trim(t.emailGroup)))
  }

  lemma FindCharShift(s: string, c: char, p: nat, e: nat, i: nat, j: nat)
    requires p <= i <= j < e <= |s| && s[j] == c && forall k :: i <= k < j ==> s[k] != c
    ensures FindChar(s[p..e], c, i - p) == Some(j - p)
  {
    var m := s[p..e];
    assert m[j - p] == s[j];
    forall k | i - p <= k < j - p ensures m[k] != c {
      assert m[k] == s[k + p];
    }
  }

  lemma WhitespaceRunShift(s: string, p: nat, e: nat, a: nat, q: nat)
    requires p <= a <= q < e <= |s| && !IsWhitespace(s[q])
    ensures WhitespaceRun(s[p..e], a - p) == WhitespaceRun(s, a)
    decreases q - a
  {
    var m := s[p..e];
    assert m[a - p] == s[a];
    if a < q && IsWhitespace(s[a]) {
      WhitespaceRunShift(s, p, e, a + 1, q);
    }
  }

  /** A matched text matches again when read on its own, so its second reading succeeds. */
  lemma RematchAt(s: string, p: nat)
    requires p <= |s| && MatchAt(s, p).Some?
    ensures var t := MatchAt(s, p).value; t.end <= |s| && ReadTrailer(s[p..t.end]).Some?
  {
    var e, m, lead, b, q, r := RematchParts(s, p);
    RematchFromParts(m, lead, b, q, r);
  }

  /** Where a match ends, and the facts `MatchAt` tests found again, shifted, in the matched text. */
  lemma RematchParts(s: string, p: nat) returns (e: nat, m: string, lead: nat, b: nat, q: nat, r: nat)
    requires p <= |s| && MatchAt(s, p).Some?
    ensures MatchAt(s, p).value.end == e && e <= |s| && m == s[p..e]
    ensures Rematchable(m, lead, b, q, r)
  {
    var a, q0, r0;
    a, lead, q0, r0 := MatchAtParts(s, p);
    m, b, q, r := ShiftedFacts(s, p, a, lead, q0, r0);
    e := r0 + 1;
  }

  /** What `MatchAt` tests at the start of `m`, all passing; `b` is where group 1 starts, `q` the `<`, `r` the `>`. */
  predicate Rematchable(m: string, lead: nat, b: nat, q: nat, r: nat) {
    && |m| == r + 1 && OccursAt(m, Marker, 0) && |Marker| + 3 <= q && q + 2 <= r
    && IsWhitespace(m[|Marker|]) && IsWhitespace(m[q - 1])
    && FindChar(m, '<', |Marker|) == Some(q) && FindChar(m, '>', q + 1) == Some(r)
    && lead == (if WhitespaceRun(m, |Marker|) < q - 2 - |Marker| then WhitespaceRun(m, |Marker|)
                else q - 2 - |Marker|)
    && b == |Marker| + lead
  }

  /** The match found again at the start of the matched text `m`. */
  lemma RematchFromParts(m: string, lead: nat, b: nat, q: nat, r: nat)
    requires Rematchable(m, lead, b, q, r)
    ensures ReadTrailer(m).Some?
  {
    MatchAtFromFacts(m, 0, q, r, lead, b, r + 1);
  }

  /** The facts a match rests on hold again, shifted, inside the matched text. */
  lemma ShiftedFacts(s: string, p: nat, a: nat, lead: nat, q: nat, r: nat) returns (m: string, b: nat, q': nat, r': nat)
    requires a == p + |Marker| && OccursAt(s, Marker, p)
    requires a + 3 <= q && q + 2 <= r < |s|
    requires IsWhitespace(s[a]) && IsWhitespace(s[q - 1]) && s[q] == '<' && s[r] == '>'
    requires forall k :: a <= k < q ==> s[k] != '<'
    requires forall k :: q + 1 <= k < r ==> s[k] != '>'
    requires lead == (if WhitespaceRun(s, a) < q - 2 - a then WhitespaceRun(s, a) else q - 2 - a)
    ensures m == s[p..r + 1] && Rematchable(m, lead, b, q', r')
  {
    ShiftedSearches(s, p, a, q, r);
    ShiftedTests(s, p, a, q, r);
    m, b, q', r' := s[p..r + 1], a + lead - p, q - p, r - p;
  }

  /** The two searches and the whitespace run of a match, read inside the matched text. */
  lemma ShiftedSearches(s: string, p: nat, a: nat, q: nat, r: nat)
    requires p <= a && a + 3 <= q && q + 2 <= r < |s| && s[q] == '<' && s[r] == '>'
    requires forall k :: a <= k < q ==> s[k] != '<'
    requires forall k :: q + 1 <= k < r ==> s[k] != '>'
    ensures FindChar(s[p..r + 1], '<', a - p) == Some(q - p)
    ensures FindChar(s[p..r + 1], '>', q + 1 - p) == Some(r - p)
    ensures WhitespaceRun(s[p..r + 1], a - p) == WhitespaceRun(s, a)
  {
    FindCharShift(s, '<', p, r + 1, a, q);
    FindCharShift(s, '>', p, r + 1, q + 1, r);
    WhitespaceRunShift(s, p, r + 1, a, q);
  }

  /** The marker and the two whitespace characters of a match, read inside the matched text. */
  lemma ShiftedTests(s: string, p: nat, a: nat, q: nat, r: nat)
    requires a == p + |Marker| && OccursAt(s, Marker, p)
    requires a + 3 <= q && q + 2 <= r < |s|
    requires IsWhitespace(s[a]) && IsWhitespace(s[q - 1])
    ensures OccursAt(s[p..r + 1], Marker, 0)
    ensures IsWhitespace(s[p..r + 1][a - p]) && IsWhitespace(s[p..r + 1][q - 1 - p])
  {
    var m := s[p..r + 1];
    assert m[0..|Marker|] == s[p..a];
    assert m[a - p] == s[a];
    assert m[q - 1 - p] == s[q - 1];
  }

  /** The guard `if (coAuthorMatch)` never fails: every collected text matches the expression again. */
  lemma {:induction false} ScanReadsBack(s: string, from: nat)
    requires from <= |s|
    ensures forall m :: m in Scan(s, from) ==> ReadTrailer(m).Some?
    decreases |s| - from
  {
    match FindFrom(s, from)
    case None =>
    case Some((p, t)) =>
      RematchAt(s, p);
      ScanReadsBack(s, t.end);
  }

  /** The co-authors of a body, as the current generator reads them: name and email, trimmed, in order. */
  function CoAuthorsOf(body: string): (r: seq<(string, string)>) {
    ReadAll(Scan(body, 0))
  }

  /** The readings that succeed, in order. */
  function ReadAll(ms: seq<string>): seq<(string, string)> {
    if ms == [] then []
    else
      match ReadTrailer(ms[0])
      case None => ReadAll(ms[1..])
      case Some(x) => [x] + ReadAll(ms[1..])
  }

  /** Every collected text yields one co-author. */
  lemma CoAuthorsCount(body: string)
    ensures |CoAuthorsOf(body)| == |Scan(body, 0)|
  {
    ScanReadsBack(body, 0);
    ReadAllCount(Scan(body, 0));
  }

  lemma {:induction false} ReadAllCount(ms: seq<string>)
    requires forall m :: m in ms ==> ReadTrailer(m).Some?
    ensures |ReadAll(ms)| == |ms|
  {
    if ms != [] {
      assert ms[0] in ms;
      assert forall m :: m in ms[1..] ==> m in ms;
      ReadAllCount(ms[1..]);
    }
  }

  /** A body that is exactly one git-written trailer yields that co-author. */
  lemma FormattedTrailerRead(name: string, email: string)
    requires name != "" && Trimmed(name) && HasNoChar(name, '<')
    requires email != "" && Trimmed(email) && HasNoChar(email, '>')
    ensures CoAuthorsOf(FormatTrailer(name, email)) == [(name, email)]
  {
    var s := FormatTrailer(name, email);
    assert s[0..|s|] == s;
    MatchFormatted(s, 0, name, email);
    assert FindFrom(s, 0) == Some((0, Trailer(|s|, name, email)));
    assert Scan(s, |s|) == [] by {
      assert MatchAt(s, |s|).None?;
    }
    assert Scan(s, 0) == [s];
    TrimOfTrimmed(name);
    TrimOfTrimmed(email);
    assert ReadTrailer(s) == Some((name, email));
    assert [s][1..] == [];
    assert ReadAll([s]) == [(name, email)] + ReadAll([]);
  }
  /** Reading one more collected text appends its reading, when there is one. */
  lemma {:induction false} ReadAllSnoc(ms: seq<string>, m: string)
    ensures ReadAll(ms + [m]) == ReadAll(ms) + (match ReadTrailer(m) case None => [] case Some(x) => [x])
    decreases |ms|
  {
    if ms == [] {
      assert [m][1..] == [];
    } else {
      assert (ms + [m])[1..] == ms[1..] + [m];
      ReadAllSnoc(ms[1..], m);
    }
  }
}
