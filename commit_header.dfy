/**
 * The conventional-commit header expression both changelog scripts use,
 *   /^(kw1|kw2|...|)(\([^)]+\))?:\s*(.*)$/i
 * and the rendering of a matched header as a markdown list entry.
 * The keyword alternatives are a parameter: the two scripts list different ones.
 */
module CommitHeader {
  import opened Outcomes
  import opened Text

  /** The three capture groups: the type as written, the parenthesised scope, the text after `:\s*`. */
  datatype Header = Header(typeText: string, scopeGroup: Option<string>, rest: string)

  predicate IsLowerLetter(c: char) {
    'a' <= c <= 'z'
  }

  /** A keyword alternative: a non-empty run of lower-case ASCII letters. */
  predicate IsKeyword(k: string) {
    |k| > 0 && forall i :: 0 <= i < |k| ==> IsLowerLetter(k[i])
  }

  predicate AllKeywords(keywords: seq<string>) {
    forall i :: 0 <= i < |keywords| ==> IsKeyword(keywords[i])
  }

  /** `(\([^)]+\))`: an opening parenthesis, at least one non-`)`, a closing parenthesis. */
  predicate ScopeShaped(g: string) {
    && |g| >= 3 && g[0] == '(' && g[|g| - 1] == ')'
    && forall i :: 0 < i < |g| - 1 ==> g[i] != ')'
  }

  function ScopeText(g: Option<string>): string {
    match g
    case None => ""
    case Some(t) => t
  }

  /** Groups 1 and 2 and the colon, as they stand at the start of the subject. */
  function Head(h: Header): string {
    h.typeText + ScopeText(h.scopeGroup) + ":"
  }

  /** Group 1 is empty or a keyword (compared case-insensitively); group 2 has the scope shape. */
  predicate GroupsAllowed(keywords: seq<string>, h: Header) {
    && (h.typeText == "" || ToLowerAscii(h.typeText) in keywords)
    && (h.scopeGroup.Some? ==> ScopeShaped(h.scopeGroup.value))
  }

  /** The subject starts with the head. */
  predicate HeadLeads(s: string, h: Header) {
    |Head(h)| <= |s| && s[..|Head(h)|] == Head(h)
  }

  /**
   * After the head: a whitespace run, then group 3 up to the end of the subject;
   * group 3 holds no line terminator (`.*$`) and does not start with whitespace (`\s*` is greedy).
   */
  predicate RestTrails(s: string, h: Header) {
    && |Head(h)| + |h.rest| <= |s|
    && s[|s| - |h.rest|..] == h.rest
    && AllWhitespace(s[|Head(h)|..|s| - |h.rest|])
    && NoLineTerminator(h.rest)
    && (h.rest == [] || !IsWhitespace(h.rest[0]))
  }

  /** The regular expression read as a decomposition of the subject into its groups. */
  predicate Decomposes(keywords: seq<string>, s: string, h: Header) {
    GroupsAllowed(keywords, h) && HeadLeads(s, h) && RestTrails(s, h)
  }

  /**
   * `(\([^)]+\))?:` tried at `p`: the optional scope group (greedy, so tried first)
   * and the colon. Gives the scope group and the colon's index.
   */
  function ScopeAndColon(s: string, p: nat): (r: Option<(Option<string>, nat)>)
    requires p <= |s|
    ensures r.Some? ==> p < |s| && (s[p] == '(' || s[p] == ':')
    ensures r.Some? ==> p <= r.value.1 < |s| && s[r.value.1] == ':'
    ensures r.Some? && r.value.0.None? ==> r.value.1 == p
    ensures r.Some? && r.value.0.Some? ==>
              s[p..r.value.1] == r.value.0.value && ScopeShaped(r.value.0.value)
  {
    if p < |s| && s[p] == '(' then
      match FindChar(s, ')', p + 1)
      case None => None
      case Some(q) =>
        if q >= p + 2 && q + 1 < |s| && s[q + 1] == ':' then Some((Some(s[p..q + 1]), q + 1)) else None
    else if p < |s| && s[p] == ':' then Some((None, p))
    else None
  }

  /** The part of the expression after group 1, tried with group 1 ending at `p`. */
  function MatchAfterType(s: string, p: nat): (r: Option<Header>)
    requires p <= |s|
    ensures r.Some? ==> p < |s| && (s[p] == '(' || s[p] == ':')
    ensures r.Some? ==> r.value.typeText == s[..p]
  {
    var sc := ScopeAndColon(s, p);
    if sc.None? then None
    else
      var rest := TrimStart(s[sc.value.1 + 1..]);
      if NoLineTerminator(rest) then Some(Header(s[..p], sc.value.0, rest)) else None
  }

  /** The whole expression: the keyword alternatives in order, then the empty alternative. */
  function MatchHeader(keywords: seq<string>, s: string): (r: Option<Header>)
    // Naming `s` as well means a literal keyword list is unrolled only for a literal subject.
    decreases |keywords|, |s|
  {
    if keywords == [] then MatchAfterType(s, 0)
    else
      var k := keywords[0];
      if |k| <= |s| && ToLowerAscii(s[..|k|]) == k && MatchAfterType(s, |k|).Some?
      then MatchAfterType(s, |k|)
      else MatchHeader(keywords[1..], s)
  }

  lemma HeadFromSlices(s: string, h: Header, c: nat)
    requires |h.typeText| <= c < |s| && s[..|h.typeText|] == h.typeText
    requires s[|h.typeText|..c] == ScopeText(h.scopeGroup) && s[c] == ':'
    ensures HeadLeads(s, h)
  {
    PrefixSplit(s, |h.typeText|, c);
  }

  lemma RestFromTail(s: string, h: Header)
    requires |Head(h)| <= |s| && h.rest == TrimStart(s[|Head(h)|..]) && NoLineTerminator(h.rest)
    ensures RestTrails(s, h)
  {
    var i := |Head(h)|;
    TrimStartWithin(s, i);
    assert i + |h.rest| <= |s|;
    assert s[|s| - |h.rest|..] == h.rest;
    assert AllWhitespace(s[i..|s| - |h.rest|]);
  }

  lemma TailFromRest(s: string, h: Header)
    requires RestTrails(s, h)
    ensures TrimStart(s[|Head(h)|..]) == h.rest
  {
    var w := s[|Head(h)|..|s| - |h.rest|];
    assert s[|Head(h)|..] == w + h.rest;
    TrimStartOf(w, h.rest);
    TrimStartNoLead(h.rest);
  }

  lemma AfterTypeHead(s: string, p: nat)
    requires p <= |s| && MatchAfterType(s, p).Some?
    ensures HeadLeads(s, MatchAfterType(s, p).value)
  {
    var h := MatchAfterType(s, p).value;
    var c := ScopeAndColon(s, p).value.1;
    assert s[p..c] == ScopeText(h.scopeGroup);
    HeadFromSlices(s, h, c);
  }

  lemma AfterTypeRestField(s: string, p: nat)
    requires p <= |s| && MatchAfterType(s, p).Some?
    ensures MatchAfterType(s, p).value.rest == TrimStart(s[ScopeAndColon(s, p).value.1 + 1..])
  {
  }

  lemma AfterTypeHeadLength(s: string, p: nat)
    requires p <= |s| && MatchAfterType(s, p).Some?
    ensures |Head(MatchAfterType(s, p).value)| == ScopeAndColon(s, p).value.1 + 1
  {
  }

  lemma AfterTypeRest(s: string, p: nat)
    requires p <= |s| && MatchAfterType(s, p).Some?
    ensures RestTrails(s, MatchAfterType(s, p).value)
  {
    AfterTypeRestField(s, p);
    AfterTypeHeadLength(s, p);
    RestFromTail(s, MatchAfterType(s, p).value);
  }

  lemma AfterTypeSound(keywords: seq<string>, s: string, p: nat)
    requires p <= |s| && MatchAfterType(s, p).Some?
    requires p == 0 || ToLowerAscii(s[..p]) in keywords
    ensures Decomposes(keywords, s, MatchAfterType(s, p).value)
  {
    AfterTypeHead(s, p);
    AfterTypeRest(s, p);
  }

  /** Every match the function reports satisfies the regular expression's decomposition. */
  lemma {:induction false} MatchHeaderSound(keywords: seq<string>, s: string)
    requires MatchHeader(keywords, s).Some?
    ensures Decomposes(keywords, s, MatchHeader(keywords, s).value)
    decreases |keywords|
  {
    if keywords == [] {
      AfterTypeSound(keywords, s, 0);
    } else {
      var k := keywords[0];
      if |k| <= |s| && ToLowerAscii(s[..|k|]) == k && MatchAfterType(s, |k|).Some? {
        AfterTypeSound(keywords, s, |k|);
      } else {
        MatchHeaderSound(keywords[1..], s);
        var h := MatchHeader(keywords, s).value;
        assert h.typeText == "" || ToLowerAscii(h.typeText) in keywords[1..];
      }
    }
  }

  /** The head read back out of the subject: the type, the scope group, then the colon. */
  lemma HeadParts(s: string, h: Header)
    requires HeadLeads(s, h)
    ensures var n, c := |h.typeText|, |Head(h)| - 1;
      && s[..n] == h.typeText && s[n..c] == ScopeText(h.scopeGroup) && s[c] == ':'
  {
    var n, c := |h.typeText|, |Head(h)| - 1;
    assert s[..n] == Head(h)[..n];
    assert s[n..c] == Head(h)[n..c];
    assert s[c] == Head(h)[c];
  }

  /** In a decomposition, group 1 is followed by `(` or `:`. */
  lemma TypeDelimited(keywords: seq<string>, s: string, h: Header)
    requires Decomposes(keywords, s, h)
    ensures |h.typeText| < |s| && (s[|h.typeText|] == '(' || s[|h.typeText|] == ':')
  {
    HeadParts(s, h);
    var n, c := |h.typeText|, |Head(h)| - 1;
    if h.scopeGroup.Some? {
      assert s[n] == s[n..c][0];
    }
  }

  /** In a decomposition, the scope group and colon are where the head says. */
  lemma ScopeAndColonComplete(keywords: seq<string>, s: string, h: Header)
    requires Decomposes(keywords, s, h)
    ensures ScopeAndColon(s, |h.typeText|) == Some((h.scopeGroup, |Head(h)| - 1))
  {
    HeadParts(s, h);
    var p, c := |h.typeText|, |Head(h)| - 1;
    match h.scopeGroup {
      case None =>
      case Some(g) =>
        assert s[p] == g[0];
        forall k | p + 1 <= k < c - 1 ensures s[k] != ')' {
          assert s[k] == g[k - p];
        }
        assert s[c - 1] == g[|g| - 1];
        assert FindChar(s, ')', p + 1) == Some(c - 1);
    }
  }

  /** A decomposition fixes everything after the type: scope, colon and remainder are forced. */
  lemma AfterTypeComplete(keywords: seq<string>, s: string, h: Header)
    requires Decomposes(keywords, s, h)
    ensures MatchAfterType(s, |h.typeText|) == Some(h)
  {
    ScopeAndColonComplete(keywords, s, h);
    HeadParts(s, h);
    TailFromRest(s, h);
  }

  /** Lower-casing maps a parenthesis or colon to itself, so it never yields a keyword letter. */
  lemma DelimiterNotLetter(c: char)
    requires c == '(' || c == ':'
    ensures !IsLowerLetter(LowerChar(c))
  {
  }

  /** Only a keyword of exactly the decomposition's type length can lead to a match. */
  lemma KeywordLengthForced(keywords: seq<string>, s: string, h: Header, k: string)
    requires Decomposes(keywords, s, h) && AllKeywords(keywords) && IsKeyword(k)
    requires |k| <= |s| && ToLowerAscii(s[..|k|]) == k && MatchAfterType(s, |k|).Some?
    ensures k == ToLowerAscii(h.typeText)
  {
    var n := |h.typeText|;
    HeadParts(s, h);
    TypeDelimited(keywords, s, h);
    if |k| < n {
      var t := ToLowerAscii(h.typeText);
      var i :| 0 <= i < |keywords| && keywords[i] == t;
      assert IsLowerLetter(t[|k|]);
      assert t[|k|] == LowerChar(s[|k|]) by { assert s[|k|] == h.typeText[|k|]; }
      DelimiterNotLetter(s[|k|]);
      assert false;
    } else if |k| > n {
      assert IsLowerLetter(k[n]);
      assert k[n] == LowerChar(s[n]) by { assert s[..|k|][n] == s[n]; }
      DelimiterNotLetter(s[n]);
      assert false;
    }
  }

  /** Every decomposition is the one the function finds, so the match is unique. */
  lemma {:induction false} MatchHeaderComplete(keywords: seq<string>, s: string, h: Header)
    requires AllKeywords(keywords)
    requires Decomposes(keywords, s, h)
    ensures MatchHeader(keywords, s) == Some(h)
    decreases |keywords|
  {
    AfterTypeComplete(keywords, s, h);
    if keywords == [] {
      assert h.typeText == "";
    } else {
      var k := keywords[0];
      assert IsKeyword(k);
      if |k| <= |s| && ToLowerAscii(s[..|k|]) == k && MatchAfterType(s, |k|).Some? {
        KeywordLengthForced(keywords, s, h, k);
      } else {
        HeadParts(s, h);
        assert h.typeText == "" || ToLowerAscii(h.typeText) in keywords[1..];
        assert AllKeywords(keywords[1..]) by {
          forall i | 0 <= i < |keywords| - 1 ensures IsKeyword(keywords[1..][i]) {
            assert keywords[1..][i] == keywords[i + 1];
          }
        }
        MatchHeaderComplete(keywords[1..], s, h);
      }
    }
  }

  // ---------------------------------------------------------------------
  // Rendering a matched header

  /** `replace(/[()]/g, '')`. */
  function StripParens(g: string): (r: string)
    ensures forall i :: 0 <= i < |r| ==> r[i] != '(' && r[i] != ')'
    ensures |r| <= |g|
  {
    if g == [] then []
    else (if g[0] == '(' || g[0] == ')' then [] else [g[0]]) + StripParens(g[1..])
  }

  /** Stripping a scope group `(t)` whose text has no parentheses gives `t`. */
  lemma StripParensOfGroup(t: string)
    requires HasNoChar(t, '(') && HasNoChar(t, ')')
    ensures StripParens("(" + t + ")") == t
  {
    assert ("(" + t + ")")[1..] == t + ")";
    StripParensKeeps(t, ")");
    assert StripParens(")") == [];
    assert t + [] == t;
  }

  /** A text without parentheses passes through `StripParens` unchanged in front of any tail. */
  lemma {:induction false} StripParensKeeps(t: string, tail: string)
    requires HasNoChar(t, '(') && HasNoChar(t, ')')
    ensures StripParens(t + tail) == t + StripParens(tail)
  {
    if t != [] {
      assert (t + tail)[0] == t[0];
      assert (t + tail)[1..] == t[1..] + tail;
      StripParensKeeps(t[1..], tail);
      assert [t[0]] + t[1..] == t;
    } else {
      assert t + tail == tail;
    }
  }

  function Scope(h: Header): string {
    match h.scopeGroup
    case None => ""
    case Some(g) => StripParens(g)
  }

  function Description(h: Header): string {
    Trim(h.rest)
  }

  /** `- **scope**: description`, or `- description` when the scope is empty. */
  function BaseEntry(h: Header): string {
    if Scope(h) != "" then "- **" + Scope(h) + "**: " + Description(h)
    else "- " + Description(h)
  }

  /** `body.split('\n\n')[0].trim()`. */
  function FirstParagraph(body: string): string {
    Trim(Split(body, "\n\n")[0])
  }

  /** The first paragraph is what precedes the first blank line, trimmed. */
  lemma FirstParagraphBeforeBlankLine(body: string)
    ensures IndexOf(body, "\n\n", 0).None? ==> FirstParagraph(body) == Trim(body)
    ensures IndexOf(body, "\n\n", 0).Some? ==>
              FirstParagraph(body) == Trim(body[..IndexOf(body, "\n\n", 0).value])
  {
  }

  /** The three conditions under which the first body paragraph is appended to an entry. */
  predicate Enriches(body: string) {
    && body != ""
    && FirstParagraph(body) != ""
    && !StartsWith(FirstParagraph(body), "Co-authored-by:")
    && |FirstParagraph(body)| < 100
  }

  /** The entry of a matched header: the base entry, plus `dash` and the first paragraph when it qualifies. */
  function Entry(h: Header, body: string, dash: string): string {
    BaseEntry(h) + (if Enriches(body) then dash + FirstParagraph(body) else "")
  }
  /** A short first paragraph without line breaks, that is not a trailer, is appended after `dash`. */
  lemma ParagraphAppended(h: Header, para: string, rest: string, dash: string)
    requires para != "" && Trimmed(para) && HasNoChar(para, '\n') && |para| < 100
    requires !StartsWith(para, "Co-authored-by:")
    ensures Entry(h, para, dash) == BaseEntry(h) + dash + para
    ensures Entry(h, para + "\n\n" + rest, dash) == BaseEntry(h) + dash + para
  {
    var body := para + "\n\n" + rest;
    forall k | 0 <= k < |para| ensures !OccursAt(body, "\n\n", k) {
      assert body[k] == para[k];
      assert body[k..k + 2][0] == body[k];
    }
    SplitCons(para, "\n\n", rest);
    forall k: nat ensures !OccursAt(para, "\n\n", k) {
      if k + 2 <= |para| { assert para[k..k + 2][0] == para[k]; }
    }
    SplitNone(para, "\n\n");
    TrimUnique([], para, []);
    assert [] + para + [] == para;
  }

  /** A body that opens with a co-author trailer adds nothing to the entry. */
  lemma TrailerBodyAddsNothing(h: Header, body: string, dash: string)
    requires StartsWith(body, "Co-authored-by:")
    ensures Entry(h, body, dash) == BaseEntry(h)
  {
    FirstPieceKeepsPrefix(body, "Co-authored-by:");
    TrimKeepsPrefix(Split(body, "\n\n")[0], "Co-authored-by:");
  }

  /** A prefix without a newline stays in the first piece of a split at blank lines. */
  lemma FirstPieceKeepsPrefix(body: string, marker: string)
    requires StartsWith(body, marker) && HasNoChar(marker, '\n')
    ensures StartsWith(Split(body, "\n\n")[0], marker)
  {
    forall k | 0 <= k < |marker| && k + 2 <= |body| ensures !OccursAt(body, "\n\n", k) {
      assert body[k] == marker[k];
      assert body[k..k + 2][0] == body[k];
    }
    match IndexOf(body, "\n\n", 0)
    case None =>
    case Some(i) =>
      assert Split(body, "\n\n")[0] == body[..i];
      assert body[..i][..|marker|] == body[..|marker|];
  }

  /** Trimming keeps a prefix that starts and ends with a visible character. */
  lemma TrimKeepsPrefix(x: string, marker: string)
    requires StartsWith(x, marker) && marker != []
    requires !IsWhitespace(marker[0]) && !IsWhitespace(marker[|marker| - 1])
    ensures StartsWith(Trim(x), marker)
  {
    assert x[0] == marker[0];
    TrimStartNoLead(x);
    var r := TrimEnd(x);
    TrimEndPrefix(x);
    assert r[..|marker|] == x[..|marker|];
  }
}
