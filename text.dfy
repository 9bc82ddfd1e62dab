/**
 * String primitives with JavaScript semantics: the whitespace class `\s`
 * (which is also the set `String.prototype.trim` removes), `trim`,
 * `split` and `join` on a string separator, `startsWith`, lower-casing of
 * ASCII letters, and decimal rendering of counts.
 */
module Text {
  import opened Outcomes

  /** JavaScript's WhiteSpace and LineTerminator code points. */
  predicate IsWhitespace(c: char) {
    || c == '\t' || c == '\n' || c == '\U{000B}' || c == '\U{000C}' || c == '\r'
    || c == ' ' || c == '\U{00A0}' || c == '\U{1680}'
    || ('\U{2000}' <= c <= '\U{200A}')
    || c == '\U{2028}' || c == '\U{2029}' || c == '\U{202F}' || c == '\U{205F}'
    || c == '\U{3000}' || c == '\U{FEFF}'
  }

  /** The characters a regular-expression `.` does not match. */
  predicate IsLineTerminator(c: char) {
    c == '\n' || c == '\r' || c == '\U{2028}' || c == '\U{2029}'
  }

  lemma LineTerminatorIsWhitespace(c: char)
    ensures IsLineTerminator(c) ==> IsWhitespace(c)
  {
  }

  predicate AllWhitespace(s: string) {
    forall i :: 0 <= i < |s| ==> IsWhitespace(s[i])
  }

  predicate NoLineTerminator(s: string) {
    forall i :: 0 <= i < |s| ==> !IsLineTerminator(s[i])
  }

  predicate HasNoChar(s: string, c: char) {
    forall i :: 0 <= i < |s| ==> s[i] != c
  }

  /** Two texts without a newline concatenate to one without a newline. */
  lemma NoNewlineConcat(a: string, b: string)
    requires HasNoChar(a, '\n') && HasNoChar(b, '\n')
    ensures HasNoChar(a + b, '\n')
  {
    forall k | 0 <= k < |a + b| ensures (a + b)[k] != '\n' {
      if k >= |a| { assert (a + b)[k] == b[k - |a|]; }
    }
  }

  /** True when `r` neither starts nor ends with whitespace. */
  predicate Trimmed(r: string) {
    r == [] || (!IsWhitespace(r[0]) && !IsWhitespace(r[|r| - 1]))
  }

  function TrimStart(s: string): (r: string)
    ensures |r| <= |s|
    ensures AllWhitespace(s[..|s| - |r|])
    ensures r == [] || !IsWhitespace(r[0])
  {
    if s != [] && IsWhitespace(s[0]) then TrimStart(s[1..]) else s
  }

  function TrimEnd(s: string): (r: string)
    ensures |r| <= |s|
    ensures AllWhitespace(s[|r|..])
    ensures r == [] || !IsWhitespace(r[|r| - 1])
  {
    if s != [] && IsWhitespace(s[|s| - 1]) then TrimEnd(s[..|s| - 1]) else s
  }

  /** `TrimStart` keeps a suffix. */
  lemma {:induction false} TrimStartSuffix(s: string)
    ensures TrimStart(s) == s[|s| - |TrimStart(s)|..]
  {
    if s != [] && IsWhitespace(s[0]) {
      TrimStartSuffix(s[1..]);
    }
  }

  /** `TrimEnd` keeps a prefix. */
  lemma {:induction false} TrimEndPrefix(s: string)
    ensures TrimEnd(s) == s[..|TrimEnd(s)|]
  {
    if s != [] && IsWhitespace(s[|s| - 1]) {
      TrimEndPrefix(s[..|s| - 1]);
    }
  }

  /** `String.prototype.trim`. */
  function Trim(s: string): (r: string)
    ensures Trimmed(r)
  {
    var t := TrimStart(s);
    TrimEndPrefix(t);
    TrimEnd(t)
  }

  /** `s.trim()` is the unique trimmed middle of `s` between two whitespace runs. */
  lemma {:induction false} TrimSplits(s: string)
    ensures exists i, j :: 0 <= i <= j <= |s| && Trim(s) == s[i..j]
                           && AllWhitespace(s[..i]) && AllWhitespace(s[j..])
  {
    var t := TrimStart(s);
    TrimStartSuffix(s);
    TrimEndPrefix(t);
    var i := |s| - |t|;
    var j := i + |TrimEnd(t)|;
    assert Trim(s) == s[i..j];
    assert s[j..] == t[|TrimEnd(t)|..];
  }

  /** Any decomposition `w1 + r + w2` with whitespace `w1`, `w2` and a trimmed `r` is what `trim` finds. */
  lemma {:induction false} TrimUnique(w1: string, r: string, w2: string)
    requires AllWhitespace(w1) && AllWhitespace(w2) && Trimmed(r)
    ensures Trim(w1 + r + w2) == r
  {
    assert w1 + r + w2 == w1 + (r + w2);
    TrimStartOf(w1, r + w2);
    if r == [] {
      assert r + w2 == w2;
      TrimStartAllWhite(w2);
    } else {
      TrimStartNoLead(r + w2);
      TrimEndOf(r, w2);
    }
  }

  /** `TrimStart` applied to a suffix of `s`, read back as positions in `s`. */
  lemma TrimStartWithin(s: string, i: nat)
    requires i <= |s|
    ensures var r := TrimStart(s[i..]);
      && i + |r| <= |s| && s[|s| - |r|..] == r && AllWhitespace(s[i..|s| - |r|])
  {
    var t := s[i..];
    var r := TrimStart(t);
    TrimStartSuffix(t);
    assert s[i..|s| - |r|] == t[..|t| - |r|];
  }

  lemma {:induction false} TrimStartOf(w: string, t: string)
    requires AllWhitespace(w)
    ensures TrimStart(w + t) == TrimStart(t)
    decreases |w|
  {
    if w != [] {
      assert (w + t)[0] == w[0];
      assert (w + t)[1..] == w[1..] + t;
      TrimStartOf(w[1..], t);
    } else {
      assert w + t == t;
    }
  }

  lemma {:induction false} TrimStartAllWhite(w: string)
    requires AllWhitespace(w)
    ensures TrimStart(w) == []
    decreases |w|
  {
    if w != [] { TrimStartAllWhite(w[1..]); }
  }

  lemma TrimStartNoLead(t: string)
    requires t == [] || !IsWhitespace(t[0])
    ensures TrimStart(t) == t
  {
  }

  lemma {:induction false} TrimEndOf(r: string, w: string)
    requires AllWhitespace(w)
    requires r == [] || !IsWhitespace(r[|r| - 1])
    ensures TrimEnd(r + w) == r
  {
    if w != [] {
      assert (r + w)[..|r + w| - 1] == r + w[..|w| - 1];
      TrimEndOf(r, w[..|w| - 1]);
    } else {
      assert r + w == r;
    }
  }

  /** `trim` only removes whitespace: the result is empty exactly for all-whitespace input. */
  lemma TrimEmptyIff(s: string)
    ensures Trim(s) == [] <==> AllWhitespace(s)
  {
    TrimSplits(s);
    if AllWhitespace(s) {
      TrimUnique(s, [], []);
      assert s + [] + [] == s;
    }
  }

  lemma TrimIdempotent(s: string)
    ensures Trim(Trim(s)) == Trim(s)
  {
    TrimUnique([], Trim(s), []);
    assert [] + Trim(s) + [] == Trim(s);
  }

  // ---------------------------------------------------------------------
  // Searching, splitting and joining

  predicate OccursAt(s: string, sep: string, k: nat) {
    k + |sep| <= |s| && s[k..k + |sep|] == sep
  }

  /** The prefix through index `j` cut at `i`: what comes before, the middle, the character at `j`. */
  lemma PrefixSplit(s: string, i: nat, j: nat)
    requires i <= j < |s|
    ensures s[..j + 1] == s[..i] + s[i..j] + [s[j]]
  {
  }

  predicate StartsWith(s: string, prefix: string) {
    |prefix| <= |s| && s[..|prefix|] == prefix
  }

  /** `s.indexOf(sep, from)`: the first occurrence at or after `from`. */
  function IndexOf(s: string, sep: string, from: nat): (r: Option<nat>)
    decreases |s| - from
    ensures r.Some? ==> from <= r.value && OccursAt(s, sep, r.value)
    ensures r.Some? ==> forall k :: from <= k < r.value ==> !OccursAt(s, sep, k)
    ensures r.None? ==> forall k :: from <= k ==> !OccursAt(s, sep, k)
  {
    if from + |sep| > |s| then None
    else if s[from..from + |sep|] == sep then Some(from)
    else IndexOf(s, sep, from + 1)
  }

  /** The first index at or after `from` holding `c`: how a regular-expression engine scans for a literal. */
  function FindChar(s: string, c: char, from: nat): (r: Option<nat>)
    decreases |s| - from
    ensures r.Some? ==> from <= r.value < |s| && s[r.value] == c
    ensures r.Some? ==> forall k :: from <= k < r.value ==> s[k] != c
    ensures r.None? ==> forall k :: from <= k < |s| ==> s[k] != c
  {
    if from >= |s| then None
    else if s[from] == c then Some(from)
    else FindChar(s, c, from + 1)
  }

  /** `s.split(sep)` for a non-empty string separator (ECMAScript's StringIndexOf loop). */
  function Split(s: string, sep: string): (parts: seq<string>)
    requires |sep| > 0
    decreases |s|
    ensures |parts| >= 1
  {
    match IndexOf(s, sep, 0)
    case None => [s]
    case Some(j) => [s[..j]] + Split(s[j + |sep|..], sep)
  }

  /** `parts.join(sep)`. */
  function Join(parts: seq<string>, sep: string): string
    decreases |parts|
  {
    if |parts| == 0 then ""
    else if |parts| == 1 then parts[0]
    else parts[0] + sep + Join(parts[1..], sep)
  }

  lemma JoinCons(a: string, parts: seq<string>, sep: string)
    requires |parts| >= 1
    ensures Join([a] + parts, sep) == a + sep + Join(parts, sep)
  {
    assert ([a] + parts)[1..] == parts;
  }

  /** Splitting and rejoining gives back the original text. */
  lemma {:induction false} JoinSplit(s: string, sep: string)
    requires |sep| > 0
    ensures Join(Split(s, sep), sep) == s
    decreases |s|
  {
    var idx := IndexOf(s, sep, 0);
    if idx.Some? {
      var j := idx.value;
      var rest := s[j + |sep|..];
      assert Split(s, sep) == [s[..j]] + Split(rest, sep);
      JoinSplit(rest, sep);
      JoinCons(s[..j], Split(rest, sep), sep);
      assert s[j..j + |sep|] == sep;
      assert s == s[..j] + s[j..j + |sep|] + rest;
    }
  }

  /** No piece of a split contains the separator. */
  lemma {:induction false} SplitPiecesFree(s: string, sep: string)
    requires |sep| > 0
    ensures forall p, k :: p in Split(s, sep) ==> !OccursAt(p, sep, k)
    decreases |s|
  {
    match IndexOf(s, sep, 0)
    case None =>
    case Some(j) =>
      SplitPiecesFree(s[j + |sep|..], sep);
      FirstPieceFree(s, sep, j);
      assert Split(s, sep) == [s[..j]] + Split(s[j + |sep|..], sep);
  }

  /** The text before the first separator holds no separator. */
  lemma FirstPieceFree(s: string, sep: string, j: nat)
    requires |sep| > 0 && IndexOf(s, sep, 0) == Some(j)
    ensures forall k :: !OccursAt(s[..j], sep, k)
  {
    forall k: nat ensures !OccursAt(s[..j], sep, k) {
      if k + |sep| <= j {
        assert s[..j][k..k + |sep|] == s[k..k + |sep|];
        assert !OccursAt(s, sep, k);
      }
    }
  }

  /** Text before the first separator becomes the first piece. */
  lemma {:induction false} SplitCons(a: string, sep: string, rest: string)
    requires |sep| > 0
    requires forall k :: 0 <= k < |a| ==> !OccursAt(a + sep + rest, sep, k)
    ensures Split(a + sep + rest, sep) == [a] + Split(rest, sep)
  {
    var s := a + sep + rest;
    assert s[|a|..|a| + |sep|] == sep;
    assert OccursAt(s, sep, |a|);
    var j := IndexOf(s, sep, 0);
    assert j == Some(|a|);
    assert s[..|a|] == a;
    assert s[|a| + |sep|..] == rest;
  }

  /** Text without any separator is a single piece. */
  lemma SplitNone(s: string, sep: string)
    requires |sep| > 0
    requires forall k :: !OccursAt(s, sep, k)
    ensures Split(s, sep) == [s]
  {
    assert IndexOf(s, sep, 0).None?;
  }

  lemma NoCharNoOccurrence(s: string, c: char)
    requires HasNoChar(s, c)
    ensures forall k :: !OccursAt(s, [c], k)
  {
    forall k: nat
      ensures !OccursAt(s, [c], k)
    {
      if k + 1 <= |s| {
        assert s[k..k + 1] == [s[k]];
      }
    }

  }

  /** The first occurrence of a single character, located by its index. */
  lemma IndexOfChar(s: string, c: char, from: nat, i: nat)
    requires from <= i < |s| && s[i] == c
    requires forall k :: from <= k < i ==> s[k] != c
    ensures IndexOf(s, [c], from) == Some(i)
  {
    assert s[i..i + 1] == [s[i]];
    assert OccursAt(s, [c], i);
    forall k: nat | from <= k < i
      ensures !OccursAt(s, [c], k)
    {
      assert s[k..k + 1] == [s[k]];
    }
  }

  /** No occurrence of a single character from `from` on. */
  lemma IndexOfCharNone(s: string, c: char, from: nat)
    requires forall k :: from <= k < |s| ==> s[k] != c
    ensures IndexOf(s, [c], from) == None
  {
    forall k: nat | from <= k
      ensures !OccursAt(s, [c], k)
    {
      if k + 1 <= |s| {
        assert s[k..k + 1] == [s[k]];
      }
    }
  }

  /** What a found single character tells: it is there, and not before. */
  lemma IndexOfCharFound(s: string, c: char, from: nat)
    requires IndexOf(s, [c], from).Some?
    ensures var i := IndexOf(s, [c], from).value;
      && from <= i < |s| && s[i] == c
      && forall k :: from <= k < i ==> s[k] != c
  {
    var i := IndexOf(s, [c], from).value;
    assert s[i..i + 1][0] == s[i];
    forall k | from <= k < i
      ensures s[k] != c
    {
      assert !OccursAt(s, [c], k);
      assert s[k..k + 1] == [s[k]];
    }
  }

  /** For a one-character separator, splitting the join of pieces without it gives back the pieces. */
  lemma {:induction false} SplitJoinChar(parts: seq<string>, c: char)
    requires |parts| >= 1
    requires forall i :: 0 <= i < |parts| ==> HasNoChar(parts[i], c)
    ensures Split(Join(parts, [c]), [c]) == parts
    decreases |parts|
  {
    if |parts| == 1 {
      NoCharNoOccurrence(parts[0], c);
      SplitNone(parts[0], [c]);
    } else {
      var a := parts[0];
      var rest := Join(parts[1..], [c]);
      forall k | 0 <= k < |a| ensures !OccursAt(a + [c] + rest, [c], k) {
        assert (a + [c] + rest)[k] == a[k];
      }
      SplitCons(a, [c], rest);
      SplitJoinChar(parts[1..], c);
      assert [a] + parts[1..] == parts;
    }
  }

  /** Splitting pieces without the separator character, followed by more text, gives back the pieces first. */
  lemma {:induction false} SplitJoinPrefixChar(parts: seq<string>, rest: string, c: char)
    requires forall i :: 0 <= i < |parts| ==> HasNoChar(parts[i], c)
    ensures Split(Join(parts + [rest], [c]), [c]) == parts + Split(rest, [c])
    decreases |parts|
  {
    if parts == [] {
      assert parts + [rest] == [rest];
    } else {
      var a := parts[0];
      var q := parts[1..] + [rest];
      assert parts + [rest] == [a] + q;
      JoinCons(a, q, [c]);
      var tail := Join(q, [c]);
      assert HasNoChar(a, c);
      SplitConsChar(a, c, tail);
      assert forall i :: 0 <= i < |parts[1..]| ==> HasNoChar(parts[1..][i], c) by {
        forall i | 0 <= i < |parts[1..]| ensures HasNoChar(parts[1..][i], c) {
          assert parts[1..][i] == parts[i + 1];
        }
      }
      SplitJoinPrefixChar(parts[1..], rest, c);
      assert [a] + (parts[1..] + Split(rest, [c])) == parts + Split(rest, [c]);
    }
  }

  /** Text without `c`, then `c`: the text is the first piece. */
  lemma SplitConsChar(a: string, c: char, tail: string)
    requires HasNoChar(a, c)
    ensures Split(a + [c] + tail, [c]) == [a] + Split(tail, [c])
  {
    forall k | 0 <= k < |a| ensures !OccursAt(a + [c] + tail, [c], k) {
      assert (a + [c] + tail)[k..k + 1] == [a[k]];
    }
    SplitCons(a, [c], tail);
  }

  /** Appending a last piece to a non-empty join. */
  lemma {:induction false} JoinSnoc(parts: seq<string>, x: string, sep: string)
    requires |parts| >= 1
    ensures Join(parts + [x], sep) == Join(parts, sep) + sep + x
    decreases |parts|
  {
    if |parts| == 1 {
      assert parts + [x] == [parts[0]] + [x];
      JoinCons(parts[0], [x], sep);
    } else {
      assert parts + [x] == [parts[0]] + (parts[1..] + [x]);
      JoinCons(parts[0], parts[1..] + [x], sep);
      JoinSnoc(parts[1..], x, sep);
      JoinCons(parts[0], parts[1..], sep);
      assert [parts[0]] + parts[1..] == parts;
    }
  }

  /** `sep` does not occur anywhere in `s`. */
  ghost predicate Free(s: string, sep: string) {
    forall k :: !OccursAt(s, sep, k)
  }

  lemma FreeSlice(s: string, sep: string, i: nat, j: nat)
    requires i <= j <= |s| && Free(s, sep)
    ensures Free(s[i..j], sep)
  {
    forall k: nat ensures !OccursAt(s[i..j], sep, k) {
      if k + |sep| <= j - i {
        var w, v := s[i..j][k..k + |sep|], s[i + k..i + k + |sep|];
        assert |w| == |v| && forall m :: 0 <= m < |w| ==> w[m] == v[m];
        assert w == v;
        assert !OccursAt(s, sep, i + k);
      }
    }
  }

  /** A separator without `c` cannot straddle a `c` placed between two texts free of it. */
  lemma FreeAcross(t: string, c: char, u: string, sep: string)
    requires HasNoChar(sep, c) && Free(t, sep) && Free(u, sep)
    ensures Free(t + [c] + u, sep)
  {
    var s := t + [c] + u;
    forall k: nat ensures !OccursAt(s, sep, k) {
      if k + |sep| <= |s| {
        if k + |sep| <= |t| {
          assert s[k..k + |sep|] == t[k..k + |sep|];
          assert !OccursAt(t, sep, k);
        } else if k > |t| {
          assert s[k..k + |sep|] == u[k - |t| - 1..k - |t| - 1 + |sep|];
          assert !OccursAt(u, sep, k - |t| - 1);
        } else {
          assert s[k..k + |sep|][|t| - k] == c;
          assert sep[|t| - k] != c;
        }
      }
    }
  }

  /** Joining texts free of `sep` with a character `sep` lacks gives a text free of `sep`. */
  lemma {:induction false} FreeJoin(parts: seq<string>, c: char, sep: string)
    requires |sep| > 0 && HasNoChar(sep, c)
    requires forall i :: 0 <= i < |parts| ==> Free(parts[i], sep)
    ensures Free(Join(parts, [c]), sep)
    decreases |parts|
  {
    if |parts| == 0 {
    } else if |parts| > 1 {
      FreeJoin(parts[1..], c, sep);
      FreeAcross(parts[0], c, Join(parts[1..], [c]), sep);
    }
  }

  /** A trimmed text is its own trim. */
  lemma TrimOfTrimmed(s: string)
    requires Trimmed(s)
    ensures Trim(s) == s
  {
    TrimUnique([], s, []);
    assert [] + s + [] == s;
  }

  // ---------------------------------------------------------------------
  // Slices

  /** A slice equal to a concatenation splits into slices equal to its two parts. */
  lemma PeelSlice(s: string, i: nat, x: string, y: string)
    requires i + |x| + |y| <= |s| && s[i..i + |x| + |y|] == x + y
    ensures s[i..i + |x|] == x && s[i + |x|..i + |x| + |y|] == y
  {
    var t := s[i..i + |x| + |y|];
    assert s[i..i + |x|] == t[..|x|];
    assert s[i + |x|..i + |x| + |y|] == t[|x|..];
  }

  lemma SliceAt(s: string, i: nat, t: string, k: nat)
    requires i + |t| <= |s| && s[i..i + |t|] == t && k < |t|
    ensures s[i + k] == t[k]
  {
    assert s[i..i + |t|][k] == s[i + k];
  }

  // ---------------------------------------------------------------------
  // Characters and numbers

  predicate IsDigit(c: char) {
    '0' <= c <= '9'
  }

  predicate AllDigits(s: string) {
    forall i :: 0 <= i < |s| ==> IsDigit(s[i])
  }

  function LowerChar(c: char): char {
    if 'A' <= c <= 'Z' then (c as int - 'A' as int + 'a' as int) as char else c
  }

  /** `toLowerCase` restricted to ASCII letters, which is all a matched conventional type can hold. */
  function ToLowerAscii(s: string): (r: string)
    ensures |r| == |s|
    ensures forall i :: 0 <= i < |s| ==> r[i] == LowerChar(s[i])
  {
    if s == [] then [] else [LowerChar(s[0])] + ToLowerAscii(s[1..])
  }

  function DigitChar(d: nat): char
    requires d < 10
  {
    ('0' as int + d) as char
  }

  /** The decimal rendering of a count, as `${n}` produces it. */
  function NatToString(n: nat): (s: string)
    ensures |s| >= 1 && AllDigits(s)
    ensures |s| > 1 ==> s[0] != '0'
    decreases n
  {
    if n < 10 then [DigitChar(n)] else NatToString(n / 10) + [DigitChar(n % 10)]
  }

  function DigitsValue(s: string): nat
    requires AllDigits(s)
  {
    if s == [] then 0 else 10 * DigitsValue(s[..|s| - 1]) + (s[|s| - 1] as int - '0' as int)
  }

  /** Rendering a count in decimal loses nothing: reading the digits back gives the count. */
  lemma {:induction false} NatToStringValue(n: nat)
    ensures DigitsValue(NatToString(n)) == n
    decreases n
  {
    if n >= 10 {
      var s := NatToString(n);
      assert s[..|s| - 1] == NatToString(n / 10);
      NatToStringValue(n / 10);
    }
  }

  /** Code-point lexicographic order on strings. */
  predicate StrLess(a: string, b: string)
    decreases |a|
  {
    if a == [] then b != []
    else if b == [] then false
    else if a[0] != b[0] then a[0] < b[0]
    else StrLess(a[1..], b[1..])
  }

  lemma {:induction false} StrLessIrreflexive(a: string)
    ensures !StrLess(a, a)
    decreases |a|
  {
    if a != [] { StrLessIrreflexive(a[1..]); }
  }

  lemma {:induction false} StrLessTransitive(a: string, b: string, c: string)
    requires StrLess(a, b) && StrLess(b, c)
    ensures StrLess(a, c)
    decreases |a|
  {
    if a != [] && b != [] && c != [] && a[0] == b[0] && b[0] == c[0] {
      StrLessTransitive(a[1..], b[1..], c[1..]);
    }
  }

  lemma {:induction false} StrLessTotal(a: string, b: string)
    ensures a == b || StrLess(a, b) || StrLess(b, a)
    decreases |a|
  {
    if a != [] && b != [] && a[0] == b[0] {
      StrLessTotal(a[1..], b[1..]);
      if a[1..] == b[1..] {
        assert a == [a[0]] + a[1..] && b == [b[0]] + b[1..];
      }
    }
  }
}
