/**
 * The two string validators of the utilities package: an e-mail shape test
 * (`/^[^\s@]+@[^\s@]+\.[^\s@]+$/`) and a non-blank test (`trim().length > 0`).
 */
module Validators {
  import opened Outcomes
  import opened Text

  /** A character of the class `[^\s@]`. */
  predicate EmailChar(c: char) {
    !IsWhitespace(c) && c != '@'
  }

  predicate EmailChars(s: string) {
    forall i :: 0 <= i < |s| ==> EmailChar(s[i])
  }

  /** The regular expression read structurally: three non-empty `[^\s@]` runs around `@` and `.`. */
  ghost predicate MatchesEmailPattern(s: string) {
    exists i, j ::
      && 0 < i && i + 1 < j && j + 1 < |s|
      && s[i] == '@' && s[j] == '.'
      && EmailChars(s[..i]) && EmailChars(s[i + 1..j]) && EmailChars(s[j + 1..])
  }

  /**
   * `isValidEmail`. A `[^\s@]` run cannot cross an `@`, so the `@` of a match is the
   * first one; the domain part must then hold a `.` with a character on each side.
   */
  function IsValidEmail(email: string): bool {
    match IndexOf(email, "@", 0)
    case None => false
    case Some(i) =>
      var domain := email[i + 1..];
      && 0 < i
      && EmailChars(email[..i])
      && EmailChars(domain)
      && exists j :: 0 < j < |domain| - 1 && domain[j] == '.'
  }

  /** `isNotEmpty`. */
  function IsNotEmpty(value: string): bool {
    |Trim(value)| > 0
  }

  function CountChar(s: string, c: char): nat {
    if s == [] then 0 else (if s[0] == c then 1 else 0) + CountChar(s[1..], c)
  }

  lemma {:induction false} CountCharZero(s: string, c: char)
    requires HasNoChar(s, c)
    ensures CountChar(s, c) == 0
  {
    if s != [] { CountCharZero(s[1..], c); }
  }

  lemma {:induction false} CountCharPositive(s: string, c: char, k: nat)
    requires k < |s| && s[k] == c
    ensures CountChar(s, c) >= 1
  {
    if k > 0 { CountCharPositive(s[1..], c, k - 1); }
  }

  lemma {:induction false} CountCharConcat(a: string, b: string, c: char)
    ensures CountChar(a + b, c) == CountChar(a, c) + CountChar(b, c)
  {
    if a == [] {
      assert a + b == b;
    } else {
      assert (a + b)[1..] == a[1..] + b;
      CountCharConcat(a[1..], b, c);
    }
  }

  lemma EmailCharsSlice(s: string, lo: nat, hi: nat)
    requires lo <= hi <= |s|
    requires forall k :: lo <= k < hi ==> EmailChar(s[k])
    ensures EmailChars(s[lo..hi])
  {
    forall t | 0 <= t < hi - lo ensures EmailChar(s[lo..hi][t]) {
      assert s[lo..hi][t] == s[lo + t];
    }
  }

  /** A valid address has its shape: the first `@` and an inner dot after it. */
  lemma ValidEmailShape(s: string) returns (i: nat, j: nat)
    requires IsValidEmail(s)
    ensures 0 < i && i + 1 < j && j + 1 < |s| && s[i] == '@' && s[j] == '.'
    ensures IndexOf(s, "@", 0) == Some(i)
    ensures EmailChars(s[..i]) && EmailChars(s[i + 1..])
  {
    i := IndexOf(s, "@", 0).value;
    IndexOfCharFound(s, '@', 0);
    var domain := s[i + 1..];
    var d :| 0 < d < |domain| - 1 && domain[d] == '.';
    j := i + 1 + d;
  }

  lemma PatternToValid(s: string, i: nat, j: nat)
    requires && 0 < i && i + 1 < j && j + 1 < |s|
             && s[i] == '@' && s[j] == '.'
             && EmailChars(s[..i]) && EmailChars(s[i + 1..j]) && EmailChars(s[j + 1..])
    ensures IsValidEmail(s)
  {
    forall k | 0 <= k < i ensures s[k] != '@' { assert s[k] == s[..i][k]; }
    IndexOfChar(s, '@', 0, i);
    var domain := s[i + 1..];
    forall t | 0 <= t < |domain|
      ensures EmailChar(domain[t])
    {
      if i + 1 + t < j {
        assert domain[t] == s[i + 1..j][t];
      } else if i + 1 + t > j {
        assert domain[t] == s[j + 1..][t - (j - i)];
      }
    }
    assert domain[j - i - 1] == '.';
  }

  /** `isValidEmail` accepts exactly the strings the regular expression's structure describes. */
  lemma ValidEmailMatchesPattern(s: string)
    ensures IsValidEmail(s) <==> MatchesEmailPattern(s)
  {
    if IsValidEmail(s) {
      var i, j := ValidEmailShape(s);
      forall k | i + 1 <= k < |s| ensures EmailChar(s[k]) {
        assert s[k] == s[i + 1..][k - i - 1];
      }
      EmailCharsSlice(s, i + 1, j);
      EmailCharsSlice(s, j + 1, |s|);
      assert s[j + 1..|s|] == s[j + 1..];
    }
    if MatchesEmailPattern(s) {
      var i, j :| && 0 < i && i + 1 < j && j + 1 < |s|
                  && s[i] == '@' && s[j] == '.'
                  && EmailChars(s[..i]) && EmailChars(s[i + 1..j]) && EmailChars(s[j + 1..]);
      PatternToValid(s, i, j);
    }
  }

  lemma CountOnlyAt(s: string, i: nat)
    requires i < |s| && s[i] == '@'
    ensures CountChar(s, '@') == 1 <==> HasNoChar(s[..i], '@') && HasNoChar(s[i + 1..], '@')
  {
    assert s == s[..i] + [s[i]] + s[i + 1..];
    CountCharConcat(s[..i] + [s[i]], s[i + 1..], '@');
    CountCharConcat(s[..i], [s[i]], '@');
    if HasNoChar(s[..i], '@') && HasNoChar(s[i + 1..], '@') {
      CountCharZero(s[..i], '@');
      CountCharZero(s[i + 1..], '@');
    }
    if !HasNoChar(s[..i], '@') {
      var k :| 0 <= k < i && s[..i][k] == '@';
      CountCharPositive(s[..i], '@', k);
    }
    if !HasNoChar(s[i + 1..], '@') {
      var k :| 0 <= k < |s| - i - 1 && s[i + 1..][k] == '@';
      CountCharPositive(s[i + 1..], '@', k);
    }
  }

  /** The same acceptance in plain words: one `@`, no whitespace, a non-empty local part, an inner dot after the `@`. */
  lemma ValidEmailCharacterization(s: string)
    ensures IsValidEmail(s) <==>
      && (forall k :: 0 <= k < |s| ==> !IsWhitespace(s[k]))
      && CountChar(s, '@') == 1
      && exists i :: 0 < i < |s| && s[i] == '@'
                     && exists j :: i + 1 < j < |s| - 1 && s[j] == '.'
  {
    if IsValidEmail(s) {
      ValidEmailPlain(s);
    }
    if && (forall k :: 0 <= k < |s| ==> !IsWhitespace(s[k]))
       && CountChar(s, '@') == 1
       && exists i :: 0 < i < |s| && s[i] == '@'
                      && exists j :: i + 1 < j < |s| - 1 && s[j] == '.'
    {
      var i :| 0 < i < |s| && s[i] == '@' && exists j :: i + 1 < j < |s| - 1 && s[j] == '.';
      var j :| i + 1 < j < |s| - 1 && s[j] == '.';
      PlainEmailValid(s, i, j);
    }
  }

  lemma ValidEmailPlain(s: string)
    requires IsValidEmail(s)
    ensures forall k :: 0 <= k < |s| ==> !IsWhitespace(s[k])
    ensures CountChar(s, '@') == 1
    ensures exists i :: 0 < i < |s| && s[i] == '@' && exists j :: i + 1 < j < |s| - 1 && s[j] == '.'
  {
    var i, j := ValidEmailShape(s);
    CountOnlyAt(s, i);
    forall k | 0 <= k < |s| ensures !IsWhitespace(s[k]) {
      if k < i { assert s[k] == s[..i][k]; }
      else if k > i { assert s[k] == s[i + 1..][k - i - 1]; }
    }
  }

  lemma PlainEmailValid(s: string, i: nat, j: nat)
    requires forall k :: 0 <= k < |s| ==> !IsWhitespace(s[k])
    requires CountChar(s, '@') == 1
    requires 0 < i < |s| && s[i] == '@' && i + 1 < j < |s| - 1 && s[j] == '.'
    ensures IsValidEmail(s)
  {
    CountOnlyAt(s, i);
    forall k | 0 <= k < i ensures s[k] != '@' {
      assert s[k] == s[..i][k];
    }
    IndexOfChar(s, '@', 0, i);
    var local, domain := s[..i], s[i + 1..];
    forall t | 0 <= t < |local| ensures EmailChar(local[t]) {
      assert local[t] == s[t];
    }
    forall t | 0 <= t < |domain| ensures EmailChar(domain[t]) {
      assert domain[t] == s[i + 1 + t];
    }
    assert domain[j - i - 1] == '.';
  }

  /** Whitespace anywhere makes the address invalid. */
  lemma ValidEmailRejectsWhitespace(s: string, k: nat)
    requires k < |s| && IsWhitespace(s[k])
    ensures !IsValidEmail(s)
  {
    ValidEmailCharacterization(s);
  }

  /** Zero, or two or more, `@` characters make the address invalid. */
  lemma ValidEmailNeedsOneAt(s: string)
    requires CountChar(s, '@') != 1
    ensures !IsValidEmail(s)
  {
    ValidEmailCharacterization(s);
  }

  /** `isNotEmpty` holds exactly when some character is not whitespace. */
  lemma NotEmptyIffVisible(s: string)
    ensures IsNotEmpty(s) <==> exists k :: 0 <= k < |s| && !IsWhitespace(s[k])
  {
    TrimEmptyIff(s);
  }

  /** Surrounding whitespace does not change the answer of `isNotEmpty`. */
  lemma NotEmptyPaddingInvariant(w1: string, s: string, w2: string)
    requires AllWhitespace(w1) && AllWhitespace(w2)
    ensures IsNotEmpty(w1 + s + w2) == IsNotEmpty(s)
  {
    var t := w1 + s + w2;
    NotEmptyIffVisible(s);
    NotEmptyIffVisible(t);
    if k :| 0 <= k < |s| && !IsWhitespace(s[k]) {
      assert t[|w1| + k] == s[k];
    }
    if k :| 0 <= k < |t| && !IsWhitespace(t[k]) {
      if |w1| <= k < |w1| + |s| { assert t[k] == s[k - |w1|]; }
    }
  }

  /** Every accepted address is also non-blank. */
  lemma ValidEmailIsNotEmpty(s: string)
    requires IsValidEmail(s)
    ensures IsNotEmpty(s)
  {
    NotEmptyIffVisible(s);
    var i := IndexOf(s, "@", 0).value;
    assert s[i..i + 1] == "@";
    assert !IsWhitespace(s[i]);
  }
}
