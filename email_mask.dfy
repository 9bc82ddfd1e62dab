/**
 * The e-mail masking of the metadata file: `replace(/^(.{3}).*@(.{3}).*$/, '$1...@$2...')`.
 * `.` matches anything but a line terminator and the expression is anchored at both
 * ends, so it matches the whole text or nothing; the greedy `.*` before `@` makes the
 * engine settle on the last `@` that still leaves three characters after it.
 */
module EmailMask {
  import opened Outcomes
  import opened Text
  import opened Validators

  /** An `@` the expression can use: three characters before it and three after. */
  predicate MaskPoint(s: string, i: nat) {
    3 <= i && i + 4 <= |s| && s[i] == '@'
  }

  /** The last usable `@` at or below `i`. */
  function LastMaskPoint(s: string, i: nat): (r: Option<nat>)
    ensures r.Some? ==> r.value <= i && MaskPoint(s, r.value)
    ensures r.Some? ==> forall k: nat :: r.value < k <= i ==> !MaskPoint(s, k)
    ensures r.None? ==> forall k: nat :: k <= i ==> !MaskPoint(s, k)
    decreases i
  {
    if MaskPoint(s, i) then Some(i)
    else if i == 0 then None
    else LastMaskPoint(s, i - 1)
  }

  /** The expression matches: no line terminator, and a usable `@`. */
  ghost predicate MaskMatches(s: string) {
    NoLineTerminator(s) && exists i: nat :: MaskPoint(s, i)
  }

  /** The masked e-mail address. */
  function Mask(email: string): string {
    if !NoLineTerminator(email) then email
    else match LastMaskPoint(email, |email|)
      case None => email
      case Some(i) => email[..3] + "...@" + email[i + 1..i + 4] + "..."
  }

  /** Without a match the address is left as it is. */
  lemma MaskNoMatch(s: string)
    requires !MaskMatches(s)
    ensures Mask(s) == s
  {
    if NoLineTerminator(s) {
      assert LastMaskPoint(s, |s|).None?;
    }
  }

  /** With a match, the first three characters and the three after the chosen `@` survive, each followed by `...`. */
  lemma MaskOfMatch(s: string, i: nat)
    requires NoLineTerminator(s) && MaskPoint(s, i)
    requires forall k: nat :: i < k ==> !MaskPoint(s, k)
    ensures Mask(s) == s[..3] + "...@" + s[i + 1..i + 4] + "..."
  {
    var r := LastMaskPoint(s, |s|);
    assert r == Some(i);
  }

  /** Every match gives thirteen characters: three kept, `...@`, three kept, `...`. */
  lemma MaskShape(s: string)
    requires MaskMatches(s)
    ensures var m := Mask(s);
      && |m| == 13 && m[..3] == s[..3] && m[3..7] == "...@" && m[10..] == "..."
      && exists i: nat :: MaskPoint(s, i) && m[7..10] == s[i + 1..i + 4]
  {
    var r := LastMaskPoint(s, |s|);
    var i: nat :| MaskPoint(s, i);
    assert r.Some?;
    var j := r.value;
    var m := Mask(s);
    assert m == s[..3] + "...@" + s[j + 1..j + 4] + "...";
    assert m[7..10] == s[j + 1..j + 4];
  }

  /**
   * A valid address with at least three characters on each side of its `@` is masked
   * to the first three characters of each side.
   */
  lemma ValidEmailMasked(s: string, i: nat)
    requires IsValidEmail(s) && i < |s| && s[i] == '@'
    requires 3 <= i && 3 <= |s| - i - 1
    ensures Mask(s) == s[..3] + "...@" + s[i + 1..i + 4] + "..."
  {
    ValidEmailCharacterization(s);
    CountOnlyAt(s, i);
    forall k | 0 <= k < |s| ensures !IsLineTerminator(s[k]) {
      if IsLineTerminator(s[k]) { LineTerminatorIsWhitespace(s[k]); }
    }
    forall k: nat | i < k ensures !MaskPoint(s, k) {
      if k < |s| { assert s[k] == s[i + 1..][k - i - 1]; }
    }
    MaskOfMatch(s, i);
  }

  /** A valid address with fewer than three characters on either side of its `@` is not masked. */
  lemma ShortValidEmailKept(s: string, i: nat)
    requires IsValidEmail(s) && i < |s| && s[i] == '@'
    requires i < 3 || |s| - i - 1 < 3
    ensures Mask(s) == s
  {
    ValidEmailCharacterization(s);
    CountOnlyAt(s, i);
    forall k: nat ensures !MaskPoint(s, k) {
      if k < i { assert s[k] == s[..i][k]; }
      else if i < k < |s| { assert s[k] == s[i + 1..][k - i - 1]; }
    }
    MaskNoMatch(s);
  }
}
