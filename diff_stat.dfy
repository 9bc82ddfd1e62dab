/**
 * The numbers both generators read out of `git diff --stat`:
 *   (stat.match(/(\d+) files? changed/) || [0, '0'])[1]
 * and likewise `(\d+) insertions?` and `(\d+) deletions?`, plus the File Changes line,
 * `stat.split('\n').pop() || 'Multiple files affected'`.
 */
module DiffStat {
  import opened Outcomes
  import opened Text

  /** The three numbers the overview reports. */
  datatype Counter = FilesChanged | Insertions | Deletions

  /**
   * What must follow the digits. `s?` is optional, so `(\d+) insertions?` matches exactly
   * where the digits are followed by ` insertion`; in `files? changed` the `s` sits in the middle.
   */
  predicate FollowedBy(s: string, j: nat, c: Counter) {
    match c
    case FilesChanged => OccursAt(s, FileChanged, j) || OccursAt(s, FilesChangedWords, j)
    case Insertions => OccursAt(s, InsertionWord, j)
    case Deletions => OccursAt(s, DeletionWord, j)
  }

  const FileChanged: string := " file changed"
  const FilesChangedWords: string := " files changed"
  const InsertionWord: string := " insertion"
  const DeletionWord: string := " deletion"

  /** The length of the run of ASCII digits starting at `i` (`\d` is ASCII only). */
  function DigitRun(s: string, i: nat): (n: nat)
    requires i <= |s|
    ensures i + n <= |s|
    decreases |s| - i
  {
    if i < |s| && IsDigit(s[i]) then 1 + DigitRun(s, i + 1) else 0
  }

  /** The run is made of digits and stops at the end of the text or at a non-digit. */
  lemma {:induction false} DigitRunSpec(s: string, i: nat)
    requires i <= |s|
    ensures forall k :: i <= k < i + DigitRun(s, i) ==> IsDigit(s[k])
    ensures i + DigitRun(s, i) == |s| || !IsDigit(s[i + DigitRun(s, i)])
    decreases |s| - i
  {
    if i < |s| && IsDigit(s[i]) {
      DigitRunSpec(s, i + 1);
    }
  }

  /**
   * The expression tried at `i`. `\d+` is greedy and every word starts with a space,
   * so giving digits back never helps: the group is the whole digit run from `i`.
   */
  predicate CountAt(s: string, i: nat, c: Counter)
    requires i <= |s|
  {
    i < |s| && IsDigit(s[i]) && FollowedBy(s, i + DigitRun(s, i), c)
  }

  /**
   * `CountAt` is the pattern read as a decomposition: a non-empty run of digits from `i`
   * (any split of the digits, not just the greedy one) followed by the counter's words.
   */
  lemma CountAtDecomposition(s: string, i: nat, c: Counter)
    requires i <= |s|
    ensures CountAt(s, i, c) <==>
      exists j :: i < j <= |s| && (forall k :: i <= k < j ==> IsDigit(s[k])) && FollowedBy(s, j, c)
  {
    if CountAt(s, i, c) {
      var j := CountAtSplit(s, i, c);
    }
    if exists j :: i < j <= |s| && (forall k :: i <= k < j ==> IsDigit(s[k])) && FollowedBy(s, j, c) {
      var j :| i < j <= |s| && (forall k :: i <= k < j ==> IsDigit(s[k])) && FollowedBy(s, j, c);
      SplitCountAt(s, i, j, c);
    }
  }

  /** A match gives a decomposition: the greedy run, then the words. */
  lemma CountAtSplit(s: string, i: nat, c: Counter) returns (j: nat)
    requires i <= |s| && CountAt(s, i, c)
    ensures i < j <= |s| && (forall k :: i <= k < j ==> IsDigit(s[k])) && FollowedBy(s, j, c)
  {
    DigitRunSpec(s, i);
    j := i + DigitRun(s, i);
  }

  /** Any decomposition is the greedy one, so it is a match. */
  lemma SplitCountAt(s: string, i: nat, j: nat, c: Counter)
    requires i < j <= |s| && (forall k :: i <= k < j ==> IsDigit(s[k])) && FollowedBy(s, j, c)
    ensures CountAt(s, i, c)
  {
    WordsStartWithSpace(s, j, c);
    DigitRunTo(s, i, j);
    assert IsDigit(s[i]);
  }

  /** Every counter's words start with a space, which is not a digit. */
  lemma WordsStartWithSpace(s: string, j: nat, c: Counter)
    requires FollowedBy(s, j, c)
    ensures j < |s| && !IsDigit(s[j])
  {
    var w := match c
      case FilesChanged => if OccursAt(s, FileChanged, j) then FileChanged else FilesChangedWords
      case Insertions => InsertionWord
      case Deletions => DeletionWord;
    assert OccursAt(s, w, j);
    assert s[j] == s[j..j + |w|][0] == ' ';
  }

  /** A run of digits that ends at the end of the text or at a non-digit is the run `DigitRun` measures. */
  lemma {:induction false} DigitRunTo(s: string, i: nat, j: nat)
    requires i <= j <= |s| && (forall k :: i <= k < j ==> IsDigit(s[k]))
    requires j == |s| || !IsDigit(s[j])
    ensures i + DigitRun(s, i) == j
    decreases j - i
  {
    if i < j {
      DigitRunTo(s, i + 1, j);
    }
  }

  /** The leftmost starting position, as `match` tries them. */
  function FirstCount(s: string, from: nat, c: Counter): Option<nat>
    requires from <= |s|
    decreases |s| - from
  {
    if CountAt(s, from, c) then Some(from)
    else if from == |s| then None
    else FirstCount(s, from + 1, c)
  }

  /** The search finds the leftmost match at or after `from`, and finds nothing only when there is none. */
  lemma {:induction false} FirstCountSpec(s: string, from: nat, c: Counter)
    requires from <= |s|
    ensures var r := FirstCount(s, from, c);
      && (r.Some? ==> from <= r.value <= |s| && CountAt(s, r.value, c))
      && (r.Some? ==> forall k :: from <= k < r.value ==> !CountAt(s, k, c))
      && (r.None? ==> forall k :: from <= k <= |s| ==> !CountAt(s, k, c))
    decreases |s| - from
  {
    if !CountAt(s, from, c) && from < |s| {
      FirstCountSpec(s, from + 1, c);
    }
  }

  /** The captured digits of the leftmost match, or `'0'` when there is none. */
  function CountText(stat: string, c: Counter): string {
    FirstCountBound(stat, 0, c);
    match FirstCount(stat, 0, c)
    case None => "0"
    case Some(i) => stat[i..i + DigitRun(stat, i)]
  }

  /** The number read is a non-empty run of digits, and `0` when nothing matches. */
  lemma CountTextShape(stat: string, c: Counter)
    ensures |CountText(stat, c)| > 0 && AllDigits(CountText(stat, c))
    ensures (forall k :: 0 <= k <= |stat| ==> !CountAt(stat, k, c)) ==> CountText(stat, c) == "0"
  {
    FirstCountSpec(stat, 0, c);
    var r := FirstCount(stat, 0, c);
    if r.Some? {
      var i := r.value;
      RunDigits(stat, i);
      assert CountText(stat, c) == stat[i..i + DigitRun(stat, i)];
    } else {
      assert CountText(stat, c) == "0";
    }
  }

  /** The run from a digit is a non-empty string of digits. */
  lemma RunDigits(s: string, i: nat)
    requires i < |s| && IsDigit(s[i])
    ensures |s[i..i + DigitRun(s, i)]| > 0 && AllDigits(s[i..i + DigitRun(s, i)])
  {
    DigitRunSpec(s, i);
    var t := s[i..i + DigitRun(s, i)];
    forall k | 0 <= k < |t| ensures IsDigit(t[k]) {
      assert t[k] == s[i + k];
    }
  }

  /** The leftmost match determines the number: its digit run, read in full. */
  lemma CountTextAt(stat: string, i: nat, c: Counter)
    requires i <= |stat| && CountAt(stat, i, c)
    requires forall k :: 0 <= k < i ==> !CountAt(stat, k, c)
    ensures CountText(stat, c) == stat[i..i + DigitRun(stat, i)]
    ensures i == 0 || !IsDigit(stat[i - 1])
  {
    var r := FirstCount(stat, 0, c);
    FirstCountSpec(stat, 0, c);
    assert r == Some(i);
    if i > 0 {
      DigitBefore(stat, i, c);
      assert !CountAt(stat, i - 1, c);
    }
  }

  /** A digit just before a match starts a match too. */
  lemma DigitBefore(stat: string, i: nat, c: Counter)
    requires 0 < i <= |stat|
    ensures IsDigit(stat[i - 1]) && CountAt(stat, i, c) ==> CountAt(stat, i - 1, c)
  {
    if IsDigit(stat[i - 1]) {
      assert DigitRun(stat, i - 1) == 1 + DigitRun(stat, i);
    }
  }

  // ---------------------------------------------------------------------
  // Reading back a summary line of the shape git prints

  /** The first letter of the words after the digits. */
  function Initial(c: Counter): char {
    match c
    case FilesChanged => 'f'
    case Insertions => 'i'
    case Deletions => 'd'
  }

  lemma FollowedByInitial(s: string, j: nat, c: Counter)
    requires FollowedBy(s, j, c)
    ensures j + 1 < |s| && s[j] == ' ' && s[j + 1] == Initial(c)
  {
    match c
    case FilesChanged =>
      if OccursAt(s, FileChanged, j) {
        assert s[j..j + 13][1] == 'f';
      } else {
        assert s[j..j + 14][1] == 'f';
      }
    case Insertions =>
      assert s[j..j + 10][1] == 'i';
    case Deletions =>
      assert s[j..j + 9][1] == 'd';
  }

  /** No match starts anywhere in `[lo, hi)`. */
  predicate NoCountIn(s: string, lo: nat, hi: nat, c: Counter)
    requires lo <= hi <= |s|
  {
    forall k :: lo <= k < hi ==> !CountAt(s, k, c)
  }

  /** A stretch without digits holds no match. */
  lemma NoDigitsNoCount(s: string, lo: nat, hi: nat, c: Counter)
    requires lo <= hi <= |s|
    requires forall k :: lo <= k < hi ==> !IsDigit(s[k])
    ensures NoCountIn(s, lo, hi, c)
  {
  }

  /** A digit run followed by a space and another counter's initial holds no match. */
  lemma OtherWordNoCount(s: string, lo: nat, hi: nat, c: Counter)
    requires lo <= hi && hi + 1 < |s|
    requires forall k :: lo <= k < hi ==> IsDigit(s[k])
    requires s[hi] == ' ' && s[hi + 1] != Initial(c)
    ensures NoCountIn(s, lo, hi, c)
  {
    forall k | lo <= k < hi ensures !CountAt(s, k, c) {
      RunEnds(s, k, hi);
      if FollowedBy(s, hi, c) { FollowedByInitial(s, hi, c); }
    }
  }

  /** Digits on `[i, hi)` and a non-digit at `hi`: the run from `i` ends at `hi`. */
  lemma {:induction false} RunEnds(s: string, i: nat, hi: nat)
    requires i <= hi < |s|
    requires forall k :: i <= k < hi ==> IsDigit(s[k])
    requires !IsDigit(s[hi])
    ensures DigitRun(s, i) == hi - i
    decreases hi - i
  {
    if i < hi { RunEnds(s, i + 1, hi); }
  }

  lemma NoCountJoin(s: string, lo: nat, mid: nat, hi: nat, c: Counter)
    requires lo <= mid <= hi <= |s|
    requires NoCountIn(s, lo, mid, c) && NoCountIn(s, mid, hi, c)
    ensures NoCountIn(s, lo, hi, c)
  {
  }

  /** The words after the number of files. */
  function FilesWords(f: nat): string {
    if f == 1 then FileChanged else FilesChangedWords
  }

  function Word(c: Counter): string {
    match c
    case FilesChanged => "file"
    case Insertions => "insertion"
    case Deletions => "deletion"
  }

  function Sign(c: Counter): string {
    match c
    case FilesChanged => ""
    case Insertions => "(+)"
    case Deletions => "(-)"
  }

  /** The words after a number of lines: ` insertion(+)`, ` deletions(-)` and so on. */
  function LinesWords(n: nat, c: Counter): string {
    " " + Word(c) + (if n == 1 then "" else "s") + Sign(c)
  }

  /** ` N file(s) changed`, the first clause of git's summary line. */
  function FilesClause(f: nat): string {
    " " + NatToString(f) + FilesWords(f)
  }

  /** `, N insertion(s)(+)` or `, N deletion(s)(-)`. */
  function LinesClause(n: nat, c: Counter): string {
    ", " + NatToString(n) + LinesWords(n, c)
  }

  function InsertionsClause(ins: Option<nat>): string {
    match ins
    case None => ""
    case Some(n) => LinesClause(n, Insertions)
  }

  function DeletionsClause(del: Option<nat>): string {
    match del
    case None => ""
    case Some(n) => LinesClause(n, Deletions)
  }

  /** The summary line of `git diff --stat`, each line clause present or left out. */
  function StatLine(f: nat, ins: Option<nat>, del: Option<nat>): string {
    FilesClause(f) + InsertionsClause(ins) + DeletionsClause(del)
  }

  /** What the overview reports for a clause: its number, or `0` when the clause is absent. */
  function Reported(n: Option<nat>): string {
    match n
    case None => "0"
    case Some(v) => NatToString(v)
  }

  lemma PrefixOccurs(s: string, i: nat, t: string, p: string)
    requires i + |t| <= |s| && s[i..i + |t|] == t && |p| <= |t| && t[..|p|] == p
    ensures OccursAt(s, p, i)
  {
    assert s[i..i + |p|] == s[i..i + |t|][..|p|];
  }

  predicate Wordy(w: string) {
    forall k :: 0 <= k < |w| ==> !IsDigit(w[k])
  }

  /** The digit-free text before and after the number of a clause. */
  predicate ClauseShaped(lead: string, words: string) {
    Wordy(lead) && Wordy(words) && |words| >= 2 && words[0] == ' '
  }

  /** A clause `lead + num + words` placed at `i` is its three pieces placed one after another. */
  lemma ClauseParts(s: string, i: nat, lead: string, num: string, words: string)
    requires i + |lead + num + words| <= |s| && s[i..i + |lead + num + words|] == lead + num + words
    ensures var d := i + |lead|; var e := d + |num|;
      && s[i..d] == lead && s[d..e] == num && s[e..e + |words|] == words
  {
    PeelSlice(s, i, lead + num, words);
    PeelSlice(s, i, lead, num);
  }

  lemma SliceWordy(s: string, lo: nat, w: string)
    requires lo + |w| <= |s| && s[lo..lo + |w|] == w && Wordy(w)
    ensures forall k :: lo <= k < lo + |w| ==> !IsDigit(s[k])
  {
    forall k | lo <= k < lo + |w| ensures !IsDigit(s[k]) { SliceAt(s, lo, w, k - lo); }
  }

  lemma SliceDigits(s: string, lo: nat, num: string)
    requires lo + |num| <= |s| && s[lo..lo + |num|] == num && AllDigits(num)
    ensures forall k :: lo <= k < lo + |num| ==> IsDigit(s[k])
  {
    forall k | lo <= k < lo + |num| ensures IsDigit(s[k]) { SliceAt(s, lo, num, k - lo); }
  }

  /** A clause whose words start with another counter's initial holds no match of `c`. */
  lemma ClauseNoCount(s: string, i: nat, lead: string, num: string, words: string, c: Counter)
    requires i + |lead + num + words| <= |s|
    requires s[i..i + |lead + num + words|] == lead + num + words
    requires ClauseShaped(lead, words) && |num| >= 1 && AllDigits(num) && words[1] != Initial(c)
    ensures NoCountIn(s, i, i + |lead + num + words|, c)
  {
    var d := i + |lead|;
    var e := d + |num|;
    ClauseParts(s, i, lead, num, words);
    SliceWordy(s, i, lead);
    SliceDigits(s, d, num);
    SliceWordy(s, e, words);
    SliceAt(s, e, words, 0);
    SliceAt(s, e, words, 1);
    NoDigitsNoCount(s, i, d, c);
    OtherWordNoCount(s, d, e, c);
    NoDigitsNoCount(s, e, e + |words|, c);
    NoCountJoin(s, i, d, e, c);
    NoCountJoin(s, i, e, e + |words|, c);
  }

  /** A clause whose words start with `p`: no match before its number, and the number's run is followed by `p`. */
  lemma ClauseCount(s: string, i: nat, lead: string, num: string, words: string, c: Counter, p: string)
    requires i + |lead + num + words| <= |s|
    requires s[i..i + |lead + num + words|] == lead + num + words
    requires ClauseShaped(lead, words) && |num| >= 1 && AllDigits(num) && |p| <= |words| && words[..|p|] == p
    ensures var d := i + |lead|;
      && NoCountIn(s, i, d, c) && d < |s| && IsDigit(s[d])
      && DigitRun(s, d) == |num| && s[d..d + |num|] == num
      && OccursAt(s, p, d + |num|)
  {
    ClauseLead(s, i, lead, num, words, c);
    ClauseNumber(s, i, lead, num, words);
    ClauseWords(s, i, lead, num, words, p);
  }

  lemma ClauseLead(s: string, i: nat, lead: string, num: string, words: string, c: Counter)
    requires i + |lead + num + words| <= |s|
    requires s[i..i + |lead + num + words|] == lead + num + words
    requires ClauseShaped(lead, words)
    ensures NoCountIn(s, i, i + |lead|, c)
  {
    ClauseParts(s, i, lead, num, words);
    SliceWordy(s, i, lead);
    NoDigitsNoCount(s, i, i + |lead|, c);
  }

  lemma ClauseNumber(s: string, i: nat, lead: string, num: string, words: string)
    requires i + |lead + num + words| <= |s|
    requires s[i..i + |lead + num + words|] == lead + num + words
    requires ClauseShaped(lead, words) && |num| >= 1 && AllDigits(num)
    ensures var d := i + |lead|;
      && d < |s| && IsDigit(s[d])
      && DigitRun(s, d) == |num| && s[d..d + |num|] == num
  {
    var d := i + |lead|;
    ClauseParts(s, i, lead, num, words);
    SliceAt(s, d + |num|, words, 0);
    NumberAt(s, d, num);
  }

  /** Digits placed at `d` and followed by a space: the digit run from `d` is exactly them. */
  lemma NumberAt(s: string, d: nat, num: string)
    requires d + |num| < |s| && s[d..d + |num|] == num && |num| >= 1 && AllDigits(num) && s[d + |num|] == ' '
    ensures IsDigit(s[d]) && DigitRun(s, d) == |num|
  {
    SliceDigits(s, d, num);
    RunEnds(s, d, d + |num|);
  }

  lemma ClauseWords(s: string, i: nat, lead: string, num: string, words: string, p: string)
    requires i + |lead + num + words| <= |s|
    requires s[i..i + |lead + num + words|] == lead + num + words
    requires |p| <= |words| && words[..|p|] == p
    ensures OccursAt(s, p, i + |lead| + |num|)
  {
    PeelSlice(s, i, lead + num, words);
    PrefixOccurs(s, i + |lead| + |num|, words, p);
  }

  lemma StatLayout(f: nat, ins: Option<nat>, del: Option<nat>)
    ensures Laid(StatLine(f, ins, del), f, ins, del)
  {
    var s, a, b, c := StatLine(f, ins, del), FilesClause(f), InsertionsClause(ins), DeletionsClause(del);
    assert s[0..|s|] == (a + b) + c;
    PeelSlice(s, 0, a + b, c);
    PeelSlice(s, 0, a, b);
  }

  lemma FilesShape(f: nat)
    ensures ClauseShaped(" ", FilesWords(f)) && FilesWords(f)[1] == Initial(FilesChanged)
  {
  }

  lemma LinesShape(n: nat, c: Counter)
    requires c != FilesChanged
    ensures ClauseShaped(", ", LinesWords(n, c)) && LinesWords(n, c)[1] == Initial(c)
    ensures |" " + Word(c)| <= |LinesWords(n, c)| && LinesWords(n, c)[..|" " + Word(c)|] == " " + Word(c)
  {
    var w, tail := " " + Word(c), (if n == 1 then "" else "s") + Sign(c);
    assert LinesWords(n, c) == w + tail;
    WordWordy(c);
    TailWordy(n, c);
    WordsShape(w, tail);
  }

  lemma WordWordy(c: Counter)
    ensures var w := " " + Word(c); Wordy(w) && |w| >= 2 && w[0] == ' ' && w[1] == Initial(c)
  {
  }

  lemma TailWordy(n: nat, c: Counter)
    ensures Wordy((if n == 1 then "" else "s") + Sign(c))
  {
  }

  /** Digit-free words that start with a space, followed by a digit-free tail. */
  lemma WordsShape(w: string, tail: string)
    requires Wordy(w) && Wordy(tail) && |w| >= 2 && w[0] == ' '
    ensures Wordy(w + tail) && (w + tail)[..|w|] == w && (w + tail)[0] == ' ' && (w + tail)[1] == w[1]
  {
    forall k | 0 <= k < |w + tail| ensures !IsDigit((w + tail)[k]) {
      if k >= |w| { assert (w + tail)[k] == tail[k - |w|]; }
    }
  }

  /** The files clause holds no match of the line counters. */
  lemma FilesClauseNoLines(s: string, f: nat, c: Counter)
    requires c != FilesChanged
    requires |FilesClause(f)| <= |s| && s[0..|FilesClause(f)|] == FilesClause(f)
    ensures NoCountIn(s, 0, |FilesClause(f)|, c)
  {
    FilesShape(f);
    ClauseNoCount(s, 0, " ", NatToString(f), FilesWords(f), c);
  }

  /** A line clause holds no match of a counter other than its own. */
  lemma LinesClauseNoOther(s: string, i: nat, n: nat, own: Counter, c: Counter)
    requires own != FilesChanged && c != own
    requires i + |LinesClause(n, own)| <= |s| && s[i..i + |LinesClause(n, own)|] == LinesClause(n, own)
    ensures NoCountIn(s, i, i + |LinesClause(n, own)|, c)
  {
    LinesShape(n, own);
    ClauseNoCount(s, i, ", ", NatToString(n), LinesWords(n, own), c);
  }

  /** The number of files is read back from the summary line. */
  lemma StatLineFiles(f: nat, ins: Option<nat>, del: Option<nat>)
    ensures CountText(StatLine(f, ins, del), FilesChanged) == NatToString(f)
  {
    StatLayout(f, ins, del);
    FilesRead(StatLine(f, ins, del), f);
  }

  /** A text that starts with a files clause: its number is read. */
  lemma FilesRead(s: string, f: nat)
    requires |FilesClause(f)| <= |s| && s[0..|FilesClause(f)|] == FilesClause(f)
    ensures CountText(s, FilesChanged) == NatToString(f)
  {
    FilesShape(f);
    ClauseCount(s, 0, " ", NatToString(f), FilesWords(f), FilesChanged, FilesWords(f));
    FilesWordsFollow(s, 1 + DigitRun(s, 1), f);
    CountTextAt(s, 1, FilesChanged);
  }

  lemma FilesWordsFollow(s: string, j: nat, f: nat)
    requires OccursAt(s, FilesWords(f), j)
    ensures FollowedBy(s, j, FilesChanged)
  {
  }

  /** A text that starts with a files clause and then a line clause of `c`: the line clause's number is read. */
  lemma LinesAfter(s: string, f: nat, mid: nat, n: nat, c: Counter)
    requires c != FilesChanged
    requires |FilesClause(f)| <= mid && mid + |LinesClause(n, c)| <= |s|
    requires s[0..|FilesClause(f)|] == FilesClause(f)
    requires NoCountIn(s, |FilesClause(f)|, mid, c)
    requires s[mid..mid + |LinesClause(n, c)|] == LinesClause(n, c)
    ensures CountText(s, c) == NatToString(n)
  {
    var d := LinesAfterStart(s, f, mid, n, c);
    CountTextAt(s, d, c);
  }

  /** Where the number of the line clause starts: the leftmost match. */
  lemma LinesAfterStart(s: string, f: nat, mid: nat, n: nat, c: Counter) returns (d: nat)
    requires c != FilesChanged
    requires |FilesClause(f)| <= mid && mid + |LinesClause(n, c)| <= |s|
    requires s[0..|FilesClause(f)|] == FilesClause(f)
    requires NoCountIn(s, |FilesClause(f)|, mid, c)
    requires s[mid..mid + |LinesClause(n, c)|] == LinesClause(n, c)
    ensures d < |s| && CountAt(s, d, c) && NoCountIn(s, 0, d, c)
    ensures s[d..d + DigitRun(s, d)] == NatToString(n)
  {
    FilesClauseNoLines(s, f, c);
    NoCountJoin(s, 0, |FilesClause(f)|, mid, c);
    d := LinesClauseCount(s, mid, n, c);
    NoCountJoin(s, 0, mid, d, c);
  }

  /** A line clause of `c` at `i`: its number starts a match, and none starts before it in the clause. */
  lemma LinesClauseCount(s: string, i: nat, n: nat, c: Counter) returns (d: nat)
    requires c != FilesChanged
    requires i + |LinesClause(n, c)| <= |s| && s[i..i + |LinesClause(n, c)|] == LinesClause(n, c)
    ensures d == i + 2 && d < |s| && CountAt(s, d, c) && NoCountIn(s, i, d, c)
    ensures s[d..d + DigitRun(s, d)] == NatToString(n)
  {
    LinesShape(n, c);
    ClauseCount(s, i, ", ", NatToString(n), LinesWords(n, c), c, " " + Word(c));
    d := i + 2;
    WordFollows(s, d + |NatToString(n)|, c);
  }

  lemma WordFollows(s: string, j: nat, c: Counter)
    requires c != FilesChanged && OccursAt(s, " " + Word(c), j)
    ensures FollowedBy(s, j, c)
  {
  }

  /** No match of `c` anywhere: the default `0` is reported. */
  lemma NoneReported(s: string, c: Counter)
    requires NoCountIn(s, 0, |s|, c)
    ensures CountText(s, c) == "0"
  {
    CountTextShape(s, c);
  }

  /** The number of insertions is read back, and an absent clause reads as `0`. */
  lemma StatLineInsertions(f: nat, ins: Option<nat>, del: Option<nat>)
    ensures CountText(StatLine(f, ins, del), Insertions) == Reported(ins)
  {
    StatLayout(f, ins, del);
    InsertionsRead(StatLine(f, ins, del), f, ins, del);
  }

  /** The number of deletions is read back, and an absent clause reads as `0`. */
  lemma StatLineDeletions(f: nat, ins: Option<nat>, del: Option<nat>)
    ensures CountText(StatLine(f, ins, del), Deletions) == Reported(del)
  {
    StatLayout(f, ins, del);
    DeletionsRead(StatLine(f, ins, del), f, ins, del);
  }

  /** A text laid out as the files clause, then the insertions clause, then the deletions clause. */
  predicate Laid(s: string, f: nat, ins: Option<nat>, del: Option<nat>) {
    var a, b := |FilesClause(f)|, |InsertionsClause(ins)|;
    && a + b <= |s|
    && s[0..a] == FilesClause(f) && s[a..a + b] == InsertionsClause(ins) && s[a + b..|s|] == DeletionsClause(del)
  }

  lemma InsertionsRead(s: string, f: nat, ins: Option<nat>, del: Option<nat>)
    requires Laid(s, f, ins, del)
    ensures CountText(s, Insertions) == Reported(ins)
  {
    match ins
    case Some(n) => InsertionsPresent(s, f, n);
    case None => InsertionsAbsent(s, f, del);
  }

  lemma InsertionsPresent(s: string, f: nat, n: nat)
    requires |FilesClause(f)| + |LinesClause(n, Insertions)| <= |s| && s[0..|FilesClause(f)|] == FilesClause(f)
    requires s[|FilesClause(f)|..|FilesClause(f)| + |LinesClause(n, Insertions)|] == LinesClause(n, Insertions)
    ensures CountText(s, Insertions) == NatToString(n)
  {
    var a := |FilesClause(f)|;
    assert NoCountIn(s, a, a, Insertions);
    LinesAfter(s, f, a, n, Insertions);
  }

  lemma InsertionsAbsent(s: string, f: nat, del: Option<nat>)
    requires |FilesClause(f)| <= |s| && s[0..|FilesClause(f)|] == FilesClause(f)
    requires s[|FilesClause(f)|..|s|] == DeletionsClause(del)
    ensures CountText(s, Insertions) == "0"
  {
    var a := |FilesClause(f)|;
    FilesClauseNoLines(s, f, Insertions);
    match del {
      case None =>
      case Some(m) =>
        LinesClauseNoOther(s, a, m, Deletions, Insertions);
        NoCountJoin(s, 0, a, |s|, Insertions);
    }
    NoneReported(s, Insertions);
  }

  lemma DeletionsRead(s: string, f: nat, ins: Option<nat>, del: Option<nat>)
    requires Laid(s, f, ins, del)
    ensures CountText(s, Deletions) == Reported(del)
  {
    var a, b := |FilesClause(f)|, |InsertionsClause(ins)|;
    InsertionsSkipped(s, a, ins);
    match del
    case Some(m) => DeletionsPresent(s, f, a + b, m);
    case None => DeletionsAbsent(s, f, a + b);
  }

  lemma DeletionsPresent(s: string, f: nat, mid: nat, m: nat)
    requires |FilesClause(f)| <= mid <= |s| && s[0..|FilesClause(f)|] == FilesClause(f)
    requires NoCountIn(s, |FilesClause(f)|, mid, Deletions) && s[mid..|s|] == LinesClause(m, Deletions)
    ensures CountText(s, Deletions) == NatToString(m)
  {
    LinesAfter(s, f, mid, m, Deletions);
  }

  lemma DeletionsAbsent(s: string, f: nat, mid: nat)
    requires |FilesClause(f)| <= mid == |s| && s[0..|FilesClause(f)|] == FilesClause(f)
    requires NoCountIn(s, |FilesClause(f)|, mid, Deletions)
    ensures CountText(s, Deletions) == "0"
  {
    FilesClauseNoLines(s, f, Deletions);
    NoCountJoin(s, 0, |FilesClause(f)|, mid, Deletions);
    NoneReported(s, Deletions);
  }

  /** The insertions clause holds no match of the deletions counter. */
  lemma InsertionsSkipped(s: string, a: nat, ins: Option<nat>)
    requires a + |InsertionsClause(ins)| <= |s| && s[a..a + |InsertionsClause(ins)|] == InsertionsClause(ins)
    ensures NoCountIn(s, a, a + |InsertionsClause(ins)|, Deletions)
  {
    match ins
    case None =>
    case Some(n) =>
      LinesClauseNoOther(s, a, n, Insertions, Deletions);
  }

  // ---------------------------------------------------------------------
  // The File Changes line

  /** `fileStats.split('\n').pop()`: the last line of the stat text. */
  function LastLine(stat: string): string {
    var lines := Split(stat, "\n");
    lines[|lines| - 1]
  }

  /** The File Changes entry: the last line, or `Multiple files affected` when that line is empty. */
  function FileChanges(stat: string): string {
    if LastLine(stat) != "" then LastLine(stat) else "Multiple files affected"
  }

  /** The last line is the longest tail of the text without a newline. */
  lemma LastLineShape(stat: string)
    ensures var l := LastLine(stat);
      && HasNoChar(l, '\n') && |l| <= |stat| && stat[|stat| - |l|..] == l
      && (|l| == |stat| || stat[|stat| - |l| - 1] == '\n')
  {
    LastLineFree(stat);
    LastLineTail(stat);
  }

  lemma LastLineFree(stat: string)
    ensures HasNoChar(LastLine(stat), '\n')
  {
    var parts := Split(stat, "\n");
    var l := parts[|parts| - 1];
    SplitPiecesFree(stat, "\n");
    assert l in parts;
    forall k | 0 <= k < |l| ensures l[k] != '\n' {
      if l[k] == '\n' {
        assert l[k..k + 1] == "\n";
        assert OccursAt(l, "\n", k);
      }
    }
  }

  lemma LastLineTail(stat: string)
    ensures var l := LastLine(stat);
      && |l| <= |stat| && stat[|stat| - |l|..] == l
      && (|l| == |stat| || stat[|stat| - |l| - 1] == '\n')
  {
    var parts := Split(stat, "\n");
    var l := parts[|parts| - 1];
    JoinSplit(stat, "\n");
    if |parts| > 1 {
      var init := parts[..|parts| - 1];
      assert parts == init + [l];
      JoinSnoc(init, l, "\n");
      TailAfterNewline(Join(init, "\n"), l);
    }
  }

  lemma TailAfterNewline(a: string, l: string)
    ensures var s := a + "\n" + l; s[|s| - |l|..] == l && s[|s| - |l| - 1] == '\n'
  {
  }

  /** Whatever precedes the last newline, the text after it is the last line. */
  lemma LastLineAfterNewline(pre: string, l: string)
    requires HasNoChar(l, '\n')
    ensures LastLine(pre + "\n" + l) == l
  {
    var s := pre + "\n" + l;
    var m := LastLine(s);
    LastLineFree(s);
    LastLineTail(s);
    assert s[|pre|] == '\n';
    forall k | |s| - |m| <= k < |s| ensures s[k] != '\n' {
      assert m[k - (|s| - |m|)] == s[k];
    }
    forall k | |pre| + 1 <= k < |s| ensures s[k] != '\n' {
      assert l[k - (|pre| + 1)] == s[k];
    }
    assert s[|s| - |l|..] == l;
  }

  /** The stat text is trimmed first, so its last line is empty exactly when git printed only whitespace. */
  lemma FileChangesFallback(raw: string)
    ensures LastLine(Trim(raw)) == "" <==> AllWhitespace(raw)
    ensures AllWhitespace(raw) ==> FileChanges(Trim(raw)) == "Multiple files affected"
  {
    var s := Trim(raw);
    TrimEmptyIff(raw);
    if s == "" {
      LastLineOfEmpty();
    } else {
      LastLineTail(s);
      assert !IsWhitespace(s[|s| - 1]);
    }
  }

  lemma LastLineOfEmpty()
    ensures LastLine("") == ""
  {
    assert IndexOf("", "\n", 0).None?;
  }

  /** git's summary line is a single line. */
  lemma StatLineOneLine(f: nat, ins: Option<nat>, del: Option<nat>)
    ensures HasNoChar(StatLine(f, ins, del), '\n')
  {
    FilesClauseOneLine(f);
    InsertionsClauseOneLine(ins);
    DeletionsClauseOneLine(del);
    NoNewlineConcat(FilesClause(f), InsertionsClause(ins));
    NoNewlineConcat(FilesClause(f) + InsertionsClause(ins), DeletionsClause(del));
  }

  lemma FilesClauseOneLine(f: nat)
    ensures HasNoChar(FilesClause(f), '\n')
  {
    NoNewlineConcat(" ", NatToString(f));
    NoNewlineConcat(" " + NatToString(f), FilesWords(f));
  }

  lemma LinesClauseOneLine(n: nat, c: Counter)
    ensures HasNoChar(LinesClause(n, c), '\n')
  {
    NoNewlineConcat(", ", NatToString(n));
    NoNewlineConcat(", " + NatToString(n), LinesWords(n, c));
  }

  lemma InsertionsClauseOneLine(ins: Option<nat>)
    ensures HasNoChar(InsertionsClause(ins), '\n')
  {
    if ins.Some? { LinesClauseOneLine(ins.value, Insertions); }
  }

  lemma DeletionsClauseOneLine(del: Option<nat>)
    ensures HasNoChar(DeletionsClause(del), '\n')
  {
    if del.Some? { LinesClauseOneLine(del.value, Deletions); }
  }

  /** When the stat ends with git's summary line, that line is the File Changes entry. */
  lemma FileChangesReportsSummary(perFile: string, f: nat, ins: Option<nat>, del: Option<nat>)
    ensures FileChanges(perFile + "\n" + StatLine(f, ins, del)) == StatLine(f, ins, del)
  {
    StatLineOneLine(f, ins, del);
    LastLineAfterNewline(perFile, StatLine(f, ins, del));
  }
  // ---------------------------------------------------------------------
  // Per-file lines before the summary line

  lemma {:induction false} DigitRunShift(s: string, p: nat, k: nat)
    requires p + k <= |s|
    ensures DigitRun(s, p + k) == DigitRun(s[p..], k)
    decreases |s| - p - k
  {
    if p + k < |s| {
      assert s[p..][k] == s[p + k];
      DigitRunShift(s, p, k + 1);
    }
  }

  lemma OccursShift(s: string, p: nat, t: string, j: nat)
    requires p <= |s|
    ensures OccursAt(s, t, p + j) <==> OccursAt(s[p..], t, j)
  {
    if p + j + |t| <= |s| {
      assert s[p + j..p + j + |t|] == s[p..][j..j + |t|];
    }
  }

  /** Matching in the text after a prefix is matching in that text. */
  lemma CountAtShift(s: string, p: nat, k: nat, c: Counter)
    requires p + k <= |s|
    ensures CountAt(s, p + k, c) <==> CountAt(s[p..], k, c)
  {
    if p + k < |s| {
      assert s[p..][k] == s[p + k];
      DigitRunShift(s, p, k);
      FollowedByShift(s, p, k + DigitRun(s[p..], k), c);
    }
  }

  lemma FollowedByShift(s: string, p: nat, j: nat, c: Counter)
    requires p <= |s|
    ensures FollowedBy(s, p + j, c) <==> FollowedBy(s[p..], j, c)
  {
    match c
    case FilesChanged =>
      OccursShift(s, p, FileChanged, j);
      OccursShift(s, p, FilesChangedWords, j);
    case Insertions => OccursShift(s, p, InsertionWord, j);
    case Deletions => OccursShift(s, p, DeletionWord, j);
  }

  lemma {:induction false} DigitRunInLine(line: string, rest: string, k: nat)
    requires k <= |line|
    ensures DigitRun(line + "\n" + rest, k) == DigitRun(line, k)
    decreases |line| - k
  {
    var s := line + "\n" + rest;
    if k < |line| {
      assert s[k] == line[k];
      DigitRunInLine(line, rest, k + 1);
    } else {
      assert s[k] == '\n';
    }
  }

  lemma NoNewlineAt(w: string, m: int)
    ensures 0 <= m < |w| && HasNoChar(w, '\n') ==> w[m] != '\n'
  {
  }

  lemma OccursInLine(line: string, rest: string, t: string, j: nat)
    requires j <= |line| && HasNoChar(t, '\n') && OccursAt(line + "\n" + rest, t, j)
    ensures OccursAt(line, t, j)
  {
    var s := line + "\n" + rest;
    var w := s[j..j + |t|];
    assert s[|line|] == '\n';
    NoNewlineAt(w, |line| - j);
    assert j + |t| <= |line|;
    assert w == line[j..j + |t|];
  }

  /** The words after a number on the first line lie within that line. */
  lemma FollowedByInLine(line: string, rest: string, j: nat, c: Counter)
    requires j <= |line|
    ensures FollowedBy(line + "\n" + rest, j, c) ==> FollowedBy(line, j, c)
  {
    var s := line + "\n" + rest;
    match c
    case FilesChanged =>
      if OccursAt(s, FileChanged, j) { OccursInLine(line, rest, FileChanged, j); }
      if OccursAt(s, FilesChangedWords, j) { OccursInLine(line, rest, FilesChangedWords, j); }
    case Insertions =>
      if OccursAt(s, InsertionWord, j) { OccursInLine(line, rest, InsertionWord, j); }
    case Deletions =>
      if OccursAt(s, DeletionWord, j) { OccursInLine(line, rest, DeletionWord, j); }
  }

  /** A match that starts on the first line lies within that line. */
  lemma CountAtInLine(line: string, rest: string, k: nat, c: Counter)
    requires k < |line|
    ensures CountAt(line + "\n" + rest, k, c) ==> CountAt(line, k, c)
  {
    var s := line + "\n" + rest;
    assert s[k] == line[k];
    DigitRunInLine(line, rest, k);
    FollowedByInLine(line, rest, k + DigitRun(line, k), c);
  }

  /** The lines before the last one hold no match when the per-file lines hold none. */
  lemma NoCountBefore(perFile: string, last: string, c: Counter)
    requires NoCountIn(perFile, 0, |perFile|, c)
    ensures NoCountIn(perFile + "\n" + last, 0, |perFile| + 1, c)
  {
    var s := perFile + "\n" + last;
    forall k | 0 <= k < |perFile| + 1 ensures !CountAt(s, k, c) {
      if k == |perFile| { assert s[k] == '\n'; }
      else { CountAtInLine(perFile, last, k, c); }
    }
  }

  lemma FirstCountAtEnd(s: string, c: Counter)
    ensures FirstCount(s, |s|, c) == None
  {
  }

  /** A position in a suffix that starts at `p`, as a position in the whole text. */
  function ShiftedBy(o: Option<nat>, p: nat): Option<nat> {
    match o
    case None => None
    case Some(i) => Some(p + i)
  }

  /** The search in a suffix finds what the search from the suffix's start finds, shifted. */
  lemma {:induction false} FirstCountShift(s: string, p: nat, from: nat, c: Counter)
    requires p + from <= |s|
    ensures FirstCount(s, p + from, c) == ShiftedBy(FirstCount(s[p..], from, c), p)
    decreases |s| - p - from
  {
    if p + from == |s| {
      FirstCountAtEnd(s, c);
      FirstCountAtEnd(s[p..], c);
    } else {
      CountAtShift(s, p, from, c);
      if CountAt(s, p + from, c) {
        ShiftHit(s, p, from, c);
      } else {
        FirstCountShift(s, p, from + 1, c);
        ShiftMiss(s, p, from, c);
      }
    }
  }

  lemma ShiftHit(s: string, p: nat, from: nat, c: Counter)
    requires p + from < |s| && CountAt(s, p + from, c) && CountAt(s[p..], from, c)
    ensures FirstCount(s, p + from, c) == ShiftedBy(FirstCount(s[p..], from, c), p)
  {
    FirstCountHit(s, p + from, c);
    FirstCountHit(s[p..], from, c);
  }

  lemma ShiftMiss(s: string, p: nat, from: nat, c: Counter)
    requires p + from < |s| && !CountAt(s, p + from, c) && !CountAt(s[p..], from, c)
    requires FirstCount(s, p + from + 1, c) == ShiftedBy(FirstCount(s[p..], from + 1, c), p)
    ensures FirstCount(s, p + from, c) == ShiftedBy(FirstCount(s[p..], from, c), p)
  {
    FirstCountStep(s, p + from, c);
    FirstCountStep(s[p..], from, c);
  }

  lemma FirstCountHit(s: string, from: nat, c: Counter)
    requires from <= |s| && CountAt(s, from, c)
    ensures FirstCount(s, from, c) == Some(from)
  {
  }

  lemma FirstCountStep(s: string, from: nat, c: Counter)
    requires from < |s| && !CountAt(s, from, c)
    ensures FirstCount(s, from, c) == FirstCount(s, from + 1, c)
  {
  }

  /** The search passes over a stretch without a match. */
  lemma {:induction false} FirstCountSkip(s: string, from: nat, p: nat, c: Counter)
    requires from <= p <= |s| && NoCountIn(s, from, p, c)
    ensures FirstCount(s, from, c) == FirstCount(s, p, c)
    decreases p - from
  {
    if from < p {
      assert !CountAt(s, from, c);
      FirstCountSkip(s, from + 1, p, c);
    }
  }

  lemma {:induction false} FirstCountBound(s: string, from: nat, c: Counter)
    requires from <= |s|
    ensures FirstCount(s, from, c).Some? ==> from <= FirstCount(s, from, c).value <= |s|
    decreases |s| - from
  {
    if !CountAt(s, from, c) && from < |s| {
      FirstCountBound(s, from + 1, c);
    }
  }

  /** The digits read after a prefix are the digits read in the suffix. */
  lemma CountTextShifted(s: string, p: nat, i: nat, c: Counter)
    requires p + i <= |s| && FirstCount(s, 0, c) == Some(p + i) && FirstCount(s[p..], 0, c) == Some(i)
    ensures CountText(s, c) == CountText(s[p..], c)
  {
    var t := s[p..];
    DigitRunShift(s, p, i);
    var n := DigitRun(t, i);
    CountTextIs(t, i, c);
    CountTextIs(s, p + i, c);
    SliceOfSuffix(s, p, i, n);
  }

  /** Where the leftmost match starts, the number read is its digit run. */
  lemma CountTextIs(s: string, i: nat, c: Counter)
    requires i <= |s| && FirstCount(s, 0, c) == Some(i)
    ensures i + DigitRun(s, i) <= |s| && CountText(s, c) == s[i..i + DigitRun(s, i)]
  {
  }

  lemma SliceOfSuffix(s: string, p: nat, i: nat, n: nat)
    requires p + i + n <= |s|
    ensures s[p + i..p + i + n] == s[p..][i..i + n]
  {
  }

  /** With no match before `p`, the number read is the one read from the text after `p`. */
  lemma CountTextSuffix(s: string, p: nat, c: Counter)
    requires p <= |s| && NoCountIn(s, 0, p, c)
    ensures CountText(s, c) == CountText(s[p..], c)
  {
    FirstCountSkip(s, 0, p, c);
    CountTextFrom(s, p, c);
  }

  lemma CountTextFrom(s: string, p: nat, c: Counter)
    requires p <= |s| && FirstCount(s, 0, c) == FirstCount(s, p, c)
    ensures CountText(s, c) == CountText(s[p..], c)
  {
    var t := s[p..];
    FirstCountShiftStart(s, p, c);
    FirstCountBound(t, 0, c);
    match FirstCount(t, 0, c)
    case Some(i) =>
      CountTextShifted(s, p, i, c);
    case None =>
      NoneFound(s, c);
      NoneFound(t, c);
  }

  lemma FirstCountShiftStart(s: string, p: nat, c: Counter)
    requires p <= |s|
    ensures FirstCount(s, p, c) == ShiftedBy(FirstCount(s[p..], 0, c), p)
  {
    FirstCountShift(s, p, 0, c);
  }

  lemma NoneFound(s: string, c: Counter)
    ensures FirstCount(s, 0, c).None? ==> CountText(s, c) == "0"
  {
  }

  /**
   * When the lines before the last one hold no match of a counter, the number read is
   * the one read from the last line alone.
   */
  lemma CountTextAfterLines(perFile: string, last: string, c: Counter)
    requires NoCountIn(perFile, 0, |perFile|, c)
    ensures CountText(perFile + "\n" + last, c) == CountText(last, c)
  {
    var s := perFile + "\n" + last;
    assert s[|perFile| + 1..] == last;
    NoCountBefore(perFile, last, c);
    CountTextSuffix(s, |perFile| + 1, c);
  }
}
