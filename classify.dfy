/**
 * Where a commit goes: its subject is matched against the header expression, the
 * lower-cased type selects the category, and the entry is rendered. The current
 * generator falls back to `other`; the legacy one has no `other` category, so every
 * commit that would go there makes it fail.
 */
module Classify {
  import opened Outcomes
  import opened Text
  import opened CommitHeader
  import opened Categories

  /** The separator of the current generator: an em dash stored as its UTF-8 bytes read as Latin-1/Windows-1252. */
  const CurrentDash: string := " \U{00E2}\U{20AC}\U{201D} "

  /** The separator of the legacy generator: a real em dash. */
  const LegacyDash: string := " \U{2014} "

  /** A category and the entry pushed onto it. */
  datatype Routed = Routed(category: Category, entry: string)

  /** `categories[type]`, falling back to `categories.other`. */
  function CurrentCategory(h: Header): Category {
    match Lookup(CurrentOrder, ToLowerAscii(h.typeText))
    case Some(c) => c
    case None => Other
  }

  /** The current generator's handling of one subject and body. */
  function RouteCurrent(subject: string, body: string): Routed {
    match MatchHeader(CurrentKeywords, subject)
    case None => Routed(Other, "- " + subject)
    case Some(h) => Routed(CurrentCategory(h), Entry(h, body, CurrentDash))
  }

  /** Why the legacy generator stops: the subject of the commit it could not file. */
  datatype Crash = MissingOther(subject: string)

  /** The legacy generator's handling of one subject and body: `categories.other` does not exist. */
  function RouteLegacy(subject: string, body: string): Result<Routed, Crash> {
    match MatchHeader(LegacyKeywords, subject)
    case None => Failure(MissingOther(subject))
    case Some(h) =>
      match Lookup(LegacyOrder, ToLowerAscii(h.typeText))
      case Some(c) => Ok(Routed(c, Entry(h, body, LegacyDash)))
      case None => Failure(MissingOther(subject))
  }

  lemma CurrentKeywordsShaped()
    ensures AllKeywords(CurrentKeywords)
  {
  }

  lemma LegacyKeywordsShaped()
    ensures AllKeywords(LegacyKeywords)
  {
    CurrentKeywordsShaped();
  }

  lemma LowerEmpty(t: string)
    ensures ToLowerAscii(t) == "" <==> t == ""
  {
  }

  /** A subject whose type is one of the keywords goes to the category of that keyword, with its entry. */
  lemma RouteNamed(subject: string, body: string, h: Header)
    requires Decomposes(CurrentKeywords, subject, h) && h.typeText != ""
    ensures var r := RouteCurrent(subject, body);
      && r.category != Other && Key(r.category) == ToLowerAscii(h.typeText)
      && r.entry == Entry(h, body, CurrentDash)
  {
    CurrentKeywordsShaped();
    MatchHeaderComplete(CurrentKeywords, subject, h);
    CurrentKeywordsDeclared(ToLowerAscii(h.typeText));
  }

  /** A header with an empty type (the subject starts with `(` or `:`) is filed under `other`, with its entry. */
  lemma RouteEmptyType(subject: string, body: string, h: Header)
    requires Decomposes(CurrentKeywords, subject, h) && h.typeText == ""
    ensures RouteCurrent(subject, body) == Routed(Other, Entry(h, body, CurrentDash))
  {
    CurrentKeywordsShaped();
    MatchHeaderComplete(CurrentKeywords, subject, h);
    LowerEmpty(h.typeText);
    var r := Lookup(CurrentOrder, "");
    if r.Some? {
      KeyNonEmpty(r.value);
    }
  }

  lemma KeyNonEmpty(c: Category)
    ensures Key(c) != ""
  {
  }

  /** A subject the expression rejects is filed under `other` as `- subject`, without its body. */
  lemma RouteUnmatched(subject: string, body: string)
    requires forall h :: !Decomposes(CurrentKeywords, subject, h)
    ensures RouteCurrent(subject, body) == Routed(Other, "- " + subject)
  {
    var m := MatchHeader(CurrentKeywords, subject);
    if m.Some? {
      MatchHeaderSound(CurrentKeywords, subject);
    }
  }

  /** A commit lands in `other` exactly when no reading of its subject has a non-empty type. */
  lemma RouteOtherIff(subject: string, body: string)
    ensures RouteCurrent(subject, body).category == Other <==>
            forall h :: Decomposes(CurrentKeywords, subject, h) ==> h.typeText == ""
  {
    var m := MatchHeader(CurrentKeywords, subject);
    CurrentKeywordsShaped();
    if m.Some? {
      var h := m.value;
      MatchHeaderSound(CurrentKeywords, subject);
      forall h' | Decomposes(CurrentKeywords, subject, h') ensures h' == h {
        MatchHeaderComplete(CurrentKeywords, subject, h');
      }
      if h.typeText != "" {
        RouteNamed(subject, body, h);
      } else {
        RouteEmptyType(subject, body, h);
      }
    } else {
      forall h' | Decomposes(CurrentKeywords, subject, h') ensures false {
        MatchHeaderComplete(CurrentKeywords, subject, h');
      }
    }
  }

  /** The legacy generator fails exactly on the commits the current one files under `other`, and on type `other`. */
  lemma LegacyFailsIff(subject: string, body: string)
    ensures RouteLegacy(subject, body).Failure? <==>
            forall h :: Decomposes(LegacyKeywords, subject, h) ==>
                          h.typeText == "" || ToLowerAscii(h.typeText) == "other"
  {
    var m := MatchHeader(LegacyKeywords, subject);
    LegacyKeywordsShaped();
    if m.Some? {
      var h := m.value;
      MatchHeaderSound(LegacyKeywords, subject);
      forall h' | Decomposes(LegacyKeywords, subject, h') ensures h' == h {
        MatchHeaderComplete(LegacyKeywords, subject, h');
      }
      var k := ToLowerAscii(h.typeText);
      LowerEmpty(h.typeText);
      LegacyLookupFails(k);
    } else {
      forall h' | Decomposes(LegacyKeywords, subject, h') ensures false {
        MatchHeaderComplete(LegacyKeywords, subject, h');
      }
    }
  }

  /** A subject with one of the eighteen named types is filed by the legacy generator under that type. */
  lemma RouteLegacyNamed(subject: string, body: string, h: Header)
    requires Decomposes(LegacyKeywords, subject, h) && ToLowerAscii(h.typeText) in CurrentKeywords
    ensures RouteLegacy(subject, body).Ok?
    ensures var r := RouteLegacy(subject, body).value;
      && Key(r.category) == ToLowerAscii(h.typeText) && r.entry == Entry(h, body, LegacyDash)
  {
    LegacyKeywordsShaped();
    MatchHeaderComplete(LegacyKeywords, subject, h);
    var k := ToLowerAscii(h.typeText);
    var i :| 0 <= i < |CurrentKeywords| && CurrentKeywords[i] == k;
    KeywordCategory(i);
    KeywordFiledByLegacy(i);
    LookupFinds(LegacyOrder, KeywordCategories[i]);
  }

  lemma KeywordFiledByLegacy(i: nat)
    requires i < |KeywordCategories|
    ensures KeywordCategories[i] in LegacyOrder
  {
    KeywordCategory(i);
    LegacyOrderLacksOther();
  }

  /** Where the current generator names a category, the legacy one files the same commit there too. */
  lemma GeneratorsAgreeOnNamed(subject: string, body: string)
    requires RouteCurrent(subject, body).category != Other
    ensures RouteLegacy(subject, body).Ok?
    ensures RouteLegacy(subject, body).value.category == RouteCurrent(subject, body).category
  {
    var h := MatchHeader(CurrentKeywords, subject).value;
    MatchHeaderSound(CurrentKeywords, subject);
    assert ToLowerAscii(h.typeText) in CurrentKeywords;
    CurrentKeywordsShaped();
    assert Decomposes(LegacyKeywords, subject, h);
    RouteNamed(subject, body, h);
    RouteLegacyNamed(subject, body, h);
    KeyInjective(RouteLegacy(subject, body).value.category, RouteCurrent(subject, body).category);
  }
}
