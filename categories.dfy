/**
 * The changelog categories both generators declare, their keys and section titles,
 * and the keyword alternatives of each generator's header expression.
 */
module Categories {
  import opened Outcomes

  datatype Category =
    | Feat | Fix | Docs | Style | Refactor | Perf | Test | Chore | Ci | Build
    | Revert | Release | Hotfix | Security | Deploy | Config | Example | Wip | Other

  /** The property name of the category in the `categories` object. */
  function Key(c: Category): string {
    match c
    case Feat => "feat"
    case Fix => "fix"
    case Docs => "docs"
    case Style => "style"
    case Refactor => "refactor"
    case Perf => "perf"
    case Test => "test"
    case Chore => "chore"
    case Ci => "ci"
    case Build => "build"
    case Revert => "revert"
    case Release => "release"
    case Hotfix => "hotfix"
    case Security => "security"
    case Deploy => "deploy"
    case Config => "config"
    case Example => "example"
    case Wip => "wip"
    case Other => "other"
  }

  /** The section heading of the category. */
  function Title(c: Category): string {
    match c
    case Feat => "Features"
    case Fix => "Bug Fixes"
    case Docs => "Documentation"
    case Style => "Styling and Formatting"
    case Refactor => "Code Refactoring"
    case Perf => "Performance Improvements"
    case Test => "Tests"
    case Chore => "Chores and Maintenance"
    case Ci => "CI/CD"
    case Build => "Build System"
    case Revert => "Reverts"
    case Release => "Releases"
    case Hotfix => "Hotfixes"
    case Security => "Security"
    case Deploy => "Deployments"
    case Config => "Configs"
    case Example => "Examples"
    case Wip => "Work in Progress"
    case Other => "Other Changes"
  }

  /** Declaration order of the current generator's `categories` object, which is its iteration order. */
  const CurrentOrder: seq<Category> :=
    [Feat, Fix, Docs, Style, Refactor, Perf, Test, Chore, Ci, Build,
     Revert, Release, Hotfix, Security, Deploy, Config, Example, Wip, Other]

  /** The legacy generator declares the same categories without `other`. */
  const LegacyOrder: seq<Category> :=
    [Feat, Fix, Docs, Style, Refactor, Perf, Test, Chore, Ci, Build,
     Revert, Release, Hotfix, Security, Deploy, Config, Example, Wip]

  /** The keyword alternatives of the current header expression, in the order written. */
  const CurrentKeywords: seq<string> :=
    ["feat", "fix", "docs", "style", "refactor", "perf", "test", "build", "ci", "chore",
     "revert", "release", "hotfix", "security", "deploy", "config", "example", "wip"]

  /** The legacy header expression also accepts `other`. */
  const LegacyKeywords: seq<string> := CurrentKeywords + ["other"]

  /** `categories[type]`: the declared category whose key is `key`, if any. */
  function Lookup(order: seq<Category>, key: string): (r: Option<Category>)
    ensures r.Some? ==> r.value in order && Key(r.value) == key
    ensures r.None? ==> forall c :: c in order ==> Key(c) != key
  {
    if order == [] then None
    else if Key(order[0]) == key then Some(order[0])
    else Lookup(order[1..], key)
  }

  /** The index of a category in the declaration. */
  function Position(c: Category): nat {
    match c
    case Feat => 0 case Fix => 1 case Docs => 2 case Style => 3 case Refactor => 4
    case Perf => 5 case Test => 6 case Chore => 7 case Ci => 8 case Build => 9
    case Revert => 10 case Release => 11 case Hotfix => 12 case Security => 13
    case Deploy => 14 case Config => 15 case Example => 16 case Wip => 17 case Other => 18
  }

  /** The categories the keyword alternatives name, in the order the alternatives are written. */
  const KeywordCategories: seq<Category> :=
    [Feat, Fix, Docs, Style, Refactor, Perf, Test, Build, Ci, Chore,
     Revert, Release, Hotfix, Security, Deploy, Config, Example, Wip]

  predicate Distinct(order: seq<Category>) {
    forall i, j :: 0 <= i < j < |order| ==> order[i] != order[j]
  }

  /** Distinct categories have distinct keys. */
  lemma KeyInjective(c: Category, d: Category)
    requires Key(c) == Key(d)
    ensures c == d
  {
  }

  lemma LookupFinds(order: seq<Category>, c: Category)
    requires c in order
    ensures Lookup(order, Key(c)) == Some(c)
  {
    var r := Lookup(order, Key(c));
    if r.Some? { KeyInjective(r.value, c); }
  }

  lemma PositionInCurrentOrder(c: Category)
    ensures Position(c) < |CurrentOrder| && CurrentOrder[Position(c)] == c
  {
  }

  lemma CurrentOrderPosition(i: nat)
    requires i < |CurrentOrder|
    ensures Position(CurrentOrder[i]) == i
  {
  }

  /** The current declaration lists every category exactly once, `other` last. */
  lemma CurrentOrderComplete()
    ensures forall c :: c in CurrentOrder
    ensures Distinct(CurrentOrder)
    ensures CurrentOrder[|CurrentOrder| - 1] == Other
  {
    forall c ensures c in CurrentOrder { PositionInCurrentOrder(c); }
    forall i, j | 0 <= i < j < |CurrentOrder| ensures CurrentOrder[i] != CurrentOrder[j] {
      CurrentOrderPosition(i);
      CurrentOrderPosition(j);
    }
  }

  /** The legacy declaration is the current one without its last entry, `other`. */
  lemma LegacyOrderLacksOther()
    ensures LegacyOrder == CurrentOrder[..|CurrentOrder| - 1]
    ensures forall c :: c in LegacyOrder <==> c != Other
    ensures Distinct(LegacyOrder)
  {
    CurrentOrderComplete();
    forall c ensures c in LegacyOrder <==> c != Other {
      PositionInCurrentOrder(c);
      if c != Other { assert LegacyOrder[Position(c)] == c; }
    }
  }

  lemma KeywordCategory(i: nat)
    requires i < |CurrentKeywords|
    ensures i < |KeywordCategories| && Key(KeywordCategories[i]) == CurrentKeywords[i]
    ensures KeywordCategories[i] != Other
  {
  }

  /** Every current keyword names a declared category other than `other`. */
  lemma CurrentKeywordsDeclared(k: string)
    requires k in CurrentKeywords
    ensures Lookup(CurrentOrder, k).Some? && Lookup(CurrentOrder, k).value != Other
  {
    var i :| 0 <= i < |CurrentKeywords| && CurrentKeywords[i] == k;
    KeywordCategory(i);
    CurrentOrderComplete();
    LookupFinds(CurrentOrder, KeywordCategories[i]);
  }

  /** In the legacy table exactly the `other` keyword and the empty type name no category. */
  lemma LegacyLookupFails(k: string)
    requires k == "" || k in LegacyKeywords
    ensures Lookup(LegacyOrder, k).None? <==> (k == "" || k == "other")
  {
    LegacyOrderLacksOther();
    if k != "" && k != "other" {
      assert k in CurrentKeywords;
      var i :| 0 <= i < |CurrentKeywords| && CurrentKeywords[i] == k;
      KeywordCategory(i);
      LookupFinds(LegacyOrder, KeywordCategories[i]);
    }
  }
}
