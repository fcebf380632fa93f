/**
 * The two string-backed enumerations the issue list switches on
 * (IssueTracker/IssueTracker/Scenes/Filter/FilterMdoel.swift).
 * A Swift `enum E: String` with no explicit raw values uses each case's own
 * name as its raw value; `init(rawValue:)` inverts that mapping and yields
 * nil on every other string; `CaseIterable.allCases` lists the cases in
 * declaration order.
 */
module FilterModel {
  import opened Wrappers

  /** Relevance bucket of an issue relative to the signed-in user. */
  datatype FilterScope = All | Created | Assigned | Commented

  /** Attribute a filter-menu selection narrows the list by. */
  datatype FilterCategory = Author | Label | Milestone | Assignee

  function ScopeRawValue(scope: FilterScope): string
  {
    match scope
    case All => "All"
    case Created => "Created"
    case Assigned => "Assigned"
    case Commented => "Commented"
  }

  /** Position of a case in the declaration. */
  function ScopeIndex(scope: FilterScope): nat
  {
    match scope
    case All => 0
    case Created => 1
    case Assigned => 2
    case Commented => 3
  }

  /** `FilterScope.allCases`: every case exactly once, at its declaration position. */
  function AllScopes(): (r: seq<FilterScope>)
    ensures |r| == 4
    ensures forall scope :: ScopeIndex(scope) < |r| && r[ScopeIndex(scope)] == scope
    ensures forall i, j :: 0 <= i < j < |r| ==> r[i] != r[j]
  {
    [All, Created, Assigned, Commented]
  }

  /** `FilterScope(rawValue:)`: the case named `raw`, or nil. */
  function ScopeFromRawValue(raw: string): (r: Option<FilterScope>)
    ensures forall scope :: r == Some(scope) <==> raw == ScopeRawValue(scope)
  {
    if raw == "All" then Some(All)
    else if raw == "Created" then Some(Created)
    else if raw == "Assigned" then Some(Assigned)
    else if raw == "Commented" then Some(Commented)
    else None
  }

  /**
   * The search bar's scope-button titles, `FilterScope.allCases.map { $0.rawValue }`:
   * reading button `i` back through `init(rawValue:)` gives the `i`-th case.
   */
  function ScopeButtonTitles(): (r: seq<string>)
    ensures |r| == |AllScopes()|
    ensures forall i :: 0 <= i < |r| ==> ScopeFromRawValue(r[i]) == Some(AllScopes()[i])
  {
    seq(|AllScopes()|, i requires 0 <= i < |AllScopes()| => ScopeRawValue(AllScopes()[i]))
  }

  /** Button 0 is the only one showing `All`. */
  lemma ScopeButtonZeroIsAll(i: int)
    requires 0 <= i < |AllScopes()|
    ensures AllScopes()[i] == All <==> i == 0
  {
  }

  /** A string that names no case maps to nil. */
  lemma UnknownScopeNameIsNil(raw: string)
    requires raw !in ScopeButtonTitles()
    ensures ScopeFromRawValue(raw) == None
  {
    forall scope ensures raw != ScopeRawValue(scope) {
      assert ScopeButtonTitles()[ScopeIndex(scope)] == ScopeRawValue(scope);
    }
  }

  function CategoryRawValue(category: FilterCategory): string
  {
    match category
    case Author => "Author"
    case Label => "Label"
    case Milestone => "Milestone"
    case Assignee => "Assignee"
  }

  /** `FilterCategory(rawValue:)`: the case named `raw`, or nil. */
  function CategoryFromRawValue(raw: string): (r: Option<FilterCategory>)
    ensures forall category :: r == Some(category) <==> raw == CategoryRawValue(category)
  {
    if raw == "Author" then Some(Author)
    else if raw == "Label" then Some(Label)
    else if raw == "Milestone" then Some(Milestone)
    else if raw == "Assignee" then Some(Assignee)
    else None
  }

  lemma CategoryIsListed(category: FilterCategory)
    ensures category in {Author, Label, Milestone, Assignee}
  {
    match category
    case Author =>
    case Label =>
    case Milestone =>
    case Assignee =>
  }

  /** The four categories, all distinct. */
  function AllCategories(): (r: set<FilterCategory>)
    ensures forall category :: category in r
    ensures |r| == 4
  {
    var r := {Author, Label, Milestone, Assignee};
    assert forall category :: category in r by {
      forall category: FilterCategory ensures category in r {
        CategoryIsListed(category);
      }
    }
    r
  }

  /** The screen's initial `filterDict`: every category present and unselected (0). */
  function InitialFilterDict(): (r: map<FilterCategory, int>)
    ensures r.Keys == AllCategories()
    ensures forall category :: r[category] == 0
  {
    map[Author := 0, Label := 0, Milestone := 0, Assignee := 0]
  }
}
