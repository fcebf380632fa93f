/**
 * The mobile issue list screen's filtering, search and edit-mode selection
 * state (IssueTracker/IssueTracker/Scenes/IssueList/IssueListViewController.swift).
 *
 * The signed-in user's id, which the screen reads once from the user
 * defaults, is the constructor parameter `userId`. Network requests,
 * collection-view rendering and navigation are not modelled.
 */
module IssueList {
  import opened Wrappers
  import opened Seqs
  import opened FilterModel

  /** A comment in the screen's shared comment list: only its author matters here. */
  datatype Comment = Comment(userId: int)

  /**
   * The fields of an issue row that the filters read: its id, its author,
   * its title and its assignees' user ids (`nil` when the server sent none).
   */
  datatype Issue = Issue(issueId: int, userId: int, title: string, assign: Option<seq<int>>)

  /** What the header label shows: the screen title, or "<n> Selected" in edit mode. */
  datatype HeaderTitle = IssueTitle | SelectedCount(count: int)

  // ----- Scope predicate -----

  /** Some comment in `comments` was written by `me`. */
  predicate HasCommentBy(comments: seq<Comment>, me: int)
  {
    exists k :: 0 <= k < |comments| && comments[k].userId == me
  }

  /**
   * Whether an issue falls in `scope` for user `me`. No scope hides every
   * issue; Assigned compares only the first assignee; Commented consults the
   * one shared comment list, whichever issue is asked about.
   */
  predicate ScopeMatches(issue: Issue, scope: Option<FilterScope>, me: int, comments: seq<Comment>)
  {
    match scope
    case None => false
    case Some(All) => true
    case Some(Created) => issue.userId == me
    case Some(Assigned) => issue.assign.Some? && |issue.assign.value| > 0 && issue.assign.value[0] == me
    case Some(Commented) => HasCommentBy(comments, me)
  }

  lemma ScopeBasics(issue: Issue, me: int, comments: seq<Comment>)
    ensures !ScopeMatches(issue, None, me, comments)
    ensures ScopeMatches(issue, Some(All), me, comments)
    ensures ScopeMatches(issue, Some(Created), me, comments) <==> issue.userId == me
  {
  }

  /** Assigned rejects a missing or empty assignee list and otherwise sees only the first assignee. */
  lemma AssignedSeesFirstAssigneeOnly(a: Issue, b: Issue, me: int, comments: seq<Comment>)
    ensures a.assign.None? || a.assign == Some([]) ==> !ScopeMatches(a, Some(Assigned), me, comments)
    ensures a.assign.Some? && b.assign.Some? && |a.assign.value| > 0 && |b.assign.value| > 0
            && a.assign.value[0] == b.assign.value[0]
            ==> ScopeMatches(a, Some(Assigned), me, comments) == ScopeMatches(b, Some(Assigned), me, comments)
  {
  }

  /** Commented gives the same answer for every issue, and false on an empty comment list. */
  lemma CommentedIgnoresTheIssue(a: Issue, b: Issue, me: int, comments: seq<Comment>)
    ensures ScopeMatches(a, Some(Commented), me, comments) == ScopeMatches(b, Some(Commented), me, comments)
    ensures !ScopeMatches(a, Some(Commented), me, [])
  {
  }

  // ----- Text search -----

  /** ASCII lower-casing (Unicode case mapping is not modelled). */
  function LowerChar(c: char): char
  {
    if 'A' <= c <= 'Z' then (c as int + 32) as char else c
  }

  function Lower(s: string): string
  {
    seq(|s|, i requires 0 <= i < |s| => LowerChar(s[i]))
  }

  predicate IsPrefix(p: string, s: string)
  {
    |p| <= |s| && s[..|p|] == p
  }

  /** `hay.contains(needle)`, scanning start positions left to right. */
  predicate Contains(hay: string, needle: string)
    ensures Contains(hay, needle) ==> |needle| <= |hay|
    ensures needle == [] ==> Contains(hay, needle)
    decreases |hay|
  {
    IsPrefix(needle, hay) || (hay != [] && Contains(hay[1..], needle))
  }

  /** `needle` occurs in `hay` starting at position `k`. */
  predicate OccursAt(hay: string, needle: string, k: int)
  {
    0 <= k <= |hay| - |needle| && hay[k..k + |needle|] == needle
  }

  /** An occurrence at `k > 0` is an occurrence at `k - 1` of the tail. */
  lemma OccursInTail(hay: string, needle: string, k: int)
    requires hay != [] && 0 < k
    ensures OccursAt(hay, needle, k) <==> OccursAt(hay[1..], needle, k - 1)
  {
    if k <= |hay| - |needle| {
      assert hay[k..k + |needle|] == hay[1..][k - 1..k - 1 + |needle|];
    }
  }

  /** `Contains` holds exactly when `needle` occurs at some position of `hay`. */
  lemma {:induction false} ContainsIffOccurs(hay: string, needle: string)
    ensures Contains(hay, needle) <==> exists k :: OccursAt(hay, needle, k)
  {
    if IsPrefix(needle, hay) {
      assert OccursAt(hay, needle, 0);
    } else if hay == [] {
    } else {
      ContainsIffOccurs(hay[1..], needle);
      if Contains(hay[1..], needle) {
        var k :| OccursAt(hay[1..], needle, k);
        OccursInTail(hay, needle, k + 1);
      } else {
        forall k | OccursAt(hay, needle, k) ensures false {
          OccursInTail(hay, needle, k);
        }
      }
    }
  }

  /**
   * The per-issue test of `filterContentForSearchText`: the scope must match
   * and, unless the search bar is empty, the lower-cased title must contain
   * the lower-cased query.
   */
  predicate SearchKeeps(issue: Issue, scope: Option<FilterScope>, me: int, comments: seq<Comment>,
                        barEmpty: bool, query: string)
  {
    var doesScopeMatch := ScopeMatches(issue, scope, me, comments);
    if barEmpty then doesScopeMatch else doesScopeMatch && Contains(Lower(issue.title), Lower(query))
  }

  function SearchKeepFn(scope: Option<FilterScope>, me: int, comments: seq<Comment>,
                        barEmpty: bool, query: string): Issue -> bool
  {
    issue => SearchKeeps(issue, scope, me, comments, barEmpty, query)
  }

  /** The list `filterContentForSearchText` stores in `filteredIssues`. */
  function SearchResults(issues: seq<Issue>, scope: Option<FilterScope>, me: int, comments: seq<Comment>,
                         barEmpty: bool, query: string): seq<Issue>
  {
    Filter(issues, SearchKeepFn(scope, me, comments, barEmpty, query))
  }

  /**
   * The search result is an order-preserving subsequence of the issues that
   * keeps every occurrence of a matching issue and nothing else: with an empty
   * bar the scope-matching issues, otherwise those whose title also contains the query.
   */
  lemma SearchResultsSpec(issues: seq<Issue>, scope: Option<FilterScope>, me: int, comments: seq<Comment>,
                          barEmpty: bool, query: string)
    ensures var r := SearchResults(issues, scope, me, comments, barEmpty, query);
      && IsSubsequence(r, issues)
      && (forall x :: barEmpty ==> multiset(r)[x] == if ScopeMatches(x, scope, me, comments) then multiset(issues)[x] else 0)
      && (forall x :: !barEmpty ==>
            (multiset(r)[x] ==
               if ScopeMatches(x, scope, me, comments) && Contains(Lower(x.title), Lower(query))
               then multiset(issues)[x] else 0))
  {
  }

  /** Scope All with an empty search bar shows every issue. */
  lemma AllScopeKeepsEverything(issues: seq<Issue>, me: int, comments: seq<Comment>, query: string)
    ensures SearchResults(issues, Some(All), me, comments, true, query) == issues
  {
    FilterKeepsAll(issues, SearchKeepFn(Some(All), me, comments, true, query));
  }

  /** With no scope every issue is hidden. */
  lemma NoScopeHidesEverything(issues: seq<Issue>, me: int, comments: seq<Comment>, barEmpty: bool, query: string)
    ensures SearchResults(issues, None, me, comments, barEmpty, query) == []
  {
    NothingKeptIsEmpty(issues, SearchKeepFn(None, me, comments, barEmpty, query));
  }

  /** The search reads titles and query only through their lower-case forms. */
  lemma SearchIsCaseInsensitive(a: Issue, b: Issue, scope: Option<FilterScope>, me: int, comments: seq<Comment>,
                                q1: string, q2: string)
    requires a.userId == b.userId && a.assign == b.assign
    requires Lower(a.title) == Lower(b.title) && Lower(q1) == Lower(q2)
    ensures SearchKeeps(a, scope, me, comments, false, q1) == SearchKeeps(b, scope, me, comments, false, q2)
  {
  }

  /** The query "bug" finds the title "Bug report". */
  lemma BugFindsBugReport()
    ensures Contains(Lower("Bug report"), Lower("bug"))
  {
    assert Lower("Bug report")[..3] == "bug";
  }

  /** Two-issue examples: Created with an empty bar, and All with the query "typo". */
  lemma SearchExamples()
    ensures var crash := Issue(1, 5, "Crash", None);
            var typo := Issue(2, 9, "Typo", None);
            && SearchResults([crash, typo], Some(Created), 5, [], true, "") == [crash]
            && SearchResults([crash, typo], Some(All), 5, [], false, "typo") == [typo]
  {
    var crash := Issue(1, 5, "Crash", None);
    var typo := Issue(2, 9, "Typo", None);
    assert Lower("Typo")[..4] == "typo";
    assert !Contains(Lower("Crash"), Lower("typo")) by {
      assert Lower("Crash") == "crash";
      assert Lower("typo") == "typo";
      ContainsIffOccurs("crash", "typo");
      assert !OccursAt("crash", "typo", 0) by { assert "crash"[0..4][0] == 'c'; }
      assert !OccursAt("crash", "typo", 1) by { assert "crash"[1..5][0] == 'r'; }
    }
    assert [crash, typo][1..] == [typo];
  }

  // ----- Category filter -----

  /**
   * `filterDict` after choosing `id` in `category`: choosing the current
   * selection clears it to 0, anything else selects it; the other categories
   * and the key set stay as they were.
   */
  function Toggled(filterDict: map<FilterCategory, int>, category: FilterCategory, id: int): (r: map<FilterCategory, int>)
    requires category in filterDict
    ensures r.Keys == filterDict.Keys
    ensures r[category] == if filterDict[category] == id then 0 else id
    ensures forall c :: c in filterDict && c != category ==> r[c] == filterDict[c]
  {
    filterDict[category := if filterDict[category] == id then 0 else id]
  }

  /** From an unselected category, two presses of the same id restore the map. */
  lemma ToggleTwiceFromUnselected(filterDict: map<FilterCategory, int>, category: FilterCategory, id: int)
    requires category in filterDict && filterDict[category] == 0
    ensures Toggled(Toggled(filterDict, category, id), category, id) == filterDict
  {
    var twice := Toggled(Toggled(filterDict, category, id), category, id);
    assert twice.Keys == filterDict.Keys;
    assert forall c :: c in twice ==> twice[c] == filterDict[c];
  }

  /** Pressing an id different from the current selection twice leaves the category unselected. */
  lemma ToggleTwiceClears(filterDict: map<FilterCategory, int>, category: FilterCategory, id: int)
    requires category in filterDict && filterDict[category] != id
    ensures Toggled(Toggled(filterDict, category, id), category, id)[category] == 0
  {
  }

  /**
   * `compareOptionWithFilterDict`: false if any category key is missing;
   * otherwise only the Author selection is applied (a positive author id must
   * equal the issue's author).
   */
  predicate CompareOptionWithFilterDict(issue: Issue, filterDict: map<FilterCategory, int>)
  {
    if Author !in filterDict || Label !in filterDict || Milestone !in filterDict || Assignee !in filterDict then false
    else !(filterDict[Author] > 0 && filterDict[Author] != issue.userId)
  }

  function AuthorKeepFn(filterDict: map<FilterCategory, int>): Issue -> bool
  {
    issue => CompareOptionWithFilterDict(issue, filterDict)
  }

  /** The list `filterIssues` stores in both `filteredIssues` and `displayedIssues`. */
  function AuthorFiltered(issues: seq<Issue>, filterDict: map<FilterCategory, int>): seq<Issue>
  {
    Filter(issues, AuthorKeepFn(filterDict))
  }

  /** With all four keys present, an issue survives exactly when no author is selected or it is the selected author's. */
  lemma AuthorFilterMembership(issues: seq<Issue>, filterDict: map<FilterCategory, int>, x: Issue)
    requires filterDict.Keys == AllCategories()
    ensures x in AuthorFiltered(issues, filterDict) <==> x in issues && (filterDict[Author] <= 0 || filterDict[Author] == x.userId)
    ensures IsSubsequence(AuthorFiltered(issues, filterDict), issues)
  {
  }

  /** The Label, Milestone and Assignee selections never change the result. */
  lemma OnlyAuthorSelectionApplies(issues: seq<Issue>, d1: map<FilterCategory, int>, d2: map<FilterCategory, int>)
    requires d1.Keys == AllCategories() && d2.Keys == AllCategories()
    requires d1[Author] == d2[Author]
    ensures AuthorFiltered(issues, d1) == AuthorFiltered(issues, d2)
  {
    FilterCongruent(issues, AuthorKeepFn(d1), AuthorKeepFn(d2));
  }

  /** With no author selected the pass keeps everything. */
  lemma NoAuthorKeepsAll(issues: seq<Issue>, filterDict: map<FilterCategory, int>)
    requires filterDict.Keys == AllCategories() && filterDict[Author] <= 0
    ensures AuthorFiltered(issues, filterDict) == issues
  {
    FilterKeepsAll(issues, AuthorKeepFn(filterDict));
  }

  /**
   * The pass is destructive: after selecting author `a` and then a different
   * author `b`, nothing is left; clearing the selection afterwards does not
   * bring the dropped issues back.
   */
  lemma AuthorPassesCompound(issues: seq<Issue>, d1: map<FilterCategory, int>, d2: map<FilterCategory, int>)
    requires d1.Keys == AllCategories() && d2.Keys == AllCategories()
    ensures d1[Author] > 0 && d2[Author] > 0 && d1[Author] != d2[Author]
            ==> AuthorFiltered(AuthorFiltered(issues, d1), d2) == []
    ensures d2[Author] <= 0 ==> AuthorFiltered(AuthorFiltered(issues, d1), d2) == AuthorFiltered(issues, d1)
  {
    var once := AuthorFiltered(issues, d1);
    if d1[Author] > 0 && d2[Author] > 0 && d1[Author] != d2[Author] {
      NothingKeptIsEmpty(once, AuthorKeepFn(d2));
    }
    if d2[Author] <= 0 {
      NoAuthorKeepsAll(once, d2);
    }
  }

  // ----- The screen -----

  /**
   * The view controller's filter, search and selection state. `searchActive`,
   * `searchBarText` and `selectedScopeIndex` mirror the search controller,
   * which UIKit updates; the other fields are the controller's own.
   */
  class IssueListScreen {
    const userId: int
    var displayedIssues: seq<Issue>
    var filteredIssues: seq<Issue>
    var displayedComments: seq<Comment>
    var filterDict: map<FilterCategory, int>

    var searchActive: bool
    var searchBarText: Option<string>
    var selectedScopeIndex: int

    var isEditing: bool
    var selectedItems: int
    var closeButtonEnabled: bool
    var title: HeaderTitle
    var leftBarTitle: string

    /**
     * All four filter keys are present; in edit mode the close button and the
     * left bar button follow the counter; in normal mode the counter is never
     * positive and the header reads "Issue".
     */
    ghost predicate Valid()
      reads this
    {
      && filterDict.Keys == AllCategories()
      && (isEditing ==>
            && closeButtonEnabled == (selectedItems > 0)
            && leftBarTitle == (if selectedItems > 0 then "Deselect All" else "Select All"))
      && (!isEditing ==> selectedItems <= 0 && title == IssueTitle && leftBarTitle == "")
    }

    /**
     * The screen after loading, before any issue has been fetched. The close
     * button's initial state comes from the storyboard, not the code, and
     * `setupNormalMode`'s observer leaves it alone outside edit mode; disabled
     * is a chosen default here.
     */
    constructor (userId: int)
      ensures Valid()
      ensures this.userId == userId
      ensures displayedIssues == [] && filteredIssues == [] && displayedComments == []
      ensures filterDict == InitialFilterDict()
      ensures !searchActive && searchBarText == Some("") && selectedScopeIndex == 0
      ensures !isEditing && selectedItems == 0 && !closeButtonEnabled
    {
      this.userId := userId;
      displayedIssues := [];
      filteredIssues := [];
      displayedComments := [];
      filterDict := InitialFilterDict();
      searchActive := false;
      searchBarText := Some("");
      selectedScopeIndex := 0;
      isEditing := false;
      selectedItems := 0;
      closeButtonEnabled := false;
      title := IssueTitle;
      leftBarTitle := "";
    }

    /** A fetched issue list replaces the displayed one. */
    method DisplayOpenIssues(issues: seq<Issue>)
      modifies this`displayedIssues
      ensures displayedIssues == issues
    {
      displayedIssues := issues;
    }

    /** A fetched comment list replaces the shared one. */
    method DisplayFetchedComment(comments: seq<Comment>)
      modifies this`displayedComments
      ensures displayedComments == comments
    {
      displayedComments := comments;
    }

    predicate IsSearchBarEmpty()
      reads this
    {
      searchBarText.None? || searchBarText.value == ""
    }

    /** The list shows `filteredIssues`: search is active and there is a query or a scope other than All. */
    predicate IsFiltering()
      reads this
      ensures 0 <= selectedScopeIndex < |AllScopes()| ==>
        (IsFiltering() <==> searchActive && (!IsSearchBarEmpty() || AllScopes()[selectedScopeIndex] != All))
    {
      searchActive && (!IsSearchBarEmpty() || selectedScopeIndex != 0)
    }

    /** Number of rows of the issue collection. */
    function NumberOfItems(): (n: nat)
      reads this
      ensures !searchActive ==> n == |displayedIssues|
      ensures searchActive && !IsSearchBarEmpty() ==> n == |filteredIssues|
      ensures searchActive && selectedScopeIndex != 0 ==> n == |filteredIssues|
      ensures searchActive && IsSearchBarEmpty() && selectedScopeIndex == 0 ==> n == |displayedIssues|
    {
      if IsFiltering() then |filteredIssues| else |displayedIssues|
    }

    /** `filterMatchingScope`, against the shared comment list and this screen's user. */
    method FilterMatchingScope(issue: Issue, scope: Option<FilterScope>) returns (matches: bool)
      ensures matches == ScopeMatches(issue, scope, userId, displayedComments)
    {
      if scope.None? {
        return false;
      }
      match scope.value {
        case All =>
          return true;
        case Created =>
          if issue.userId == userId {
            return true;
          }
          return false;
        case Assigned =>
          if issue.assign.None? {
            return false;
          }
          var assign := issue.assign.value;
          // the source loops over the assignees, but both branches of its body
          // return on the first pass: only the first assignee is compared
          if |assign| > 0 {
            if assign[0] == userId {
              return true;
            } else {
              return false;
            }
          }
          return false;
        case Commented =>
          var i := 0;
          while i < |displayedComments|
            invariant 0 <= i <= |displayedComments|
            invariant forall k :: 0 <= k < i ==> displayedComments[k].userId != userId
          {
            // the request for this issue's comments made here is not modelled
            if displayedComments[i].userId == userId {
              return true;
            }
            i := i + 1;
          }
          return false;
      }
    }

    /** `filterContentForSearchText`: recomputes `filteredIssues` from `displayedIssues`. */
    method FilterContentForSearchText(searchText: string, scope: Option<FilterScope>)
      modifies this`filteredIssues
      ensures filteredIssues == SearchResults(displayedIssues, scope, userId, displayedComments, IsSearchBarEmpty(), searchText)
    {
      ghost var keepFn := SearchKeepFn(scope, userId, displayedComments, IsSearchBarEmpty(), searchText);
      var kept: seq<Issue> := [];
      var i := 0;
      while i < |displayedIssues|
        invariant 0 <= i <= |displayedIssues|
        invariant kept == Filter(displayedIssues[..i], keepFn)
      {
        var issue := displayedIssues[i];
        var doesScopeMatch := FilterMatchingScope(issue, scope);
        var keep := if IsSearchBarEmpty() then doesScopeMatch
                    else doesScopeMatch && Contains(Lower(issue.title), Lower(searchText));
        FilterAppend(displayedIssues[..i], issue, keepFn);
        assert displayedIssues[..i + 1] == displayedIssues[..i] + [issue];
        if keep {
          kept := kept + [issue];
        }
        i := i + 1;
      }
      assert displayedIssues[..i] == displayedIssues;
      filteredIssues := kept;
    }

    /** `updateSearchResults(for:)`: the scope is read back from the selected button's title. */
    method UpdateSearchResults()
      requires searchBarText.Some?
      requires 0 <= selectedScopeIndex < |ScopeButtonTitles()|
      modifies this`filteredIssues
      ensures filteredIssues == SearchResults(displayedIssues, Some(AllScopes()[selectedScopeIndex]), userId,
                                              displayedComments, IsSearchBarEmpty(), searchBarText.value)
    {
      var scope := ScopeFromRawValue(ScopeButtonTitles()[selectedScopeIndex]);
      FilterContentForSearchText(searchBarText.value, scope);
    }

    /** `searchBar(_:selectedScopeButtonIndexDidChange:)`, after UIKit stored the new index. */
    method SelectedScopeButtonIndexDidChange(selectedScope: int)
      requires searchBarText.Some?
      requires 0 <= selectedScope < |ScopeButtonTitles()|
      modifies this`selectedScopeIndex, this`filteredIssues
      ensures selectedScopeIndex == selectedScope
      ensures filteredIssues == SearchResults(displayedIssues, Some(AllScopes()[selectedScope]), userId,
                                              displayedComments, IsSearchBarEmpty(), searchBarText.value)
    {
      selectedScopeIndex := selectedScope;
      var scope := ScopeFromRawValue(ScopeButtonTitles()[selectedScope]);
      FilterContentForSearchText(searchBarText.value, scope);
    }

    /** `filterIssues`: the author pass overwrites both lists. */
    method FilterIssues()
      modifies this`filteredIssues, this`displayedIssues
      ensures filteredIssues == AuthorFiltered(old(displayedIssues), filterDict)
      ensures displayedIssues == filteredIssues
    {
      filteredIssues := AuthorFiltered(displayedIssues, filterDict);
      displayedIssues := filteredIssues;
    }

    /** `filterMenuPressed(type:id:)`: toggle the category's selection, then run the author pass. */
    method FilterMenuPressed(category: FilterCategory, id: int)
      modifies this`filterDict, this`filteredIssues, this`displayedIssues
      ensures old(Valid()) ==> Valid()
      ensures category !in old(filterDict) ==>
        filterDict == old(filterDict) && filteredIssues == old(filteredIssues) && displayedIssues == old(displayedIssues)
      ensures category in old(filterDict) ==>
        && filterDict == Toggled(old(filterDict), category, id)
        && filteredIssues == AuthorFiltered(old(displayedIssues), filterDict)
        && displayedIssues == filteredIssues
    {
      if category !in filterDict {
        return;
      }
      filterDict := Toggled(filterDict, category, id);
      FilterIssues();
    }

    /** `selectedItems`' setter with its observer, which refreshes the edit-mode header and buttons. */
    method SetSelectedItems(newValue: int)
      modifies this`selectedItems, this`closeButtonEnabled, this`title, this`leftBarTitle
      ensures selectedItems == newValue
      ensures isEditing ==>
        && closeButtonEnabled == (newValue > 0)
        && title == SelectedCount(newValue)
        && leftBarTitle == (if newValue > 0 then "Deselect All" else "Select All")
      ensures !isEditing ==>
        closeButtonEnabled == old(closeButtonEnabled) && title == old(title) && leftBarTitle == old(leftBarTitle)
    {
      if isEditing {
        title := SelectedCount(newValue);
        if newValue > 0 {
          closeButtonEnabled := true;
          leftBarTitle := "Deselect All";
        } else {
          closeButtonEnabled := false;
          leftBarTitle := "Select All";
        }
      }
      selectedItems := newValue;
    }

    /** `selectAllItems`: every row is selected and the counter becomes the row count. */
    method SelectAllItems()
      requires Valid() && isEditing
      modifies this`selectedItems, this`closeButtonEnabled, this`title, this`leftBarTitle
      ensures Valid()
      ensures selectedItems == NumberOfItems()
      ensures closeButtonEnabled == (NumberOfItems() > 0)
      ensures title == SelectedCount(selectedItems)
    {
      // selecting each cell of the collection view is presentation and not modelled
      var numberOfItems := NumberOfItems();
      SetSelectedItems(numberOfItems);
    }

    /** `deselectAllItems`: counts down once per row, then resets the counter to 0. */
    method DeselectAllItems()
      requires Valid() && isEditing
      modifies this`selectedItems, this`closeButtonEnabled, this`title, this`leftBarTitle
      ensures Valid()
      ensures selectedItems == 0 && !closeButtonEnabled && title == SelectedCount(0)
    {
      var numberOfItems := NumberOfItems();
      var cellPos := 0;
      while cellPos < numberOfItems
        invariant 0 <= cellPos <= numberOfItems
        invariant selectedItems == old(selectedItems) - cellPos
        invariant Valid()
        invariant numberOfItems == NumberOfItems()
      {
        SetSelectedItems(selectedItems - 1);
        cellPos := cellPos + 1;
      }
      SetSelectedItems(0);
    }

    /** `onNavigationLeftBarBtnPressed`: in edit mode, deselect all when something is selected, else select all. */
    method OnNavigationLeftBarBtnPressed()
      requires Valid()
      modifies this`selectedItems, this`closeButtonEnabled, this`title, this`leftBarTitle
      ensures Valid()
      ensures !isEditing ==> selectedItems == old(selectedItems) && closeButtonEnabled == old(closeButtonEnabled)
      ensures isEditing ==> title == SelectedCount(selectedItems)
      ensures isEditing && old(selectedItems) > 0 ==> selectedItems == 0 && !closeButtonEnabled
      ensures isEditing && old(selectedItems) <= 0 ==>
        selectedItems == NumberOfItems() && closeButtonEnabled == (NumberOfItems() > 0)
    {
      if isEditing {
        if selectedItems > 0 {
          DeselectAllItems();
        } else {
          SelectAllItems();
        }
      }
    }

    /** `setupNormalMode`, as run from `isEditing`'s observer before the flag changes. */
    method SetupNormalMode()
      modifies this`selectedItems, this`closeButtonEnabled, this`title, this`leftBarTitle
      ensures selectedItems == 0 && title == IssueTitle && leftBarTitle == ""
      ensures isEditing ==> !closeButtonEnabled
      ensures !isEditing ==> closeButtonEnabled == old(closeButtonEnabled)
    {
      SetSelectedItems(0);
      title := IssueTitle;
      leftBarTitle := "";
    }

    /** `setupEditMode`: the counter itself is not reset. */
    method SetupEditMode()
      modifies this`closeButtonEnabled, this`title, this`leftBarTitle
      ensures !closeButtonEnabled && title == SelectedCount(0) && leftBarTitle == "Select All"
    {
      closeButtonEnabled := false;
      title := SelectedCount(0);
      leftBarTitle := "Select All";
    }

    /** `onEditButtonPressed`: flips edit mode; entering normal mode zeroes the counter. */
    method OnEditButtonPressed()
      requires Valid()
      modifies this`isEditing, this`selectedItems, this`closeButtonEnabled, this`title, this`leftBarTitle
      ensures Valid()
      ensures isEditing == !old(isEditing)
      ensures isEditing ==> selectedItems == old(selectedItems) && !closeButtonEnabled && title == SelectedCount(0)
      ensures !isEditing ==> selectedItems == 0 && !closeButtonEnabled && title == IssueTitle
    {
      var newValue := !isEditing;
      if newValue {
        SetupEditMode();
      } else {
        SetupNormalMode();
      }
      isEditing := newValue;
    }

    /** `didSelectItemAt`: counts a selection in edit mode, otherwise opens the row's issue. */
    method DidSelectItem(item: nat) returns (openedIssueId: Option<int>)
      requires Valid()
      requires !isEditing ==> item < |displayedIssues|
      modifies this`selectedItems, this`closeButtonEnabled, this`title, this`leftBarTitle
      ensures Valid()
      ensures isEditing ==> selectedItems == old(selectedItems) + 1 && openedIssueId.None?
      ensures isEditing ==> closeButtonEnabled == (selectedItems > 0) && title == SelectedCount(selectedItems)
      ensures !isEditing ==> closeButtonEnabled == old(closeButtonEnabled)
      ensures !isEditing ==> selectedItems == old(selectedItems) && openedIssueId == Some(displayedIssues[item].issueId)
    {
      if isEditing {
        SetSelectedItems(selectedItems + 1);
        openedIssueId := None;
      } else {
        // the detail screen is opened for the row's index in `displayedIssues`, even while `filteredIssues` is shown
        openedIssueId := Some(displayedIssues[item].issueId);
      }
    }

    /** `didDeselectItemAt`: in edit mode the counter drops by one. */
    method DidDeselectItem()
      requires Valid()
      modifies this`selectedItems, this`closeButtonEnabled, this`title, this`leftBarTitle
      ensures Valid()
      ensures isEditing ==> selectedItems == old(selectedItems) - 1 && closeButtonEnabled == (selectedItems > 0)
      ensures isEditing ==> title == SelectedCount(selectedItems)
      ensures !isEditing ==> selectedItems == old(selectedItems) && closeButtonEnabled == old(closeButtonEnabled)
    {
      if isEditing {
        SetSelectedItems(selectedItems - 1);
      }
    }

    /** `closeIssue(at:)`: decrements the counter in either mode and names the issue to close. */
    method CloseIssue(item: nat) returns (issueId: int)
      requires Valid()
      requires item < |displayedIssues|
      modifies this`selectedItems, this`closeButtonEnabled, this`title, this`leftBarTitle
      ensures Valid()
      ensures selectedItems == old(selectedItems) - 1
      ensures isEditing ==> closeButtonEnabled == (selectedItems > 0) && title == SelectedCount(selectedItems)
      ensures !isEditing ==> closeButtonEnabled == old(closeButtonEnabled)
      ensures issueId == displayedIssues[item].issueId
    {
      SetSelectedItems(selectedItems - 1);
      issueId := displayedIssues[item].issueId;
    }
  }

  /** The issue the list shows in a row (`cellForItemAt`). */
  function ShownIssue(displayed: seq<Issue>, filtered: seq<Issue>, filtering: bool, row: nat): (r: Issue)
    requires row < (if filtering then |filtered| else |displayed|)
    ensures filtering ==> r in filtered
    ensures !filtering ==> r in displayed
  {
    if filtering then filtered[row] else displayed[row]
  }

  /**
   * While filtering, the issue opened for a tapped row (the same row of
   * `displayedIssues`) can differ from the one shown there.
   */
  lemma OpenedIssueCanDifferFromShown()
    ensures var a := Issue(1, 9, "A", None);
            var b := Issue(2, 5, "B", None);
            var filtered := SearchResults([a, b], Some(Created), 5, [], true, "");
            && filtered == [b]
            && ShownIssue([a, b], filtered, true, 0) == b
            && [a, b][0].issueId != b.issueId
  {
    var a := Issue(1, 9, "A", None);
    var b := Issue(2, 5, "B", None);
    assert [a, b][1..] == [b];
  }

  /**
   * A refetch while the search result is shown (the one after a swipe-close,
   * say) replaces `displayedIssues` but not `filteredIssues`: the list then
   * shows more rows than `displayedIssues` holds, and tapping or closing the
   * last row indexes past its end.
   */
  method StaleRowsAfterRefetch() returns (rows: nat, displayed: nat)
    ensures rows == 2 && displayed == 1
  {
    var a := Issue(1, 5, "A", None);
    var b := Issue(2, 5, "B", None);
    var screen := new IssueListScreen(5);
    screen.searchActive := true;
    screen.DisplayOpenIssues([a, b]);
    assert ScopeIndex(Created) == 1;
    screen.SelectedScopeButtonIndexDidChange(1);
    assert AllScopes()[1] == Created;
    assert screen.IsSearchBarEmpty();
    FilterKeepsAll([a, b], SearchKeepFn(Some(Created), 5, [], true, ""));
    assert screen.filteredIssues == [a, b];
    screen.DisplayOpenIssues([a]);
    rows := screen.NumberOfItems();
    displayed := |screen.displayedIssues|;
  }
}
