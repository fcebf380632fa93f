# Issue tracker client: filter pipeline, label reducer and colour helpers

This project is a Dafny model of the parts of the IssueTracker client that
contain logic:

- **The mobile issue list screen** (`IssueList.IssueListScreen`). It holds the
  fetched issues (`displayedIssues`), the search result (`filteredIssues`),
  the shared comment list, the per-category filter selection (`filterDict`)
  and the edit-mode selection counter.
  - The **scope predicate** sorts issues into All / Created / Assigned /
    Commented for the signed-in user.
  - The **search** keeps the issues in scope whose lower-cased title contains
    the lower-cased query.
  - The **filter menu** toggles one id per category. It then runs a
    destructive author pass that overwrites the displayed list.
  - The **row count** switches between the two lists.
  - The **edit mode** keeps a selection counter that drives the close
    button, the header and the left bar button.
- **The scope and category enumerations** (`FilterModel`). These are
  string-backed Swift enums: their raw values, `init(rawValue:)`,
  `allCases`, and the scope-button titles built from them.
- **The label reducer** (`LabelReducer`). SET_INIT_DATA replaces the state,
  DELETE_LABEL filters a label out by id, and `newReducer` opens the new-label tab.
- **The colour helpers** (`Color`).
  - `isValidColor` is modelled as an anchored, case-insensitive regular
    expression.
  - `parseInt(…, 16)` and `substring` follow JavaScript's definitions, with
    two differences. Strings are indexed by Unicode scalar values, not UTF-16
    code units. `parseInt` returns the exact integer, not a double rounded
    above 2^53.
  - The black/white font choice compares the three channels against the
    threshold.

The modelled code keeps three quirks, as written:
- Assigned compares only the first assignee.
- Commented reads one shared comment list, whatever the issue.
- Only the Author selection takes part in the category pass.

The signed-in user's id is a constructor parameter. The source reads it from
the user defaults.

Dismissing the search (`didDismissSearchController`, IssueListViewController.swift
lines 384-389) re-fetches the issues and leaves `filterDict` as it is.

## Model

| member | source | states |
|---|---|---|
| `Seqs.Filter` | IssueTracker/IssueTracker/Scenes/IssueList/IssueListViewController.swift:536-543 | `Array.filter`: the result has each element with its input multiplicity when the predicate holds and none otherwise, contains exactly the kept elements, is an order-preserving subsequence, and is no longer than the input |
| `FilterModel.ScopeRawValue` | IssueTracker/IssueTracker/Scenes/Filter/FilterMdoel.swift:10-15 | each scope's raw value is its own case name |
| `FilterModel.CategoryRawValue` | IssueTracker/IssueTracker/Scenes/Filter/FilterMdoel.swift:17-22 | each category's raw value is its own case name |
| `FilterModel.AllScopes` | IssueTracker/IssueTracker/Scenes/Filter/FilterMdoel.swift:10-15 | `allCases` has four entries, lists every case exactly once, and puts each case at its declaration position |
| `FilterModel.ScopeFromRawValue` | IssueTracker/IssueTracker/Scenes/Filter/FilterMdoel.swift:10-15 | `init(rawValue:)` returns `s` exactly when the string is `s`'s raw value (its own name); any other string yields nil |
| `FilterModel.ScopeButtonTitles` | IssueTracker/IssueTracker/Scenes/IssueList/IssueListViewController.swift:240 | one title per case; reading title `i` back through `init(rawValue:)` gives the `i`-th case of `allCases` |
| `FilterModel.ScopeButtonZeroIsAll` | IssueTracker/IssueTracker/Scenes/Filter/FilterMdoel.swift:11 | the scope at button `i` is All exactly when `i` is 0 |
| `FilterModel.UnknownScopeNameIsNil` | IssueTracker/IssueTracker/Scenes/Filter/FilterMdoel.swift:10-15 | a string that is not a scope-button title maps to nil |
| `FilterModel.CategoryFromRawValue` | IssueTracker/IssueTracker/Scenes/Filter/FilterMdoel.swift:17-22 | `FilterCategory(rawValue:)` returns `c` exactly when the string is `c`'s own name |
| `FilterModel.AllCategories` | IssueTracker/IssueTracker/Scenes/Filter/FilterMdoel.swift:17-22 | the category set contains every case and has four distinct members |
| `FilterModel.InitialFilterDict` | IssueTracker/IssueTracker/Scenes/IssueList/IssueListViewController.swift:45 | the initial filter map has exactly the four categories as keys, each unselected (0) |
| `IssueList.ScopeMatches` | IssueTracker/IssueTracker/Scenes/IssueList/IssueListViewController.swift:347-371 | the per-scope test: nil rejects, All accepts, Created compares the author, Assigned the first assignee, Commented searches the shared comment list for the user |
| `IssueList.ScopeBasics` | IssueTracker/IssueTracker/Scenes/IssueList/IssueListViewController.swift:347-353 | no scope rejects every issue; All accepts every issue; Created accepts exactly the issues authored by the user |
| `IssueList.AssignedSeesFirstAssigneeOnly` | IssueTracker/IssueTracker/Scenes/IssueList/IssueListViewController.swift:354-360 | Assigned rejects a nil or empty assignee list; two issues with the same first assignee get the same answer |
| `IssueList.CommentedIgnoresTheIssue` | IssueTracker/IssueTracker/Scenes/IssueList/IssueListViewController.swift:361-369 | Commented answers the same for every issue, and false when the comment list is empty |
| `IssueList.IssueListScreen.FilterMatchingScope` | IssueTracker/IssueTracker/Scenes/IssueList/IssueListViewController.swift:347-371 | the method's answer equals the scope predicate: its search of the shared comment list returns true exactly when some comment is by the user |
| `IssueList.Contains` | IssueTracker/IssueTracker/Scenes/IssueList/IssueListViewController.swift:341 | `String.contains` as a left-to-right scan over Unicode scalar values, with no canonical equivalence; it holds only when the query is no longer than the title, and always for an empty query |
| `IssueList.ContainsIffOccurs` | IssueTracker/IssueTracker/Scenes/IssueList/IssueListViewController.swift:341 | the title-contains test holds exactly when the query occurs at some position of the title |
| `IssueList.SearchResultsSpec` | IssueTracker/IssueTracker/Scenes/IssueList/IssueListViewController.swift:335-345 | the search result is an order-preserving subsequence of the issues. It keeps every occurrence of an issue in scope (empty bar), or in scope and with a matching title (non-empty bar), and nothing else |
| `IssueList.AllScopeKeepsEverything` | IssueTracker/IssueTracker/Scenes/IssueList/IssueListViewController.swift:335-350 | with scope All and an empty bar the search returns the issue list unchanged |
| `IssueList.NoScopeHidesEverything` | IssueTracker/IssueTracker/Scenes/IssueList/IssueListViewController.swift:335-348 | with no scope the search returns nothing |
| `IssueList.SearchIsCaseInsensitive` | IssueTracker/IssueTracker/Scenes/IssueList/IssueListViewController.swift:341 | titles and queries that agree after lower-casing get the same answer |
| `IssueList.BugFindsBugReport` | IssueTracker/IssueTracker/Scenes/IssueList/IssueListViewController.swift:341 | the query "bug" matches the title "Bug report" |
| `IssueList.SearchExamples` | IssueTracker/IssueTracker/Scenes/IssueList/IssueListViewController.swift:335-353 | on two issues, Created with an empty bar keeps the user's issue, and All with "typo" keeps the "Typo" issue |
| `IssueList.IssueListScreen.FilterContentForSearchText` | IssueTracker/IssueTracker/Scenes/IssueList/IssueListViewController.swift:335-345 | the loop stores the search result of the displayed issues in `filteredIssues`, using the bar's emptiness and the given query |
| `IssueList.IssueListScreen.UpdateSearchResults` | IssueTracker/IssueTracker/Scenes/IssueList/IssueListViewController.swift:329-333 | the scope read back from the selected button's title is that button's case, so the result is the search for that scope |
| `IssueList.IssueListScreen.SelectedScopeButtonIndexDidChange` | IssueTracker/IssueTracker/Scenes/IssueList/IssueListViewController.swift:394-400 | a new scope index re-runs the search with the case at that index |
| `IssueList.Toggled` | IssueTracker/IssueTracker/Scenes/IssueList/IssueListViewController.swift:511-533 | pressing the current id clears the category to 0, any other id selects it; the keys and the other categories are unchanged |
| `IssueList.ToggleTwiceFromUnselected` | IssueTracker/IssueTracker/Scenes/IssueList/IssueListViewController.swift:511-533 | starting from 0, pressing the same id twice restores the whole map |
| `IssueList.ToggleTwiceClears` | IssueTracker/IssueTracker/Scenes/IssueList/IssueListViewController.swift:511-533 | pressing an id other than the current selection twice leaves the category at 0 |
| `IssueList.IssueListScreen.FilterMenuPressed` | IssueTracker/IssueTracker/Scenes/IssueList/IssueListViewController.swift:511-535 | a missing key changes nothing. Otherwise the map is toggled and both lists become the author pass over the old displayed list; the screen invariant is kept |
| `IssueList.CompareOptionWithFilterDict` | IssueTracker/IssueTracker/Scenes/IssueList/IssueListViewController.swift:545-554 | false when a category key is missing; otherwise only a positive Author entry is compared, with the issue's author |
| `IssueList.AuthorFilterMembership` | IssueTracker/IssueTracker/Scenes/IssueList/IssueListViewController.swift:545-554 | an issue survives the author pass exactly when it was present and no author is selected (the entry is not > 0) or it is that author's; the result is a subsequence |
| `IssueList.OnlyAuthorSelectionApplies` | IssueTracker/IssueTracker/Scenes/IssueList/IssueListViewController.swift:545-553 | maps that agree on Author give the same result, whatever their Label, Milestone and Assignee entries |
| `IssueList.NoAuthorKeepsAll` | IssueTracker/IssueTracker/Scenes/IssueList/IssueListViewController.swift:545-553 | with no author selected the pass keeps the list unchanged |
| `IssueList.AuthorPassesCompound` | IssueTracker/IssueTracker/Scenes/IssueList/IssueListViewController.swift:537-543 | the pass is destructive: two different authors in a row leave nothing, and clearing the selection afterwards does not restore the dropped issues |
| `IssueList.IssueListScreen.FilterIssues` | IssueTracker/IssueTracker/Scenes/IssueList/IssueListViewController.swift:537-543 | `filteredIssues` becomes the author pass over the previous displayed list, and `displayedIssues` is overwritten with it |
| `IssueList.IssueListScreen.IsSearchBarEmpty` | IssueTracker/IssueTracker/Scenes/IssueList/IssueListViewController.swift:71-73 | the search bar counts as empty when its text is nil or "" |
| `IssueList.IssueListScreen.IsFiltering` | IssueTracker/IssueTracker/Scenes/IssueList/IssueListViewController.swift:74-77 | for an in-range scope index: filtering holds exactly when search is active and there is a query or the selected scope is not All |
| `IssueList.IssueListScreen.NumberOfItems` | IssueTracker/IssueTracker/Scenes/IssueList/IssueListViewController.swift:565-570 | inactive search counts the displayed issues. Active search with a query or a non-zero scope index counts the filtered issues. Active search with neither counts the displayed issues |
| `IssueList.IssueListScreen.constructor` | IssueTracker/IssueTracker/Scenes/IssueList/IssueListViewController.swift:38-45 | a fresh screen has empty lists, the initial filter map, an inactive search on scope 0, normal mode and a zero counter |
| `IssueList.IssueListScreen.DisplayOpenIssues` | IssueTracker/IssueTracker/Scenes/IssueList/IssueListViewController.swift:256-259 | a fetched issue list replaces the displayed one |
| `IssueList.IssueListScreen.DisplayFetchedComment` | IssueTracker/IssueTracker/Scenes/IssueList/IssueListViewController.swift:273-275 | a fetched comment list replaces the shared one |
| `IssueList.IssueListScreen.SetSelectedItems` | IssueTracker/IssueTracker/Scenes/IssueList/IssueListViewController.swift:57-70 | setting the counter in edit mode enables the close button iff the new count is > 0. It shows "n Selected" and names the left button Deselect All or Select All. Outside edit mode nothing else changes |
| `IssueList.IssueListScreen.SelectAllItems` | IssueTracker/IssueTracker/Scenes/IssueList/IssueListViewController.swift:146-152 | the counter becomes the row count, the close button is enabled iff there are rows, and the header shows the new count |
| `IssueList.IssueListScreen.DeselectAllItems` | IssueTracker/IssueTracker/Scenes/IssueList/IssueListViewController.swift:154-161 | after counting down once per row the counter is reset to 0 and the close button is disabled |
| `IssueList.IssueListScreen.OnNavigationLeftBarBtnPressed` | IssueTracker/IssueTracker/Scenes/IssueList/IssueListViewController.swift:121-126 | in edit mode: deselects all when the counter is positive, otherwise selects all, and the header shows the new count; outside edit mode the counter and the close button are unchanged |
| `IssueList.IssueListScreen.SetupNormalMode` | IssueTracker/IssueTracker/Scenes/IssueList/IssueListViewController.swift:209-218 | the counter is zeroed, the header reads "Issue" and the left button is blank |
| `IssueList.IssueListScreen.SetupEditMode` | IssueTracker/IssueTracker/Scenes/IssueList/IssueListViewController.swift:220-231 | close button disabled, header "0 Selected", left button "Select All"; the counter itself is not reset |
| `IssueList.IssueListScreen.OnEditButtonPressed` | IssueTracker/IssueTracker/Scenes/IssueList/IssueListViewController.swift:116-119 | edit mode flips. Leaving it zeroes the counter. Entering it disables the close button. Both keep the screen invariant: in edit mode the close button is enabled iff the counter is > 0 |
| `IssueList.IssueListScreen.DidSelectItem` | IssueTracker/IssueTracker/Scenes/IssueList/IssueListViewController.swift:604-613 | in edit mode a selection adds 1 to the counter and the close button and header follow it; otherwise the counter and close button are unchanged and it opens the issue at that row of `displayedIssues` |
| `IssueList.IssueListScreen.DidDeselectItem` | IssueTracker/IssueTracker/Scenes/IssueList/IssueListViewController.swift:615-619 | in edit mode a deselection subtracts 1 and the close button and header follow the new count; otherwise the counter and close button are unchanged |
| `IssueList.IssueListScreen.CloseIssue` | IssueTracker/IssueTracker/Scenes/IssueList/IssueListViewController.swift:312-316 | closing a row decrements the counter in either mode and names that row's issue in `displayedIssues`; in edit mode the close button and header follow the new count, otherwise the close button is unchanged |
| `IssueList.OpenedIssueCanDifferFromShown` | IssueTracker/IssueTracker/Scenes/IssueList/IssueListViewController.swift:604-613 | while filtering, row 0 can show one issue while a tap on it opens another: row 0 of `displayedIssues` |
| `IssueList.ShownIssue` | IssueTracker/IssueTracker/Scenes/IssueList/IssueListViewController.swift:578-580 | the issue a row shows comes from `filteredIssues` while filtering and from `displayedIssues` otherwise |
| `IssueList.StaleRowsAfterRefetch` | IssueTracker/IssueTracker/Scenes/IssueList/IssueListViewController.swift:277-279 | a refetch while the Created scope is shown leaves two rows on screen over a one-issue `displayedIssues`, so the last row's tap or close reads past its end |
| `LabelReducer.WithoutLabel` | Client/src/reducers/labelReducer.js:7 | no remaining label has the payload id, every label with a different id stays, and the result is a subsequence of the input |
| `LabelReducer.LabelReducer` | Client/src/reducers/labelReducer.js:1-12 | SET_INIT_DATA returns the payload. DELETE_LABEL returns the order-preserving sublist of labels whose id differs from the payload. Any other type returns undefined |
| `LabelReducer.SetInitDataIgnoresState` | Client/src/reducers/labelReducer.js:3-4 | SET_INIT_DATA gives the same result whatever the previous labels |
| `LabelReducer.DeleteLabelSpec` | Client/src/reducers/labelReducer.js:6-7 | after deleting an id no label has it, every other label keeps its multiplicity, and the order is preserved |
| `LabelReducer.DeleteLabelIdempotent` | Client/src/reducers/labelReducer.js:7 | deleting twice equals deleting once |
| `LabelReducer.DeleteAbsentLabel` | Client/src/reducers/labelReducer.js:7 | deleting an id no label has leaves the list unchanged |
| `LabelReducer.NonNumericPayloadDeletesNothing` | Client/src/reducers/labelReducer.js:7 | under strict inequality a payload that is not a number deletes nothing |
| `LabelReducer.NewReducer` | Client/src/reducers/labelReducer.js:14-21 | the result is true exactly for NEW_LABEL_TAB_OPEN and undefined for every other type |
| `Color.MatchesAnchoredPointwise` | Client/src/utils/color.js:17 | an anchored pattern of single-character atoms matches exactly the strings of the same length whose every character matches the atom at its position |
| `Color.HexClassMatchesHexDigits` | Client/src/utils/color.js:17 | under the i flag the class `[0-9A-F]` matches exactly the hex digits of either case |
| `Color.ColorPatternMeaning` | Client/src/utils/color.js:17 | the anchored pattern `^#[0-9A-F]{6}$` with the i flag matches exactly `#` followed by six hex digits of either case |
| `Color.IsValidColor` | Client/src/utils/color.js:16-21 | a colour is valid exactly when it has length 7, starts with `#` and the other six characters are hex digits |
| `Color.ValidityIgnoresCase` | Client/src/utils/color.js:17 | upper-casing a string does not change its validity |
| `Color.ValidityExamples` | Client/src/utils/color.js:16-21 | `#AABBCC` and `#aabbcc` are valid. `AABBCC`, `#ZZZZZZ` and codes with an extra leading or trailing character are rejected |
| `Color.ParseIntHex` | Client/src/utils/color.js:2-4 | `parseInt(s, 16)`: skip leading white space, optional sign, optional `0x`, longest hex run, NaN as None; any number it yields has absolute value below 16^|s| |
| `Color.Substring` | Client/src/utils/color.js:2-4 | `substring(start, end)`: clamped and swapped indices; never longer than the string or than `end - start`, and the plain slice when both indices are in range |
| `Color.Channel` | Client/src/utils/color.js:2-4 | a channel parsed from any string, valid or not, is NaN or has absolute value below 256 |
| `Color.ParseTwoHexDigits` | Client/src/utils/color.js:2-4 | `parseInt(…, 16)` of a two-hex-digit string is 16·hi + lo, at most 255 |
| `Color.ValidColorChannel` | Client/src/utils/color.js:2-4 | for a valid colour, the channel parsed at 1, 3 or 5 equals 16·hi + lo of its two digits and lies in 0..255 |
| `Color.LeadingHexDigits` | Client/src/utils/color.js:2-4 | `parseInt(…, 16)` reads the longest prefix of hex digits: every character of it is a hex digit and the next character is not |
| `Color.HexValue` | Client/src/utils/color.js:2-4 | the value of `n` hex digits is below 16^n |
| `Color.ValidColorChannels` | Client/src/utils/color.js:2-4 | for a valid colour the red, green and blue channels parse to 16·hi + lo of their digit pairs |
| `Color.GetFontColor` | Client/src/utils/color.js:1-9 | the result is "black" or "white"; for a valid colour it is "black" exactly when 299·r + 587·g + 114·b ≥ 127500 |
| `Color.FontColorExamples` | Client/src/utils/color.js:1-9 | `#FFFFFF` gets black and `#000000` gets white |

## Left out

- Network requests are not modelled: fetching issues, users, labels, milestones and comments, and the open/close requests. Their results enter the model only through `DisplayOpenIssues` and `DisplayFetchedComment`.
- IssueList.IssueListScreen.FilterMatchingScope: does not model the comment request the source sends for each comment it examines in the Commented branch. That request is asynchronous and cannot change the answer of the call that sends it.
- IssueList.IssueListScreen.SelectAllItems: does not model selecting each cell of the collection view; only the counter and the buttons are modelled.
- The collection view's own selection, reloading, cell configuration, swipe actions, context menus, segue routing, tab-bar frames and other presentation are not modelled. Of `cellForItemAt`, only the choice of list is kept, as `ShownIssue`.
- `didDismissSearchController` only re-fetches and toggles visibility, so it is not modelled.
- Lower-casing is ASCII only. Unicode case mapping, as done by Swift's `lowercased()`, is not modelled.
- IssueList.Contains: an empty query counts as contained. Foundation's `contains` says false for an empty string. The difference is never reached, because an empty search bar short-circuits the test and the callers pass the bar's own text.
- IssueList.Contains: titles and queries are compared Unicode scalar by scalar value. Swift's `contains` (through Foundation's `range(of:)`, without the literal option) treats canonically equivalent text as equal. So "cafe\u{301}" (e plus a combining acute accent) contains "caf\u{E9}" (precomposed é) in the source, and not here.
- The signed-in user id comes from the user defaults in the source. Here it is a constructor parameter.
- Issues keep only their id, author, title and assignees' user ids. Labels keep only id, name and colour. Other fields are never read by the modelled code.
- LabelReducer.LabelReducer: assumes the previous state is an array of labels.
- Color.GetFontColor: assumes a string argument. For any other value `color.substring` throws a TypeError in the source.
- Color.ParseIntHex: returns the exact integer. JavaScript's `parseInt` returns a Number, so a value above 2^53 is rounded to the nearest double. For example, `parseInt("ffffffffffffff", 16)` is 2^56 there and 2^56 − 1 here, and the bound below 16^|s| then fails for the source's result. `Channel` passes at most two characters, so the font colour never reaches this case.
- Color.IsValidColor: assumes a string argument. `RegExp.exec` would first convert any other value to a string.
- Color.GetFontColor: compares 299·r + 587·g + 114·b ≥ 127500 exactly. The source evaluates `(r·0.299 + g·0.587 + b·0.114) / 255 >= 0.5` in IEEE double arithmetic. Exactly 114 valid colours have a weighted sum of exactly 127500. For 44 of them the double expression is 0.49999999999999994, so the source returns 'white' where the model returns "black". #00CC44 is one of them. Every other colour gets the same answer.
- Color.GetFontColor: strings are indexed by Unicode scalar values, not UTF-16 code units. For an invalid code that starts with a character outside the Basic Multilingual Plane, such as "\u{1F600}FFFFFF", JavaScript's `substring(1, 3)` splits a surrogate pair and `parseInt` gives NaN, hence 'white'. The model reads "FF" there and answers "black". Valid colours are ASCII and unaffected.
- IssueList.IssueListScreen.DidSelectItem: the out-of-range row `displayedIssues[indexPath.row]` (IssueListViewController.swift:609) is a crash in the source and a precondition here. `StaleRowsAfterRefetch` shows that such a row can be on screen.
- IssueList.IssueListScreen.CloseIssue: the out-of-range row `displayedIssues[indexPath.item]` (IssueListViewController.swift:314) is a crash in the source and a precondition here.
- IssueList.IssueListScreen.UpdateSearchResults: the force-unwrapped `searchBar.text!` (IssueListViewController.swift:332) is a precondition here, as is the selected button index being in range.
- IssueList.IssueListScreen.SelectedScopeButtonIndexDidChange: the force-unwrapped `searchBar.text!` (IssueListViewController.swift:399) is a precondition here, as is the index being in range.
- IssueList.IssueListScreen.FilterMenuPressed: the `print` of the pressed id (IssueListViewController.swift:514, 519, 524, 529) is console output and not modelled. The screen invariant is promised only when it held before, because a screen whose map lacks the key keeps its lists as they were.
- `getRandomColor` depends on randomness and is not modelled.
- `parseInt` returning `-0` is modelled as 0.
- `LoginStore.jsx` (an authentication request plus React state) is not modelled.
- The page components `IssuePage.jsx`, `LabelPage.jsx` and `issueList.jsx` only render and compose providers, so they are not modelled.
- `MilestoneListModels.swift` only declares data-transfer structs, so it is not modelled.
