# Swap-site core: matching, store, browsing and item entry

This project models the logic of a clothing-swap web front end, written in Dafny and verified.
Users list clothing items, browse other users' listings, and propose one-to-one swaps.
Almost all of the front end is rendering. Four parts hold logic, and each is a module here:

- **Matcher** (`matcher.dfy`, from `src/components/AIAssistant.jsx:33-89`) is the swap-match scorer and ranker.
  It keeps the catalogue entries that are not the reference item, are still available, and whose `user_id` differs from the current user's id.
  It scores each entry as the sum of four terms: category, size, condition and shared tags.
  It then drops scores of 30 or less, sorts by descending score and keeps the first five.
- **Store** (`store.dfy`, from `src/contexts/ItemContext.tsx`) is the in-memory item and swap-request store.
  It holds the `Item` and `SwapRequest` records and answers the per-user queries.
  The `ItemStore` class keeps the provider's two lists as `seq` fields. Its methods replace those lists the way the React state setters do.
- **Browse** (`browse.dfy`, from `src/pages/BrowseItemsPage.tsx:14-32`) is the browse page's filter over approved items.
  It combines a case-insensitive search with three optional equality selectors.
  It also builds the de-duplicated option lists.
- **AddItem** (`add_item.dfy`, from `src/pages/AddItemPage.tsx:32-90`) is the add-item form.
  It models the field update, the submit handler's validation order, the tag parsing and the item handed to the store.

`builtins.dfy` models the JavaScript built-ins these parts call: `includes`, `toLowerCase`, `trim`, `split` (specified through its inverse `Join`), `indexOf`, `filter`, `find` and `[...new Set(xs)]`.
Each one except `toLowerCase`, which is defined character by character, is proved against an independent description, for example `includes` against "is a contiguous substring".

Ids and timestamps come from the clock in the source (`Date.now()`, `new Date()`). Here they are method parameters, and timestamps are milliseconds as `int`.

## Where the code departs from its evident intent

The model follows the code as written. In five places the code evidently means something cleaner than what it does:

- **Owner filter.** The filter is evidently meant to exclude the signed-in user's own items.
  But the code compares `i.user_id` with `user?.id`, and the store's `Item` keeps its owner in `uploaderId`; it has no `user_id`.
  For store items that comparison is `undefined !== id`. So a signed-in user's own available items can be recommended (`Matcher.OwnerFilterOnStoreItems`).
  With nobody signed in, nothing is recommended (`Matcher.LoggedOutGetsNothing`).
- **Unknown conditions.** The condition scale is evidently meant to give partial credit only to neighbouring labels on the scale.
  But the code compares raw `indexOf` positions, and an unknown label is at -1. So two unknown labels earn 10 points, and so does an unknown label against 'New with tags' (`Matcher.ConditionTerm`, `Matcher.OffScaleLabels`).
  The store and the form use 'Excellent' and 'Very Good'. Neither is on the scale, which spells 'Very good'.
- **Tags.** The variable `commonTags` suggests the tags the two items share.
  But the code counts every entry of the reference list that occurs in the candidate's list, duplicates included (`Matcher.SharedCountVsCommon`, `Matcher.RepeatedTagCountsTwice`).
  The add-item form keeps a tag typed twice (`AddItem.ParseTags`), so such duplicates can reach the store.
- **Ties.** The code sets no tie-break.
  `Array.prototype.sort` is stable, so equal scores keep catalogue order (`Matcher.SortIsStable`, `Matcher.RecommendKeepsCatalogOrder`).
- **Limit.** The limit is fixed at five. There is no `limit` parameter.

## Model

| member | source | states |
|---|---|---|
| `Builtins.IncludesIffOccurs` | src/components/AIAssistant.jsx:46-49 | `s.includes(t)` holds exactly when `t` occurs in `s` at some index |
| `Builtins.Includes` | src/components/AIAssistant.jsx:46-49 | every string includes the empty string, and nothing longer than itself; `Builtins.IncludesIffOccurs` gives the exact meaning |
| `Builtins.IncludesEmptyAndSelf` | src/pages/BrowseItemsPage.tsx:18-20 | every string includes the empty string and itself |
| `Builtins.Lower` | src/pages/BrowseItemsPage.tsx:18-20 | lower-casing keeps the length, maps each character by itself, and leaves no upper-case ASCII letter |
| `Builtins.LowerIdempotent` | src/pages/BrowseItemsPage.tsx:18-20 | lower-casing twice is lower-casing once |
| `Builtins.Trim` | src/pages/AddItemPage.tsx:74 | the result is an infix of the input with no white space at either end, and only white space was cut off on each side |
| `Builtins.TrimAddsNothing` | src/pages/AddItemPage.tsx:74 | trimming introduces no character that was not in the input |
| `Builtins.TrimmedIsFixed` | src/pages/AddItemPage.tsx:74 | a string without white space at its ends is its own trim |
| `Builtins.Split` | src/pages/AddItemPage.tsx:73 | `split(',')` yields at least one piece, no piece holds the separator, and joining the pieces gives back the input |
| `Builtins.SplitJoin` | src/pages/AddItemPage.tsx:73 | splitting a join gives back the pieces when none holds the separator |
| `Builtins.Join` | src/pages/AddItemPage.tsx:73 | the first piece starts the joined string; `Builtins.SplitJoin` makes it the inverse of `split` |
| `Builtins.JoinCountsSeparators` | src/pages/AddItemPage.tsx:73 | joining separator-free pieces puts exactly one separator between each two neighbours |
| `Builtins.IndexOf` | src/components/AIAssistant.jsx:70-73 | `indexOf` is -1 exactly when the value is absent, and otherwise the first index holding it |
| `Builtins.Filter` | src/pages/BrowseItemsPage.tsx:14 | `filter` keeps exactly the elements satisfying the predicate and never lengthens the list |
| `Builtins.FilterIsSubsequence` | src/pages/BrowseItemsPage.tsx:17 | what `filter` keeps is an order-preserving subsequence of its input |
| `Builtins.FilterCounts` | src/pages/AddItemPage.tsx:75 | `filter` keeps each passing element exactly as often as it occurs and drops every failing one |
| `Builtins.Find` | src/contexts/ItemContext.tsx:132-133 | `find` gives nothing exactly when no element satisfies the predicate, otherwise an element of the list that satisfies it |
| `Builtins.FindIsFirst` | src/contexts/ItemContext.tsx:132-133 | what `find` gives is the first element satisfying the predicate |
| `Builtins.Distinct` | src/pages/BrowseItemsPage.tsx:30-32 | `[...new Set(xs)]` has no duplicates, has the same elements as `xs`, and lists them in order of first occurrence |
| `Store.ApplyIdempotent` | src/contexts/ItemContext.tsx:124 | applying a partial update twice is applying it once |
| `Store.StatusPatchOnlyStatus` | src/contexts/ItemContext.tsx:159-160 | the update `{ status }` changes the status and no other field |
| `Store.WithIdentity` | src/contexts/ItemContext.tsx:114-119 | the stored item is the draft plus the given id and timestamp: stripping those two fields gives the draft back |
| `Store.Apply` | src/contexts/ItemContext.tsx:124 | the empty patch leaves the item as it is, and a patch without an id keeps the item's id |
| `Store.UpdatedItems` | src/contexts/ItemContext.tsx:123-125 | the update keeps length and order, patches every item with the id, and leaves every other item unchanged |
| `Store.UpdateIdempotent` | src/contexts/ItemContext.tsx:123-125 | updating a second time with the same id and patch changes nothing, even when the patch rewrites the id |
| `Store.RemovedItems` | src/contexts/ItemContext.tsx:127-129 | deletion keeps exactly the items with another id, every copy of each, as an order-preserving subsequence |
| `Store.DeleteIdempotent` | src/contexts/ItemContext.tsx:127-129 | deleting twice is deleting once |
| `Store.FindItem` | src/contexts/ItemContext.tsx:132-133 | the lookup finds nothing exactly when no item has the id, otherwise the first stored item with that id |
| `Store.FindRequest` | src/contexts/ItemContext.tsx:157 | the lookup finds nothing exactly when no request has the id, otherwise the first stored request with that id |
| `Store.RequestsWithStatus` | src/contexts/ItemContext.tsx:152-154 | every request with the id gets the new status; the others, the length and the order are unchanged |
| `Store.RequestsAfterCreate` | src/contexts/ItemContext.tsx:131-149 | if both item ids are found, exactly one request is appended: pending, with the given id, users, item ids and timestamp, and snapshots of the first stored item with each id; otherwise the list is unchanged |
| `Store.ItemsAfterDecision` | src/contexts/ItemContext.tsx:156-162 | a decision keeps the length and changes an item only by marking it swapped, and only an acceptance changes anything |
| `Store.AcceptSwapsBothItems` | src/contexts/ItemContext.tsx:156-162 | accepting an existing request marks every item carrying its requested or offered id as swapped and leaves all other items, length and order unchanged |
| `Store.RejectLeavesItems` | src/contexts/ItemContext.tsx:156-162 | a rejection, or any decision on an unknown request, leaves the items unchanged |
| `Store.DecisionIgnoresPriorStatus` | src/contexts/ItemContext.tsx:151-163 | the request's earlier status has no effect: re-deciding a decided request changes the items exactly as the first decision would |
| `Store.FindIgnoresStatus` | src/contexts/ItemContext.tsx:152-157 | after a status change the lookup by id finds the same request, carrying the new status |
| `Store.ItemsByUser` | src/contexts/ItemContext.tsx:165-167 | the result holds exactly the items uploaded by the user, every copy of each, in store order |
| `Store.SwapRequestsByUser` | src/contexts/ItemContext.tsx:169-173 | incoming holds exactly the requests addressed to the user and outgoing exactly those the user sent, every copy of each, each in store order |
| `Store.SelfRequestInBoth` | src/contexts/ItemContext.tsx:169-173 | a request a user addressed to themself is both incoming and outgoing |
| `Store.ItemStore.constructor` | src/contexts/ItemContext.tsx:55-112 | the store starts with the three demonstration items and no requests, and its invariant holds |
| `Store.ItemStore.AddItem` | src/contexts/ItemContext.tsx:114-121 | exactly one item is appended, carrying the draft's fields with the given id and timestamp; earlier items and all requests are unchanged |
| `Store.ItemStore.UpdateItem` | src/contexts/ItemContext.tsx:123-125 | the items become the patched list and the requests are unchanged |
| `Store.ItemStore.DeleteItem` | src/contexts/ItemContext.tsx:127-129 | the items become those with another id and the requests are unchanged |
| `Store.ItemStore.CreateSwapRequest` | src/contexts/ItemContext.tsx:131-149 | the items are unchanged, the requests become `Store.RequestsAfterCreate` of the old lists, and every request's snapshots still carry the ids it names |
| `Store.ItemStore.UpdateSwapRequest` | src/contexts/ItemContext.tsx:151-163 | the requests get the decision; on acceptance of an existing request both of its items are marked swapped, otherwise the items are unchanged |
| `Matcher.FromItem` | src/components/AIAssistant.jsx:37 | a store item seen by the assistant has no `user_id` and always has a tag list |
| `Matcher.CategoryTerm` | src/components/AIAssistant.jsx:44-50 | 40 exactly on equal categories, 20 exactly when they differ and either contains the other, 0 exactly otherwise |
| `Matcher.SizeTerm` | src/components/AIAssistant.jsx:52-58 | 30 exactly on equal sizes, 15 exactly when they differ and either contains the other, 0 exactly otherwise |
| `Matcher.LabelTermsSymmetric` | src/components/AIAssistant.jsx:44-76 | the category, size and condition terms do not depend on which item is the reference |
| `Matcher.EmptyLabelIsPartialMatch` | src/components/AIAssistant.jsx:46-49 | an empty category or size earns the partial points against any other label |
| `Matcher.Rank` | src/components/AIAssistant.jsx:63-73 | the scale position is -1 exactly for a label off the scale, and otherwise the index holding the label |
| `Matcher.ScaleRanks` | src/components/AIAssistant.jsx:63-69 | each entry of the scale sits at its own index |
| `Matcher.RankNeighbours` | src/components/AIAssistant.jsx:70-75 | two different labels on the scale are at most one position apart exactly when they are neighbours |
| `Matcher.ConditionTerm` | src/components/AIAssistant.jsx:60-76 | 20 exactly on equal labels; for different labels on the scale, 10 exactly when they are neighbours; two different off-scale labels earn 10; one off-scale label earns 10 exactly when the other is 'New with tags' |
| `Matcher.SharedCount` | src/components/AIAssistant.jsx:79-82 | the number of shared reference tags never exceeds the reference list's length |
| `Matcher.TagTerm` | src/components/AIAssistant.jsx:78-83 | 0 when either tag list is missing, else five times the number of reference entries found in the candidate's list |
| `Matcher.SharedCountVsCommon` | src/components/AIAssistant.jsx:79-83 | the tag count is at least the size of the set intersection and at most the reference length, and equals the intersection size when the reference has no duplicates |
| `Matcher.Score` | src/components/AIAssistant.jsx:40-84 | the score is non-negative and at most 90 plus five per reference tag |
| `Matcher.EligibleItems` | src/components/AIAssistant.jsx:33-38 | holds exactly the entries that are not the reference, are available and whose `user_id` differs from the user's id (undefined on either side included), every copy of each, in catalogue order |
| `Matcher.ScoreAll` | src/components/AIAssistant.jsx:40-86 | each entry is kept unchanged, in order, with its score attached |
| `Matcher.ScoreAllCounts` | src/components/AIAssistant.jsx:40-86 | scoring keeps every copy of each entry and pairs it only with its own score |
| `Matcher.CandidateCount` | src/components/AIAssistant.jsx:33-87 | a match survives eligibility, scoring and the threshold as many times as its entry occurs in the catalogue, or not at all |
| `Matcher.Candidates` | src/components/AIAssistant.jsx:33-87 | holds exactly the eligible catalogue entries scoring above 30, each with its own score and as many times as it occurs in the catalogue, as an order-preserving subsequence of the scored catalogue |
| `Matcher.Insert` | src/components/AIAssistant.jsx:88 | inserting into a list sorted by descending score keeps it sorted, one entry longer, headed by the new entry or the old head |
| `Matcher.InsertPermutes` | src/components/AIAssistant.jsx:88 | inserting adds exactly the new entry and loses none |
| `Matcher.SortByScore` | src/components/AIAssistant.jsx:88 | the sort yields a permutation of its input in non-increasing score order, with the same length and members |
| `Matcher.InsertStable` | src/components/AIAssistant.jsx:88 | for every score, the inserted entry precedes the older entries with that score |
| `Matcher.SortIsStable` | src/components/AIAssistant.jsx:88 | for every score, the entries with that score leave the sort in the order they entered it |
| `Matcher.Recommend` | src/components/AIAssistant.jsx:33-89 | every result is an eligible catalogue entry with its own score above 30; the results are in non-increasing score order; there are min(5, number of candidates) of them |
| `Matcher.PrefixIsTop` | src/components/AIAssistant.jsx:89 | in a list sorted by descending score, nothing after a prefix scores higher than anything in it |
| `Matcher.RecommendIsTop` | src/components/AIAssistant.jsx:87-89 | the results are candidates, no left-out candidate outscores a kept one, and with fewer than five results none was left out |
| `Matcher.RecommendKeepsCatalogOrder` | src/components/AIAssistant.jsx:88-89 | for every score, the kept entries with that score are the first candidates with that score, in catalogue order |
| `Matcher.RecommendExcludesReference` | src/components/AIAssistant.jsx:35-36 | the reference item and unavailable items are never recommended |
| `Matcher.OwnerFilterOnStoreItems` | src/components/AIAssistant.jsx:37 | for a store item that is not the reference and is available, the owner filter passes exactly when someone is signed in, whoever uploaded it |
| `Matcher.LoggedOutGetsNothing` | src/components/AIAssistant.jsx:33-38 | with nobody signed in, nothing from the store is recommended |
| `Matcher.JacketScore` | src/components/AIAssistant.jsx:44-83 | two 'Outerwear', 'M', 'Excellent' items sharing one tag score 95 |
| `Matcher.ConditionScaleSteps` | src/components/AIAssistant.jsx:60-76 | 'New with tags' against 'Very good' earns 0, and 'Like new' against 'Very good' earns 10 |
| `Matcher.OffScaleLabels` | src/components/AIAssistant.jsx:60-76 | 'Excellent' earns 10 against 'Very Good' and against 'New with tags', and 0 against 'Good' |
| `Matcher.RepeatedTagCountsTwice` | src/components/AIAssistant.jsx:79-83 | a tag listed twice in the reference is counted twice |
| `Browse.ApprovedItems` | src/pages/BrowseItemsPage.tsx:14 | holds exactly the approved items, every copy of each, in store order |
| `Browse.FilteredItems` | src/pages/BrowseItemsPage.tsx:16-28 | shows an item exactly when it is approved and passes the search and all three selectors, as many times as it is stored, in order, and never more items than are approved |
| `Browse.MatchesSearch` | src/pages/BrowseItemsPage.tsx:18-20 | an empty query matches every item |
| `Browse.MatchesSelector` | src/pages/BrowseItemsPage.tsx:22-24 | an empty selector admits every value, and a selector always admits the value it names |
| `Browse.Shown` | src/pages/BrowseItemsPage.tsx:17-26 | with no query and no selection an item is shown, and a shown item always matches the search |
| `Browse.SearchIsSubstring` | src/pages/BrowseItemsPage.tsx:18-20 | the search matches exactly when the lower-cased query is a substring of the lower-cased title, description or some tag |
| `Browse.SearchIgnoresCase` | src/pages/BrowseItemsPage.tsx:18-20 | a query and its lower-cased form match the same items |
| `Browse.EmptyFiltersShowAllApproved` | src/pages/BrowseItemsPage.tsx:17-26 | with an empty query and no selection, every approved item is shown |
| `Browse.SelectorMeaning` | src/pages/BrowseItemsPage.tsx:22-24 | an empty selector admits every item, and a non-empty one exactly the items whose field equals it |
| `Browse.Values` | src/pages/BrowseItemsPage.tsx:30-32 | one value per approved item, position by position, so a value is listed exactly when some approved item has it in that field |
| `Browse.Options` | src/pages/BrowseItemsPage.tsx:30-32 | each option list holds each value of the field on an approved item exactly once, in order of first appearance |
| `Browse.CategoryOptions` | src/pages/BrowseItemsPage.tsx:30 | each category of an approved item is offered exactly once |
| `Browse.SizeOptions` | src/pages/BrowseItemsPage.tsx:31 | each size of an approved item is offered exactly once |
| `Browse.ConditionOptions` | src/pages/BrowseItemsPage.tsx:32 | each condition of an approved item is offered exactly once |
| `AddItem.Field` | src/pages/AddItemPage.tsx:15-24 | the form state has a field exactly for its eight keys: the seven text inputs and the uploaded image |
| `AddItem.SetField` | src/pages/AddItemPage.tsx:32-38 | the named field takes the value and every other field is unchanged; an unknown name leaves the form as it was |
| `AddItem.FreshFormIsIncomplete` | src/pages/AddItemPage.tsx:15-24 | the initial, all-empty form fails the required-fields check, so submitting it reports missing fields |
| `AddItem.RequiredFilled` | src/pages/AddItemPage.tsx:59 | the check passes exactly when the form's title, description, category, condition and size fields are all non-empty |
| `AddItem.TrimAll` | src/pages/AddItemPage.tsx:74 | each piece is replaced by its trim, in order |
| `AddItem.ParseTags` | src/pages/AddItemPage.tsx:72-75 | every parsed tag is non-empty, has no white space at its ends and no comma; the tags are an order-preserving subsequence of the trimmed pieces; each non-empty trimmed piece occurs among the tags exactly as often as among the pieces, so a repeated tag is kept |
| `AddItem.NoTagsFromEmptyField` | src/pages/AddItemPage.tsx:72-75 | an empty tag field gives no tags |
| `AddItem.ParseTagsRoundTrip` | src/pages/AddItemPage.tsx:72-75 | clean tags typed as "a, b, c" parse back to exactly those tags |
| `AddItem.NewItem` | src/pages/AddItemPage.tsx:77-90 | the new item's type is the entered type or else the category; it is available and approved, owned by the user, carries the parsed tags, and copies the other fields |
| `AddItem.Submit` | src/pages/AddItemPage.tsx:56-98 | missing required fields stop the submission first, then a missing image; with nobody signed in nothing is added; otherwise exactly one item is appended to the store |

## Left out

- The chat shell of the assistant is left out. That covers the `setTimeout` delays, the random canned replies, the message ids taken from `Date.now()`, scrolling and the "% match" badge. It is presentation only.
- The `setRecommendations` and `setMessages` updates around the ranking are left out. They only hand the result to the view.
- `Builtins.Lower`: models `toLowerCase` on ASCII letters only. Unicode case mapping has no counterpart in Dafny's `char`.
- `Builtins.Trim` uses the ECMAScript white-space and line-terminator set, written as a fixed list of characters. Any later Unicode additions to that category are not tracked.
- `Store.ItemStore.AddItem` and `Store.ItemStore.CreateSwapRequest` take the id and timestamp as parameters. The source reads them from the clock, so they are not proved unique.
- React re-rendering and stale closures are not modelled. Each store operation is one sequential step on the current state. Two `updateItem` calls inside `updateSwapRequest` are applied one after the other.
- The image upload through `FileReader` (`src/pages/AddItemPage.tsx:40-54`) is file I/O. Its effect on the form is the same as `AddItem.SetField` with the name "image".
- `setIsLoading`, the toast messages and the navigation after a submit are presentation. `AddItem.Submit` returns which message would be shown instead.
- Item fields that the matcher never reads are not carried in `Matcher.Listing`. In the source, `{ ...availableItem, matchScore }` passes them through unchanged.
- `src/pages/SwapRequestModel.jsx` is not part of this model. It talks to a remote database and does not parse as written.
- `src/contexts/AuthContext.tsx` is not part of this model. Its session storage and simulated login are a stub. The signed-in user is a parameter.
- The one-line list filters of the admin, landing, dashboard and swap-modal pages are not modelled. They are view code over the same lists.
