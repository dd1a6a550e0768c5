# selection-walker: the match index and hover engine, in Dafny

selection-walker highlights ranges of text ("matches") that a user-supplied matcher finds
in a page, and reports the match under the mouse cursor through a `hover` callback.
This project models the part of it that keeps those matches: the index from a target
element to its ordered list of matches, the rcid bookkeeping that ties anchors to
targets, the subtree walk that strips matches, the routing of mutation records, the
value-node (form control) handling and the single-slot hover state machine. Both
`MatchObserver` and its earlier copy `MatchWalker` are modelled, together with
`MatchObject`, the helpers in `utilities.ts` and the two keyed stores `DataSet` and
`DataManager`.

The DOM is reduced to what the core reads and writes:
- `Dom.Tree` is the page's structure: node kinds and tag names, parents, child lists in
  document order, depths, text and the document node.
- `Dom.Document` holds that tree and the two things the core writes onto nodes: the
  `rcid` attribute of elements (`attr`) and the linked-rcid property `lrcid` of any node
  (`linked`).
- `Dom.Preorder` stands in for the TreeWalker.
- `Dom.FirstWithAttr` stands in for `querySelector('[rcid="…"]')`.

Modules, one per concern:
- `Wrappers`: `Option`, `Result`, `Outcome` and the errors the source throws.
- `Dom`: the document, ancestor chains, the common ancestor of two nodes, preorder
  enumeration.
- `Utilities`: `nextId`, `getRcId`, `getEventElement`, `isValueNode`, `queryValueNodes`,
  `upFirstValueNode`, `throttled`.
- `DataSets`, `DataManagers`: the two stores, as classes whose methods update a `map`.
- `MatchObjects`: construction checks, anchor linking, the memoised event target,
  `isMatch`, `contains`, the getters and `buildRect`.
- `IndexSpec`: the index as a value (`IndexState`) and what `addMatch`, `removeMatch`,
  `stripMatches`, `observeValueNode`, `showHovered`, `hideHovered` and `matchRect` do to
  it. This is where the lemmas about those operations live.
- `Mutations`: mutation records and where the MutationObserver callback routes each one.
- `MatchIndexes`: class `MatchIndex`, the state and methods the two observer classes
  share: `_matchesSet`, `_lastHovered`, the listener sets, the tree walk, and the
  mutation callback loop. Every method is proved to move `Abs()` (the `IndexState`) and
  `Hover()` exactly as the `IndexSpec` functions say, and to keep `Valid()`.
- `MatchObservers`, `MatchWalkers`: the two public classes, each owning a `MatchIndex`.
  `MatchWalker` repeats the index code of `MatchObserver` (src/MatchWalker.ts:79-113,
  196-222, 270-284), so the table cites the `MatchObserver` copy for the shared members.

Invariants kept by every `MatchIndex` method (`IndexSpec.Consistent`, `Listening`,
`HoverLogged`):
- no entry of the store is empty;
- every match is stored under its target's rcid;
- rcids are unique, non-empty and never "null", and every rcid of the form `"r"` + a
  number has a number below the counter, so the counter never hands out one in use (ids of
  other forms, set by the page, are allowed);
- every target with an entry carries the mouse listeners;
- the log of `hover` calls never reports the same thing twice in a row and ends with
  the hovered match.

A value node (an INPUT, TEXTAREA or SELECT) is searched again on every change to it, and
the matches found are added only when the node has no matches of its own. When one of
them targets the node itself, the same result on the next change does nothing
(`IndexSpec.ValueNodeAddSettles`). When they all target other nodes, such as the OPTIONs
of a SELECT, the node still has no entry, so every later change with the same result adds
them again (`IndexSpec.ValueNodeAddRepeats`).

## Model

| member | source | states |
|---|---|---|
| Dom.ParentElement | src/utilities.ts:29 | `parentElement` is the parent when that is an element, null otherwise |
| Dom.AncestorsTransitive | src/MatchObject.ts:45-46 | being an inclusive ancestor is transitive, so the common ancestor container is an ancestor of both anchors |
| Dom.TopOfAncestor | src/MatchObject.ts:45-46 | a node and any of its ancestors lie in the same tree |
| Dom.FirstShared | src/MatchObject.ts:46 | the first node of one ancestor chain that also lies on the other, with none before it; none when the chains are disjoint |
| Dom.CommonAncestor | src/MatchObject.ts:45-46 | `commonAncestorContainer` is an inclusive ancestor of both anchors, and is the node itself when both anchors are the same node |
| Dom.CommonAncestorInSameTree | src/MatchObject.ts:45-46 | two nodes in the same tree always have a common ancestor |
| Dom.Preorder | src/MatchObserver.ts:122-123 | the tree walk starts at the node itself and visits only nodes of the document |
| Dom.FirstWithAttr | src/MatchObserver.ts:131-139 | `querySelector` returns an element in scope carrying the rcid, or null exactly when no element in scope carries it |
| Utilities.DecimalString | src/utilities.ts:8 | `toString()` of a counter value is non-empty, and has at least two digits from 10 on |
| Utilities.DecimalStringInjective | src/utilities.ts:5-10 | different counter values print differently |
| Utilities.PrefixedIdInjective | src/utilities.ts:18 | `"r" + nextId()` ids from different counter values differ |
| Utilities.IdSource.NextId | src/utilities.ts:5-10 | returns the counter value as a string and increments the counter by one |
| Utilities.EnsureId | src/utilities.ts:16-21 | an element with a truthy id keeps it; otherwise it gets `"r" + counter` and the counter moves on; no other element's id changes |
| Utilities.EnsureIdStable | src/utilities.ts:12-22 | a second get-or-create returns the same id and writes nothing |
| Utilities.IdsDistinct | src/utilities.ts:17-19 | two elements without ids, given ids in turn, get different ids and the counter advances by two |
| Utilities.GetRcId | src/utilities.ts:12-22 | throws on null; with `createNew=false` reads the attribute and writes nothing; with `createNew=true` returns the get-or-create id |
| Utilities.EventElement | src/utilities.ts:24-31 | the node itself when it is an element, else its parent when that is an element, else null |
| Utilities.WithTag | src/utilities.ts:64 | keeps exactly the elements of the given tag |
| Utilities.SelectGrouped | src/utilities.ts:63-65 | the concatenated `querySelectorAll` results hold exactly the descendants whose tag is in the list |
| Utilities.QueryValueNodes | src/utilities.ts:58-68 | `[node]` for a value node; otherwise the value-node descendants grouped INPUT, SELECT, TEXTAREA, and every value-node descendant is in the result |
| Utilities.SelectGroupedValueNodes | src/utilities.ts:54-68 | the grouped selection over INPUT, SELECT and TEXTAREA finds exactly the value-node descendants |
| Utilities.IsValueNode | src/utilities.ts:54-56 | the element's tag is INPUT, SELECT or TEXTAREA |
| Utilities.FirstValueUp | src/utilities.ts:70-84 | the first value element among the node and the nodes above it, looking at `levels` nodes at most |
| Utilities.FirstValueUpMeaning | src/utilities.ts:70-84 | the answer is a value element met within `levels` steps up with none before it, or null when there is none within `levels` steps |
| Utilities.UpFirstValueNode | src/utilities.ts:70-84 | the loop computes `FirstValueUp`: the first value element among the node and its next `levels - 1` ancestors, or null |
| Utilities.InvokedSpaced | src/utilities.ts:86-96 | accepted calls are at least `delay` apart, and the first is at least `delay` after the initial `lastCall` |
| Utilities.InvokedSnoc | src/utilities.ts:90-94 | a new call is accepted exactly when it comes `delay` or more after the last accepted one |
| Utilities.Throttled.constructor | src/utilities.ts:86-87 | starts with `lastCall = 0` and nothing invoked |
| Utilities.Throttled.Call | src/utilities.ts:88-95 | accepts exactly when `now - lastCall >= delay`; only an accepted call updates `lastCall` and invokes `func` |
| DataSets.GetKey | src/DataSet.ts:6-8 | the key `get` reads: a string as is, an element's rcid, or "null" for an element without one |
| DataSets.SetKey | src/DataSet.ts:12 | a string key is used as is; an element key is its rcid, created if missing, and no other element's id changes |
| DataSets.DataSet.constructor | src/DataSet.ts:4 | the store starts empty |
| DataSets.DataSet.Get | src/DataSet.ts:6-9 | the stored value under the key, or `defVal` when the key is absent; never writes an id |
| DataSets.DataSet.Find | src/DataSet.ts:6-9 | `get` without a default: null exactly when the key is absent |
| DataSets.DataSet.Set | src/DataSet.ts:11-14 | stores under the key (creating an element's rcid), leaves other keys alone, adds the key to `keys()`, and a following `get` returns the value |
| DataSets.DataSet.Keys | src/DataSet.ts:16-18 | the keys with an entry |
| DataSets.DataSet.Clear | src/DataSet.ts:16-22 | afterwards `keys()` is empty and every `get` returns its default |
| DataSets.DataSet.Remove | src/MatchObserver.ts:112 | drops exactly the key's entry; a following `get` returns the default |
| DataSets.ElementWithoutIdReadsNull | src/DataSet.ts:7-8 | an element without an rcid reads the entry stored under the string "null" |
| DataManagers.DataManager.constructor | src/DataManager.ts:4-5 | starts with an empty store over the shared counter |
| DataManagers.DataManager.GetId | src/DataManager.ts:7-14 | with `createNew=false` never writes; with `createNew=true` keeps an existing id or writes the counter value and increments the counter |
| DataManagers.DataManager.Get | src/DataManager.ts:16-19 | `defVal` when the element has no id; otherwise the stored value, or undefined when nothing is stored under the id |
| DataManagers.DataManager.Set | src/DataManager.ts:21-24 | stores under the (created if needed) id, other ids unchanged, and `get` then returns the value |
| DataManagers.SetsOnFreshElementsDoNotCollide | src/DataManager.ts:5-12 | two fresh elements get distinct ids, so setting the second does not overwrite the first |
| MatchObjects.PositionOf | src/MatchObject.ts:22-35 | the DOM standard's position of one boundary point relative to another in the same tree: offsets decide on one node, tree order and child indexes otherwise |
| MatchObjects.AnchorPoint | src/MatchObject.ts:22-35 | an element anchor is set before (start) or after (end) itself at its index in its parent, and throws `InvalidNodeTypeError` without a parent; any other anchor is set inside itself at its offset taken modulo 2^32, and throws `IndexSizeError` when that exceeds the node's length |
| MatchObjects.AnchorPointAbove | src/MatchObject.ts:22-35 | a boundary point set at an anchor lies in the anchor or in one of its ancestors |
| MatchObjects.RangeAncestor | src/MatchObject.ts:22-47 | `commonAncestorContainer` once both boundaries are set: the end container when the range collapsed onto its end (end in another tree or before the start), otherwise the nearest common ancestor of the two containers; a failing start is reported before a failing end |
| MatchObjects.ResolveTarget | src/MatchObject.ts:37-52 | no range when both anchors are the same node, whose element is the target; otherwise the element of the range's common ancestor, or what setting the range threw |
| MatchObjects.TargetWithinAnchors | src/MatchObject.ts:22-52 | a resolved event target is an element above the end anchor, and above the start anchor too when the anchors are one node or the range did not collapse; when it collapsed onto its end the target is the end container's element |
| MatchObjects.SameAnchorTarget | src/MatchObject.ts:42-49 | when both anchors are the same node the target is that node if it is an element, else its `parentElement` |
| MatchObjects.TargetOf | src/MatchObject.ts:9-52 | throws when `startsNode` or `endsNode` is missing; throws `IndexSizeError` when a non-element anchor's offset exceeds its length (no range is made for one-node matches); otherwise a found target is an element above the end anchor, above the start anchor too unless the range collapsed, and one exists for a one-node match exactly when that node or its parent is an element |
| MatchObjects.LinkAnchors | src/MatchObject.ts:15-19 | the target gets an rcid and both anchors carry it as their linked rcid; no other node's link changes |
| MatchObjects.MatchObject.Init | src/MatchObject.ts:8 | keeps the props unchanged, so the getters return them; the target is fixed; no rect yet |
| MatchObjects.ReversedAnchorsTarget | src/MatchObject.ts:22-47 | in document > DIV > [SPAN > "ab", "cd"], a match from "cd" to "ab" targets the SPAN, because the range collapses onto "ab"; from "ab" to "cd" it targets the DIV |
| MatchObjects.MatchObject.GetEventTarget | src/MatchObject.ts:37-52 | the target memoised at construction, never recomputed |
| MatchObjects.MatchObject.Contains | src/MatchObject.ts:70-72 | the node is the start anchor or the end anchor |
| MatchObjects.MatchObject.IsMatch | src/MatchObject.ts:60-68 | a rect has been built and holds the point, edges included |
| MatchObjects.MatchObject.BuildRect | src/MatchObject.ts:54-58 | the rect becomes the measured rect of the match's range |
| MatchObjects.IsMatchMeaning | src/MatchObject.ts:60-68 | false before any rect; otherwise true exactly when `left <= x <= right` and `top <= y <= bottom`, edges included |
| MatchObjects.NewMatchObject | src/MatchObject.ts:8-20 | a missing anchor, a bad offset or a missing target throws as `TargetOf` says, before anything is written; otherwise the match holds the props and its target, and the anchors are linked to the target's rcid |
| IndexSpec.Add | src/MatchObserver.ts:82-98 | `addMatch` of a built match: the target gets an rcid if needed, the match goes at the end of its list, and the target carries the listeners |
| IndexSpec.Remove | src/MatchObserver.ts:100-116 | `removeMatch`: nothing without an entry; otherwise the list without the match, and an emptied list takes its entry, the rcid and the listeners |
| IndexSpec.RemoveAll | src/MatchObserver.ts:145-151 | `removeMatch` for each match of a batch, in order |
| IndexSpec.AddNew | src/MatchObserver.ts:86-87 | `addMatch(props)`: the constructor's writes (rcid, anchor links), then the add |
| IndexSpec.StripOne | src/MatchObserver.ts:124-154 | one node of the walk: a linked node is unlinked and its target's matches anchored there are removed one by one |
| IndexSpec.StripSeq | src/MatchObserver.ts:118-160 | the walk over the visited nodes in order |
| IndexSpec.Strip | src/MatchObserver.ts:118-160 | `stripMatches(node, children)`: the walk over the subtree in document order, or over the node alone |
| IndexSpec.HasMatched | src/MatchObserver.ts:290 | `matched && matched.length > 0`, with its JavaScript values undefined, null, false or true |
| IndexSpec.HasMatches | src/MatchObserver.ts:291 | `matches && matches.length > 0`, a missing entry read as null |
| IndexSpec.ValueNodeAction | src/MatchObserver.ts:287-301 | `observeValueNode` acts only when the two values differ (`!==`): it adds when the matcher found some and strips otherwise |
| IndexSpec.MatchRectStep | src/MatchObserver.ts:202-214 | `matchRect`: nothing without an entry; otherwise shows the first match under the cursor, or hides |
| IndexSpec.Without | src/MatchObserver.ts:107 | the filter keeps exactly the list entries that are not the match |
| IndexSpec.WithoutKeepsOrder | src/MatchObserver.ts:107 | the filter distributes over concatenation, so the survivors keep their order |
| IndexSpec.Touching | src/MatchObserver.ts:145-148 | keeps exactly the matches that have the node as an anchor |
| IndexSpec.Minus | src/MatchObserver.ts:145-151 | removing a batch keeps exactly the entries not in the batch |
| IndexSpec.NoNullEntry | src/DataSet.ts:6-9 | under the invariant the store has no "null" or empty key, so an element without an id has no entry |
| IndexSpec.EntryOwner | src/MatchObserver.ts:88-92 | an element with an entry carries the rcid it is stored under, and every match there targets it |
| IndexSpec.EnsureIdConsistent | src/utilities.ts:17-20 | giving a target an id keeps the invariant, and a freshly created id is not yet a key |
| IndexSpec.AddAppends | src/MatchObserver.ts:86-95 | the match is appended at the end of its target's list, even if already there; the target carries the listeners; other entries and links are unchanged |
| IndexSpec.AddConsistent | src/MatchObserver.ts:82-98 | `addMatch` keeps the index invariant and the listener coverage |
| IndexSpec.RemoveExact | src/MatchObserver.ts:100-116 | an absent target is a no-op; otherwise every occurrence goes and the rest stay in order; an emptied list takes the entry, the rcid and the listeners with it |
| IndexSpec.RemoveConsistent | src/MatchObserver.ts:100-116 | `removeMatch` keeps the invariant, so no empty entry ever survives |
| IndexSpec.RemoveAllConsistent | src/MatchObserver.ts:145-151 | removing a batch one by one keeps the invariant and leaves links alone |
| IndexSpec.RemoveAllNoEntry | src/MatchObserver.ts:104-106 | removing matches of a target without an entry changes nothing |
| IndexSpec.RemoveAllOneTarget | src/MatchObserver.ts:143-151 | removing a batch of one target's matches leaves its list without the batch, or evicts the target when nothing is left |
| IndexSpec.AddNewConsistent | src/MatchObserver.ts:86-87 | building a match from props and adding it keeps the invariant |
| IndexSpec.AddNewAllConsistent | src/MatchObserver.ts:71-73 | adding a matcher's matches in order keeps the invariant |
| IndexSpec.AddNewLinksAnchors | src/MatchObject.ts:15-19 | after construction and `addMatch`, the match ends its target's list and both anchors carry the target's rcid |
| IndexSpec.AddNewAllEntries | src/MatchObserver.ts:71-73 | after adding matches, each one's target has an entry |
| IndexSpec.FindTarget | src/MatchObserver.ts:130-140 | the element found for a linked rcid carries that rcid |
| IndexSpec.FindTargetFindsOwner | src/MatchObserver.ts:130-140 | with unique ids, the lookup finds the element owning the rcid whenever it is inside the subtree or in the document, and nothing else |
| IndexSpec.StripOneConsistent | src/MatchObserver.ts:124-154 | one step of the walk keeps the invariant, and unlinks the node exactly when it was linked |
| IndexSpec.StripOneExact | src/MatchObserver.ts:125-153 | one step removes exactly the target's matches that have the visited node as start or end anchor, and evicts the target when none is left |
| IndexSpec.StripSeqConsistent | src/MatchObserver.ts:118-160 | the walk keeps the invariant |
| IndexSpec.StripUnlinks | src/MatchObserver.ts:124-128 | every visited node ends unlinked; nodes not visited keep their links |
| IndexSpec.StripSeqNothingLinked | src/MatchObserver.ts:124-126 | a walk over nodes none of which is linked changes nothing |
| IndexSpec.StripIdempotent | src/MatchObserver.ts:118-160 | stripping a subtree twice is the same as stripping it once |
| IndexSpec.RemoveKeepsOthers | src/MatchObserver.ts:107 | removing one match keeps every other match listed where it was |
| IndexSpec.RemoveAllKeepsOthers | src/MatchObserver.ts:145-151 | removing a batch keeps every match not in the batch |
| IndexSpec.StripKeepsUntouched | src/MatchObserver.ts:141-153 | a match with neither anchor among the visited nodes survives the walk |
| IndexSpec.StripOnlyRemoves | src/MatchObserver.ts:118-160 | the walk only takes matches away: every list afterwards is part of the list before |
| IndexSpec.StripOneOnlyRemoves | src/MatchObserver.ts:141-153 | one step only takes matches away |
| IndexSpec.ValueNodeActionMeaning | src/MatchObserver.ts:290-300 | adds exactly when the matcher found some and the node had none; strips when the matcher found none, unless it returned null for a node without matches; otherwise keeps as is |
| IndexSpec.ValueNodeStripSettles | src/MatchObserver.ts:297-299 | after a strip, the same matcher result never adds, and stripping again changes nothing |
| IndexSpec.ValueNodeAddSettles | src/MatchObserver.ts:287-296 | after the found matches are added, the same matcher result does nothing, provided one of the added matches targets the value node itself |
| IndexSpec.ValueNodeAddRepeats | src/MatchObserver.ts:287-296 | when none of the added matches targets the value node (they target its descendants), the node still has no entry, so the same matcher result adds the same matches again |
| IndexSpec.AddNewKeepsOtherEntry | src/MatchObserver.ts:83-96 | adding a match leaves the entry of every element other than its target unchanged |
| IndexSpec.AddNewAllKeepsEntry | src/MatchObserver.ts:71-73 | a run of adds none of which targets an element leaves that element's entry unchanged |
| IndexSpec.AddNewAllGivesEntry | src/MatchObserver.ts:71-73 | after a run of adds, every element one of the matches targets has an entry |
| IndexSpec.Show | src/MatchObserver.ts:216-221 | the hovered match becomes `m`; `hover(m)` is called only when `m` was not already the hovered match |
| IndexSpec.Hide | src/MatchObserver.ts:223-228 | nothing is hovered afterwards; `hover(null)` is called only when something was hovered |
| IndexSpec.ShowLogged | src/MatchObserver.ts:216-221 | `showHovered` keeps the hover log well formed |
| IndexSpec.HideLogged | src/MatchObserver.ts:223-228 | `hideHovered` keeps the hover log well formed |
| IndexSpec.HoverIdempotent | src/MatchObserver.ts:216-228 | a second show of the same match, or a second hide, calls nothing |
| IndexSpec.FindHovered | src/MatchObserver.ts:205-207 | `find` returns the first match in list order whose rect holds the point, or nothing when none does |
| IndexSpec.MatchRectLogged | src/MatchObserver.ts:202-214 | a mouse move keeps the hover log well formed; what it shows is an entry under the cursor, and it hides only when no entry is under the cursor |
| IndexSpec.ItemError | src/MatchObserver.ts:83-87 | a null item throws `[imatch] is required`; an item throws exactly when the MatchObject checks fail (missing anchor, `IndexSizeError` or `InvalidNodeTypeError` from the range, or no target) |
| MatchIndexes.ValueNodesUnder | src/MatchObserver.ts:175-181 | the value nodes `bindValueNodes` reaches are value elements of the node's subtree |
| MatchIndexes.MatchIndex.constructor | src/MatchObserver.ts:29 | a new index has an empty store, no listeners and nothing hovered |
| MatchIndexes.MatchIndex.AddObject | src/MatchObserver.ts:86-95 | adding a built match moves the index as `Add` says and keeps the invariant |
| MatchIndexes.MatchIndex.AddMatch | src/MatchObserver.ts:82-98 | throws on null; a prebuilt match is added as is; props are built (throwing on a missing anchor with nothing written) then added |
| MatchIndexes.MatchIndex.RemoveMatch | src/MatchObserver.ts:100-116 | throws on null; otherwise moves the index as `Remove` says |
| MatchIndexes.MatchIndex.RemoveBatch | src/MatchObserver.ts:145-151 | removes a batch one match at a time, as `RemoveAll` says |
| MatchIndexes.MatchIndex.StripAt | src/MatchObserver.ts:125-153 | one visited node is handled as `StripOne` says |
| MatchIndexes.MatchIndex.StripMatches | src/MatchObserver.ts:118-160 | throws on null; otherwise the walk over the subtree (or the node alone when `children` is false) moves the index as `Strip` says |
| MatchIndexes.MatchIndex.BindValueNodes | src/MatchObserver.ts:175-182 | the node's value nodes gain the change listener |
| MatchIndexes.MatchIndex.UnbindValueNodes | src/MatchObserver.ts:184-191 | the node's value nodes lose the change listener |
| MatchIndexes.MatchIndex.BuildRect | src/MatchObserver.ts:193-200 | every match listed for the node gets its measured rect |
| MatchIndexes.MatchIndex.ShowHovered | src/MatchObserver.ts:216-221 | the hover state moves as `Show` says |
| MatchIndexes.MatchIndex.HideHovered | src/MatchObserver.ts:223-228 | the hover state moves as `Hide` says |
| MatchIndexes.MatchIndex.MatchRect | src/MatchObserver.ts:202-214 | nothing without an entry; otherwise shows the first match under the cursor, or hides |
| MatchIndexes.MatchIndex.AddItem | src/MatchObserver.ts:72 | one item of the matcher's result: throws as `ItemError` says, else the built match is added |
| MatchIndexes.MatchIndex.AddAll | src/MatchObserver.ts:71-73 | matches are built and added in item order up to the first throw, and the outcome is that throw |
| MatchIndexes.MatchIndex.SearchMatches | src/MatchObserver.ts:65-75 | throws on null; a non-array matcher result adds nothing; otherwise the items are added in order |
| MatchIndexes.MatchIndex.ObserveValueNode | src/MatchObserver.ts:287-301 | keeps, strips or adds exactly as the `hasMatched !== hasMatches` comparison decides |
| MatchIndexes.MatchIndex.OnMouseEnter | src/MatchObserver.ts:33-37 | only an event on the listening element itself builds the rects |
| MatchIndexes.MatchIndex.OnMouseLeave | src/MatchObserver.ts:38-42 | only an event on the listening element itself hides |
| MatchIndexes.MatchIndex.OnMouseMove | src/MatchObserver.ts:43-47 | only an event on the listening element itself runs `matchRect` |
| MatchIndexes.MatchIndex.OnChange | src/MatchObserver.ts:48-52 | only an event on the value node itself runs `observeValueNode` |
| MatchIndexes.MatchIndex.Clear | src/MatchObserver.ts:307 | the store is emptied; ids, links and listeners stay |
| MatchIndexes.MatchIndex.ApplyRoute | src/MatchObserver.ts:233-271 | a routed record: a value node is handled by `observeValueNode`; text and attribute records strip then search their target; a child list unbinds and strips removed nodes, then binds and searches the added ones in order up to the first throw, each adding what the matcher found for it, with exactly the nodes walked so far bound |
| MatchIndexes.MatchIndex.ApplyRecords | src/MatchObserver.ts:231-277 | records are handled in order, each as its route says, each starting where the previous ended; a throw ends the batch |
| MatchIndexes.MatchIndex.ApplyRecord | src/MatchObserver.ts:232-276 | the next record is routed and handled, and the log grows by that step |
| MatchIndexes.MatchIndex.Rescan | src/MatchObserver.ts:240-241 | strip then search the target |
| MatchIndexes.MatchIndex.UnbindAndStripOne | src/MatchObserver.ts:262-265 | one removed node loses its change listeners and its matches |
| MatchIndexes.MatchIndex.UnbindAndStrip | src/MatchObserver.ts:262-265 | all removed nodes are unbound and stripped, in order |
| MatchIndexes.MatchIndex.BindAndSearchOne | src/MatchObserver.ts:60-61 | the node's value nodes are bound, then the matcher's items are added in order up to the first throw, whose error is the outcome; a non-array result adds nothing |
| MatchIndexes.MatchIndex.BindAndSearch | src/MatchObserver.ts:266-269 | added nodes are bound and searched in order: each passing node adds what the matcher found for it, the first throw ends the walk with its error (that node already bound), and the matches built are those of the nodes walked, in order |
| MatchIndexes.MatchIndex.Teardown | src/MatchObserver.ts:305-307 | the root is stripped and unbound and the store emptied; the hover state is untouched |
| Mutations.RouteOf | src/MatchObserver.ts:233-275 | a record goes to `observeValueNode` for the nearest value element among the three nodes from the changed node's parent up (from the target up for a child list), otherwise to a rescan (children only for text) or the child-list handling; attribute records are ignored when attributes are not observed |
| Mutations.StripNodesConsistent | src/MatchObserver.ts:262-265 | stripping removed nodes in turn keeps the invariant |
| Mutations.AddNewAllConcat | src/MatchObserver.ts:266-269 | adding matches for one added node after another is adding them all in order |
| MatchObservers.OptionsFor | src/MatchObserver.ts:278-284 | attributes are observed exactly when a filter is given; text, child lists and the subtree always |
| MatchObservers.MatchObserver.Init | src/MatchObserver.ts:29 | a new observer has an empty index, no root, no MutationObserver and none leaked |
| MatchObservers.MatchObserver.Create | src/MatchObserver.ts:22-28 | throws when `matcher` or `hover` is missing; otherwise a usable observer with an empty store, no listeners, nothing hovered, no root, no MutationObserver and none leaked |
| MatchObservers.MatchObserver.Observe | src/MatchObserver.ts:55-63 | throws while a root is set; otherwise replaces the MutationObserver, counting the replaced one as leaked when it was still connected (after an earlier `observe` whose search threw); a null node throws with the new one unconnected; otherwise binds, searches, and only on success records the root |
| MatchObservers.MatchObserver.Attach | src/MatchObserver.ts:59-62 | observing a real node: binds its value nodes, adds the matcher's matches, and sets the root when nothing threw |
| MatchObservers.MatchObserver.ObserveMutations | src/MatchObserver.ts:230-277 | the callback, run by the current or a leaked MutationObserver, handles the delivered records in order as routed, attribute records included when a filter is given; a throw ends the batch |
| MatchObservers.MatchObserver.Disconnect | src/MatchObserver.ts:303-309 | throws before any `observe`; stops only the current MutationObserver, leaked ones go on, and keeps it (so a second call throws `[node] is required`); throws on a null root; otherwise strips and unbinds the root, empties the store, unsets the root and leaves the hover state |
| MatchWalkers.MatchWalker.Init | src/MatchWalker.ts:21-54 | a new walker has an empty index and no MutationObserver |
| MatchWalkers.MatchWalker.Create | src/MatchWalker.ts:21-30 | throws when `root`, `matcher` or `hover` is missing; otherwise a walker over the root with an empty store, no listeners, nothing hovered, no MutationObserver and none leaked |
| MatchWalkers.MatchWalker.Start | src/MatchWalker.ts:56-60 | observes the root (leaking the earlier MutationObserver when it is still connected, that is with no `destroy` in between), binds its value nodes and adds the matcher's matches |
| MatchWalkers.MatchWalker.Search | src/MatchWalker.ts:58-59 | binds the node's value nodes and adds the walker matcher's matches |
| MatchWalkers.MatchWalker.StripMatches | src/MatchWalker.ts:115-154 | throws on null; otherwise always walks the whole subtree |
| MatchWalkers.MatchWalker.ObserveMutations | src/MatchWalker.ts:224-268 | the callback, run by the current or a leaked MutationObserver, handles records in order as routed with attribute records ignored; removed nodes are stripped before added ones are searched |
| MatchWalkers.MatchWalker.Destroy | src/MatchWalker.ts:286-291 | throws before `start` with nothing changed; otherwise stops only the current MutationObserver (leaked ones go on), strips and unbinds the root and leaves the store empty |

## Left out

- DOM Range geometry (`getBoundingClientRect`): a match's rect is an integer `Rect` from a `Measure` function supplied by the caller. Floating point is not modelled.
- MatchObjects.MatchObject.BuildRect: `Measure` is total, so the `IndexSizeError` that `buildRect`'s own `createRange` can throw is not modelled (a one-node match with a bad offset, or an offset that went stale after the text changed).
- Range boundary offsets are whole numbers. JavaScript's conversion of fractional, NaN or infinite offsets to `unsigned long` is not modelled, only the wrap modulo 2^32.
- A text node's length counts Dafny characters, not UTF-16 code units. Node kinds other than elements, text and the document (comments, doctypes) are not modelled.
- `Dom.Precedes` takes tree order from each node's position in its parent's child list, so it assumes a node is listed once there. With that order strict, the standard's recursive step for a following node is written as `PositionOfDistinct` with the roles swapped.
- `isNodeInDom` (src/utilities.ts:33-52): it depends on `getBoundingClientRect` and `document.body`, and the core files do not call it.
- `addEventListener`/`removeEventListener` and the MutationObserver subscription: the elements carrying the mouse listeners and the change listener are ghost sets (`listening`, `changeBound`). The connected MutationObserver is a ghost field, and MutationObservers replaced while still connected are counted as leaked (ghost `leaked`); they deliver to the same callback. Records arrive as an input sequence handled in order.
- `querySelector` with an attribute selector: modelled as an exact lookup of the rcid. CSS escaping of unusual ids is not modelled.
- The `hover` callback is a ghost log of its arguments. A callback that re-enters the observer is not modelled.
- The matcher is a pure function of the document, the node and the `children` flag. Matchers with side effects are not modelled.
- `context` is an `int`; the source accepts any value and only hands it back.
- Other indexes sharing the same rcid attribute and counter are not modelled. Each index is built over a document whose rcids are unique, non-empty, not "null", and, when of the form `"r"` + a number, below the counter (`IdsWellFormed`, required by the constructors); ids of other forms may already be there.
- A node carries one linked rcid, as in the source. A node anchoring matches of two targets keeps only the later link, so the model, like the source, strips only the later target's matches at that node.
- DataSets.DataSet.Get: the store is a `map`, not a plain JavaScript object. The same holds for Find, Set, Keys and Clear. Inherited property names such as "toString" or "constructor", which `in` sees on a fresh `{}`, are not modelled, and neither is "__proto__", whose assignment replaces the prototype. `keys()` is an ordered array in the source and a set here.
- `DataSet.remove` is called at src/MatchObserver.ts:112 and src/MatchWalker.ts:109 but is not defined in src/DataSet.ts. `DataSets.DataSet.Remove` models it as deleting the key's entry.
- `throttled` is modelled on its own. Neither observer throttles its mousemove handler.
- `disconnect` does not reset the hovered match, and the model keeps it as it was.
- MatchWalkers.MatchWalker.Start: the walker's matcher takes only the node. It is adapted to the shared index by `MatchWalkers.IndexMatcher`, which ignores the `children` flag.
- src/Walker.ts, src/SelectionBlock.ts, src/SelectionPoint.ts, src/UIWidget.ts, src/RuleBase.ts, src/index.ts and src/interfaces.ts: selection and browser I/O, widget styling, logging and wiring are not part of this model.
