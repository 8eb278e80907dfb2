# RescueEditor block tree, in Dafny

A model of the core of RescueEditor, a page builder that keeps the edited
page as a tree of blocks. The model covers:

- **The composite tree** (`composite.js`: BlreCompositeLeafNode and
  BlreCompositeNode).
  - Nodes live in an arena keyed by a handle that stands for an object's
    identity. The process-wide id counter `_nGId` is the arena's `nextId`.
  - The class `Composite.Forest` holds the arena and has one method per
    tree operation:
    - the counter;
    - selector matching (`is`);
    - ancestor queries;
    - breadth-first and depth-first traversal;
    - `find`, `children`, `findFirst`, `firstChild` and `getGreatestGlobalId`;
    - child-list mutation.
  - Each method is proved against ghost functions (`Matching`, `Visit`,
    `Traverse`, `Pre`, `Post`, `MaxOf`). These define the ancestor chain,
    the breadth-first order cut by a stopping callback, and pre- and
    post-order.
  - The arena carries a ghost rank that grows from parent to child. The
    rank keeps parent chains finite and measures traversals.
- **Selector matching** (`Selectors`). The ancestor-chain matcher is
  modelled as a pure function over the node's id chain.
  - The cursor loop of `is` is modelled twice. `GreedyAsWritten` follows
    the source and can crash. `Greedy` adds a bounds guard.
  - The guarded loop is proved to be sound against an embedding of the
    selector in the chain.
  - It is also proved complete for selectors without strict criteria.
- **The HTML builder node and the persistence handlers** (`html-composite.js`).
  - The module `HtmlComposite` covers:
    - `renderHtml`, which splices the children's HTML into the node's marker
      region;
    - `serializeXml`, which writes the node text;
    - `deserializeXml`, which rebuilds nodes from an abstract parsed element.
  - The module `HtmlPersistence` holds the handlers on the module-level
    `htmlRoot`: create-root, add-new-node, get-node-template-data,
    update-node, render-node-html, preview-next-global-id, delete-node,
    serialize and deserialize.
  - Each handler states the new arena relative to the look-up
    `htmlRoot.findFirst([{gId: id}])` on the old one. What the JavaScript
    would throw is an `Err`.
- **The templating helpers** (`html-templating.js`):
  - `insertChildrenHtml` and `getRootHtml`;
  - the text-substitution chain that escapes blreML and table tags;
  - the form fold of `applyEditsToBlock`, whose three handler calls are in
    the module `BlockEditing`;
  - `_getBlocksToLoad`, over the list of loader types.
- **The event registry** (`eventmanager.js`).
  - `blreReplaceAll` with a string search is a left-to-right scan that
    replaces every non-overlapping occurrence. It expands the `$` patterns
    of the replacement as `String.prototype.replace` does.
  - With a replacement that holds no `$` pattern, the scan is a literal
    splice (`ReplaceAll`). No replacement of the escape chain holds one.
  - The literal splice's effect on tag-shaped searches is proved once here.
    The escape chain relies on it.
  - `BlreEventsManager` keeps one binding per event.
- **The URL formatter and the loader cache** (`io.js`).
  - The network and the configured base URL are parameters: `fetch(url)`
    is the resource a GET resolves with, or None when it fails.
  - `getMany` starts every `get` against the cache as it was at the call.
    The requests then resolve in list order.
- **Shared value modules**:
  - `Wrappers`: Option and Result.
  - `Strings`: `indexOf`, `lastIndexOf`, `replace` with a string pattern,
    and `trim`. It also holds the expansion of the replacement patterns
    `$$`, `$&`, `` $` `` and `$'` (GetSubstitution of ECMA-262, without
    capture groups), which every `replace` of the core applies.
  - `Json`: a string/object JSON value; `JSON.stringify`; `JSON.parse`,
    with its round trip proved; and `parseInt` against `'' + n`.

Where a comment in the source and its code disagree, the model follows the
code. The comment above BlreBasicGetUrlFormatter (RescueEditor/js/IO/io.js:108-125)
says `http://my-url.com/%id%` becomes `http://my-url.com/%id%/my-res`. The
code replaces the pattern, so it becomes `http://my-url.com/my-res`
(`IO.FormatAtEnd`).

## Model

| member | source | states |
|---|---|---|
| Strings.IndexOfSpec | RescueEditor/js/templating/html/html-templating.js:435 | `indexOf` answers the leftmost occurrence of the pattern (where the children regex starts matching), and None exactly when the pattern does not occur |
| Strings.LastIndexOfSpec | RescueEditor/js/templating/html/html-templating.js:435 | `lastIndexOf` answers the rightmost occurrence (where the greedy `[\s\S]*` of the children regex stops), and None exactly when the pattern does not occur |
| Strings.ReplaceFirst | RescueEditor/js/IO/io.js:157 | `replace` with a string pattern: text without the pattern is unchanged. Otherwise only the leftmost occurrence is replaced, and everything around it is kept. The replacement's `$` patterns are expanded against that occurrence and the text before and after it |
| Strings.SubstitutionPatterns | RescueEditor/js/IO/io.js:157 | in a replacement, `$$` writes one `$`, `$&` the match, `` $` `` the text before the match and `$'` the text after it |
| Strings.SubstitutionPlain | RescueEditor/js/IO/io.js:157 | a replacement without `$$`, `$&`, `` $` `` or `$'` is written as it is |
| Strings.Trim | RescueEditor/js/templating/html/html-templating.js:493 | `trim` answers the slice after the leading white space; what follows that slice is all white space; the result neither starts nor ends with white space |
| Strings.TrimOfTrimmed | RescueEditor/js/templating/html/html-templating.js:493 | text that neither starts nor ends with white space is its own trim |
| EventManager.EscapedSearchIsLiteral | RescueEditor/js/events/eventmanager.js:24-26 | after escaping every metacharacter, the RegExp denotes exactly the search string, so the search is literal |
| EventManager.BlreReplaceAllPlain | RescueEditor/js/events/eventmanager.js:21-30 | with a replacement that holds no `$` pattern, blreReplaceAll is the literal splice `ReplaceAll` that the rows below describe |
| EventManager.BlreReplaceAllMatched | RescueEditor/js/events/eventmanager.js:21-30 | the replacement `$&` writes every match back, so the text comes back unchanged, where a literal splice would write `$&` |
| EventManager.ReplaceAllFirst | RescueEditor/js/events/eventmanager.js:21-30 | for a non-empty search, blreReplaceAll keeps the text before the leftmost occurrence, writes the replacement for it and scans on from just after it; with no occurrence the text is unchanged |
| EventManager.ReplaceFromFirst | RescueEditor/js/events/eventmanager.js:30 | the global scan from any position agrees with cutting the text at the next occurrence, so occurrences are replaced left to right without overlapping |
| EventManager.ReplaceAllNoMatch | RescueEditor/js/events/eventmanager.js:24-30 | a target that does not contain the search string comes back unchanged |
| EventManager.ReplaceAllBySelf | RescueEditor/js/events/eventmanager.js:21-30 | replacing the search string by itself leaves every text unchanged |
| EventManager.ReplaceAllRemovesTag | RescueEditor/js/events/eventmanager.js:21-30 | when the search is a tag start and the replacement cannot begin it again, no occurrence of the search is left in the result |
| EventManager.ReplaceAllKeepsTagAbsent | RescueEditor/js/events/eventmanager.js:21-30 | a replacement that cannot begin a tag creates no occurrence of that tag where the text had none |
| EventManager.ReplaceAllKeepsTagPresent | RescueEditor/js/events/eventmanager.js:21-30 | an occurrence of a tag that differs early from the search survives the replacement |
| EventManager.ReplaceAllRewritesTag | RescueEditor/js/events/eventmanager.js:21-30 | wherever the searched tag occurs, its replacement occurs in the result |
| EventManager.ReplaceAllKeepsShielded | RescueEditor/js/events/eventmanager.js:21-30 | a segment written by an earlier replacement, which the search cannot start inside, survives a later replacement |
| EventManager.BindAllExists | RescueEditor/js/events/eventmanager.js:71-96 | after any sequence of binds, `exists` holds for an event exactly when some bind named it (or it was bound before) |
| EventManager.BindAllTrigger | RescueEditor/js/events/eventmanager.js:71-92 | after any sequence of binds, `trigger` calls the callback of the event's last bind with that bind's data; an event no bind named triggers as before |
| EventManager.LastBindingIsLast | RescueEditor/js/events/eventmanager.js:71-76 | the binding trigger uses is one the history bound for the event, and no later bind names the event |
| EventManager.BindThenTrigger | RescueEditor/js/events/eventmanager.js:71-92 | after binding an event, triggering it calls the new callback with the new bound data; every other event triggers as before |
| EventManager.EventsManager.constructor | RescueEditor/js/events/eventmanager.js:43-45 | the registry starts with no bindings |
| EventManager.EventsManager.Bind | RescueEditor/js/events/eventmanager.js:71-76 | one binding per event: re-binding replaces the previous one, and no other event gains or loses a binding |
| Json.PutGet | RescueEditor/js/persistance/html/html-composite.js:124 | after `o[key] = v`, reading `key` gives `v` and every other property reads as before |
| Json.PutPlace | RescueEditor/js/persistance/html/html-composite.js:124 | a new property name goes last; an existing one is overwritten where it stands and the others keep their places |
| Json.PutUnique | RescueEditor/js/persistance/html/html-composite.js:124 | assignment keeps property names unique |
| Json.ParseStringify | RescueEditor/js/persistance/html/html-composite.js:76-80 | `JSON.parse(JSON.stringify(v))` gives back `v` for every modelled value with unique names |
| Json.StringifyInjective | RescueEditor/js/persistance/html/html-composite.js:76-80 | two values that `JSON.stringify` writes the same are the same value |
| Json.ParseIntToString | RescueEditor/js/persistance/html/html-composite.js:114 | `parseInt` reads back the text `'' + n` writes for every whole number, negative ones included |
| Json.NatToStringValue | RescueEditor/js/persistance/html/html-composite.js:69 | the decimal digits written for `n` denote `n` |
| Json.GetFinds | RescueEditor/js/templating/html/html-templating.js:393 | reading a property finds a value exactly when the name is present, and the value found is stored under that name |
| Selectors.MarkLast | RescueEditor/js/persistance/composite.js:100 | the write `is` performs: same length, the last criterion made strict, no id changed, nothing else changed |
| Selectors.MarkLastIdempotent | RescueEditor/js/persistance/composite.js:100 | the write is idempotent, and matching the marked selector gives the same answer as matching the original |
| Selectors.FirstFrom | RescueEditor/js/persistance/composite.js:120-124 | the inner loop stops at the first chain position from the cursor on that the criterion matches, and runs off the chain only when none does |
| Selectors.GreedyAgrees | RescueEditor/js/persistance/composite.js:111-134 | wherever the cursor loop as written answers without throwing, the guarded loop gives the same answer |
| Selectors.MatchesAgrees | RescueEditor/js/persistance/composite.js:99-134 | the corrected `is` differs from `is` as written only on inputs where the source throws |
| Selectors.EmptySelectorThrows | RescueEditor/js/persistance/composite.js:100 | as written, an empty selector throws; the corrected matcher accepts it |
| Selectors.StrictPastRootThrows | RescueEditor/js/persistance/composite.js:115 | a strict criterion left over once the chain is used up reads past the ancestors array and throws as written; the corrected matcher answers no match |
| Selectors.MatchesSound | RescueEditor/js/persistance/composite.js:111-134 | every selector `is` accepts embeds into the id chain: the last criterion on the node itself, each strict criterion right after the previous position, each loose one further up |
| Selectors.MatchesCompleteLoose | RescueEditor/js/persistance/composite.js:111-134 | for selectors whose only strict criterion is the last one, every embedding is found: `is` accepts exactly the embeddable selectors |
| Selectors.GreedyMissesStrictAfterLoose | RescueEditor/js/persistance/composite.js:111-134 | the greedy cursor takes the nearest match of a loose criterion, so it can reject a selector that embeds when a strict criterion follows a loose one |
| Selectors.SingleIdSelector | RescueEditor/js/persistance/composite.js:440-442 | `[{gId: x}]` with a non-zero `x` matches exactly the node whose id is `x` |
| Selectors.AnySelectorMatches | RescueEditor/js/persistance/composite.js:440-442 | a criterion without gId matches any node, so the default selector `[{}]` always holds |
| Selectors.ZeroIdSelector | RescueEditor/js/persistance/composite.js:441 | a gId of 0 is falsy, so `[{gId: 0}]` matches every node |
| Selectors.DocumentedExamples | RescueEditor/js/persistance/composite.js:63-95 | on root(1), A(2), B(3): `[{gId:1},{gId:3}]` matches B, `[{gId:1,isParent:true},{gId:3}]` does not, `[{gId:2,isParent:true},{gId:3}]` does |
| Selectors.MatchLoop | RescueEditor/js/persistance/composite.js:108-134 | the cursor loop, with the bounds guard, computes the corrected matcher |
| Composite.Forest.constructor | RescueEditor/js/persistance/composite.js:417 | the arena starts empty with the counter at 1 |
| Composite.Forest.NextGlobalId | RescueEditor/js/persistance/composite.js:45-47 | answers the current counter and increments it by exactly one; no node changes |
| Composite.Forest.SetGlobalId | RescueEditor/js/persistance/composite.js:54-56 | afterwards the counter is the given value, so the next node created gets it; no node changes |
| Composite.Forest.NewNode | RescueEditor/js/persistance/composite.js:31-35 | a node nobody points at, with no parent, depth 0, no children and the counter's old value as id; the counter moves on by one and every other node is unchanged |
| Composite.Forest.SetPayload | RescueEditor/js/persistance/html/html-composite.js:253-255 | assigning a node's own fields changes only that node's payload; the id, the links and the counter stay |
| Composite.Forest.SetId | RescueEditor/js/persistance/html/html-composite.js:114 | assigning `globalId` directly changes only that node's id and leaves the counter alone |
| Composite.Forest.MakeAncestorsArray | RescueEditor/js/persistance/composite.js:404-412 | the parent chain of the node, nearest first, up to the parentless ancestor |
| Composite.Forest.Is | RescueEditor/js/persistance/composite.js:99-134 | the selector is matched against the node's id followed by its ancestors' ids |
| Composite.Forest.Ancestors | RescueEditor/js/persistance/composite.js:144-155 | the ancestors that match the selector, nearest first; with no selector, the whole parent chain |
| Composite.MatchingExact | RescueEditor/js/persistance/composite.js:144-155 | a node is kept by a query exactly when it is among the candidates and matches the selector |
| Composite.MatchingAppend | RescueEditor/js/persistance/composite.js:144-155 | queries keep the candidates' order: the matches of a concatenation are the concatenated matches |
| Composite.MatchingAny | RescueEditor/js/persistance/composite.js:145 | the default selector `[{}]` keeps every candidate |
| Composite.Forest.Ancestor | RescueEditor/js/persistance/composite.js:163-173 | the nearest matching ancestor, or None when no ancestor matches |
| Composite.MatchingAfterMisses | RescueEditor/js/persistance/composite.js:163-173 | after a run of non-matching candidates, the first match of a query is the first matching candidate |
| Composite.Forest.BreadthTraversal | RescueEditor/js/persistance/composite.js:195-227 | the callback sees the nodes in breadth-first order from the start queue. The children of a node are enqueued only when its depth is below maxDepth plus the root's depth and it is not a `lowest` node. The traversal ends at the first node on which the callback answers true |
| Composite.VisitNonStopping | RescueEditor/js/persistance/composite.js:221-225 | a callback that never answers true sees the full breadth-first order |
| Composite.VisitStopsAtFirst | RescueEditor/js/persistance/composite.js:222-224 | with findFirst's callback, the traversal is the full order cut just after the first match |
| Composite.VisitAllIsPre | RescueEditor/js/persistance/composite.js:195-227 | with no `lowest` and every node shallow enough, breadth-first order lists the same nodes as pre-order, as often |
| Composite.TraverseCoversSubtree | RescueEditor/js/persistance/composite.js:195-227 | with every node shallow enough and no `lowest`, the traversal reaches exactly the nodes of the subtree |
| Composite.TraverseFlat | RescueEditor/js/persistance/composite.js:217 | when no queued node is shallower than the limit, nothing is enqueued and the order is the queue itself |
| Composite.VisitExtends | RescueEditor/js/persistance/composite.js:195-227 | a traversal is unchanged by creating nodes nobody points at or by changing payloads |
| Composite.VisitHangsFrom | RescueEditor/js/persistance/composite.js:195-227 | every node a traversal from a node reaches is that node or is listed among its own parent's children |
| Composite.Forest.DepthTraversal | RescueEditor/js/persistance/composite.js:250-265 | `callback` sees the subtree in pre-order (each node before its children, children in order) and `callbackPost` in post-order |
| Composite.PrePostSameNodes | RescueEditor/js/persistance/composite.js:250-265 | pre-order and post-order list the same nodes, as often |
| Composite.Forest.Find | RescueEditor/js/persistance/composite.js:276-290 | the matching nodes of the traversal in breadth-first order; the root is skipped unless excludeRoot is exactly false |
| Composite.CollectResult | RescueEditor/js/persistance/composite.js:284-290 | find's callback ends up holding the matching nodes of the full traversal, in visiting order |
| Composite.Forest.Children | RescueEditor/js/persistance/composite.js:304-308 | find with maxDepth 0. When every child sits one level deeper, as addChild leaves it, the result is exactly the matching direct children in child order |
| Composite.ChildrenDeeperFlat | RescueEditor/js/persistance/composite.js:304-308 | with maxDepth 0 and children deeper than their parent, the traversal of the children enqueues nothing more |
| Composite.Forest.FindFirst | RescueEditor/js/persistance/composite.js:319-338 | the first matching node of the traversal from the node itself, or None. The root is always included because excludeRoot is forced to false |
| Composite.FirstMatchResult | RescueEditor/js/persistance/composite.js:327-336 | findFirst's callback ends up holding the first match of the full traversal order |
| Composite.HeadMatchingIsFirst | RescueEditor/js/persistance/composite.js:327-333 | the first kept node of a query is the candidate at the first matching position |
| Composite.Forest.FirstChild | RescueEditor/js/persistance/composite.js:350-354 | as written: the node itself when it matches, otherwise None. No child is ever returned |
| Composite.Forest.FirstMatchingChild | RescueEditor/js/persistance/composite.js:341-354 | as documented: the first child matching the selector, in child order, when every child sits one level deeper |
| Composite.Forest.GetGreatestGlobalId | RescueEditor/js/persistance/composite.js:361-376 | the largest id over the traversal from the node, with a floor of 0. Within the depth bound this covers the node itself and every node of its subtree |
| Composite.MaxOf | RescueEditor/js/persistance/composite.js:361-376 | at least the floor and every id seen, and equal to the floor or to one of those ids |
| Composite.RunMaxId | RescueEditor/js/persistance/composite.js:367-371 | the closure's `max` after the callback has seen a sequence of nodes is the largest of its start and their ids |
| Composite.Forest.AddChild | RescueEditor/js/persistance/composite.js:466-477 | only the attached (parentless) node changes its parent and depth (the target's depth plus one). The target's child list gains it at the splice position. The other children, and every other node, stay as they were |
| Composite.InsertAt | RescueEditor/js/persistance/composite.js:469-474 | with no index the node is pushed; otherwise it is spliced in at the clamped position. The children before keep their places, the later ones shift right by one, and the multiset grows by exactly the node |
| Composite.SpliceStart | RescueEditor/js/persistance/composite.js:473 | splice's start position: an index within the list is kept, a negative one counts from the end, and both ends are clamped |
| Composite.InsertAtDistinct | RescueEditor/js/persistance/composite.js:466-477 | inserting a node that is not yet a child keeps the child list free of repeats, and adds exactly that node |
| Composite.AddChildRanked | RescueEditor/js/persistance/composite.js:466-477 | attaching a parentless node that is not above the target keeps the arena ranked: every listed child is in the arena and ranked above its parent, so no cycle can form |
| Composite.Forest.GetChildIndex | RescueEditor/js/persistance/composite.js:485-493 | the position of the first child with the same globalId, or None (undefined) when no child has it |
| Composite.IndexOfId | RescueEditor/js/persistance/composite.js:485-493 | a found position carries the id and no earlier child does; None means no child carries it |
| Composite.Forest.RemoveChild | RescueEditor/js/persistance/composite.js:501-511 | with no child of that id, answers false and changes nothing. Otherwise it removes exactly that position from the parent's list and answers true. The removed node keeps its parent pointer |
| Composite.RemoveIndex | RescueEditor/js/persistance/composite.js:506 | `splice(k, 1)`: the elements before `k` stay and the later ones shift left. The multiset loses exactly `xs[k]` |
| Composite.RemoveIndexDistinct | RescueEditor/js/persistance/composite.js:506 | removing a position keeps a repeat-free list repeat-free and drops exactly that element |
| Composite.Forest.RemoveChildAt | RescueEditor/js/persistance/composite.js:519-528 | removeChildFromIndex reading its own parameter: the child at the splice position is removed exactly when the index is below the child count |
| Composite.RemoveFromIndex | RescueEditor/js/persistance/composite.js:519-528 | answers true exactly when the index is below the count, and the list is then spliced at the clamped position; otherwise the list is unchanged |
| Composite.RemoveFromIndexAsWritten | RescueEditor/js/persistance/composite.js:519-520 | as written every call raises a ReferenceError for `a_index` before touching the list |
| Composite.RemoveFromIndexFinding | RescueEditor/js/persistance/composite.js:519-520 | removing index 0 from a one-child list empties it; the same call as written raises instead |
| HtmlTemplating.InsertWithoutRegion | RescueEditor/js/templating/html/html-templating.js:434-436 | markup without an opening marker followed by a closing marker is returned unchanged |
| HtmlTemplating.InsertWithRegion | RescueEditor/js/templating/html/html-templating.js:434-436 | otherwise the span from the first opening marker to the last closing marker (greedy) is replaced by the children's HTML, whose `$` patterns expand against that span and the markup around it; HTML without `$` patterns goes in as it is, and the rest is kept |
| HtmlTemplating.RootMarkers | RescueEditor/js/templating/html/html-templating.js:418-422 | the root markup holds one empty marker pair |
| HtmlTemplating.InsertIntoRoot | RescueEditor/js/templating/html/html-templating.js:416-424 | inserting children into the root markup (id `blre-block-1`, block, root and has-children classes) embeds them exactly once, between its fixed prefix and suffix; their `$` patterns expand against the empty marker pair, the prefix and the suffix, and HTML without them goes in as it is |
| HtmlTemplating.RunChainPlain | RescueEditor/js/templating/html/html-templating.js:493-504 | a chain of blreReplaceAll calls whose replacements hold no `$` pattern performs the literal rewrites, in turn |
| HtmlTemplating.EscapeStepsPlain | RescueEditor/js/templating/html/html-templating.js:494-504 | no replacement of the escape chain, corrected or as written, holds a `$` pattern |
| HtmlTemplating.EscapeIsLiteral | RescueEditor/js/templating/html/html-templating.js:493-504 | the escape, corrected or as written, is the trimmed template under the literal rewrites of its chain |
| HtmlTemplating.AsWrittenRemovesSearches | RescueEditor/js/templating/html/html-templating.js:493-504 | after the chain as written, none of its searches occurs in the result: `<content`, `</content>`, the children tags, the loadblock tags, every opening table tag, and the closing tags it names |
| HtmlTemplating.AsWrittenRemovesTableTags | RescueEditor/js/templating/html/html-templating.js:499-504 | after the chain as written, no `<table`, `<tbody`, `<thead`, `<tr`, `<td` or `<th` is left, and no `</table>`, `</tr>` or `</td>` |
| HtmlTemplating.AsWrittenRewrites | RescueEditor/js/templating/html/html-templating.js:494-504 | after the chain as written, a search that occurs in the trimmed template, and that no earlier search can consume, leaves its replacement in the result |
| HtmlTemplating.AsWrittenWritesTemplateSpan | RescueEditor/js/templating/html/html-templating.js:494 | after the chain as written, a `<content` tag of the template leaves the `<span class="blre-template" ` that stands for it |
| HtmlTemplating.AsWrittenWritesTagDiv | RescueEditor/js/templating/html/html-templating.js:499-503 | after the chain as written, an opening table, tbody, thead, tr or td tag in the template leaves a `<div data-blre-is-tag="…" ` carrying its name (thead is rewritten before th) |
| HtmlTemplating.EscapeRemovesSearches | RescueEditor/js/templating/html/html-templating.js:493-504 | after the corrected chain, none of its searches occurs in the result: `<content`, `</content>`, the children tags, the loadblock tags, and every table tag opening or closing |
| HtmlTemplating.EscapeRemovesTableTags | RescueEditor/js/templating/html/html-templating.js:499-504 | after the corrected chain, no `<table`, `<tbody`, `<thead`, `<tr`, `<td` or `<th`, nor their closing tags, is left |
| HtmlTemplating.EscapeRewrites | RescueEditor/js/templating/html/html-templating.js:494-504 | after the corrected chain, a search that occurs in the trimmed template, and that no earlier search can consume, leaves its replacement in the result |
| HtmlTemplating.EscapeWritesTagDiv | RescueEditor/js/templating/html/html-templating.js:499-503 | after the corrected chain, an opening table, tbody, thead, tr or td tag in the template leaves a `<div data-blre-is-tag="…" ` carrying its name (thead is rewritten before th) |
| HtmlTemplating.TableNamesAsWritten | RescueEditor/js/templating/html/html-templating.js:499-504 | every closing tag the chain as written rewrites is table, tr or td |
| HtmlTemplating.AsWrittenKeepsTableCloses | RescueEditor/js/templating/html/html-templating.js:500-504 | as written, a `</tbody>`, `</thead>` or `</th>` in the trimmed template survives the escape |
| HtmlTemplating.AsWrittenKeepsClose | RescueEditor/js/templating/html/html-templating.js:499-504 | as written, a closing `</t…>` tag other than table, tr and td that occurs in the trimmed template still occurs after the escape |
| HtmlTemplating.EscapeRemovesTableCloses | RescueEditor/js/templating/html/html-templating.js:500-504 | the corrected chain, each line closing its own tag, leaves no `</tbody>`, `</thead>` or `</th>` |
| HtmlTemplating.FoldFormGet | RescueEditor/js/templating/html/html-templating.js:387-391 | reading a name from the folded form data gives the value of the last entry with that name, and nothing when no entry has it |
| HtmlTemplating.FoldFormNames | RescueEditor/js/templating/html/html-templating.js:387-391 | the folded data names exactly the names the form's entries carry |
| HtmlTemplating.FoldFormWellFormed | RescueEditor/js/templating/html/html-templating.js:387-391 | the folded data holds each name once, and every value in it is a string |
| HtmlTemplating.FormDataToMap | RescueEditor/js/templating/html/html-templating.js:387-391 | the indexed loop builds the fold of the form: each entry's value written under its name in turn |
| HtmlTemplating.BlocksToLoadAsWritten | RescueEditor/js/templating/html/html-templating.js:630-642 | as written, every loader's type is listed, in document order, duplicates included |
| HtmlTemplating.BlocksToLoadAsWrittenRepeats | RescueEditor/js/templating/html/html-templating.js:636 | two loaders of one type: as written the type is listed twice, corrected once |
| HtmlTemplating.BlocksToLoad | RescueEditor/js/templating/html/html-templating.js:630-642 | corrected: each block type once, in the order of its first loader, and exactly the types the loaders name |
| HtmlTemplating.FirstOccurrencesSpec | RescueEditor/js/templating/html/html-templating.js:630-642 | the first occurrences repeat nothing and are exactly the given types |
| HtmlComposite.ShapeChildren | RescueEditor/js/persistance/html/html-composite.js:49-51 | a node's subtree lists its children's subtrees, one per child, in child order |
| HtmlComposite.RenderSplices | RescueEditor/js/persistance/html/html-composite.js:43-56 | a node with a marker region renders as the markup before the first opening marker, then its children's renderings in order, then the markup after the last closing marker. The renderings' `$` patterns expand against the marker span and the markup around it, and renderings without them go in as they are. Any other node renders as its own markup |
| HtmlComposite.RenderRoot | RescueEditor/js/persistance/html/html-composite.js:43-56 | a root with the root markup renders its children exactly once, between the root's two halves; `$` patterns in their renderings expand against the marker pair and the two halves, and renderings without them go in as they are |
| HtmlComposite.RenderHtml | RescueEditor/js/persistance/html/html-composite.js:43-56 | the recursive accumulator loop computes the rendering of the node's subtree (with `replace`'s `$` expansion at each splice) and changes no node |
| HtmlComposite.SerializeHelper | RescueEditor/js/persistance/html/html-composite.js:66-94 | the subtree's `<node>` text: markup, id, one `<key data-key="key">` element per template entry in insertion order, then the children's text in child order |
| HtmlComposite.AppendData | RescueEditor/js/persistance/html/html-composite.js:71-84 | the template entries are appended in insertion order. An object value is written as its JSON text and a string as it is |
| HtmlComposite.AppendChildren | RescueEditor/js/persistance/html/html-composite.js:86-89 | each child's text is appended in child order |
| HtmlComposite.SerializeXml | RescueEditor/js/persistance/html/html-composite.js:64-98 | the node text wrapped by `JSON.stringify`, which `JSON.parse` reads back as that text |
| HtmlComposite.DecodeValue | RescueEditor/js/persistance/html/html-composite.js:120-127 | every value read from a text, whether parsed as JSON or kept raw after a syntax error, lists each property name once |
| HtmlComposite.ReadTemplateData | RescueEditor/js/persistance/html/html-composite.js:116-128 | the loop over the `templatedata` children stores each value under its `data-key`. A missing attribute reads as "null", and a later key overwrites an earlier one |
| HtmlComposite.DeserializeHelper | RescueEditor/js/persistance/html/html-composite.js:110-143 | fills the node in place, sets its id with parseInt and rebuilds the children one level deeper. It fails exactly when decoding the element fails, and leaves every node outside the new subtree alone |
| HtmlComposite.AttachChildren | RescueEditor/js/persistance/html/html-composite.js:130-138 | one fresh child per child element, attached last in element order, each rebuilt from its element; the first failure in order is the one reported |
| HtmlComposite.AttachChild | RescueEditor/js/persistance/html/html-composite.js:134-136 | a fresh node is attached last under the parent and rebuilt from the element; nothing that existed before changes except the parent's child list |
| HtmlComposite.NewChild | RescueEditor/js/persistance/html/html-composite.js:134-135 | `new BlreHtmlBuilderNode()` takes the counter's value as id, gets empty markup and no template data, and goes last under the parent at the parent's depth plus one |
| HtmlComposite.DataRestored | RescueEditor/js/persistance/html/html-composite.js:71-128 | the data elements written for unique entries whose values read back rebuild those entries exactly, in order |
| HtmlComposite.TreeRestored | RescueEditor/js/persistance/html/html-composite.js:64-143 | reading back the text of a subtree rebuilds it (ids, markup, template data, children in order, depths) when its values read back and each child sits one level down |
| HtmlComposite.ValueTextWritesBack | RescueEditor/js/persistance/html/html-composite.js:76-127 | an object, and any string whose text is not JSON, is read back as written |
| HtmlComposite.JsonTextStringChanges | RescueEditor/js/persistance/html/html-composite.js:76-127 | a template string whose text is JSON (`{}`) comes back as an object: the read-back is not the identity on every tree |
| HtmlComposite.CorrectedRoundTrip | RescueEditor/js/persistance/html/html-composite.js:64-143 | if every value were written as its JSON text, strings included, every well-formed subtree would be read back exactly |
| HtmlPersistence.Addressed | RescueEditor/js/persistance/html/html-composite.js:197 | `htmlRoot.findFirst([{gId: id}])` answers a node of the arena, or None |
| HtmlPersistence.AddressedById | RescueEditor/js/persistance/html/html-composite.js:197 | for a non-zero id, the block found is the first node in breadth-first order from the root that carries the id; None when no such node carries it |
| HtmlPersistence.AddressedZero | RescueEditor/js/persistance/html/html-composite.js:197 | the id 0 is falsy and addresses the root itself |
| HtmlPersistence.LookupExtends | RescueEditor/js/persistance/html/html-composite.js:193-202 | creating a node nobody points at, or changing payloads, changes no handler's look-up |
| HtmlPersistence.LookupHangsFrom | RescueEditor/js/persistance/html/html-composite.js:316-318 | every block a look-up finds, other than the root, is listed among its parent's children |
| HtmlPersistence.DeleteFindsChild | RescueEditor/js/persistance/html/html-composite.js:316-318 | the block delete-node finds, when it has a parent, is found by that parent's getChildIndex |
| HtmlPersistence.Persistence.constructor | RescueEditor/js/persistance/html/html-composite.js:150 | `let htmlRoot;`: no root yet |
| HtmlPersistence.Persistence.Locate | RescueEditor/js/persistance/html/html-composite.js:197 | the look-up every handler runs: no root, no block with the id, or the block found |
| HtmlPersistence.Persistence.CreateRoot | RescueEditor/js/persistance/html/html-composite.js:165-171 | a new parentless root with the given markup and the counter's value as id, which it answers together with its rendering; the counter moves on by one |
| HtmlPersistence.Persistence.AddNewNode | RescueEditor/js/persistance/html/html-composite.js:193-202 | the node is created first, so it always takes the previewed id and advances the counter. When the parent is found, the node goes under it at the index and the handler answers its id and rendering. When it is not, the handler throws and the node is left unattached |
| HtmlPersistence.Persistence.Attach | RescueEditor/js/persistance/html/html-composite.js:198-200 | `parent.addChild(node, index)` on the fresh node, whose rendering is its markup with an empty children region |
| HtmlPersistence.Persistence.GetNodeTemplateData | RescueEditor/js/persistance/html/html-composite.js:223-228 | the addressed block's template data, or the error of the look-up |
| HtmlPersistence.Persistence.UpdateNode | RescueEditor/js/persistance/html/html-composite.js:249-257 | only the addressed block's markup and template data are replaced; its id, parent and children, every other node, and the counter stay |
| HtmlPersistence.Persistence.SetBlock | RescueEditor/js/persistance/html/html-composite.js:253-255 | `node.html = …; node.templateData = …` changes that node's payload and nothing else |
| HtmlPersistence.Persistence.RenderNodeHtml | RescueEditor/js/persistance/html/html-composite.js:277-282 | the rendering of the addressed block's subtree, `$` expansion included |
| HtmlPersistence.Persistence.PreviewNextGlobalId | RescueEditor/js/persistance/html/html-composite.js:295-297 | the counter, without advancing it: the id add-new-node gives next |
| HtmlPersistence.Persistence.DeleteNode | RescueEditor/js/persistance/html/html-composite.js:316-319 | the addressed block leaves its parent's child list and nothing else changes. The root has no parent and throws. The counter is untouched, so no id is reissued |
| HtmlPersistence.Persistence.Serialize | RescueEditor/js/persistance/html/html-composite.js:337-340 | the JSON-wrapped node text of the root's whole subtree, or an error before any root exists |
| HtmlPersistence.Persistence.Deserialize | RescueEditor/js/persistance/html/html-composite.js:363-371 | a fresh root is rebuilt from the element and fails exactly when decoding fails. On success its subtree is the decoded tree and the counter is the greatest restored id plus one, above every restored id |
| BlockEditing.EditedData | RescueEditor/js/templating/html/html-templating.js:400-403 | the new template data keeps the template unchanged and holds the folded form under `jsonArray` |
| BlockEditing.ApplyEditsToBlock | RescueEditor/js/templating/html/html-templating.js:383-408 | the block's template is rendered with the folded form. Only the block's markup and template data are replaced, and the answer is its new rendering (with `replace`'s `$` expansion of the children's HTML). A missing block or template throws and leaves the tree unchanged |
| IO.PatternAsWritten | RescueEditor/js/IO/io.js:135-138 | as written the stored pattern is always `%id%`, whatever the argument |
| IO.PatternOf | RescueEditor/js/IO/io.js:130-138 | as documented: a given non-empty pattern is kept, `%id%` otherwise |
| IO.PatternFinding | RescueEditor/js/IO/io.js:135-138 | a custom pattern is dropped as written and kept as documented; without one both are `%id%` |
| IO.UrlFormatter.constructor | RescueEditor/js/IO/io.js:135-138 | the formatter stores the documented pattern |
| IO.UrlFormatter.Format | RescueEditor/js/IO/io.js:155-160 | with a truthy id, the leftmost occurrence of the pattern is replaced by the id, whose `$` patterns expand against that occurrence and the URL around it. With a falsy or missing id, or no occurrence, the URL comes back unchanged |
| IO.FormatPatternOnly | RescueEditor/js/IO/io.js:155-160 | a URL that is just the pattern becomes the id, its `$` patterns expanded against the pattern; an id without them comes back as it is |
| IO.FormatMatchedPattern | RescueEditor/js/IO/io.js:155-160 | the id `$&` writes the matched pattern back, so `%id%` formats to itself |
| IO.FormatAtEnd | RescueEditor/js/IO/io.js:108-160 | a URL ending in its only pattern gets the id in the pattern's place, its `$` patterns expanded against the pattern and the prefix before it. For an id without them, `http://my-url.com/%id%` becomes `http://my-url.com/my-res` |
| IO.HitSendsNoRequest | RescueEditor/js/IO/io.js:201-209 | a get whose id holds a truthy cached resource sends no request: it answers `[id, resource]` whatever the network would answer, and leaves the cache as it was |
| IO.EmptyIdAlwaysRequests | RescueEditor/js/IO/io.js:201-313 | get looks the empty id up, but _getHelper caches under `default`: after any getMany, a get with the empty id still misses and requests the `default` URL |
| IO.Starts | RescueEditor/js/IO/io.js:239-242 | the gets of getMany, one per id in order, all against the same cache |
| IO.Outcomes | RescueEditor/js/IO/io.js:247 | Promise.all keeps the answers in the order of the ids |
| IO.Assemble | RescueEditor/js/IO/io.js:247-256 | an object is answered exactly when every request succeeded |
| IO.AssembleLastWins | RescueEditor/js/IO/io.js:251-254 | in the assembled object each id holds the resource of its last pair, and no other id is present |
| IO.LastForFinds | RescueEditor/js/IO/io.js:251-254 | a pair that no later pair shares an id with is the one kept for that id |
| IO.Loader.constructor | RescueEditor/js/IO/io.js:174-185 | an empty cache and a formatter with the `%id%` pattern |
| IO.Loader.SetToCache | RescueEditor/js/IO/io.js:268-283 | after `_setToCache`, `_getFromCache` reads the resource back under that key, and every other key reads as before |
| IO.Loader.Finish | RescueEditor/js/IO/io.js:309-317 | a fetched resource is cached under its key and answered as `[key, resource]`; a failed request answers undefined and caches nothing |
| IO.Loader.Get | RescueEditor/js/IO/io.js:201-209 | a truthy cached resource is answered without a request. Otherwise the resource is fetched, cached under `id \|\| 'default'` and answered under that key |
| IO.Loader.GetMany | RescueEditor/js/IO/io.js:230-257 | no ids: an empty object and no cache change. Otherwise each get starts on the cache as it was at the call, every resolved request is cached, and the answers are assembled with later ids overwriting earlier ones |
| IO.Loader.StartAll | RescueEditor/js/IO/io.js:239-242 | the loop pushes one get per id before any resolves |
| IO.Loader.FinishAll | RescueEditor/js/IO/io.js:247 | every request resolves and caches what it fetched, and the answers stay in order |
| IO.Resources | RescueEditor/js/IO/io.js:248-256 | `resources[id] = res` for each answer in turn; an undefined answer makes the destructuring throw |
| IO.FetchedThenHit | RescueEditor/js/IO/io.js:311-313 | a truthy resource fetched under a key is a cache hit for that key afterwards |

## Left out

- ui.js and the rest of the user interface: DOM work, dialogs, focus and event listeners.
- The browser's HTML parsing. This covers `_convertHtmlToDomNodeList`, `parseHtml`, `_translateAttributes`, `_replaceTags`, `_getBlockDefaultValues`, and `DOMParser`/`innerHTML` in `deserializeXml`. Decoding reads an abstract parsed element: the node's own `htmlvalue`, `globalid`, `templatedata` and `children` parts. `querySelector`, which finds the first matching descendant anywhere (a template key named `children`, say), and entity escaping are not modelled.
- The DOM steps of `_translateBlreML` after the text substitution, including the RegExp replace of line 514. That is the only RegExp search in the core, so blreReplaceAll is modelled for string searches only.
- The asynchronous paths: `addNewBlock`, `getBlockEditForm`, the render-html-block event, and the promise create-root waits on. CreateRoot takes the root markup as a parameter; that markup is `HtmlTemplating.RootHtml`.
- Mustache rendering: `BlockEditing.ApplyEditsToBlock` takes the template engine as a parameter.
- The network and configuration: `BlreAjax`, the POST side of BlreBaseSaverLoader, configloader.js, html-io.js and editor-files-io.js. For the loader, the configured base URL and the fetch are parameters.
- IO.Loader.GetMany: the requests resolve in list order, and the fetch answers the same for the same URL. In the browser, requests for the same key may resolve in any order, and the last one to resolve decides what is cached.
- IO.Loader.Finish: a failed request is None. In the source it resolves with undefined after a log line, and getMany's destructuring then throws.
- IO.Loader.constructor: `urlFormatter` is a constant. The source lets a caller assign another formatter.
- JSON values other than strings and objects: numbers, booleans, null and arrays. `JSON.parse` yielding one of them is an `UnmodelledValue` error.
- JavaScript's ordering of integer-like property names: those names come first in a JavaScript object. The model keeps insertion order for every name.
- Capture groups in `$` patterns (`$1`, `$<name>`): the core's patterns are strings or RegExps without groups, so these are written literally, as `replace` writes them then.
- EventManager.ReplaceAllFirst, and the other ReplaceAll lemmas of the table: stated for the literal splice `ReplaceAll`. That splice is blreReplaceAll only for a replacement without `$` patterns (`EventManager.BlreReplaceAllPlain`). Every replacement the escape chain passes is one (`HtmlTemplating.EscapeStepsPlain`).
- IO.Loader: resources are strings. The source resolves a request with `JSON.parse` of the answer (RescueEditor/js/IO/io.js:63-71), so it can cache a number, a boolean or null. A falsy parsed answer (0, false, null) counts as a miss in the source and is requested again; the model stands for it with the empty string, which behaves the same way.
- HtmlComposite.Decode: an id text that holds no number is a `NotANumber` error. The source stores NaN as the id.
- HtmlComposite.DeserializeHelper: requires a childless node. The handler only calls it on a fresh node; on a node with children, the source would append the decoded children after the old ones.
- HtmlPersistence.Persistence.Deserialize: on the error path, only the nodes outside the fresh root's subtree are stated. The partly rebuilt subtree is left unstated. The model answers the root's handle, where the source answers the node object itself.
- Node template data that is undefined (a node built without it) is the empty list. It behaves the same: serialize writes no entries for it, and reading `template` from it fails. ApplyEditsToBlock reports that as `NoTemplate`; the source throws a TypeError.
- Composite.Forest.AddChild: requires a parentless node that is not an ancestor of the target, which is what both callers pass (a fresh node). The source takes any node: a node that already has a parent stays listed under the old parent as well, and a target inside the node's own subtree makes a parent cycle, on which `_makeAncestorsArray` and `breathTraveral` never end.
- Composite.Forest.Children and Composite.Forest.FirstMatchingChild: the child-list result is stated only when every child sits one level deeper than the node. addChild re-depths only the moved node, not its descendants, so a moved subtree can break this. In general the result is stated as the traversal.
- Composite.Forest.GetGreatestGlobalId: covering the whole subtree is stated for subtrees shallower than `Number.MAX_SAFE_INTEGER` levels below the node.
- HtmlTemplating.EscapeWritesTagDiv: stated for the table, tbody, thead, tr and td lines. An occurrence of `<th` may be the start of `<thead`, which an earlier line rewrites.
- HtmlTemplating.AsWrittenWritesTagDiv: the same (k < 5), for the same reason.
- EventManager.BlreReplaceAll with an empty search: Dafny strings hold Unicode scalar values, whereas JavaScript strings are UTF-16 code units. An empty-search replace in JavaScript matches between the two halves of a surrogate pair; `ExpandEmpty` matches between characters. No call in the core passes an empty search, and for a non-empty search nothing observable differs.
- The caller's objects that the source writes to. `is` marks the caller's selector strict (modelled by `Selectors.MarkLast`, which changes no answer). `breathTraveral` adds the root's depth into the caller's `maxDepth`, and `find`/`findFirst` set the caller's `excludeRoot`. Options are values here, so aliasing is not modelled.
- Callbacks of breathTraveral other than the three the queries pass, arbitrary depthTraversal callbacks, and further entries of `_matchers`. Only the gId matcher exists in the source.
- Leaf nodes without a child list (BlreCompositeLeafNode alone). Every modelled node is a BlreCompositeNode.
- Property names inherited from `Object.prototype`. `_events` and `_cache` are plain `{}` objects, so in the source `exists('toString')` holds with nothing bound, `trigger` on such a name throws, `get('constructor')` finds the truthy `Object` and fetches nothing, and `bind('__proto__', …)` replaces the prototype. The model's maps hold only what was stored, so the rows for `exists`, `trigger`, `_getFromCache` and `get` are stated for names that are not inherited.
- Ids are numbers. The source can also receive a block id as a string (html-templating.js:323 reads it from an attribute), and the gId matcher compares with `==`. A canonical decimal string behaves like the number, but the string "0" is truthy and addresses no node, whereas `HtmlPersistence.AddressedZero` and `Selectors.ZeroIdSelector` are about the number 0.
- Ids as JavaScript numbers: the counter is an unbounded integer. Precision loss past 2^53 is not modelled.
- EventManager.EventsManager: callbacks and data share one type parameter, because events in JavaScript answer values of any type.

## Findings

| source | as written | input that shows it | evidently intended | confidence | as-written member | corrected member |
|---|---|---|---|---|---|---|
| RescueEditor/js/persistance/composite.js:350-354 | firstChild calls findFirst with maxDepth 0, and findFirst forces excludeRoot to false, so only the node itself is compared with the selector | a node with id 2 whose first child has id 3, with the selector `[{gId: 3}]`: firstChild answers undefined | the first child matching the selector | high, not executed | Composite.Forest.FirstChild | Composite.Forest.FirstMatchingChild |
| RescueEditor/js/persistance/composite.js:519-520 | the parameter is declared `_index` but the body reads `a_index`, so every call raises a ReferenceError | `removeChildFromIndex(0)` on a node with one child | remove the child at the given index | high, not executed | Composite.RemoveFromIndexFinding | Composite.RemoveFromIndex |
| RescueEditor/js/persistance/composite.js:100-115 | `is` reads past the ancestors array when a strict criterion is left once the chain is used up, and writes into an empty selector | the root with id 2 and the selector `[{gId: 1, isParent: true}, {gId: 2}]` | no match (the empty selector matches every node) | high, not executed | Selectors.StrictPastRootThrows | Selectors.Matches |
| RescueEditor/js/templating/html/html-templating.js:500-504 | the tbody, thead and th lines replace `</tr>` again instead of their own closing tags | the template `<table><tbody><tr><td>x</td></tr></tbody></table>` keeps `</tbody>` | each line closes the tag it opens | high, not executed | HtmlTemplating.AsWrittenKeepsTableCloses | HtmlTemplating.EscapeRemovesTableCloses |
| RescueEditor/js/templating/html/html-templating.js:636 | the type string is looked up in the array of loader elements, where it is never found, so duplicates are kept | two loaders of type `gallery` give `["gallery", "gallery"]` | look the type up among the types already listed | medium, not executed | HtmlTemplating.BlocksToLoadAsWrittenRepeats | HtmlTemplating.BlocksToLoad |
| RescueEditor/js/IO/io.js:135-138 | the argument is or-ed bitwise into a local, and `_idPattern` is always `%id%` | `new BlreBasicGetUrlFormatter('{id}')` still replaces `%id%` | keep the given pattern, `%id%` by default | medium, not executed | IO.PatternFinding | IO.PatternOf |
