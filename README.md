# OSINT tool tree: a Dafny model

The repository serves a page that draws a collapsible tree of OSINT tools
(`public/js/arf.js`) and a serverless endpoint, the "oracle", that asks a
language model for a description of a tool (`functions/generate-description.js`).
This project models the page's state and the endpoint's decision logic, and
proves properties of both.

- **ToolTree** (`tool_tree.dfy`) holds the value-level logic of a single node:
  - the two child slots, `children` (visible) and `_children` (hidden);
  - what `toggle` does to a node, and what `collapse` does to each node it visits;
  - the circle fill, the label side and the node's column;
  - the hover tooltip state machine: guards, placeholder, success and fallback.
- **TreeView** (`tree_view.dfy`) is the page's state as a class `View`:
  - Fields: the tree's node slots, the lazily assigned ids with the global counter `i`, the columns and the tooltips.
  - Methods: `collapse` (recursive through `forEach`), the load step, `toggle`, the id and column loops of `update`, the click handler and the mouseover handler.
  - Nodes are addressed by handle. The loaded tree is numbered parents first, so every child handle is larger than its parent's handle.
  - `collapse(d)` is specified in closed form: every node of `d`'s visible subtree is folded, and every other node is unchanged.
- **Oracle** (`oracle.dfy`) models `onRequest` as a pure function.
  - Its inputs are the `tool` query parameter, the model binding `env.AI.run` as a function from invocation to outcome, and `JSON.stringify`.
  - It returns the response and the model invocation made, if any.
- **Session** (`session.dfy`) connects the page's request to the endpoint's reply, end to end.

Three consequences of the code as written:
- A failed request does not set `data-loaded`, so the next hover asks again.
- After loading, the root stays expanded, so its circle fill is `#fff` and not `lightsteelblue`.
- The loaded flag is set only when a response arrives. So two hovers made before the first response both issue a request, and the request that settles last decides the text.

## Model

| member | source | states |
|---|---|---|
| Options.Truthy | public/js/arf.js:65 | An optional string field is truthy exactly when it is present and not "". |
| ToolTree.OrElse | public/js/arf.js:100 | The JavaScript or-expression of a field and a fallback is the field's own value when it is truthy, and the fallback otherwise. It is empty only when the fallback is empty. |
| ToolTree.Toggled | public/js/arf.js:160-168 | Visible children move to the hidden slot, or hidden children are revealed. The result never has both slots filled. On a node with at most one slot filled, the children and whether the node has any are unchanged. |
| ToolTree.ToggleTwice | public/js/arf.js:160-168 | Toggling twice restores the node exactly when at most one of its slots was filled. |
| ToolTree.Folded | public/js/arf.js:36-39 | A node visited by `collapse` ends with no visible children. Its hidden slot holds its former visible list if it had one, otherwise its old hidden slot. No child is added. |
| ToolTree.FoldedTwice | public/js/arf.js:36-39 | Folding a node that is already folded changes nothing. |
| ToolTree.Fill | public/js/arf.js:87 | The fill is "lightsteelblue" exactly when the node has hidden children, otherwise "#fff". |
| ToolTree.LabelOf | public/js/arf.js:93-95 | The label is anchored "end" at x = -10 exactly when the node has visible or hidden children, otherwise "start" at x = 10. |
| ToolTree.ToggleFlipsFill | public/js/arf.js:108 | Clicking a node that has children always changes its fill. |
| ToolTree.ToggleKeepsLabel | public/js/arf.js:93-95 | Clicking never moves a node's label to the other side. |
| ToolTree.Column | public/js/arf.js:55 | The column `depth * 180` is a multiple of 180, and the depth can be read back from it. |
| ToolTree.InitialTip | public/js/arf.js:100 | The first tooltip is the static description if it is truthy, otherwise the invitation to hover. It is not marked loaded. |
| ToolTree.FetchOutcomeOf | public/js/arf.js:71-75 | A request succeeds exactly when the status is 200-299 and the body parses. The success then carries the parsed `response` field. |
| ToolTree.Fetches | public/js/arf.js:65-67 | The hover guards pass exactly when the node's `url` is absent or empty and the tooltip is not loaded. |
| ToolTree.OldScrolls | public/js/arf.js:81 | The fallback text is the old-scrolls prefix, followed by the description when it is truthy, and the bare prefix otherwise. |
| ToolTree.BeginHover | public/js/arf.js:65-69 | A request goes out exactly when the node has no truthy `url` and its tooltip is not loaded. The tooltip then reads "The oracle is contemplating...". Otherwise nothing changes. |
| ToolTree.SettleHover | public/js/arf.js:72-81 | Success shows `data.response`, or "The oracle is silent on this matter." if that is falsy, and sets the loaded flag. Failure shows the old-scrolls prefix followed by the description or "", and leaves the flag as it was. |
| ToolTree.HoverOnce | public/js/arf.js:64-83 | A hover whose request settles before the next event. It fetches exactly when the guards pass, and then ends loaded exactly on success. Otherwise the tooltip is unchanged. |
| ToolTree.HoverRun | public/js/arf.js:64-83 | Over a series of sequential hovers, at most one request goes out per hover. With no request, the tooltip is unchanged. |
| ToolTree.UntilSuccess | public/js/arf.js:72-81 | The number of hovers up to and including the first success, or the whole series when none succeeds. It is positive on a non-empty series, and every hover before it failed. |
| ToolTree.UrlNodeNeverFetches | public/js/arf.js:65 | Any series of hovers over a node with a `url` issues no request and leaves its tooltip as it was. |
| ToolTree.LoadedTipIsFinal | public/js/arf.js:67 | Once a tooltip is loaded, hovers issue no request and change nothing. |
| ToolTree.FetchesUntilFirstSuccess | public/js/arf.js:64-83 | Over a series of hovers, one request goes out per hover until the first success and none after it. The node ends loaded exactly when some request succeeded, showing the first success's text; if every request failed, it shows the fallback, unloaded. |
| ToolTree.RacingHoversBothFetch | public/js/arf.js:67-78 | A second hover made before the first request settles issues a second request. |
| ToolTree.RaceCanPinFallback | public/js/arf.js:72-81 | A failure that settles after a racing success leaves the fallback text showing with the loaded flag set, so no later hover replaces it. |
| ToolTree.FailureIsRetried | public/js/arf.js:79-81 | After a failed request the next hover issues a new request. |
| TreeView.Succ | public/js/arf.js:36-38 | Every child of a node in a well-formed tree lies after that node. |
| TreeView.Reach | public/js/arf.js:35-41 | The subtree of a node contains the node and nothing before it. |
| TreeView.CollapsedOver | public/js/arf.js:35-41 | When `collapse` has visited the nodes of a set, every node in the set has no visible children and keeps its former visible list as hidden. A member with no visible children is left as it was, and so is every node outside the set. |
| TreeView.BelowMember | public/js/arf.js:38 | A node is reached from a list of children exactly when it is reached from one of them. |
| TreeView.CollapsedOverForward | public/js/arf.js:35-41 | Collapsing keeps every child pointer forward, so the tree stays a tree. |
| TreeView.ReachTransitive | public/js/arf.js:35-41 | Whatever is reachable from a reachable node is reachable. |
| TreeView.ReachClosed | public/js/arf.js:38 | A node's visible subtree contains the visible children of all its members. |
| TreeView.ReachAfterFold | public/js/arf.js:38 | Folding a subtree that is closed under children does not change what the rest of the tree reaches. |
| TreeView.FoldStep | public/js/arf.js:38 | One more `collapse` of a child, after those of its earlier siblings, folds exactly the subtrees of all siblings so far. |
| TreeView.CollapsePreservesSubtrees | public/js/arf.js:35-41 | Collapsing keeps each node's whole subtree, counting both slots, exactly as it was. |
| TreeView.LoadCollapsesDescendants | public/js/arf.js:43 | Loading a fresh tree leaves the root as it was. Every other node of the tree ends with no visible children and its original children list hidden. |
| TreeView.IdsFollowListOrder | public/js/arf.js:58 | A node without an id that comes later in the list gets a larger id than any earlier node that got a new id. |
| TreeView.NextIdKeepsValid | public/js/arf.js:58 | Giving a node `++i` keeps every id at most the counter, and keeps non-zero ids distinct. |
| TreeView.View.constructor | public/js/arf.js:30-31 | The loaded tree: nothing hidden, no ids, the counter at 0, and each tooltip as first drawn. |
| TreeView.View.Collapse | public/js/arf.js:35-41 | `collapse(d)` folds exactly the nodes of `d`'s visible subtree and leaves every other node unchanged. |
| TreeView.View.CollapseEach | public/js/arf.js:38 | `forEach(collapse)` over a list of children folds exactly the visible subtrees of the list. |
| TreeView.View.Load | public/js/arf.js:43 | Loading succeeds exactly when the root has a children array, and then folds the subtrees of the root's children. When it fails, nothing changes. |
| TreeView.View.Toggle | public/js/arf.js:160-168 | Only the clicked node changes, and it changes as `Toggled` says. The single-slot invariant is kept. |
| TreeView.View.PlaceColumns | public/js/arf.js:55 | Every laid-out node gets column `depth * 180`. Nodes that are not laid out keep theirs. |
| TreeView.View.Key | public/js/arf.js:58 | A node keeps an id it already has. A node without one gets `++i`. Either way the returned id is non-zero, and ids stay distinct. |
| TreeView.KeyedInOrder | public/js/arf.js:58 | Once every laid-out node is keyed, the counter has advanced once per node that had no id. Those nodes hold the counter values in list order, rising strictly. Every laid-out node has a non-zero id, and no other id changed. |
| TreeView.View.KeyEach | public/js/arf.js:58 | The key function applied to each laid-out node in turn leaves the ids and the counter as the keyed-prefix predicate describes for the whole list. |
| TreeView.View.AssignIds | public/js/arf.js:58 | Existing ids stay. The counter advances once per laid-out node without an id, and those nodes get the counter values in list order, rising strictly. Every laid-out node ends with a non-zero id, and all ids stay distinct. |
| TreeView.View.Update | public/js/arf.js:53-58 | Every laid-out node gets its column and a non-zero id. Other nodes keep their columns. Existing ids stay, and other nodes keep theirs. The counter advances once per laid-out node without an id, and those nodes get the counter values in list order, rising strictly. |
| TreeView.View.Click | public/js/arf.js:63 | Only the clicked node's slots change, as `Toggled` says. Then columns and ids are updated exactly as `Update` states. |
| TreeView.View.BeginMouseOver | public/js/arf.js:64-71 | The guards and the placeholder. A request for the node's name is returned exactly when the guards pass. |
| TreeView.View.ResponseArrives | public/js/arf.js:72-81 | A settled request changes only that node's tooltip, as `SettleHover` says. |
| TreeView.View.MouseOver | public/js/arf.js:64-83 | A hover whose request settles at once changes only that node's tooltip, as `HoverOnce` says. |
| TreeView.TwoToolScenario | public/js/arf.js:30-45 | A page built from a root with one leaf child, then loaded, leaves the root expanded with a "#fff" circle. A successful hover over the root then shows the oracle's text exactly, marked loaded. |
| Oracle.Unframe | functions/generate-description.js:17 | A text recovered from between two frames, framed again, gives back the input. |
| Oracle.Prompt | functions/generate-description.js:17 | The prompt is the fixed lead, then the tool name between double quotes, then the fixed close. |
| Oracle.NameInPrompt | functions/generate-description.js:17 | A name read back from a prompt rebuilds that prompt. |
| Oracle.PromptRoundTrip | functions/generate-description.js:17 | The prompt quotes exactly the tool name it was built for. |
| Oracle.PromptInjective | functions/generate-description.js:17 | Two prompts are equal exactly when their tool names are equal. |
| Oracle.Call | functions/generate-description.js:20-26 | Every invocation uses model `@cf/meta/llama-2-7b-chat-int8` with `max_tokens` 150, and its prompt names the tool. |
| Oracle.OnRequest | functions/generate-description.js:10-35 | The status is one of 400, 200 and 500. It is 400 exactly when the `tool` parameter is missing or empty; then the reply is the fixed rebuke and the model is not called. Otherwise the model is called exactly once, for that name. Its output goes verbatim into a 200 `application/json` reply; if it throws, the reply is the fixed 500 message. |
| Oracle.OkIffModelAnswered | functions/generate-description.js:12-31 | The reply is 200 exactly when a tool is named and the model returned. |
| Oracle.PromptNamesTheTool | functions/generate-description.js:17-26 | When a tool is named, the one invocation's prompt names exactly that tool. Whitespace-only names count as named. |
| Oracle.ErrorNotLeaked | functions/generate-description.js:32-35 | Two model bindings that throw different errors give the same reply. |
| Oracle.OnlyTheCallMatters | functions/generate-description.js:20-35 | The reply depends on the model binding only through the one invocation made. |
| Session.Consultation | functions/generate-description.js:12-35 | A request for a node with an empty name fails. So does one whose model call throws. Otherwise it succeeds exactly when the serialized output parses, carrying its `response` field. |
| Session.EmptyNameFallsBack | functions/generate-description.js:12-14 | Hovering a node with an empty name calls no model and shows the fallback, unloaded. |
| Session.ModelFailureFallsBack | functions/generate-description.js:32-35 | When the model throws, the hover shows the fallback, and a later hover asks again. |
| Session.OracleTextReachesTooltip | public/js/arf.js:72-78 | A non-empty `response` from the model becomes the tooltip text, and the node is marked loaded. |
| Session.LoadedIffAnswered | public/js/arf.js:64-83 | A hover ends loaded exactly when the name is non-empty, the model returned, and the page could parse the reply. |

## Left out

- D3 layout and rendering are not part of this model:
  - the x coordinates, `tree.links` and the `diagonal` paths;
  - transitions, durations, radius and opacity animation;
  - SVG construction and the enter/exit data join.
  The order and the depths of the laid-out nodes that `tree.nodes(root).reverse()` yields are parameters of `Update`, `Click` and `PlaceColumns`. They are assumed to list each node at most once, as a tree walk does.
- `d.x0`/`d.y0`: these only feed the animation.
- DOM element lifetime: a `<title>` that is re-created when a node re-enters would lose its `data-loaded` attribute. This model keeps one tooltip per node for the page's lifetime.
- `goDark`: a single class toggle on the page body, with no state of the tree.
- Asynchrony:
  - `d3.json`, `fetch` and `response.json` are not modelled. A settled request is an input (`FetchOutcome`). Hovers are sequential events, or the two phases `BeginMouseOver`/`ResponseArrives` when requests race.
  - `console.error` is not modelled.
- URL parsing: `URL`/`searchParams`, and `encodeURIComponent` on the page, are taken to deliver the node's name unchanged as the `tool` parameter.
- `JSON.stringify` and the client's JSON parsing are function parameters.
- Oracle.OnRequest: `JSON.stringify` runs inside the handler's `try`, so if it throws (a cyclic or BigInt-valued output) the reply is 500. The model's `stringify` is a total function and cannot throw, so this path is not modelled.
- Session.Consultation: a reply body of JSON `null` makes reading `data.response` throw, which leads to the fallback text. The model covers this only through `parse` returning None for such a body.
- `env.AI.run` is a function parameter returning a value or throwing. What the model emits is not modelled.
- The HTTP runtime's default content type for the 400 and 500 replies is not modelled. Those replies carry `None` as their content type, meaning one the handler does not set.
