# JSON viewer engine, modelled in Dafny

This project models the engine of `JsonViewer.jsx`, a React page that parses the
text typed into a box as JSON. It shows the document as a collapsible tree and
counts its values in a statistics panel. The model covers:

- **Value classification and summaries.** `getDataType` tests for null first,
  then for arrays, then falls back to `typeof`. `renderValue` produces the
  one-line summary after each node's name.
- **The tree of `JsonNode` instances.** Each instance has a name, a level and
  its own `isExpanded` flag, which starts as `level < 2`. An expanded container
  mounts one child instance per entry, in iteration order, one level deeper.
  The chevron button flips the flag of its own instance. Collapsing unmounts
  the children. The tree is modelled as an explicit `View` datatype, and the
  rows it shows as a list of `Line`s.
- **Re-rendering after an edit.** React keeps the root instance while the
  parsed document stays truthy. It matches children by their key: the index
  or the member key, compared as text. Matched instances keep their flags.
  This is modelled by `Reconciliation.Reconcile`.
- **Statistics.** `JsonStats.getStats` traverses the document with a mutable
  accumulator. It counts values of each kind and adds up the member counts
  of all objects.
- **The page state.** The model covers `handleJsonChange`, `clearJson`,
  `formatJson` and `minifyJson`. It also covers the guards that decide what
  the page shows: the error box, the buttons, the tree or placeholder, and
  the statistics.

Modules, one per part, each in its own file:

| module | file | models |
|---|---|---|
| `Options` | options.dfy | the `Option` datatype |
| `Decimal` | decimal.dfy | decimal text of integers, as `String(n)` prints them, and its reader |
| `JsonValues` | json.dfy | the parsed value, `getDataType`, `typeof`, the entries of a container, truthiness |
| `Summary` | summary.dfy | `renderValue`, and a reader that decodes a summary back |
| `Tree` | tree.dfy | `JsonNode`: mounting, visible rows, the expand/collapse button |
| `Reconciliation` | reconcile.dfy | how the mounted tree survives a new document |
| `Stats` | stats.dfy | `getStats` / `traverse`, plus a reference census of value nodes |
| `Viewer` | viewer.dfy | `JsonViewer` state, `trim`, the edit handler, what the page shows |

The parser (`JSON.parse`) and the serializer (`JSON.stringify`) are
parameters. The parser is a function from text to `Parsed(value)` or
`Rejected(message)`. The serializer is a function from value to text.

Behaviour of the code that a reader might not expect, and which the model
states as the code has it:

- **Toggling twice does not always restore a subtree.** Collapsing a
  container unmounts its children, so their flags are lost. Re-expanding
  mounts them afresh with the `level < 2` defaults. `Tree.ToggleTwice` states
  exactly when the subtree is restored. `Tree.ToggleTwiceForgetsDescendants`
  gives a document where it is not, and where a row disappears as a result.
  Flags outside the clicked subtree are never touched (`Tree.ToggleIsLocal`).
- **The tree is not rebuilt on each edit.** While the document stays truthy,
  React keeps the root instance and re-renders it with the new document.
  Children are matched by key, and every instance whose key path survives
  keeps its flag (`Reconciliation.Reconcile`, `Viewer.SameDocumentKeepsTree`).
  An instance starts from its depth default in two cases. The first is a
  child whose key was not on screen before (`Reconciliation.NewChildStartsFresh`).
  The second is the whole tree, when the placeholder was showing
  (`Viewer.FreshTreeAfterPlaceholder`).
- **Parsed `null`.** `parsedJson` is `null` both before any input and after
  a successful parse of `null`. The model therefore keeps the document as a
  plain `JsonValue`, with `Null` standing for both cases. The documents
  `null`, `false` and `""` show the placeholder and nothing else. The
  document `0` shows the placeholder too, but the `{parsedJson && ...}`
  guards render the number itself, so a stray `0` appears under the text box
  and another in place of the statistics
  (`Viewer.FalsyDocumentShowsPlaceholder`; see Findings).

## Model

| member | source | states |
|---|---|---|
| JsonValues.GetDataType | JsonViewer.jsx:199-203 | the result is the kind of the value's constructor, one of the six names; it is `"object"` exactly for objects and `"array"` exactly for arrays, so neither `null` nor an array is ever classified as an object |
| JsonValues.TypeOf | JsonViewer.jsx:295-303 | `typeof` (also used at line 202): `"object"` exactly for `null`, arrays and objects, and `"number"`, `"string"`, `"boolean"` exactly for numbers, strings and booleans |
| JsonValues.IsScalar | JsonViewer.jsx:234 | the test that `typeof data` is not `'object'` or `data` is `null` holds exactly for values that are neither arrays nor objects |
| JsonValues.Entries | JsonViewer.jsx:245 | an array's children are its elements named `0`, `1`, ... in order; an object's children are its members named by their keys, in order; a scalar has none; every child is smaller than its container |
| JsonValues.Truthy | JsonViewer.jsx:142 | the JavaScript truthiness of a parsed document; `Viewer.FalsyDocuments` characterises it: falsy exactly for `null`, `false`, `0` and `""` |
| JsonValues.EntriesOfWellFormed | JsonViewer.jsx:245 | in a document with unique keys, the children of a container have pairwise distinct names (array indices printed in decimal never collide) and are well-formed themselves |
| Decimal.IntToText | JsonViewer.jsx:230 | `String(value)` for a number: non-empty, starting with a minus sign exactly for a negative number and with a digit otherwise; `Decimal.IntRoundTrip` states that it reads back as the same number |
| Decimal.IntRoundTrip | JsonViewer.jsx:230 | the decimal text printed for an integer reads back as that integer |
| Decimal.NatToTextInjective | JsonViewer.jsx:226-228 | two counts or indices print the same text exactly when they are equal |
| Summary.RenderValue | JsonViewer.jsx:217-232 | each kind gets its summary: a string is quoted with no escaping; `null`, `true`, `false` appear as those words; an array shows `Array(n)` with its length; an object shows `Object{k}` with its member count; a number shows its decimal text |
| Summary.SummaryRoundTrip | JsonViewer.jsx:217-232 | decoding a summary recovers the value's kind, a scalar's exact value (including a string containing quotes) and a container's size |
| Summary.SummaryDeterminesShape | JsonViewer.jsx:217-232 | two values have the same summary if and only if they agree on kind, scalar value and container size |
| Tree.Mount | JsonViewer.jsx:196-197 | a new instance starts expanded if and only if its level is below 2; it and every child it mounts satisfy the mounting invariant and keep their depth defaults |
| Tree.MountChildren | JsonViewer.jsx:263-269 | one fresh instance per entry of a container, in iteration order and one level deeper, each showing its entry's name and value, correctly mounted and with its creation flag |
| Tree.PristineIffFresh | JsonViewer.jsx:197 | a mounted instance equals a freshly mounted one if and only if every instance in it still has its creation flag |
| Tree.Header | JsonViewer.jsx:234-242 | an instance's own row carries its level, name and summary; it has no button exactly for a scalar, and the open chevron exactly for an expanded container |
| Tree.Lines | JsonViewer.jsx:234-272 | the rows an instance shows start with its own row; `Tree.ChildrenInOrder` and `Tree.RowsBelowAreDeeper` say what follows |
| Tree.SingleLineUnlessExpanded | JsonViewer.jsx:234-242 | a scalar shows one `name: summary` row with no button, whatever its flag; a collapsed container shows only its own row, with the closed chevron |
| Tree.ChildrenInOrder | JsonViewer.jsx:244-245 | an expanded container's rows one level down are its entries in iteration order, with their names and summaries: array elements under `0`, `1`, ..., object members under their keys |
| Tree.RowsBelowAreDeeper | JsonViewer.jsx:261-270 | every row below an instance's own row belongs to a deeper level |
| Tree.Flip | JsonViewer.jsx:252 | the button inverts a container's flag and keeps its value, name and level; a scalar has no button and is unchanged |
| Tree.Toggle | JsonViewer.jsx:252 | a click addressed by a child-index path keeps the clicked root's value, name and level, leaves the number of mounted direct children unchanged when a descendant is clicked, and leaves the tree unchanged when the path leads to no mounted instance |
| Tree.ToggleFlipsTarget | JsonViewer.jsx:252 | a click keeps the tree correctly mounted and inverts the flag of the clicked container; a click on a scalar changes nothing |
| Tree.ToggleIsLocal | JsonViewer.jsx:197 | a click changes no flag outside the clicked subtree, neither an ancestor's nor another branch's; instances on other branches are unchanged entirely |
| Tree.ToggleTwice | JsonViewer.jsx:252-270 | clicking twice restores the tree if and only if the node was collapsed, or each of its children still had its creation flag |
| Tree.ToggleTwiceForgetsDescendants | JsonViewer.jsx:261-270 | for `{"a":{"b":{"c":1}}}`, once `b` has been expanded, collapsing and re-expanding the root brings a different tree back, which shows 3 rows instead of 4 |
| Reconciliation.Reconcile | JsonViewer.jsx:173 | the re-rendered root shows the new value and keeps its name, level and flag |
| Reconciliation.ReconcileMounted | JsonViewer.jsx:261-270 | re-rendering a correctly mounted tree with any new document gives a correctly mounted tree for that document |
| Reconciliation.NewChildStartsFresh | JsonViewer.jsx:263-269 | a child whose key was not on screen before is mounted fresh, with its depth default |
| Reconciliation.ReconcileSameValue | JsonViewer.jsx:263-269 | re-rendering with the same well-formed document leaves the whole tree, flags included, unchanged |
| Stats.Values | JsonViewer.jsx:298 | `Object.values`: one value per member, in member order, each the member's value |
| Stats.GetStats | JsonViewer.jsx:278-310 | `getStats` traverses from all-zero counters; `Stats.StatsAreCensus` states what each counter then holds |
| Stats.Traverse | JsonViewer.jsx:289-306 | the accumulating traversal; `Stats.TraverseAddsStats` states that it adds the document's statistics to whatever the accumulator held |
| Stats.TraverseAddsStats | JsonViewer.jsx:289-306 | traversing from any accumulator adds exactly the document's own statistics to it |
| Stats.TraverseChildren | JsonViewer.jsx:294-298 | the `forEach` over a container's children; `Stats.TraverseChildrenSums` states what it adds |
| Stats.TraverseChildrenSums | JsonViewer.jsx:294-298 | visiting the children from position `i` on adds the sum of their statistics to the accumulator |
| Stats.StatsAreCensus | JsonViewer.jsx:278-310 | each per-kind counter equals the number of value nodes of that kind, root included; `totalKeys` equals the sum of the member counts of all objects |
| Stats.KindCountersPartitionNodes | JsonViewer.jsx:289-306 | the six per-kind counters add up to the number of value nodes in the document |
| Stats.ArrayOrderIrrelevant | JsonViewer.jsx:292-294 | any reordering of one array's elements leaves its statistics unchanged |
| Stats.ObjectOrderIrrelevant | JsonViewer.jsx:295-298 | any reordering of one object's members leaves its statistics unchanged |
| Stats.ReorderingKeepsStats | JsonViewer.jsx:278-310 | reordering the elements of any arrays and the members of any objects, at every depth, leaves the statistics unchanged |
| Stats.ElementStatisticsDetermine | JsonViewer.jsx:292-294 | an array's statistics depend on its elements only through their statistics |
| Stats.MemberStatisticsDetermine | JsonViewer.jsx:295-298 | an object's statistics depend on its member values only through their statistics |
| Stats.ExampleDocumentStats | JsonViewer.jsx:278-310 | `{"a":1,"b":[true,null]}` counts 1 object, 1 array, 0 strings, 1 number, 1 boolean, 1 null and 2 keys |
| Viewer.Trim | JsonViewer.jsx:50 | `trim()` is no longer than its input and neither starts nor ends with white space; `Viewer.TrimmedEmptyIffBlank` states when it is empty |
| Viewer.TrimmedEmptyIffBlank | JsonViewer.jsx:50 | `trim()` yields the empty text if and only if every character is ECMAScript white space or a line terminator |
| Viewer.ShowTree | JsonViewer.jsx:171-180 | the tree slot after the document changes: a tree exactly for a truthy document, always showing that document; a fresh root with default flags when the placeholder was showing; otherwise the root already on screen, keeping its name, level and flag (`Viewer.SameDocumentKeepsTree`, `Viewer.FreshTreeAfterPlaceholder`) |
| Viewer.HandleJsonChange | JsonViewer.jsx:48-64 | the box always takes the new text. Blank text clears the document and the error and shows no tree. A rejected text clears the document and sets the error to `Invalid JSON: ` plus the parser's message. A parsed text stores the document and clears the error, and a tree is present if and only if the document is truthy |
| Viewer.HandleJsonChangeConsistent | JsonViewer.jsx:48-64 | an edit preserves the state invariant: a tree is mounted for the current document if and only if it is truthy, and an error comes only with no document |
| Viewer.ClearJson | JsonViewer.jsx:72-76 | clearing empties the box, the document and the error, and removes the tree |
| Viewer.Reserialize | JsonViewer.jsx:86-98 | format and minify write the serialization of a truthy document into the box, change nothing else, and do nothing for a falsy one |
| Viewer.ReserializeKeepsScreen | JsonViewer.jsx:86-98 | format and minify leave everything on the page except the text box as it was |
| Viewer.ToggleNodeConsistent | JsonViewer.jsx:252 | a click in the tree preserves the state invariant |
| Viewer.AndGuard | JsonViewer.jsx:142-190 | `{parsedJson && (...)}` at lines 142 and 185: the panel exactly for a truthy document, the document's own text exactly for the number `0`, and nothing otherwise |
| Viewer.Render | JsonViewer.jsx:136-190 | the page as written: the error box exactly for a non-empty error, and the text `0` in place of the buttons and of the statistics exactly for the document `0` |
| Viewer.IntendedRender | JsonViewer.jsx:142-190 | the page with guards that show nothing for any falsy document; `Viewer.IntendedRenderDiffersOnlyAtZero` states that it differs from the page as written exactly for the document `0` |
| Viewer.IntendedRenderDiffersOnlyAtZero | JsonViewer.jsx:142-190 | the intended page equals the page as written if and only if the document is not `0` |
| Viewer.PanelsAppearTogether | JsonViewer.jsx:136-190 | the tree, the statistics and the buttons appear together, exactly when the document is truthy; they never appear next to an error; the tree's first row is `root` |
| Viewer.FalsyDocuments | JsonViewer.jsx:142 | the falsy documents are exactly `null`, `false`, `0` and `""` |
| Viewer.FalsyDocumentShowsPlaceholder | JsonViewer.jsx:142-190 | a text that parses to `null`, `false` or `""` shows no error, no buttons, no tree and no statistics, the same page as empty input; a text that parses to `0` shows the placeholder with the text `0` in place of the buttons and of the statistics |
| Viewer.ZeroDocumentShowsStrayText | JsonViewer.jsx:142-190 | the valid text `0` gives a page different from the empty-input page, with the text `0` where the statistics would be |
| Viewer.IntendedFalsyDocumentShowsPlaceholder | JsonViewer.jsx:142-190 | with the intended guards, every falsy document, `0` included, shows the same page as empty input |
| Viewer.RejectedTextShowsError | JsonViewer.jsx:60-63 | a rejected text shows only the error box with `Invalid JSON: ` and the parser's message |
| Viewer.SameDocumentKeepsTree | JsonViewer.jsx:171-173 | an edit that still parses to the same well-formed document keeps every expand flag and clears the error |
| Viewer.FreshTreeAfterPlaceholder | JsonViewer.jsx:171-173 | when the placeholder was showing, a truthy document gets a freshly mounted root, with all flags at their defaults |

## Left out

- Presentation: the Tailwind classes, the `ml-${level * 4}` indentation text, the colour table of `getTypeColor` and the icons. The button is modelled only as which chevron, if any, is shown.
- `JSON.parse` and `JSON.stringify`. These are library calls, so both are parameters. Format, minify and copy re-serialize through them and are never re-parsed.
- `copyJson`. The clipboard write and the `setTimeout` that resets `copied` are asynchronous browser I/O.
- `loadSample`. It is `handleJsonChange` applied to the serialized sample document, so it is covered by `Viewer.HandleJsonChange`.
- Summary.RenderValue: numbers are mathematical integers printed in plain decimal. JavaScript numbers are IEEE doubles, and `String(n)` switches to exponent notation from 1e21 and prints fractions. Floating point is not modelled.
- JsonValues.Entries: an object's members are taken in the order the host enumerates them. The JavaScript engine lists integer-like keys first, in ascending order. That reordering is the parser's business and is not modelled.
- Reconciliation.ReconcileSameValue: this assumes unique keys within each object. JavaScript objects always have them. With duplicate React keys the library's behaviour is unspecified.
- Depth is not bounded. The model, like the source, has no recursion limit, and stack exhaustion on very deep documents is not modelled.
- The other files of the repository are not part of this model. These are `platform_analytics_bulk_migration.js`, `platform_analytics_migration.js`, `monitor_mid_server_queue.js` and `mcp_server.py`. They query external record stores, use the network and read the clock. They share no logic with the viewer.

## Findings

| source | as written | input that shows it | evidently intended | confidence | as-written member | corrected member |
|---|---|---|---|---|---|---|
| JsonViewer.jsx:142-190 | `{parsedJson && (...)}` renders the value of `parsedJson` when it is falsy, and React renders the number 0 as text | the text `0` (also `-0` or `0.0`) | nothing in place of the buttons and of the statistics, as for `null`, `false` and `""` (for instance `{parsedJson ? (...) : null}`) | medium, not executed | Viewer.Render, Viewer.ZeroDocumentShowsStrayText | Viewer.IntendedRender, Viewer.IntendedFalsyDocumentShowsPlaceholder |
