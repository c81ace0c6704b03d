# speq core, modelled in Dafny

speq is a terminal browser for OpenAPI documents. It loads a YAML or JSON
document, detects its version, and lists the document's top-level schema
names. It can also show schemas as a collapsible tree that the user walks
with vi-style keys. This project models the logic behind that:

- `tree.dfy` (module `Tree`) models the schema tree:
  - nodes, their kinds and type labels;
  - the flattened list of visible rows;
  - the `TreeState` navigator, with its cursor and expand/collapse operations;
  - the recursive walks that find a row by its index and change one
    node's `expanded` flag, or every node's flag.
- `app.dfy` (module `AppState`) models the `App` state: the selected schema
  name, the focused pane and the quit flag.
- `keys.dfy` (module `Keys`) models the key handler. It decodes one key
  press, with a single pending-key slot for the sequences `gg`, `zo`, `zc`,
  `zR` and `zM`.
- `parser.dfy` (module `Parser`) decides the document's dialect from its
  `swagger` and `openapi` fields.
- `parser_v3.dfy` (module `ParserV3`) reads an OpenAPI 3 document into a
  `LoadedSpec`. It takes the version from the `openapi` string and the
  schema names from the Components Object, sorted.
- `string_order.dfy` (module `StringOrder`) defines the byte-wise string
  order and the sort that `ParserV3` uses.
- `spec.dfy` (module `Spec`) holds `LoadedSpec` and `SpecVersion`.
- `wrappers.dfy` holds `Option` and `Result`.

Modelling choices:

- **Row identity.** A Rust `FlatNode` borrows its `TreeNode`. Here a row
  carries the node's path (the child index at each level, starting from
  the root index) as that identity, along with the node and its depth.
- **Visible rows.** `Visible(roots)` is the list that `flatten` builds. It
  is proved sound, complete and in pre-order:
  - every row is a node whose ancestors are all expanded, at a depth equal
    to its nesting level (`VisibleSound`);
  - every such node is a row (`VisibleComplete`);
  - rows come in pre-order (`VisibleInPreOrder`);
  - each nested row's parent comes earlier (`VisibleParentFirst`).
- **`toggle_at` and `set_expanded_at`.** The two walks are identical except
  for the flag they assign, so they are modelled by one method, `ApplyAt`,
  which takes a `FlagAction` (`Toggle` or `SetTo(b)`). `ApplyAt` is proved
  equal to `UpdateAt`, which changes the flag at the path of the target
  row and nothing else.
- **Key handling.** The `App` in `src/app.rs` declares no pending key and
  no tree operations. `handle_key` is therefore modelled as a function from
  (pending key, key code, modifiers) to (command, quit flag, new pending
  key).
- **Decoding.** The YAML/JSON decoders are abstracted:
  - `Content` holds what the generic decoding yields (none when the text
    is not YAML or JSON) and what the typed OpenAPI 3 decoding yields;
  - a field's value matters only in whether it is a string;
  - schema keys are a sequence, in the decoder's map order.

Points where the model keeps to the code as written:

- The node kinds include `Schema`, the kind of a top-level schema root.
- `goto_bottom` saturates at 0 when no row is visible.
- `App` holds only the fields `src/app.rs` declares.
- No core file builds `TreeNode`s from decoded schemas; the tree is taken
  as given.

## Model

| member | source | states |
|---|---|---|
| Tree.TreeNode.TypeLabel | src/tree.rs:45-60 | the label is never empty; it starts with '→' exactly for a reference, and the rest is then the reference target |
| Tree.TypeLabelFixed | src/tree.rs:47-58 | every non-reference kind has one of the eleven fixed labels, and each kind its own: Schema "schema", Object "object", Array "array", Str "string", Integer "integer", Number "number", Boolean "boolean", AllOf "allOf", OneOf "oneOf", AnyOf "anyOf", Unknown "?" |
| Tree.ExpandableShowsChildren | src/tree.rs:41-43 | a node is expandable exactly when it has children, that is, exactly when expanding it adds rows below its own |
| Tree.TypeLabelInjective | src/tree.rs:45-60 | different kinds never share a label, so the label identifies the kind |
| Tree.VisibleSound | src/tree.rs:153-160 | every flattened row is a node of the tree at its row's path, at depth equal to its nesting level, and all its ancestors are expanded |
| Tree.VisibleComplete | src/tree.rs:153-160 | every node whose ancestors are all expanded appears as a row |
| Tree.VisibleInPreOrder | src/tree.rs:153-160 | rows are in depth-first pre-order: each row's path precedes the next one's |
| Tree.VisibleParentFirst | src/tree.rs:153-160 | a nested row's parent is an earlier, expanded row one level up, and the row's node is one of its children |
| Tree.VisibleDepthSteps | src/tree.rs:153-160 | from one row to the next, depth grows by at most one |
| Tree.VisibleBounds | src/tree.rs:81-87 | the visible count is at least the number of roots and at most the number of nodes |
| Tree.FlattenNode | src/tree.rs:153-160 | the loop appends exactly the node's rows, shifted to the given depth and path prefix |
| Tree.ApplyAt | src/tree.rs:163-198 | the walk finds the target exactly when it lies within this level's visible rows; it then updates only the node at that row's path, and otherwise advances the counter by the rows it passed and changes nothing |
| Tree.UpdateAtSameShape | src/tree.rs:163-198 | a flag update changes no name, kind or child list, only `expanded` flags |
| Tree.UpdateAtFlags | src/tree.rs:163-198 | after an update, every path is still valid; the node at the target path has the flag the action gives it (a node without children keeps its own), and every other node keeps its flag |
| Tree.UpdateAtLeaf | src/tree.rs:166-168 | updating a node without children changes nothing |
| Tree.UpdateAtToggleTwice | src/tree.rs:163-177 | toggling the same node twice restores the tree |
| Tree.UpdateAtSetTwice | src/tree.rs:179-198 | setting the same flag twice is the same as setting it once |
| Tree.UpdateRowKeepsRow | src/tree.rs:119-137 | after toggling, expanding or collapsing the node at a row, that row still exists and shows the same node |
| Tree.ToggleRowTwice | src/tree.rs:119-123 | toggling at the same cursor twice restores the tree |
| Tree.SetRowTwice | src/tree.rs:126-137 | expanding (or collapsing) at the same cursor twice is the same as doing it once |
| Tree.UpdateRowEffect | src/tree.rs:119-137 | an at-cursor update keeps the tree's shape; with the cursor past the last row, or on a node without children, it changes nothing; otherwise only the cursor node's flag changes |
| Tree.SetExpandedAll | src/tree.rs:200-207 | every node with children gets the given flag; every other node keeps its flag; the shape is unchanged |
| Tree.FlagsSetEverywhere | src/tree.rs:200-207 | after a set-all, the flag at every path is the given one for nodes with children and the old one for leaves |
| Tree.ExpandedAllVisible | src/tree.rs:140-142 | after expanding everything, every node is visible |
| Tree.CollapsedAllVisible | src/tree.rs:145-148 | after collapsing everything, only the roots are visible |
| Tree.TreeState.constructor | src/tree.rs:76-78 | the state holds the given roots with the cursor at 0 |
| Tree.TreeState.Flatten | src/tree.rs:81-87 | the loop over the roots produces exactly the visible rows |
| Tree.TreeState.VisibleCount | src/tree.rs:89-91 | the count is the number of visible rows, between the number of roots and the number of nodes |
| Tree.TreeState.SelectedNode | src/tree.rs:93-95 | a node is returned exactly when the cursor is on a row, none for an empty tree, and it is the tree's node at that row's path, with all ancestors expanded; with a valid cursor over a non-empty forest a node is always returned |
| Tree.TreeState.MoveUp | src/tree.rs:97-101 | the cursor decreases by one unless it is at 0; a valid cursor stays valid |
| Tree.TreeState.MoveDown | src/tree.rs:103-108 | the cursor increases by one unless it is on the last row; a valid cursor stays valid |
| Tree.TreeState.GotoTop | src/tree.rs:110-112 | the cursor is 0 |
| Tree.TreeState.GotoBottom | src/tree.rs:114-116 | the cursor is on the last row, or 0 when no row is visible |
| Tree.TreeState.ToggleAtCursor | src/tree.rs:119-123 | the roots become the at-cursor toggle of the old roots; a valid cursor stays valid |
| Tree.TreeState.ExpandAtCursor | src/tree.rs:126-130 | the roots become the at-cursor expand of the old roots; a valid cursor stays valid |
| Tree.TreeState.CollapseAtCursor | src/tree.rs:133-137 | the roots become the at-cursor collapse of the old roots; a valid cursor stays valid |
| Tree.TreeState.ExpandAll | src/tree.rs:140-142 | every expandable node is expanded; every node becomes visible; a valid cursor stays valid |
| Tree.TreeState.CollapseAll | src/tree.rs:145-148 | every expandable node is collapsed; only the roots are visible; the cursor is 0 |
| Spec.LabelValues | src/spec.rs:16-24 | the three labels are "Swagger 2.0", "OpenAPI 3.0" and "OpenAPI 3.1" |
| Spec.LabelInjective | src/spec.rs:16-24 | no two versions share a label |
| StringOrder.LessEqTotal | src/parser/v3.rs:24 | any two names are comparable, so sorting is defined |
| StringOrder.LessEqAntisymmetric | src/parser/v3.rs:24 | names that compare both ways are equal |
| StringOrder.LessEqTransitive | src/parser/v3.rs:24 | the order is transitive |
| StringOrder.Sort | src/parser/v3.rs:23-24 | the result is sorted and is a permutation of the input |
| StringOrder.SortedUnique | src/parser/v3.rs:23-24 | two sorted permutations of the same names are equal, so the sorted order is unique |
| ParserV3.Classify | src/parser/v3.rs:9-13 | the version is 3.1 exactly when the `openapi` string starts with "3.1", and is never Swagger 2.0 |
| ParserV3.SchemaNames | src/parser/v3.rs:19-27 | with no Components Object, no names; otherwise the schema keys, sorted, with none lost or added |
| ParserV3.Parse | src/parser/v3.rs:6-35 | fails, with the OpenAPI 3 error, exactly when the typed decoding fails, and succeeds exactly when it succeeds; then the title and version string are copied, the version follows the "3.1" prefix, and the names are the sorted schema keys |
| ParserV3.SortIsTheSortedArrangement | src/parser/v3.rs:23-24 | any sorted permutation of the keys is what `Sort` returns |
| ParserV3.PetstoreNames | src/parser/v3.rs:44-49 | the petstore schemas Pets, Error, Pet and NewPet come out as Error, NewPet, Pet, Pets |
| ParserV3.PetstoreVersion | src/parser/v3.rs:51-55 | a version string of 3.0.0 is classified as OpenAPI 3.0 |
| ParserV3.PetstoreLoads | src/parser/v3.rs:43-55 | the petstore document loads with its title, version string, version 3.0 and sorted names |
| Parser.ParseSpec | src/parser/mod.rs:9-27 | text that is not YAML/JSON fails first; then a `swagger` string starting with "2." fails; then an `openapi` string starting with "3." hands over to the OpenAPI 3 reader; anything else fails. It succeeds exactly in the last-but-one case with a typed decoding, and never as Swagger 2.0 |
| Parser.SwaggerCheckedFirst | src/parser/mod.rs:14-18 | a document with both `swagger: 2.x` and `openapi: 3.x` is refused as Swagger |
| Parser.NonTextIsAbsent | src/parser/mod.rs:14-20 | a `swagger` or `openapi` field that is not a string is treated as missing |
| Parser.NoVersionRefused | src/parser/mod.rs:26 | a document with neither field fails with the unknown-version error |
| Parser.LoadedVersionMatchesDocument | src/parser/mod.rs:20-24 | when both decodings read the same `openapi` string, a loaded document's version string starts with "3.", and its version is 3.1 exactly when that string starts with "3.1" |
| AppState.Pane.Other | src/app.rs:47-52 | switching panes always changes the focused pane |
| AppState.OtherTwice | src/app.rs:47-52 | switching panes twice restores the focus |
| AppState.LastIndex | src/app.rs:33 | the last index is the name count minus one, or 0 when there are no names |
| AppState.App.constructor | src/app.rs:17-24 | the spec is stored unchanged, the selection is 0, the schema list has the focus, and the app is not quitting |
| AppState.App.MoveUp | src/app.rs:26-30 | the selection decreases by one unless it is 0; only the selection changes; a valid selection stays valid |
| AppState.App.MoveDown | src/app.rs:32-37 | the selection increases by one while below the last index, and is otherwise unchanged; a valid selection stays valid |
| AppState.App.GotoTop | src/app.rs:39-41 | the selection is 0 |
| AppState.App.GotoBottom | src/app.rs:43-45 | the selection is the last index, so the last name is selected when there is one |
| AppState.App.TogglePane | src/app.rs:47-52 | the focus moves to the other pane; nothing else changes |
| AppState.App.SelectedSchemaName | src/app.rs:54-56 | a name is returned exactly when the selection is in range, and it is the selected name; none when there are no schemas; always one for a valid selection of a non-empty list |
| Keys.SequenceCommand | src/main.rs:70-97 | only `g` and `z` start sequences, and only with a plain or shifted character key; `gg` means go to top and nothing else does |
| Keys.NormalKey | src/main.rs:100-131 | it quits exactly on plain `q` or Ctrl-`c`, and then runs no command; it arms the pending slot exactly on plain `g` or `z`, with that key; modifiers other than none, Shift or Control do nothing |
| Keys.HandleKey | src/main.rs:66-132 | the pending key is always consumed; it quits exactly on plain `q` or Ctrl-`c`, whatever was pending; afterwards a key is pending exactly when the key was a plain `g` or `z` that did not complete `gg`; with nothing pending the key goes to the normal table, a completed sequence runs its command and nothing else, and any other second key goes to the normal table |
| Keys.DoubleG | src/main.rs:71-74 | `g` then `g` goes to the top and leaves nothing pending |
| Keys.ZSequences | src/main.rs:75-94 | `zo`, `zc`, `zR` and `zM` expand, collapse, expand all and collapse all |
| Keys.FallThrough | src/main.rs:95-97 | a second key that completes no sequence is handled as if nothing had been pending |
| Keys.FallThroughExamples | src/main.rs:95-121 | `z` then `z` arms `z` again; `z` then Ctrl-`c` quits; `g` then `z` arms `z` |
| Keys.UnboundKeyIgnored | src/main.rs:130 | a key outside both tables does nothing and clears the pending key |
| Keys.OtherModifiersIgnored | src/main.rs:130 | a key held with Alt, or with several modifiers, does nothing and clears the pending key |
| Keys.SequenceCommandMatchesListing | src/main.rs:70-94 | the sequence decoder agrees with a plain listing of the five sequences |
| Keys.NormalCommandMatchesListing | src/main.rs:105-128 | the normal table's commands agree with a plain listing of its ten bindings |

## Left out

- `src/ui/*`, the event loop, terminal set-up and file reading in `src/main.rs`: these are rendering and I/O.
- YAML/JSON decoding by serde_yaml and openapiv3: decoding is abstracted. The model takes the decoders' results as input, as `Parser.Content` and `ParserV3.OpenApi`.
- The error context chain of anyhow: a failure is a `ParseError` value. `ParserV3.Message` keeps each error's text.
- Building `TreeNode`s from decoded schemas: no core file does it, so the model takes the forest as given.
- Fields and operations that `src/main.rs` calls on `App` but `src/app.rs` does not declare: `pending_key`, `tree`, `detail_scroll`, `expand_node`, `collapse_node`, `toggle_expand`, `expand_all`, `collapse_all` and the detail scrolling. `Keys` returns these as `Command` values, and the model does not run them.
- Keys.HandleKey: modelled as a function, not as an update of `App`. The quit flag and pending key are returned, not assigned, because `App` declares neither a pending key nor the tree operations.
- Tree.TreeNode.IsExpandable: it carries no contract of its own. `Tree.ExpandableShowsChildren` states what it means for the visible rows, and `Tree.Apply`, `Tree.UpdateAtLeaf` and `Tree.FlagsSet` use it as the guard on flag changes.
- Spec.Label: it carries no contract of its own. `Spec.LabelValues` and `Spec.LabelInjective` state its values.
- Borrowed `FlatNode` references: a row holds a copy of its node plus the node's path, which stands in for the reference's identity.
- `usize` arithmetic: modelled as `nat`. The only subtractions in the core are `saturating_sub(1)` and a decrement guarded by `> 0`, and both are written out.
- Keys with codes other than characters, Up, Down and Tab (the Left and Right arrows among them): these are one `OtherKey` code, since the handler ignores them all.
- The petstore fixture file is not part of this model. `ParserV3.Petstore` is a stand-in for it: its schemas are assumed declared in the order Pets, Error, Pet, NewPet, and its version string "3.0.0" is assumed too; the test at src/parser/v3.rs:51-55 asserts only that the version is 3.0.
