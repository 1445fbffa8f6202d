# Component palette and Join node of the pipeline editor, in Dafny

This project models two pieces of logic from the JupyterLab pipeline editor.

**The component palette** (`Sidebar.tsx`):
- It groups the registered components by the `category.subcategory` text of each one.
- It turns that grouping into a keyed tree. Components without a subcategory become direct leaves of their category. Each named subcategory becomes one group node.
- It filters the tree by a case-insensitive substring search.
- It chooses which tree keys are expanded.

**The "Join Datasets" node** (`Join.tsx`):
- It renders a two-line Python fragment that calls `main_join`.
- It has a constant import list, a default configuration, and a form whose policy field depends on the join type.
- It has the decision rule of the Python helpers the fragment calls. That rule is modelled over abstract facts about the data frames: "the left keys are unique" and "the right keys are unique".

Modules:
- `Wrappers`: `Option`.
- `Seqs`: distinctness, order-preserving subsequences, first occurrences.
- `Strings`: the JavaScript string operations the code relies on, restricted to ASCII:
  - `split` on one character and its inverse `join`;
  - `Array.join`;
  - `toLowerCase` / `toUpperCase`;
  - `includes`;
  - the truthiness of `trim()`;
  - the decimal text of an index, with a reader that proves it unambiguous.
- `Palette`: the grouping (`categorizedComponents`).
  - JavaScript objects are association lists in first-insertion order.
  - `CategorizeComponents` is the loop of the source. It is proved equal to the fold `Categorized`, and the grouping properties are proved about that fold.
- `PaletteTree`: `getTreeData` and `collectKeys`, as methods proved against specification functions; the key formats; where every component lands.
- `PaletteSearch`: `filterTree`, `filteredTreeData` and the expanded keys.
- `JoinNode`: `generateComponentCode`, `provideImports`, the form data, and `check_cartesian_product` / `perform_join` / `main_join`.

Things the proofs bring out:
- **A search of white space only still expands every key.** `filteredTreeData` tests `searchValue.trim()`, but the expanded keys test the raw `searchValue`. Such a search therefore filters nothing yet expands every node (`PaletteSearch.ExpandedKeysBlankSearch`).
- **A matching heading does not keep its components.** A group whose title matches survives the filter, but only with its matching children. The leaves left after a search are exactly the matching components (`PaletteSearch.FilterTreeLeaves`).
- **The join-type placeholder is wrong.** It announces "Default: Inner", but the default configuration is a left join (`JoinNode.PlaceholderDisagreesWithDefault`).
- **Key columns are not escaped.** A column name holding a double quote makes two different key lists render identically (`JoinNode.KeyListAmbiguous`).

## Model

| member | source | states |
|---|---|---|
| Palette.SplitCategorySegments | jupyterlab-amphi/packages/pipeline-editor/src/Sidebar.tsx:37 | The category is the text before the first `.` and holds no `.`. There is no subcategory exactly when the text has no `.`. Otherwise the subcategory is the dot-free text right after the first `.`, and it is followed by the end of the text or another `.`; later segments are dropped. |
| Palette.CategorizeComponents | jupyterlab-amphi/packages/pipeline-editor/src/Sidebar.tsx:34-53 | The `forEach` loop, with its create-if-missing and `push` branches, builds exactly the grouping `Categorized`, a fold over the components. |
| Palette.Members | jupyterlab-amphi/packages/pipeline-editor/src/Sidebar.tsx:41-51 | The reference description of a bucket is an order-preserving subsequence of the input. It holds exactly the components of that category whose subcategory is that bucket's key, where an absent or empty subcategory means `_`. |
| Palette.PushComponent | jupyterlab-amphi/packages/pipeline-editor/src/Sidebar.tsx:36-51 | The loop body, which creates the category entry and then either creates the subcategory bucket and pushes into it or pushes onto the default list, has exactly the effect of one `AddComponent` step of the grouping fold. |
| Palette.AddComponentEffect | jupyterlab-amphi/packages/pipeline-editor/src/Sidebar.tsx:38-50 | One step of the loop appends the component's category key only when it is new. It appends the bucket key to that category only when that bucket is new. It leaves every other category's keys alone. |
| Palette.CategoryOrder | jupyterlab-amphi/packages/pipeline-editor/src/Sidebar.tsx:36-40 | The categories appear once each, in order of their first occurrence among the components. |
| Palette.BucketOrder | jupyterlab-amphi/packages/pipeline-editor/src/Sidebar.tsx:41-50 | Within a category, the buckets appear once each, in order of their first occurrence among that category's components. |
| Palette.BucketContents | jupyterlab-amphi/packages/pipeline-editor/src/Sidebar.tsx:41-51 | Every bucket of the grouping is exactly its reference description: its components in input order. |
| Palette.BucketMembership | jupyterlab-amphi/packages/pipeline-editor/src/Sidebar.tsx:41-51 | A component is in a bucket if and only if it is one of the inputs and its category and bucket key are that bucket's. |
| Palette.CategorizedWellFormed | jupyterlab-amphi/packages/pipeline-editor/src/Sidebar.tsx:36-52 | No category key repeats, and no bucket key repeats within a category. |
| Palette.CategorizedPartition | jupyterlab-amphi/packages/pipeline-editor/src/Sidebar.tsx:36-52 | The buckets together hold the input as a multiset: every component lands in exactly one bucket, as often as it occurs. |
| PaletteTree.DecodeRender | jupyterlab-amphi/packages/pipeline-editor/src/Sidebar.tsx:105-144 | The key formats `category-i`, `category-i-item-k`, `category-i-sub-j` and `category-i-sub-j-item-k` read back as the indices they were built from. |
| PaletteTree.RenderInjective | jupyterlab-amphi/packages/pipeline-editor/src/Sidebar.tsx:105-144 | Different index tuples give different keys. |
| PaletteTree.BuildCategoryNode | jupyterlab-amphi/packages/pipeline-editor/src/Sidebar.tsx:79-148 | The `forEach` over subcategories, pushing leaves for `_` and one group otherwise, builds exactly the specified category node. |
| PaletteTree.GetTreeData | jupyterlab-amphi/packages/pipeline-editor/src/Sidebar.tsx:77-152 | The `map` over categories builds exactly `TreeData` of the grouping. |
| PaletteTree.CollectKeys | jupyterlab-amphi/packages/pipeline-editor/src/Sidebar.tsx:199-211 | The `reduce` returns every key of the forest in preorder: each node's key, then the keys below it, siblings in order. |
| PaletteTree.PreorderSize | jupyterlab-amphi/packages/pipeline-editor/src/Sidebar.tsx:199-211 | The collected keys are as many as the nodes of the forest. |
| PaletteTree.PreorderAt | jupyterlab-amphi/packages/pipeline-editor/src/Sidebar.tsx:199-211 | Each node's key comes right after the keys of the siblings before it and right before the keys of its own descendants. |
| PaletteTree.TreeKeysDistinct | jupyterlab-amphi/packages/pipeline-editor/src/Sidebar.tsx:78-152 | When every category's bucket keys are distinct, no two nodes of the tree share a key. |
| PaletteTree.PaletteKeysDistinct | jupyterlab-amphi/packages/pipeline-editor/src/Sidebar.tsx:34-152 | The tree built from any list of components has pairwise distinct keys. |
| PaletteTree.TreeLeafTitles | jupyterlab-amphi/packages/pipeline-editor/src/Sidebar.tsx:78-152 | Reading the leaves left to right gives the components' names category by category and bucket by bucket. |
| PaletteTree.PaletteLeaves | jupyterlab-amphi/packages/pipeline-editor/src/Sidebar.tsx:34-152 | The tree shows one leaf per component, and the leaf titles are the grouped components' names. |
| PaletteTree.BucketLayout | jupyterlab-amphi/packages/pipeline-editor/src/Sidebar.tsx:81-138 | The `_` bucket contributes its components as direct leaves, in order. A named bucket contributes one group titled with its capitalised name, holding its components in order. |
| PaletteTree.CategoryDirectLeaves | jupyterlab-amphi/packages/pipeline-editor/src/Sidebar.tsx:81-107 | The direct leaves of a category node are that category's `_` components, in order. |
| PaletteTree.CategorySubGroups | jupyterlab-amphi/packages/pipeline-editor/src/Sidebar.tsx:108-138 | The groups among a category node's children are its named subcategories in order. Each one is titled with the capitalised name and holds that subcategory's components. |
| PaletteTree.PaletteLayout | jupyterlab-amphi/packages/pipeline-editor/src/Sidebar.tsx:78-152 | Category node `i` has key `category-i` and the capitalised category name as its title. Its direct leaves are the category's components without a subcategory. Its groups are its subcategories, in first-occurrence order. |
| PaletteSearch.FilterItemSurvives | jupyterlab-amphi/packages/pipeline-editor/src/Sidebar.tsx:155-179 | A node survives `filterTree` if and only if its lower-cased title, or that of one of its descendants, contains the lower-cased search text. A surviving node keeps its key, title and kind. |
| PaletteSearch.FilterTreeEmpty | jupyterlab-amphi/packages/pipeline-editor/src/Sidebar.tsx:155-179 | The filter removes every node of a forest if and only if nothing in it matches. |
| PaletteSearch.FilterPreorderSubseq | jupyterlab-amphi/packages/pipeline-editor/src/Sidebar.tsx:155-179 | Filtering only deletes nodes. The keys of the filtered tree are a subsequence of the tree's keys, in the same order. |
| PaletteSearch.FilterTreeIdempotent | jupyterlab-amphi/packages/pipeline-editor/src/Sidebar.tsx:155-179 | Filtering the filtered tree again with the same text changes nothing. |
| PaletteSearch.FilterTreeEmptyQuery | jupyterlab-amphi/packages/pipeline-editor/src/Sidebar.tsx:155-179 | The empty search text keeps the whole tree. |
| PaletteSearch.FilterTreeLeaves | jupyterlab-amphi/packages/pipeline-editor/src/Sidebar.tsx:155-179 | The leaves left after filtering are exactly the matching leaves, in order. A matching group keeps only its matching children. |
| PaletteSearch.MatchesCapitalize | jupyterlab-amphi/packages/pipeline-editor/src/Sidebar.tsx:170 | A capitalised heading matches a search exactly when the raw category name does. |
| PaletteSearch.FilteredTreeDataBlank | jupyterlab-amphi/packages/pipeline-editor/src/Sidebar.tsx:190-196 | Search text of white space only, the empty text included, shows the tree unchanged. Any other text shows the filtered tree. |
| PaletteSearch.ExpandedKeysNoSearch | jupyterlab-amphi/packages/pipeline-editor/src/Sidebar.tsx:214 | With no search text, the expanded keys are exactly the keys of the category nodes, in order. |
| PaletteSearch.ExpandedKeysBlankSearch | jupyterlab-amphi/packages/pipeline-editor/src/Sidebar.tsx:190-214 | Non-empty search text of white space only expands every key of the unfiltered tree. |
| PaletteSearch.ExpandedKeysSearch | jupyterlab-amphi/packages/pipeline-editor/src/Sidebar.tsx:190-214 | With real search text, the expanded keys are the preorder keys of the filtered tree. They are a subsequence of the tree's keys. |
| PaletteSearch.ExpandedKeysDistinct | jupyterlab-amphi/packages/pipeline-editor/src/Sidebar.tsx:190-215 | Whatever the search text, no key is expanded twice. |
| PaletteSearch.SearchShowsMatchingComponents | jupyterlab-amphi/packages/pipeline-editor/src/Sidebar.tsx:34-196 | A search shows exactly the components whose names match, bucket by bucket, in the grouping's order. |
| Strings.Contains | jupyterlab-amphi/packages/pipeline-editor/src/Sidebar.tsx:170 | `includes` holds exactly when the text occurs at some offset. |
| Strings.LowerCapitalize | jupyterlab-amphi/packages/pipeline-editor/src/Sidebar.tsx:170 | Lower-casing a capitalised label gives the lower-cased raw label. |
| Strings.TrimEmptyIffBlank | jupyterlab-amphi/packages/pipeline-editor/src/Sidebar.tsx:191 | `trim()` is empty exactly when the text is all white space. |
| Strings.JoinSplit | jupyterlab-amphi/packages/pipeline-editor/src/Sidebar.tsx:37 | Joining the parts of `split` with the separator gives back the text. |
| Strings.ReadNatDec | jupyterlab-amphi/packages/pipeline-editor/src/Sidebar.tsx:144 | The decimal text of an index reads back as that index and leaves what follows it. |
| JoinNode.PolicyVisibleExceptCross | jupyterlab-amphi/packages/pipeline-components-core/src/components/transforms/Join.tsx:36-58 | Among the offered join types, the policy field is shown exactly when the type is not `cross`. |
| JoinNode.PolicyConditionIsOptionsButCross | jupyterlab-amphi/packages/pipeline-components-core/src/components/transforms/Join.tsx:36-58 | The field's condition lists exactly the offered join types other than `cross`. |
| JoinNode.PlaceholderDisagreesWithDefault | jupyterlab-amphi/packages/pipeline-components-core/src/components/transforms/Join.tsx:8-38 | The placeholder names the inner join, while the default configuration is a left join. |
| JoinNode.ImportsBindHelperNames | jupyterlab-amphi/packages/pipeline-components-core/src/components/transforms/Join.tsx:68-71 | The imports are the same two lines for every configuration. They bind `pd` and `warnings`, the names the helpers use. |
| JoinNode.GenerateComponentCode | jupyterlab-amphi/packages/pipeline-components-core/src/components/transforms/Join.tsx:161-178 | Code is produced exactly when both key-column lists are configured; otherwise the `map` of the source throws. |
| JoinNode.DefaultConfigNeedsColumns | jupyterlab-amphi/packages/pipeline-components-core/src/components/transforms/Join.tsx:165-166 | The default configuration alone cannot produce code: it has no key columns. |
| JoinNode.CodeLines | jupyterlab-amphi/packages/pipeline-components-core/src/components/transforms/Join.tsx:172-177 | When no input holds a line break, the fragment splits into exactly two lines with no trailing newline. The first is `# Join <in1> and <in2>`; the second is the `main_join` assignment. |
| JoinNode.KeyListRoundTrip | jupyterlab-amphi/packages/pipeline-components-core/src/components/transforms/Join.tsx:165-171 | A rendered key list reads back as the configured columns: one element per column, in order, names quoted and expressions verbatim, `[]` for none. This holds when no column holds a quote or comma and no expression is empty. |
| JoinNode.KeyListAmbiguous | jupyterlab-amphi/packages/pipeline-components-core/src/components/transforms/Join.tsx:165-171 | Without escaping, two different key lists can render to the same text. |
| JoinNode.JoinTypeVerbatim | jupyterlab-amphi/packages/pipeline-components-core/src/components/transforms/Join.tsx:167-174 | The join type appears between single quotes and the policy after `=`, verbatim, whatever they are. |
| JoinNode.DispatchMatchesOptions | jupyterlab-amphi/packages/pipeline-components-core/src/components/transforms/Join.tsx:111-122 | `perform_join` accepts exactly the seven join types the form offers, each as the join it names. |
| JoinNode.CartesianErrorExactly | jupyterlab-amphi/packages/pipeline-components-core/src/components/transforms/Join.tsx:145-149 | `main_join` raises the cartesian-product error, with no warning before it, if and only if the type is not `cross`, the action is 2, and neither side's keys are unique. |
| JoinNode.WarningExactly | jupyterlab-amphi/packages/pipeline-components-core/src/components/transforms/Join.tsx:145-153 | The warning is issued if and only if the type is not `cross`, the action is 3, and neither side's keys are unique. It is then followed by the join for a supported type. For an unsupported type it is followed by the `Unsupported join type` error (Join.tsx:122). |
| JoinNode.GuardBeforeDispatch | jupyterlab-amphi/packages/pipeline-components-core/src/components/transforms/Join.tsx:145-153 | The guard's error wins over the unsupported-type error. |
| JoinNode.CrossIgnoresPolicy | jupyterlab-amphi/packages/pipeline-components-core/src/components/transforms/Join.tsx:113-153 | A cross join is performed without a check or warning, whatever the policy. |
| JoinNode.UniqueSideNeverFlagged | jupyterlab-amphi/packages/pipeline-components-core/src/components/transforms/Join.tsx:97-99 | When either side's keys are unique, the outcome is the same as with policy 0. |
| JoinNode.PolicyShownIffItMatters | jupyterlab-amphi/packages/pipeline-components-core/src/components/transforms/Join.tsx:145-153 | For an offered join type, the policy field is shown exactly when the policy can change the outcome. |
| JoinNode.PolicyOptionsAreActions | jupyterlab-amphi/packages/pipeline-components-core/src/components/transforms/Join.tsx:53-57 | The policy options `"0"`, `"2"` and `"3"` are the integer literals of the documented actions 0, 2 and 3. |
| JoinNode.DefaultsJoinQuietly | jupyterlab-amphi/packages/pipeline-components-core/src/components/transforms/Join.tsx:124-153 | With the default join type and policy, `main_join` performs a left join and never raises or warns. |

## Left out

- The components' data are reduced to a name and a category. Descriptions, ids, icons and default configs are presentation only.
- React state and hooks (`useState`, `useEffect`, `useMemo`, `onSearch`, `onExpand`, `autoExpandParent`) are left out. So are the JSX and antd rendering (`Tooltip`, `DirectoryTree`, styles) and `getCategoryBackgroundColor`; a node carries the text its title shows. The model takes the search text and the component list as parameters.
- Drag-and-drop (`onDragStart`, `dataTransfer`, `JSON.stringify` of defaults) and fetching the components from the service are left out. They are browser and service plumbing.
- JavaScript objects list integer-like keys (such as `"2"`) first, in numeric order. The grouping is modelled in first-insertion order only, so it assumes category and subcategory names are not integer-like.
- The grouping's tests `!result[category]` and `!result[category][subcategory]` (Sidebar.tsx:38-47) also see properties inherited from `Object.prototype`. The model assumes no category or subcategory is such a name (`constructor`, `toString`, `__proto__`, `hasOwnProperty` and the like). For those names the source misbehaves. A subcategory such as `toString` finds a function, and the `push` at Sidebar.tsx:45 throws a `TypeError`. A category `constructor` finds the global `Object`, so no entry is created and its components never reach the tree. `Palette.AddComponent` and the leaf-count promise of `PaletteTree.PaletteLeaves` hold only under this assumption.
- `toLowerCase`, `toUpperCase` and `trim` act on ASCII only. Unicode case folding and Unicode white space are not modelled.
- Crashes on malformed components (a missing `_category` or `_name`) are not modelled.
- The pandas semantics are left out: `pd.merge`, `duplicated`, the indicator filtering of the anti joins, `print` and `warnings.warn`. Key uniqueness enters as two booleans. An outcome is either a join naming the join kind or a raised error naming its message. Either one records whether the cartesian-product warning was issued before it.
- `main_join`'s conversion of a single string key into a one-element list is left out. It does not affect the outcome over the abstract facts.
- JoinNode.PolicyAction: Python reads the spliced policy text as a literal. The model reads it only when it is a decimal literal made of digits alone, rejecting a leading zero on a nonzero number as Python does (`02`, but not `00`). Underscore digit groups and every other literal are not interpreted.
- JoinNode.ImportsBindHelperNames: it states the import lines bind the names the helpers use, not that Python resolves them.
- `BaseCoreComponent`, the `super(...)` registration, the field labels, tooltips and `advanced` flags, the `provideFunctions` text beyond its decision rule, and the unused `prefix` are left out. The base class is outside this model.
