# Outline analysis of the simplified DOM tree

This project models the analysis behind browser-use's outline serialisation
mode (`browser_use/dom/serializer/outline.py`). The mode works over the
already filtered `SimplifiedNode` tree and computes four things:

- **Landmark classification.** Each node either gets one of the WAI-ARIA
  landmark roles (WAI-ARIA 1.2, section 5.3.4) or none. The accessibility
  role decides first, then the element's tag. `form` and `region` count only
  when the node has an accessible name.
- **The landmark forest.** Landmarks are collected in document order.
  Landmarks nested in a landmark become its sub-regions. Every region records
  its depth, its children and its number of interactive elements.
- **The heading hierarchy.** A depth-first walk collects headings, each
  labelled with the nearest enclosing landmark. A stack algorithm then nests
  the flat list by level.
- **Region change detection.** Each region is known by a `role:name` key. A
  region is unchanged from the previous step when its interactive count and
  its set of interactive backend ids are both the same as before.

Modules:

- `Wrappers`: `Option`.
- `SimplifiedTree`: the node datatype and ASCII case mapping. It also has
  `Walk`, a reference pre-order walk that lists each node with its ancestors.
  The analyses are proved against this walk.
- `LandmarkDetection`, `HeadingHierarchy`, `RegionChangeDetection`: one module
  per part of the analysis.

The source's recursive procedures append into a list or set that the caller
passes in. Here each one is a method that takes the accumulator and returns
it extended. Each is proved equal to the accumulator plus a recursive
specification function. Each specification function is in turn proved equal
to a filter over `Walk`.

The heading stack algorithm (`_nest_headings`) is a method with the source's
`for` loop and popping `while` loop. Its specification is `Forest`, which is
an independent recursive definition: a heading's children are the headings
after it, up to the next heading whose level is not greater. The loop keeps
two invariants:

- the trees built so far equal `Forest` of the headings seen so far;
- the stack equals the rightmost path of those trees.

Lemmas prove that `Forest` preserves the input order and count (pre-order
flattening gives back the input). They also prove that every child's level
is strictly greater than its parent's.

Two points where the code's behaviour differs from what its comments or a
reader might expect; the model follows the code in both.

- The scoped `<header>`. The comment at
  `browser_use/dom/serializer/outline.py:48-51` says that a header or footer
  scoped to an article or section is not a banner or contentinfo, and relies
  on the accessibility tree for that. The code, however, falls back to the
  tag table whenever the accessibility role is not a landmark role. So a
  `<header>` whose accessibility role is `generic` still becomes `banner`.
  `LandmarkDetection.ScopedHeaderIsBanner` states this.
- Headings cross landmark boundaries. `_nest_headings`
  (`outline.py:266-287`) nests by level only, so a heading inside one
  landmark can become the child of a heading inside an earlier one. In a page
  with an h1 in its `<header>` and an h2 in its `<main>`, the h2 (labelled
  `MAIN`) ends up under the h1 (labelled `BANNER`).
  `HeadingHierarchy.NestingIgnoresLandmarks` and
  `HeadingHierarchy.HeadingsCrossLandmarks` state this. Likewise, the levels
  are documented as 1 to 6 (`outline.py:84,188`), but a level taken from the
  accessibility `level` property is whatever integer the property holds;
  `HeadingHierarchy.HeadingLevelCases` bounds only the other levels.

## Model

| member | source | states |
|---|---|---|
| LandmarkDetection.AxName | browser_use/dom/serializer/outline.py:129-133 | A name is returned exactly when the accessibility name is present and non-empty, and it is that name |
| LandmarkDetection.LandmarkRoleCases | browser_use/dom/serializer/outline.py:93-126 | The result is None or a landmark role. A named-only result implies an accessible name. A landmark accessibility role wins over the tag. An unnamed form or region accessibility role gives None. Otherwise the result is the implicit tag table's entry for an element's lower-cased tag, else None |
| LandmarkDetection.ImplicitRolesNeedNoName | browser_use/dom/serializer/outline.py:52-62 | Every role in the implicit tag table is a landmark role that is not named-only, so the name check on implicit roles never fires |
| LandmarkDetection.ScopedHeaderIsBanner | browser_use/dom/serializer/outline.py:110-124 | A `<header>` element whose accessibility role is the non-landmark `generic` is still classified as banner through the tag fallback |
| LandmarkDetection.CountInteractive | browser_use/dom/serializer/outline.py:136-141 | The loop-and-recursion count equals the recursive count `InteractiveCount`: the node's own flag plus the counts of its children |
| LandmarkDetection.InteractiveCountIsWalk | browser_use/dom/serializer/outline.py:136-141 | The count equals the number of interactive nodes met by a pre-order walk of the subtree, the node included |
| LandmarkDetection.DetectLandmarksInto | browser_use/dom/serializer/outline.py:156-179 | The recursive procedure appends exactly the landmark forest of the node to the accumulator: a landmark adds one region whose sub-regions are its children's forests, and a non-landmark passes through its children's forests |
| LandmarkDetection.DetectLandmarks | browser_use/dom/serializer/outline.py:144-153 | The returned list is the landmark forest of the root at the given depth |
| LandmarkDetection.LandmarkForestMatchesWalk | browser_use/dom/serializer/outline.py:144-179 | A pre-order listing of the forest's regions holds every landmark node of the subtree exactly once and in document order, and no other node. Each region's recorded depth is the start depth plus its number of tree ancestors, counting non-landmarks. Its nesting level in the forest equals its number of landmark ancestors, so a nested landmark never appears at top level |
| LandmarkDetection.LandmarkForestFaithful | browser_use/dom/serializer/outline.py:163-174 | At every nesting level, each region's role and name are those of its node. Its children are the node's children. Its element count is the interactive count of the node. Its sub-regions are the forest of the node's children one level deeper |
| HeadingHierarchy.TagLevel | browser_use/dom/serializer/outline.py:203-212 | A level is returned exactly for h1 to h6. It lies in 1..6 and is the tag's digit |
| HeadingHierarchy.FirstLevelPropertyIsFirst | browser_use/dom/serializer/outline.py:195-201 | The level is the converted value of the first `level` property that converts. It is None when no such property exists |
| HeadingHierarchy.HeadingLevelCases | browser_use/dom/serializer/outline.py:187-214 | An accessibility `heading` always has a level: the first converting `level` property, else the h1 to h6 digit of its tag, else 1. Any other node has a level exactly when it is an element with an h1 to h6 tag. Levels not taken from the property lie in 1..6 |
| HeadingHierarchy.HeadingText | browser_use/dom/serializer/outline.py:217-223 | The text is the non-empty accessible name, else the node's collected children text |
| HeadingHierarchy.CollectHeadingsFlat | browser_use/dom/serializer/outline.py:236-263 | The procedure appends exactly the flat heading list of the subtree to the accumulator |
| HeadingHierarchy.HeadingsFlatMatchesWalk | browser_use/dom/serializer/outline.py:236-263 | The flat list holds one entry for each heading node of a pre-order walk, in walk order. Each entry's landmark label is the label of the nearest enclosing landmark, the node itself included: the upper-cased role, followed by `: "name"` when there is an accessible name. With no enclosing landmark the label is the passed-in default |
| HeadingHierarchy.Forest | browser_use/dom/serializer/outline.py:266-269 | The nested forest is empty exactly when the flat list is empty |
| HeadingHierarchy.ForestPreorder | browser_use/dom/serializer/outline.py:266-287 | A pre-order flattening of the nested forest gives back the flat list: every heading appears exactly once, in input order |
| HeadingHierarchy.ForestNested | browser_use/dom/serializer/outline.py:275-283 | In the nested forest every child's level is strictly greater than its parent's, at every depth |
| HeadingHierarchy.ForestSnoc | browser_use/dom/serializer/outline.py:275-285 | Adding one heading to the list adds it to the forest at the first point along the rightmost path whose level is not lower than the new heading's. This is the stack step: pop, then attach under the top or as a new root |
| HeadingHierarchy.NestHeadings | browser_use/dom/serializer/outline.py:266-287 | The stack algorithm returns exactly the nested forest of its input |
| HeadingHierarchy.ExtractHeadingHierarchy | browser_use/dom/serializer/outline.py:226-233 | The hierarchy is the nested forest of the flat heading list of the tree |
| HeadingHierarchy.HeadingHierarchyCorrect | browser_use/dom/serializer/outline.py:226-287 | The hierarchy flattens back to the headings of a pre-order walk, with their landmark labels, and every child's level exceeds its parent's |
| HeadingHierarchy.NestingExample | tests/ci/test_outline_serializer.py:283-306 | Headings of levels 1, 2, 3, 2 nest into one root. The root has two children, and the first child has the level-3 heading as its only child |
| HeadingHierarchy.NestingIgnoresLandmarks | browser_use/dom/serializer/outline.py:275-285 | Of two headings, the second goes under the first whenever its level is higher, whatever landmark labels the two carry |
| HeadingHierarchy.TwoSectionsNest | browser_use/dom/serializer/outline.py:226-287 | For a node with two non-heading sections, each holding one heading of level 1 and 2 respectively, the hierarchy is the first heading with the second under it, each keeping its own section's label |
| HeadingHierarchy.HeadingsCrossLandmarks | tests/ci/test_outline_serializer.py:41-58 | For a `<header>` holding an h1 followed by a `<main>` holding an h2, the hierarchy is the h1 labelled BANNER with the h2, labelled MAIN, as its only child |
| RegionChangeDetection.RegionKeyIdentifies | browser_use/dom/serializer/outline.py:292-294 | For roles without a colon, two regions have the same key exactly when they have the same role and the same name, a missing name counting as the empty one |
| RegionChangeDetection.LandmarkRolesHaveNoColon | browser_use/dom/serializer/outline.py:37-46 | No landmark role contains a colon, so the key identity above holds for every detected region |
| RegionChangeDetection.RegionKeyExamples | tests/ci/test_outline_serializer.py:267-280 | A navigation named Primary has key `navigation:Primary`. An unnamed main region and one with an empty name both have key `main:` |
| RegionChangeDetection.CollectBackendIds | browser_use/dom/serializer/outline.py:304-308 | The procedure adds exactly the backend ids of the subtree's interactive nodes to the given set |
| RegionChangeDetection.RegionElementIds | browser_use/dom/serializer/outline.py:297-301 | The result is the set of backend ids of the interactive nodes under the region's node |
| RegionChangeDetection.InteractiveIdsIsWalk | browser_use/dom/serializer/outline.py:297-308 | Those ids are exactly the ids of the interactive nodes met by a pre-order walk of the region's subtree |
| RegionChangeDetection.LastWithKeyIsLast | browser_use/dom/serializer/outline.py:324-327 | The lookup finds a region exactly when one has the key. The region found has the key, and no later region has it, so for duplicate keys the last one wins |
| RegionChangeDetection.SnapshotRegions | browser_use/dom/serializer/outline.py:324-327 | The previous-step map has exactly the keys of the previous regions. Each key maps to the interactive count and id set of the last region with that key |
| RegionChangeDetection.DetectUnchangedRegions | browser_use/dom/serializer/outline.py:311-339 | The result's keys are exactly the keys of the current regions. With no previous step every key maps to False. Otherwise a key maps to True exactly when the previous step has that key and the last current and last previous regions with that key have equal interactive counts and equal interactive id sets |
| RegionChangeDetection.SelfComparisonUnchanged | browser_use/dom/serializer/outline.py:311-339 | Comparing a step with itself finds every region unchanged |
| RegionChangeDetection.NoPreviousStepExample | tests/ci/test_outline_serializer.py:309-322 | With no previous step, a single unnamed main region gives exactly the map from `main:` to False |

## Left out

- Case mapping: `Lower` and `Upper` map ASCII letters only. Python's `str.lower()` and `str.upper()` apply full Unicode case mapping, and a case-mapping table is beyond this model.
- Integer conversion of the accessibility `level` property (`int(prop.value)` with its exception handling) is an input: each property carries the converted value, or None when conversion fails.
- The collected descendant text of a node (`get_all_children_text(max_depth=3)`) comes from `browser_use/dom/views`, which is not part of this model. It is given as the node's `childrenText` field.
- Node types other than "element or not" are not modelled. The analysis only asks whether a node is an element.
- HeadingHierarchy.NestHeadings: modelled on values. The source appends the same `HeadingNode` objects to the result and to their parents' `children` lists in place, so a flat entry and its place in the tree are one object. The model builds new tree values instead. Flat input headings carry no children, so the nesting starts from empty child lists, as every call from `extract_heading_hierarchy` does.
- Lists and sets passed in for a callee to append to are modelled as values passed in and returned extended. Sharing of those objects between caller and callee is not modelled.
- RegionChangeDetection.DetectUnchangedRegions: the result is a Dafny `map`, so the insertion order of the source's `dict` is not modelled.
- The renderers are not part of this model: `serialize_outline_tree`, `_serialize_outline_subtree`, the `exclude_ids` sub-region deduplication, and the flat serializer. Their code is not in `outline.py`.
- Collapsed rendering of unchanged regions is not modelled. Only the comparison `detect_unchanged_regions` is.
- The benchmark harness (browser sessions, HTTP servers, float statistics, JSON files) and the integration tests need a live browser. They are not modelled.
