# webtestingexplorer, the exploration core, in Dafny

webtestingexplorer explores a web application automatically. It drives a browser through sequences of actions, records the state of each page, and compares states and action sequences so that it does not explore the same thing twice. This project models the parts of it that are plain logic once the browser is abstracted away, and proves what that logic promises.

**Scripts injected into the page.** `getXpathExpression` computes an absolute `/TAG[k]/TAG[k]` locator for a DOM node. `getAllElementsProperties` walks the page and writes every element with its locator and attributes as XML. Both are modelled over an explicit document tree: an arena of nodes, each with a parent index, child indices, an optional tag, an optional node value and an attribute list.
- `Dom` holds the tree.
- `XPathBuilder` holds the locator (`XPath`, the loop form `GetXpathExpression`). It proves that the locator's steps lead back to the node and that different elements get different steps.
- `ElementProperties` holds the serialiser and its loop forms.
- `ElementWalk` proves that the output is the blocks of all nodes in pre-order, each node once.

**Exploration bookkeeping.**
- `Actions`: the action sequence and its length.
- `ActionQueue`: the LIFO queue of sequences still to run.
- `Prioritizer`: the length-based prioritiser, a stable sort by length proved a permutation.
- `SequenceFilters`: the repeat-limit and order-insensitive sequence filters.
- `StateDifferences`, `CountOfElements`, `SelectedElements`, `JsonState`, `ElementsState`: the page states and their diffs.
- `StateGraph`: the state graph and its depth-first lookup.
- `IdGenerator`: the element-identifier priority chain.
- `ActionGeneration`: action-generator matching and the default actions.
- `Selectors`: composite and property selectors.
- `HttpOracle`: the HTTP status-code oracle.

Classes whose fields the source updates in place are Dafny classes with `modifies` and `reads` frames: `ActionSequence`, `ActionSequenceQueue`, `StateExplorerState`, `StateExplorerStateGraph`, `HttpStatusCodeOracle`. Loops of the source are methods with loop invariants. Each method is proved against a specification function, and the lemmas are proved about that function.

WebDriver is replaced by values:
- an element is a record of its tag, attributes, text, visibility, enabledness and option count;
- a selector is a function from a driver value to a list of elements;
- a regular expression is a `FullMatch` parameter;
- the status codes the browser saw are an input list.

`HashMap` and `HashSet` iteration order is an input: maps whose iteration order shows in the output are association lists with distinct keys, in whatever order the map yields them. The one exception is the followers of a state-graph node, which are kept in the order they were added.

The JSON state diff `JsonState.ObjectDiff` and the lemmas about it (`JsonState.FirstPassEmpty` to `JsonState.SameObjectReflexive`, `JsonState.LookupIgnoresOrder` to `JsonState.DiffReportsValue`) describe the corrected diff, which treats an object without members as having no members instead of throwing; `JsonState.AsWrittenAgrees` proves that it is what the code as written returns whenever no empty object occurs at any depth.

## Model

| member | source | states |
|---|---|---|
| XPathBuilder.GetXpathExpression | webtestingexplorer/src/main/resources/getXpathFromWebElement.js:1-28 | returns exactly the reference locator `XPath`: the root-marker short-cut `//TAG[1]`, else the parent's locator and `/`, then `TAG[k]` for a tagged node; a tagged node without a parent fails as the script's null dereference does |
| XPathBuilder.AppendSiblingIndex | webtestingexplorer/src/main/resources/getXpathFromWebElement.js:13-25 | the sibling loop appends `[k]` where k is the node's same-tag sibling index |
| XPathBuilder.SiblingIndex | webtestingexplorer/src/main/resources/getXpathFromWebElement.js:13-24 | a tagged node's index counts its same-tag siblings up to and including itself, so it lies between 1 and the number of children |
| XPathBuilder.SameTagCountSnoc | webtestingexplorer/src/main/resources/getXpathFromWebElement.js:15-20 | each scanned sibling adds one to the count exactly when its tag equals the node's |
| XPathBuilder.SoleSameTagChildGetsOne | webtestingexplorer/src/main/resources/getXpathFromWebElement.js:13-24 | the only child with a given tag gets index 1 |
| XPathBuilder.SiblingIndicesIncrease | webtestingexplorer/src/main/resources/getXpathFromWebElement.js:15-20 | same-tag siblings get strictly increasing indices in document order |
| XPathBuilder.DocumentLocatorsSucceed | webtestingexplorer/src/main/resources/getXpathFromWebElement.js:2-11 | on a page (node 0 is the parentless, tagless document) every node's locator is computed without error; the recursion ends because each call moves to a parent with a smaller index |
| XPathBuilder.XPathIsRenderedSegments | webtestingexplorer/src/main/resources/getXpathFromWebElement.js:7-25 | without the root marker, an element's locator is the text of its `(TAG, k)` steps from the document down |
| XPathBuilder.NthWithTagFindsCounted | webtestingexplorer/src/main/resources/getXpathFromWebElement.js:15-24 | selecting the k-th child with a tag, for the k the scan counted, gives back the scanned node |
| XPathBuilder.LocateSegments | webtestingexplorer/src/main/resources/getXpathFromWebElement.js:1-28 | following an element's locator steps down from the document reaches that same element |
| XPathBuilder.SegmentsDistinguishElements | webtestingexplorer/src/main/resources/getXpathFromWebElement.js:1-28 | two different elements of a page never get the same locator steps |
| ElementProperties.IsEmpty | webtestingexplorer/src/main/resources/getAllElementsProperties.js:31-35 | true exactly when the object has no key |
| ElementProperties.RemoveQuotes | webtestingexplorer/src/main/resources/getAllElementsProperties.js:39 | the result holds no `"`, and a string without quotes is unchanged |
| ElementProperties.RemoveQuotesKeepsOthers | webtestingexplorer/src/main/resources/getAllElementsProperties.js:39 | every character other than `"` is kept as often as it occurred |
| ElementProperties.RemoveQuotesShortens | webtestingexplorer/src/main/resources/getAllElementsProperties.js:39 | removing quotes never lengthens a string |
| ElementProperties.EscapeDoubleQuote | webtestingexplorer/src/main/resources/getAllElementsProperties.js:37-42 | a string loses all its quotes; a non-string (undefined) comes back unchanged |
| ElementProperties.NodeValueAttribute | webtestingexplorer/src/main/resources/getAllElementsProperties.js:53-55 | the nodeValue attribute is written exactly when the value is non-null and not all white space |
| ElementProperties.AppendAttributes | webtestingexplorer/src/main/resources/getAllElementsProperties.js:56-67 | the attribute loop writes exactly the specified attribute text, including the filter test |
| ElementProperties.ElementBlock | webtestingexplorer/src/main/resources/getAllElementsProperties.js:47-69 | a node's own block is its specified block: written only when the locator is longer than one character |
| ElementProperties.GetElementProperties | webtestingexplorer/src/main/resources/getAllElementsProperties.js:44-78 | the recursive loop form returns the specified serialisation: the node's block, then each child's output in order, stopping at the first failure |
| ElementProperties.ChildStep | webtestingexplorer/src/main/resources/getAllElementsProperties.js:71-76 | one turn of the child loop: a failing child ends the output with its failure; otherwise its text is appended |
| ElementProperties.AllElementsProperties | webtestingexplorer/src/main/resources/getAllElementsProperties.js:80-81 | a successful output starts with `<elements>` and ends with `</elements>` |
| ElementProperties.GetAllElementsPropertiesWrapper | webtestingexplorer/src/main/resources/getAllElementsProperties.js:1-84 | the entry point returns the wrapped walk from the document node; the XML header is never part of the output |
| ElementWalk.PreOrder | webtestingexplorer/src/main/resources/getAllElementsProperties.js:71-76 | the walk order of a subtree starts at its root and stays inside the subtree |
| ElementWalk.SerializeIsPreOrderBlocks | webtestingexplorer/src/main/resources/getAllElementsProperties.js:44-78 | the recursive output equals the blocks of the subtree's nodes in pre-order: a node's block comes before its children's, and children are visited in order |
| ElementWalk.SerializeChildrenIsPreOrderBlocks | webtestingexplorer/src/main/resources/getAllElementsProperties.js:71-76 | the children's part of the output is the blocks of their subtrees, one after another |
| ElementWalk.BlocksAppend | webtestingexplorer/src/main/resources/getAllElementsProperties.js:74 | the output for two node lists one after the other is the concatenation of their outputs |
| ElementWalk.PreOrderHasDescendants | webtestingexplorer/src/main/resources/getAllElementsProperties.js:71-76 | the walk from a node reaches only that node's descendants |
| ElementWalk.DescendantsInPreOrder | webtestingexplorer/src/main/resources/getAllElementsProperties.js:71-76 | the walk from a node reaches every descendant |
| ElementWalk.SiblingSubtreesDisjoint | webtestingexplorer/src/main/resources/getAllElementsProperties.js:71-76 | two different children share no descendant |
| ElementWalk.PreOrderDistinct | webtestingexplorer/src/main/resources/getAllElementsProperties.js:71-76 | the walk never reaches a node twice |
| ElementWalk.WalkVisitsEveryNodeOnce | webtestingexplorer/src/main/resources/getAllElementsProperties.js:81 | from the document node the walk reaches every node of the page exactly once |
| ElementWalk.LocatorLengthTest | webtestingexplorer/src/main/resources/getAllElementsProperties.js:47-48 | the locator is longer than one character exactly for nodes other than the document and the tagless children of the document |
| ElementWalk.BlockOpensWithLocator | webtestingexplorer/src/main/resources/getAllElementsProperties.js:49-50 | a written block opens with `<element><xpath>` and the node's locator |
| ElementWalk.BlockEmission | webtestingexplorer/src/main/resources/getAllElementsProperties.js:47-69 | on a page every node's block succeeds; it is empty exactly for the document node and its tagless children |
| ElementWalk.PageOutput | webtestingexplorer/src/main/resources/getAllElementsProperties.js:80-81 | on a page the script succeeds, and its body is the blocks of all nodes in pre-order |
| ElementWalk.BlocksSucceed | webtestingexplorer/src/main/resources/getAllElementsProperties.js:47-77 | on a page no block of any node list fails |
| ElementWalk.FilterIsAllOrNothing | webtestingexplorer/src/main/resources/getAllElementsProperties.js:61-63 | the filter test never looks at the attribute: it drops every attribute when the filter is non-empty and its `name` is the string "undefined", and drops none otherwise |
| Actions.CountNonInitial | webtestingexplorer/src/main/java/com/google/testing/webtestingexplorer/actions/ActionSequence.java:50-58 | the count of non-initial actions never exceeds the number of actions |
| Actions.CountNonInitialAppend | webtestingexplorer/src/main/java/com/google/testing/webtestingexplorer/actions/ActionSequence.java:50-58 | the count of a concatenation is the sum of the counts |
| Actions.CountNonInitialExtremes | webtestingexplorer/src/main/java/com/google/testing/webtestingexplorer/actions/ActionSequence.java:50-58 | all-initial sequences count 0; sequences without initial actions count their full length |
| Actions.DescribeCommas | webtestingexplorer/src/main/java/com/google/testing/webtestingexplorer/actions/ActionSequence.java:60-68 | the description writes one comma per action when no action's text contains one |
| Actions.ActionSequence.Single | webtestingexplorer/src/main/java/com/google/testing/webtestingexplorer/actions/ActionSequence.java:27-29 | a sequence built from one action holds just that action |
| Actions.ActionSequence.Copy | webtestingexplorer/src/main/java/com/google/testing/webtestingexplorer/actions/ActionSequence.java:31-33 | the copy holds an equal action list |
| Actions.ActionSequence.Empty | webtestingexplorer/src/main/java/com/google/testing/webtestingexplorer/actions/ActionSequence.java:35-36 | a new sequence is empty |
| Actions.ActionSequence.AddAction | webtestingexplorer/src/main/java/com/google/testing/webtestingexplorer/actions/ActionSequence.java:38-40 | appends one action and leaves the prefix unchanged |
| Actions.ActionSequence.GetLength | webtestingexplorer/src/main/java/com/google/testing/webtestingexplorer/actions/ActionSequence.java:50-58 | the counting loop returns the number of non-initial actions, between 0 and the list length |
| Actions.ActionSequence.ToString | webtestingexplorer/src/main/java/com/google/testing/webtestingexplorer/actions/ActionSequence.java:60-68 | the loop returns the specified description |
| Actions.ActionSequence.SetInitial | webtestingexplorer/src/main/java/com/google/testing/webtestingexplorer/actions/ActionSequence.java:74-78 | marks every action initial and changes nothing else about it, so the length becomes 0 |
| Actions.ActionSequence.GetLastAction | webtestingexplorer/src/main/java/com/google/testing/webtestingexplorer/actions/ActionSequence.java:80-82 | returns the last action, and fails exactly on an empty sequence |
| Seqs.Reverse | webtestingexplorer/src/main/java/org/webtestingexplorer/actions/ActionSequenceQueue.java:74-79 | the reversal of a list, element by element |
| Seqs.ReverseMultiset | webtestingexplorer/src/main/java/org/webtestingexplorer/actions/ActionSequenceQueue.java:74-79 | reversal keeps the same elements, each as often |
| Seqs.ReverseReverse | webtestingexplorer/src/main/java/org/webtestingexplorer/actions/ActionSequenceQueue.java:74-79 | reversing twice gives back the list |
| ActionQueue.ActionSequenceQueue.constructor | webtestingexplorer/src/main/java/org/webtestingexplorer/actions/ActionSequenceQueue.java:70-72 | a new queue is empty |
| ActionQueue.ActionSequenceQueue.FromSequences | webtestingexplorer/src/main/java/org/webtestingexplorer/actions/ActionSequenceQueue.java:74-79 | pushing the input in order leaves it reversed, the last input on top |
| ActionQueue.ActionSequenceQueue.IsEmpty | webtestingexplorer/src/main/java/org/webtestingexplorer/actions/ActionSequenceQueue.java:81-83 | true exactly when the size is 0 |
| ActionQueue.ActionSequenceQueue.Size | webtestingexplorer/src/main/java/org/webtestingexplorer/actions/ActionSequenceQueue.java:85-87 | the number of queued sequences |
| ActionQueue.ActionSequenceQueue.Pop | webtestingexplorer/src/main/java/org/webtestingexplorer/actions/ActionSequenceQueue.java:89-91 | removes and returns the top sequence; on an empty queue it fails and changes nothing |
| ActionQueue.ActionSequenceQueue.Push | webtestingexplorer/src/main/java/org/webtestingexplorer/actions/ActionSequenceQueue.java:93-95 | puts the sequence on top and keeps the rest |
| ActionQueue.ActionSequenceQueue.Iterator | webtestingexplorer/src/main/java/org/webtestingexplorer/actions/ActionSequenceQueue.java:97-100 | iteration runs from the top, the latest push, to the bottom |
| ActionQueue.PushThenPop | webtestingexplorer/src/main/java/org/webtestingexplorer/actions/ActionSequenceQueue.java:89-95 | LIFO: a pop right after a push returns the pushed sequence and restores the queue |
| ActionQueue.DrainAfterBuild | webtestingexplorer/src/main/java/org/webtestingexplorer/actions/ActionSequenceQueue.java:74-91 | popping a queue built from a list yields the list in reverse order |
| Prioritizer.InsertionPoint | webtestingexplorer/src/main/java/org/webtestingexplorer/config/prioritizer/ShortestActionSequencePrioritizer.java:40-44 | the insertion position lies after every leading smaller-or-equal key and before the first larger key |
| Prioritizer.InsertStep | webtestingexplorer/src/main/java/org/webtestingexplorer/config/prioritizer/ShortestActionSequencePrioritizer.java:40-44 | one insertion keeps the list sorted, a permutation of the input seen so far, and in input order within every key |
| Prioritizer.StableSortByKey | webtestingexplorer/src/main/java/org/webtestingexplorer/config/prioritizer/ShortestActionSequencePrioritizer.java:40-44 | the insertion loop sorts by key, is a permutation, and keeps the input order among equal keys |
| Prioritizer.StableSortIsUnique | webtestingexplorer/src/main/java/org/webtestingexplorer/config/prioritizer/ShortestActionSequencePrioritizer.java:40-44 | two key-sorted lists that keep the same order within every key are equal, so the stable sort's result is determined |
| Prioritizer.InsertKeepsSorted | webtestingexplorer/src/main/java/org/webtestingexplorer/config/prioritizer/ShortestActionSequencePrioritizer.java:40-44 | inserting after the last smaller-or-equal key keeps the list sorted |
| Prioritizer.InsertAfterEqualKeys | webtestingexplorer/src/main/java/org/webtestingexplorer/config/prioritizer/ShortestActionSequencePrioritizer.java:40-44 | inserting after the equal keys puts the new item last among them |
| Prioritizer.TagWithLengths | webtestingexplorer/src/main/java/org/webtestingexplorer/config/prioritizer/ShortestActionSequencePrioritizer.java:39-44 | pairs each sequence with its length |
| Prioritizer.PermutedTagsStayTags | webtestingexplorer/src/main/java/org/webtestingexplorer/config/prioritizer/ShortestActionSequencePrioritizer.java:40-45 | a permutation of the length-tagged list is still tagged with the right lengths |
| Prioritizer.TaggedPermutation | webtestingexplorer/src/main/java/org/webtestingexplorer/config/prioritizer/ShortestActionSequencePrioritizer.java:39-45 | permuting the tagged lists permutes the sequences |
| Prioritizer.SortByLength | webtestingexplorer/src/main/java/org/webtestingexplorer/config/prioritizer/ShortestActionSequencePrioritizer.java:39-44 | the sequences are a permutation of the input, shortest first, stable among equal lengths |
| Prioritizer.Prioritize | webtestingexplorer/src/main/java/org/webtestingexplorer/config/prioritizer/ShortestActionSequencePrioritizer.java:37-46 | a new queue holds a permutation of the input; pop order has non-increasing length, stable among equal lengths; the input queue is not modified |
| SequenceFilters.Occurrences | webtestingexplorer/src/main/java/org/webtestingexplorer/config/MaxRepeatedActionSequenceFilter.java:43-50 | an action's count never exceeds the sequence length |
| SequenceFilters.OccurrencesIsMultiplicity | webtestingexplorer/src/main/java/org/webtestingexplorer/config/MaxRepeatedActionSequenceFilter.java:43-50 | the per-action count is the action's number of occurrences under equality |
| SequenceFilters.MaxRepeatedShouldExplore | webtestingexplorer/src/main/java/org/webtestingexplorer/config/MaxRepeatedActionSequenceFilter.java:40-58 | true exactly when no action occurs more than the limit; the existing sequences are ignored, and an empty sequence passes |
| SequenceFilters.RepeatLimitMonotone | webtestingexplorer/src/main/java/org/webtestingexplorer/config/MaxRepeatedActionSequenceFilter.java:52-57 | raising the limit never turns acceptance into rejection |
| SequenceFilters.NormalizeAt | webtestingexplorer/src/main/java/org/webtestingexplorer/config/OrderInsensitiveActionSequenceFilter.java:83-92 | normalisation keeps the length, puts the placeholder at every insensitive position, and keeps every other action in place |
| SequenceFilters.NormalizeOrderInsensitiveActions | webtestingexplorer/src/main/java/org/webtestingexplorer/config/OrderInsensitiveActionSequenceFilter.java:83-92 | the in-place overwrite loop yields the normalised list |
| SequenceFilters.HasRedundantOrdering | webtestingexplorer/src/main/java/org/webtestingexplorer/config/OrderInsensitiveActionSequenceFilter.java:65-77 | true exactly when the action sets are equal and the normalised lists are equal |
| SequenceFilters.OrderInsensitiveShouldExplore | webtestingexplorer/src/main/java/org/webtestingexplorer/config/OrderInsensitiveActionSequenceFilter.java:45-58 | true exactly when no existing sequence is redundant with the new one, hence always for no existing sequences |
| SequenceFilters.RedundantIsEquivalence | webtestingexplorer/src/main/java/org/webtestingexplorer/config/OrderInsensitiveActionSequenceFilter.java:65-92 | redundancy is reflexive, symmetric and transitive |
| SequenceFilters.SwapInsensitiveIsRedundant | webtestingexplorer/src/main/java/org/webtestingexplorer/config/OrderInsensitiveActionSequenceFilter.java:65-92 | swapping two insensitive actions gives a redundant sequence |
| SequenceFilters.RedundantKeepsOtherPositions | webtestingexplorer/src/main/java/org/webtestingexplorer/config/OrderInsensitiveActionSequenceFilter.java:83-92 | redundant sequences have the same length and agree on every position whose action is not insensitive |
| SequenceFilters.OrderInsensitiveExamples | webtestingexplorer/src/test/java/org/webtestingexplorer/config/OrderInsensitiveActionSequenceFilterTest.java:71-98 | a swap of two insensitive actions is filtered out; an intervening action or a duplicated action is kept |
| StateDifferences.FormatValue | webtestingexplorer/src/main/java/org/webtestingexplorer/state/MissingPropertyStateDifference.java:44-52 | an absent value is written "null", a present one as its own text |
| StateDifferences.FormatStartsWithProperty | webtestingexplorer/src/main/java/org/webtestingexplorer/state/MissingPropertyStateDifference.java:39-58 | the text starts with `DiffKey:prop-` and the property, then ` V1:` |
| StateDifferences.FormatDeterminesProperty | webtestingexplorer/src/main/java/org/webtestingexplorer/state/MissingPropertyStateDifference.java:54-58 | for properties without spaces, equal texts mean equal properties |
| StateDifferences.MissingPropertyExample | webtestingexplorer/src/test/java/org/webtestingexplorer/state/MissingPropertyStateDifferenceTest.java:36-45 | a concrete difference reads `DiffKey:prop-<p> V1:<a> V2:<b>` |
| CountOfElements.Diff | webtestingexplorer/src/main/java/org/webtestingexplorer/state/CountOfElementsState.java:49-60 | fails for another state class; empty exactly when the counts agree; otherwise one `numElements` difference holding this count and the other |
| CountOfElements.EqualsIsCountEquality | webtestingexplorer/src/main/java/org/webtestingexplorer/state/CountOfElementsState.java:33-42 | equality is count equality, so it is reflexive and symmetric |
| SelectedElements.NewSelectedElementsState | webtestingexplorer/src/main/java/org/webtestingexplorer/state/SelectedElementsState.java:39-46 | the state holds exactly the identifiers of the elements, duplicates collapsed |
| SelectedElements.Diff | webtestingexplorer/src/main/java/org/webtestingexplorer/state/SelectedElementsState.java:68-86 | fails for another state class; otherwise lists the this-only identifiers, then the other-only ones, and its length is the size of the symmetric difference |
| SelectedElements.VisitOne | webtestingexplorer/src/main/java/org/webtestingexplorer/state/SelectedElementsState.java:75-84 | visiting one identifier lists it, with its difference, exactly when the other set lacks it |
| SelectedElements.OneSide | webtestingexplorer/src/main/java/org/webtestingexplorer/state/SelectedElementsState.java:75-84 | one loop reports each identifier missing on the other side exactly once, with null on the side that lacks it |
| SelectedElements.Missing | webtestingexplorer/src/main/java/org/webtestingexplorer/state/SelectedElementsState.java:77-83 | a missing-element difference holds the identifier on the side that has it and null on the other |
| SelectedElements.Equals | webtestingexplorer/src/main/java/org/webtestingexplorer/state/SelectedElementsState.java:48-57 | true exactly when the other state is a selected-elements state with the same identifiers |
| SelectedElements.SymmetricDifferenceEmpty | webtestingexplorer/src/main/java/org/webtestingexplorer/state/SelectedElementsState.java:48-86 | the diff is empty exactly when the identifier sets are equal |
| JsonState.FirstPassEmpty | webtestingexplorer/src/main/java/org/webtestingexplorer/state/JSONObjectState.java:30-51 | the first pass reports nothing exactly when every member of the first object has an equal member in the second |
| JsonState.MemberDiffEmpty | webtestingexplorer/src/main/java/org/webtestingexplorer/state/JSONObjectState.java:34-50 | one member reports nothing exactly when it is present on both sides with deep-equal values |
| JsonState.SecondPassEmpty | webtestingexplorer/src/main/java/org/webtestingexplorer/state/JSONObjectState.java:53-67 | the second pass reports nothing exactly when every name of the second object occurs in the first |
| JsonState.ObjectDiffEmpty | webtestingexplorer/src/main/java/org/webtestingexplorer/state/JSONObjectState.java:28-68 | the diff is empty exactly when the objects are deep-equal |
| JsonState.SameObjectReflexive | webtestingexplorer/src/test/java/org/webtestingexplorer/state/JSONObjectStateTest.java:17-32 | an object has no differences with itself |
| JsonState.AppendJsonObjectDifferences | webtestingexplorer/src/main/java/org/webtestingexplorer/state/JSONObjectState.java:28-68 | corrected: the recursive method appends exactly the specified differences to the list it is given; on an object without members it appends nothing, where the code as written throws (see Findings) |
| JsonState.Diff | webtestingexplorer/src/main/java/org/webtestingexplorer/state/JSONObjectState.java:96-107 | corrected: fails for another state class; otherwise its result is empty exactly when the objects are deep-equal, also for objects without members (see Findings) |
| JsonState.Equals | webtestingexplorer/src/main/java/org/webtestingexplorer/state/JSONObjectState.java:74-87 | corrected: true for the same object, otherwise exactly when the other state is a JSON state whose object is deep-equal; for two distinct states whose objects are or nest an empty object the code as written throws instead (see Findings) |
| JsonState.EqualsReflexive | webtestingexplorer/src/main/java/org/webtestingexplorer/state/JSONObjectState.java:74-87 | corrected: a JSON state equals an equal copy of itself; as written, a copy holding or nesting an empty object makes `equals` throw (see Findings) |
| JsonState.LookupIgnoresOrder | webtestingexplorer/src/main/java/org/webtestingexplorer/state/JSONObjectState.java:38-40 | looking a name up does not depend on member order |
| JsonState.DiffIgnoresOrder | webtestingexplorer/src/test/java/org/webtestingexplorer/state/JSONObjectStateTest.java:17-32 | the diff does not depend on member order |
| JsonState.DiffIgnoresOrderExample | webtestingexplorer/src/test/java/org/webtestingexplorer/state/JSONObjectStateTest.java:17-32 | two objects listing the same members in another order have no differences |
| JsonState.DiffReportsMissing | webtestingexplorer/src/test/java/org/webtestingexplorer/state/JSONObjectStateTest.java:35-49 | a member on one side only is reported as a missing property, in both directions |
| JsonState.DiffReportsValue | webtestingexplorer/src/test/java/org/webtestingexplorer/state/JSONObjectStateTest.java:52-65 | a member with different values is reported as a value difference, in both directions |
| JsonState.ObjectDiffAsWritten | webtestingexplorer/src/main/java/org/webtestingexplorer/state/JSONObjectState.java:28-68 | the code as written throws a null-pointer exception on an object without members |
| JsonState.AsWrittenAgrees | webtestingexplorer/src/main/java/org/webtestingexplorer/state/JSONObjectState.java:28-68 | with no empty object at any depth, the code as written returns the corrected diff |
| JsonState.FirstPassAgrees | webtestingexplorer/src/main/java/org/webtestingexplorer/state/JSONObjectState.java:30-51 | the same agreement for the first pass |
| JsonState.EmptyObjectThrows | webtestingexplorer/src/main/java/org/webtestingexplorer/state/JSONObjectState.java:30 | two empty objects, or an object nesting an empty one, throw as written, while the corrected diff is empty |
| Assoc.Lookup | webtestingexplorer/src/main/java/org/webtestingexplorer/state/JSONObjectState.java:38-40 | a name is absent exactly when no entry carries it; otherwise the value comes from an entry with that name |
| Assoc.LookupFindsEntry | webtestingexplorer/src/main/java/com/google/testing/webtestingexplorer/state/ElementsState.java:93 | with distinct names, looking up an entry's name finds that entry's value |
| ElementsState.DiffOneWay | webtestingexplorer/src/main/java/com/google/testing/webtestingexplorer/state/ElementsState.java:88-136 | the nested loops produce exactly the specified fold: skip recorded keys; report a missing element with that side's properties; otherwise record every property key and report missing properties with null on the missing side and values that differ ignoring case |
| ElementsState.Diff | webtestingexplorer/src/main/java/com/google/testing/webtestingexplorer/state/ElementsState.java:73-86 | fails exactly when the class names differ ignoring case; otherwise returns the forward pass, then the reverse pass |
| ElementsState.Equals | webtestingexplorer/src/main/java/com/google/testing/webtestingexplorer/state/ElementsState.java:58-71 | true for the same object, false for another kind of object; otherwise its failures are those of diff, and it is true exactly when diff is empty |
| ElementsState.DiffWithIsReference | webtestingexplorer/src/main/java/com/google/testing/webtestingexplorer/state/ElementsState.java:73-136 | with keys that never collide, the two passes equal a reference diff defined element by element without diff keys |
| ElementsState.ReferenceDiffEmpty | webtestingexplorer/src/main/java/com/google/testing/webtestingexplorer/state/ElementsState.java:58-71 | the reference diff is empty exactly when both states hold the same elements and their properties agree ignoring case |
| ElementsState.SameElementsReflexive | webtestingexplorer/src/test/java/com/google/testing/webtestingexplorer/state/ElementsStateTest.java:33-52 | a state has no differences with itself |
| ElementsState.ReferenceMissingOnce | webtestingexplorer/src/main/java/com/google/testing/webtestingexplorer/state/ElementsState.java:95-108 | each identifier is reported missing at most once |
| ElementsState.Pass1Reports | webtestingexplorer/src/main/java/com/google/testing/webtestingexplorer/state/ElementsState.java:101-108 | the forward pass reports missing only elements of the first state that the second state lacks |
| ElementsState.Pass1MissingOnce | webtestingexplorer/src/main/java/com/google/testing/webtestingexplorer/state/ElementsState.java:101-108 | the forward pass reports each element missing at most once |
| ElementsState.Pass2Reports | webtestingexplorer/src/main/java/com/google/testing/webtestingexplorer/state/ElementsState.java:101-108 | the reverse pass reports missing only elements of the second state |
| ElementsState.Pass2MissingOnce | webtestingexplorer/src/main/java/com/google/testing/webtestingexplorer/state/ElementsState.java:101-108 | the reverse pass reports each element missing at most once |
| ElementsState.PropKeysMembership | webtestingexplorer/src/main/java/com/google/testing/webtestingexplorer/state/ElementsState.java:115-121 | the forward pass records a property key exactly for the properties the element has |
| ElementsState.Pass1Fold | webtestingexplorer/src/main/java/com/google/testing/webtestingexplorer/state/ElementsState.java:90-134 | the forward fold appends the reference forward differences |
| ElementsState.Pass2Fold | webtestingexplorer/src/main/java/com/google/testing/webtestingexplorer/state/ElementsState.java:90-134 | after the forward pass, the reverse fold appends the reference reverse differences |
| ElementsState.Element1Empty | webtestingexplorer/src/main/java/com/google/testing/webtestingexplorer/state/ElementsState.java:111-133 | an element reports nothing in the forward pass exactly when the other side has it with case-insensitively equal values for all its properties |
| ElementsState.Element2Empty | webtestingexplorer/src/main/java/com/google/testing/webtestingexplorer/state/ElementsState.java:111-133 | an element reports nothing in the reverse pass exactly when the first side has it and every one of its keys |
| ElementsState.Pass1Empty | webtestingexplorer/src/main/java/com/google/testing/webtestingexplorer/state/ElementsState.java:90-134 | the forward pass is empty exactly when every element agrees |
| ElementsState.Pass2Empty | webtestingexplorer/src/main/java/com/google/testing/webtestingexplorer/state/ElementsState.java:90-134 | the reverse pass is empty exactly when every element and key is covered by the first state |
| ElementsState.TextKeysHideMissingElement | webtestingexplorer/src/main/java/com/google/testing/webtestingexplorer/state/ElementsState.java:96-121 | with the identifier's text as the key, element `xk` shares its key with property `k` of element `x`; the diff is then empty although the states differ |
| ElementsState.StructuredKeysReportEverything | webtestingexplorer/src/main/java/com/google/testing/webtestingexplorer/state/ElementsState.java:73-136 | with a key naming the identifier and the property separately, the diff is the reference diff, reports each missing element once, and is empty exactly when the states agree |
| StateGraph.Elements | webtestingexplorer/src/main/java/org/webtestingexplorer/stateexplorer/StateExplorerState.java:23-27 | the set built from a collection holds exactly its members |
| StateGraph.StateExplorerState.constructor | webtestingexplorer/src/main/java/org/webtestingexplorer/stateexplorer/StateExplorerState.java:23-27 | a new node holds the sets of the given states and actions and has no following states |
| StateGraph.StateExplorerState.AddFollowingState | webtestingexplorer/src/main/java/org/webtestingexplorer/stateexplorer/StateExplorerState.java:53-55 | adds the state unless an equal one is already a follower, so a duplicate is ignored |
| StateGraph.EqualIsEquivalence | webtestingexplorer/src/main/java/org/webtestingexplorer/stateexplorer/StateExplorerState.java:33-45 | equality is an equivalence that compares the state sets and the action sets only, never the followers |
| StateGraph.EqualIgnoresOrder | webtestingexplorer/src/main/java/org/webtestingexplorer/stateexplorer/StateExplorerState.java:23-25 | nodes built from the same states and actions in another order are equal |
| StateGraph.PreOrder | webtestingexplorer/src/main/java/org/webtestingexplorer/stateexplorer/StateExplorerStateGraph.java:60-72 | the depth-first visiting order starts at the node itself |
| StateGraph.FirstEqual | webtestingexplorer/src/main/java/org/webtestingexplorer/stateexplorer/StateExplorerStateGraph.java:60-72 | the first node in the order that is equal to the target, or none exactly when no node is equal |
| StateGraph.FirstEqualConcat | webtestingexplorer/src/main/java/org/webtestingexplorer/stateexplorer/StateExplorerStateGraph.java:66-71 | searching a concatenation searches the first part, then the second |
| StateGraph.FindStateHelper | webtestingexplorer/src/main/java/org/webtestingexplorer/stateexplorer/StateExplorerStateGraph.java:60-73 | as written: the recursive search returns the first node equal to the target in depth-first pre-order, root first, or none; it is stated for graphs ranked so that every link goes down, since on a cyclic graph it does not end (see Findings) |
| StateGraph.StateExplorerStateGraph.constructor | webtestingexplorer/src/main/java/org/webtestingexplorer/stateexplorer/StateExplorerStateGraph.java:27 | a new graph has no root |
| StateGraph.SearchAsWritten | webtestingexplorer/src/main/java/org/webtestingexplorer/stateexplorer/StateExplorerStateGraph.java:60-73 | as written, with the call depth bounded: a node equal to the target is returned, followers are searched in turn, and a search that runs out of depth overflows; a found node is equal to the target |
| StateGraph.SelfLoopOverflows | webtestingexplorer/src/main/java/org/webtestingexplorer/stateexplorer/StateExplorerStateGraph.java:60-73 | as written: below a node that follows itself and differs from the target, the search overflows at every depth |
| StateGraph.PathStaysInClosedSet | webtestingexplorer/src/main/java/org/webtestingexplorer/stateexplorer/StateExplorerStateGraph.java:60-73 | a set that holds the root and every follower of its members holds every node reachable from the root |
| StateGraph.FindStateMarked | webtestingexplorer/src/main/java/org/webtestingexplorer/stateexplorer/StateExplorerStateGraph.java:56-73 | corrected: the search skips the nodes already in `markedStates` and ends on any graph; it returns a reachable node equal to the target, and none exactly when no reachable node is equal |
| StateGraph.StateExplorerStateGraph.FindState | webtestingexplorer/src/main/java/org/webtestingexplorer/stateexplorer/StateExplorerStateGraph.java:43-54 | corrected: on an empty graph the argument becomes the root and is returned; otherwise the root is kept, and a node reachable from the root and equal to the argument is returned, or the argument itself exactly when no reachable node is equal |
| StateGraph.FindStateScenario | webtestingexplorer/src/test/java/org/webtestingexplorer/stateexplorer/StateExplorerStateGraphTest.java:14-32 | an equal state finds the root, and an unequal one comes back as itself |
| IdGenerator.IsFormElement | webtestingexplorer/src/main/java/org/webtestingexplorer/driver/WebElementIdGenerator.java:63-72 | true exactly for input, button, textarea and select |
| IdGenerator.GenerateIdentifier | webtestingexplorer/src/main/java/org/webtestingexplorer/driver/WebElementIdGenerator.java:23-56 | the priority chain: a non-empty id, else a non-empty name, else a form tag with its index, else a non-empty class with its index, else the index; the frame and the index basis pass through unchanged |
| IdGenerator.IdentifierIgnoresOtherProperties | webtestingexplorer/src/main/java/org/webtestingexplorer/driver/WebElementIdGenerator.java:23-56 | the identifier depends only on the tag, id, name and class |
| ActionGeneration.MultiCriterionMatches | webtestingexplorer/src/main/java/org/webtestingexplorer/config/actiongenerator/MultiCriterionActionGeneratorConfig.java:78-132 | true exactly when every set criterion has a non-empty value that fully matches; with no criteria it matches everything |
| ActionGeneration.MoreCriteriaMatchLess | webtestingexplorer/src/main/java/org/webtestingexplorer/config/actiongenerator/MultiCriterionActionGeneratorConfig.java:91-98 | adding a criterion never widens the match, and a criterion on a null or empty attribute rejects |
| ActionGeneration.CompositeIsConjunctionAndUnion | webtestingexplorer/src/main/java/org/webtestingexplorer/config/actiongenerator/CompositeActionGeneratorConfig.java:42-52 | a composite matches exactly when both parts match, and generates the union of both parts' actions |
| ActionGeneration.SelectActions | webtestingexplorer/src/main/java/org/webtestingexplorer/actions/ActionGenerator.java:88-95 | the select actions for n options select exactly the indices 0 to n-1 of the element |
| ActionGeneration.CreateDefaultSelectWidgetActions | webtestingexplorer/src/main/java/org/webtestingexplorer/actions/ActionGenerator.java:88-95 | the loop yields n select actions, the i-th selecting option i |
| ActionGeneration.ButtonActions | webtestingexplorer/src/main/java/org/webtestingexplorer/actions/ActionGenerator.java:166-174 | a click exactly when role is "button" and aria-disabled is null or "false", otherwise nothing |
| ActionGeneration.InputActions | webtestingexplorer/src/main/java/org/webtestingexplorer/actions/ActionGenerator.java:110-121 | submit, checkbox and radio give a click; text and password give the "TESTING" text action; any other type gives nothing |
| ActionGeneration.SelectActionCountAsWritten | webtestingexplorer/src/main/java/org/webtestingexplorer/actions/ActionGenerator.java:148-154 | as written, one action always, plus one when there is at least one option |
| ActionGeneration.SelectActionsAsWrittenOutOfRange | webtestingexplorer/src/main/java/org/webtestingexplorer/actions/ActionGenerator.java:148-155 | as written, a select with no option gets an action for option 0, and one with a single option gets an action for option 1 |
| ActionGeneration.SelectActionCount | webtestingexplorer/src/main/java/org/webtestingexplorer/actions/ActionGenerator.java:145-155 | corrected: as many actions as options, at most two |
| ActionGeneration.SelectActionsInRange | webtestingexplorer/src/main/java/org/webtestingexplorer/actions/ActionGenerator.java:145-155 | corrected: every select action names an existing option, and each of the first two options gets one |
| ActionGeneration.FirstMatch | webtestingexplorer/src/main/java/org/webtestingexplorer/actions/ActionGenerator.java:75-80 | the first configuration that matches, or none exactly when none does |
| ActionGeneration.GenerateActionsForElement | webtestingexplorer/src/main/java/org/webtestingexplorer/actions/ActionGenerator.java:57-83 | corrected: a hidden or disabled element gets no action; otherwise the actions of the first match among the custom configurations in reverse and then the defaults, or none; the select default uses the corrected option count, so a select without options gets no select action (see Findings) |
| ActionGeneration.LatestCustomWins | webtestingexplorer/src/main/java/org/webtestingexplorer/actions/ActionGenerator.java:67-79 | the most recently added matching custom configuration decides |
| ActionGeneration.FirstMatchSkips | webtestingexplorer/src/main/java/org/webtestingexplorer/actions/ActionGenerator.java:75-80 | configurations that do not match are skipped |
| ActionGeneration.DefaultsDecideOtherwise | webtestingexplorer/src/main/java/org/webtestingexplorer/actions/ActionGenerator.java:67-80 | when no custom configuration matches, the defaults decide |
| ActionGeneration.TextAreaGetsText | webtestingexplorer/src/main/java/org/webtestingexplorer/actions/ActionGenerator.java:124-135 | a textarea with no custom configuration gets the one "TESTING" text action |
| Selectors.AddAll | webtestingexplorer/src/main/java/org/webtestingexplorer/config/selector/CompositeWebElementSelector.java:76 | adding to an insertion-ordered set keeps it duplicate-free, holds the old and the new elements, and keeps the old order in front |
| Selectors.AddAllConcat | webtestingexplorer/src/main/java/org/webtestingexplorer/config/selector/CompositeWebElementSelector.java:75-77 | adding two lists in turn is adding their concatenation |
| Selectors.RetainAll | webtestingexplorer/src/main/java/org/webtestingexplorer/config/selector/CompositeWebElementSelector.java:72 | retaining keeps exactly the elements present in both, without duplicates |
| Selectors.Flatten | webtestingexplorer/src/main/java/org/webtestingexplorer/config/selector/CompositeWebElementSelector.java:75-77 | the concatenation of all selector results |
| Selectors.UnionFold | webtestingexplorer/src/main/java/org/webtestingexplorer/config/selector/CompositeWebElementSelector.java:75-77 | the union loop holds every element of any result, once |
| Selectors.IntersectFold | webtestingexplorer/src/main/java/org/webtestingexplorer/config/selector/CompositeWebElementSelector.java:70-73 | the intersection loop keeps the elements found by every selector |
| Selectors.SelectedMembers | webtestingexplorer/src/main/java/org/webtestingexplorer/config/selector/CompositeWebElementSelector.java:67-80 | the result has no duplicates; union mode holds exactly the elements of any selector, intersect mode exactly those of every selector |
| Selectors.UnionFoldFlattens | webtestingexplorer/src/main/java/org/webtestingexplorer/config/selector/CompositeWebElementSelector.java:75-77 | the union is the insertion-ordered set of the flattened results |
| Selectors.AddAllFirstSeenOrder | webtestingexplorer/src/main/java/org/webtestingexplorer/config/selector/CompositeWebElementSelector.java:68-79 | elements keep the order in which they were first seen |
| Selectors.UnionFirstSeenOrder | webtestingexplorer/src/main/java/org/webtestingexplorer/config/selector/CompositeWebElementSelector.java:75-79 | union mode lists elements in first-seen order |
| Selectors.UnionExample | webtestingexplorer/src/test/java/org/webtestingexplorer/config/selector/CompositeWebElementSelectorTest.java:65-73 | the union of {1,2} and {1,3} is [1, 2, 3] |
| Selectors.IntersectionExample | webtestingexplorer/src/test/java/org/webtestingexplorer/config/selector/CompositeWebElementSelectorTest.java:76-82 | the intersection of {1,2} and {1,3} is [1] |
| Selectors.UnionSelector | webtestingexplorer/src/main/java/org/webtestingexplorer/config/selector/CompositeWebElementSelector.java:43-45 | the varargs-only constructor selects union mode |
| Selectors.Results | webtestingexplorer/src/main/java/org/webtestingexplorer/config/selector/CompositeWebElementSelector.java:70-76 | each selector's result on the driver, in selector order |
| Selectors.Select | webtestingexplorer/src/main/java/org/webtestingexplorer/config/selector/CompositeWebElementSelector.java:67-80 | the loops return the union or intersection of the selectors' results, without duplicates |
| Selectors.PiecesProperties | webtestingexplorer/src/main/java/org/webtestingexplorer/config/selector/PropertyWebElementSelector.java:50 | splitting at ':' gives pieces without ':', and a string without ':' is one piece |
| Selectors.DropTrailingEmptyProperties | webtestingexplorer/src/main/java/org/webtestingexplorer/config/selector/PropertyWebElementSelector.java:50 | the split drops exactly the trailing empty pieces |
| Selectors.SplitProperties | webtestingexplorer/src/main/java/org/webtestingexplorer/config/selector/PropertyWebElementSelector.java:50 | the split holds no ':', a string without ':' is kept whole, and a trailing piece is never empty |
| Selectors.SplitProperty | webtestingexplorer/src/main/java/org/webtestingexplorer/config/selector/PropertyWebElementSelector.java:50 | `name:value` splits into name and value when neither holds ':' and the value is non-empty |
| Selectors.SplitPropertyPieces | webtestingexplorer/src/main/java/org/webtestingexplorer/config/selector/PropertyWebElementSelector.java:50 | `name:value` falls into exactly the two pieces |
| Selectors.Clause | webtestingexplorer/src/main/java/org/webtestingexplorer/config/selector/PropertyWebElementSelector.java:55-70 | an exact clause is `//*[@p="v"]`, an inexact one `//*[contains(@p, "v")]` |
| Selectors.PropertyClause | webtestingexplorer/src/main/java/org/webtestingexplorer/config/selector/PropertyWebElementSelector.java:50-70 | a property's clause uses the first piece as the name and the second as the value |
| Selectors.Clauses | webtestingexplorer/src/main/java/org/webtestingexplorer/config/selector/PropertyWebElementSelector.java:49-71 | one clause per property, in order |
| Selectors.AllSplitStep | webtestingexplorer/src/main/java/org/webtestingexplorer/config/selector/PropertyWebElementSelector.java:49-71 | a loop step over a property that splits keeps every property seen so far split |
| Selectors.ClausesStep | webtestingexplorer/src/main/java/org/webtestingexplorer/config/selector/PropertyWebElementSelector.java:49-71 | one more property adds its clause at the end, after the clauses of the earlier properties |
| Selectors.JoinAppend | webtestingexplorer/src/main/java/org/webtestingexplorer/config/selector/PropertyWebElementSelector.java:51-53 | a separator goes in front of every clause but the first |
| Selectors.NewPropertyWebElementSelector | webtestingexplorer/src/main/java/org/webtestingexplorer/config/selector/PropertyWebElementSelector.java:45-74 | the builder loop throws exactly when a property lacks a value; otherwise the xpath is the clauses joined by " \| " and the limit is kept |
| Selectors.Displayed | webtestingexplorer/src/main/java/org/webtestingexplorer/config/selector/PropertyWebElementSelector.java:84-89 | keeps exactly the displayed elements |
| Selectors.LimitAsWritten | webtestingexplorer/src/main/java/org/webtestingexplorer/config/selector/PropertyWebElementSelector.java:91-94 | as written, a positive limit returns the first elements up to the limit, and throws when fewer are displayed |
| Selectors.LimitAsWrittenThrows | webtestingexplorer/src/main/java/org/webtestingexplorer/config/selector/PropertyWebElementSelector.java:91-93 | a limit of one with nothing displayed throws as written and gives the empty list when corrected |
| Selectors.Limit | webtestingexplorer/src/main/java/org/webtestingexplorer/config/selector/PropertyWebElementSelector.java:91-94 | corrected: a prefix of the displayed elements, as long as the limit allows; all of them for a limit of 0 or less |
| Selectors.LimitAgrees | webtestingexplorer/src/main/java/org/webtestingexplorer/config/selector/PropertyWebElementSelector.java:91-94 | whenever the code as written does not throw, it returns the corrected result |
| Selectors.SelectDisplayed | webtestingexplorer/src/main/java/org/webtestingexplorer/config/selector/PropertyWebElementSelector.java:81-95 | the loop keeps the displayed elements in order, then applies the corrected limit |
| HttpOracle.CodeSet | webtestingexplorer/src/main/java/com/google/testing/webtestingexplorer/oracles/HttpStatusCodeOracle.java:51-63 | the set of the given codes |
| HttpOracle.MessageShapes | webtestingexplorer/src/main/java/com/google/testing/webtestingexplorer/oracles/HttpStatusCodeOracle.java:75-86 | both messages start with "HTTP ", their lengths follow "HTTP <code> for <uri> not allowed" and "... disallowed", and they differ |
| HttpOracle.FailuresAsWritten | webtestingexplorer/src/main/java/com/google/testing/webtestingexplorer/oracles/HttpStatusCodeOracle.java:65-93 | as written, at most two failures per entry |
| HttpOracle.AsWrittenSilentWithoutAllowed | webtestingexplorer/src/main/java/com/google/testing/webtestingexplorer/oracles/HttpStatusCodeOracle.java:72-91 | as written, with no allowed codes nothing is ever reported, not even a disallowed code |
| HttpOracle.AsWrittenReportsEveryEntry | webtestingexplorer/src/main/java/com/google/testing/webtestingexplorer/oracles/HttpStatusCodeOracle.java:74-79 | as written, with allowed codes every entry is reported "not allowed", because the membership test is given the map |
| HttpOracle.AllowedCodeReportedAsWritten | webtestingexplorer/src/main/java/com/google/testing/webtestingexplorer/oracles/HttpStatusCodeOracle.java:74-79 | an allowed 200 is reported as written, and not in the corrected check |
| HttpOracle.DisallowedCodeMissedAsWritten | webtestingexplorer/src/main/java/com/google/testing/webtestingexplorer/oracles/HttpStatusCodeOracle.java:81-89 | a disallowed 500 with no allowed set is missed as written, and reported in the corrected check |
| HttpOracle.EntryFailures | webtestingexplorer/src/main/java/com/google/testing/webtestingexplorer/oracles/HttpStatusCodeOracle.java:72-91 | corrected: an entry reports nothing exactly when its code is acceptable (allowed, or no allowed set, and not disallowed) |
| HttpOracle.Failures | webtestingexplorer/src/main/java/com/google/testing/webtestingexplorer/oracles/HttpStatusCodeOracle.java:65-93 | corrected: at most two failures per entry |
| HttpOracle.SilentIffAllAcceptable | webtestingexplorer/src/main/java/com/google/testing/webtestingexplorer/oracles/HttpStatusCodeOracle.java:65-93 | corrected: no failure exactly when every code is acceptable |
| HttpOracle.NotAllowedReportedAt | webtestingexplorer/src/main/java/com/google/testing/webtestingexplorer/oracles/HttpStatusCodeOracle.java:74-79 | corrected: the entry at a given position, with a code outside a non-empty allowed set, is reported "not allowed" |
| HttpOracle.NotAllowedReported | webtestingexplorer/src/main/java/com/google/testing/webtestingexplorer/oracles/HttpStatusCodeOracle.java:74-79 | corrected: a code outside a non-empty allowed set is reported "not allowed" |
| HttpOracle.DisallowedReportedAt | webtestingexplorer/src/main/java/com/google/testing/webtestingexplorer/oracles/HttpStatusCodeOracle.java:81-89 | corrected: the entry at a given position, with a disallowed code, is reported "disallowed" |
| HttpOracle.DisallowedReported | webtestingexplorer/src/main/java/com/google/testing/webtestingexplorer/oracles/HttpStatusCodeOracle.java:81-89 | corrected: a disallowed code is reported "disallowed" |
| HttpOracle.HttpStatusCodeOracle.constructor | webtestingexplorer/src/main/java/com/google/testing/webtestingexplorer/oracles/HttpStatusCodeOracle.java:46-49 | a new oracle has no allowed and no disallowed codes |
| HttpOracle.HttpStatusCodeOracle.SetAllowedStatusCodes | webtestingexplorer/src/main/java/com/google/testing/webtestingexplorer/oracles/HttpStatusCodeOracle.java:51-56 | adds the codes to the allowed set, leaves the disallowed set alone, and returns the oracle itself |
| HttpOracle.HttpStatusCodeOracle.SetDisallowedStatusCodes | webtestingexplorer/src/main/java/com/google/testing/webtestingexplorer/oracles/HttpStatusCodeOracle.java:58-63 | adds the codes to the disallowed set, leaves the allowed set alone, and returns the oracle itself |
| HttpOracle.HttpStatusCodeOracle.CheckEntryAsWritten | webtestingexplorer/src/main/java/com/google/testing/webtestingexplorer/oracles/HttpStatusCodeOracle.java:72-91 | the loop body with the code's nesting and membership test gives one entry's as-written failures |
| HttpOracle.HttpStatusCodeOracle.CheckAsWritten | webtestingexplorer/src/main/java/com/google/testing/webtestingexplorer/oracles/HttpStatusCodeOracle.java:65-93 | the loop with the code's nesting and membership test returns the as-written failures |
| HttpOracle.HttpStatusCodeOracle.CheckEntry | webtestingexplorer/src/main/java/com/google/testing/webtestingexplorer/oracles/HttpStatusCodeOracle.java:72-91 | corrected: one entry's failures, empty exactly when its code is acceptable |
| HttpOracle.HttpStatusCodeOracle.Check | webtestingexplorer/src/main/java/com/google/testing/webtestingexplorer/oracles/HttpStatusCodeOracle.java:65-93 | corrected: the loop returns the corrected failures, and reports nothing exactly when every code is acceptable |

## Left out

- WebDriver, the browser and the network are not modelled. An element is a record, a selector is a function, and the status codes the browser saw are an input list. Side effects such as scrolling or clicking are out of scope.
- `Selectors.Select`: evaluates each selector once. Intersect mode in the source runs the first selector twice, which gives the same result for side-effect-free selectors.
- Disk I/O and XStream are not modelled: `readFromFile` and `writeToFile` of the queue and the state graph. Logging is also out.
- The iteration order of `HashMap` and `HashSet` is not modelled. Every order is allowed: the maps whose order shows are association lists in an arbitrary order. The order-independence lemmas show where the order does not matter.
- Java regular expressions are not modelled; full matching is the `FullMatch` parameter.
- JSON arrays and floating-point numbers are not modelled; JSON values are strings, integers, booleans, null and objects.
- The text of an action is not modelled; `Actions.ActionSequence.ToString` takes the action's text as a parameter.
- Identity is not modelled: `other == this` in the `equals` methods is a `sameObject` flag, and `hashCode` is left out.
- `StateGraph.StateExplorerStateGraph.FindState`: uses the corrected search, which consults the visited set, so it does not return the first equal node in the source's depth-first order; it returns some reachable equal node. Equal nodes are interchangeable for the explorer, which only hooks the returned node up. The followers of a node are a list in the order they were added, not a hash set.
- `StateGraph.FindStateHelper`: models the search as written only on graphs whose links all go down a ghost rank. On cyclic graphs it is modelled by `StateGraph.SearchAsWritten` instead (see Findings).
- `StateGraph.StateExplorerState.constructor`: states are compared by value. In the program, CountOfElementsState and SelectedElementsState override `equals` without `hashCode`, so the hash sets built in webtestingexplorer/src/main/java/org/webtestingexplorer/stateexplorer/StateExplorerState.java:24-25 find such states by object identity, and two nodes built from separately created but equal states of these classes are almost never equal. `StateGraph.EqualIgnoresOrder` and `StateGraph.FindStateScenario` state the value equality the unit test expects, not that identity-hash behaviour.
- `Actions.ActionSequence.SetInitial`: actions are values. In the program the copy constructor shares the `Action` objects and `setInitial` changes them in place, so marking one sequence initial also marks every copy that shares its actions. The model marks only the sequence it is called on, and `Actions.ActionSequence.Copy` does not capture the sharing.
- `ElementsState.DiffOneWay`: values are compared ignoring case with ASCII letters folded only. Java's `equalsIgnoreCase` also folds other letters, so a value "É" against "é" is reported as a difference here and not by the program.
- `ElementsState.Diff`: the class-name test and both passes use the same ASCII-only case folding.
- `ElementsState.Equals`: true exactly when the ASCII-folded diff is empty, so it differs from the program on non-ASCII case differences.
- `ElementsState.DiffOneWay`: the list of diff keys is a set, because the source only adds to it and asks whether it contains a key.
- TagActionGeneratorConfig, which the default configurations extend, is not part of this model. Its tag test is stated here as a full match of the tag name.
- The findElement searches of TagIndexWebElementIdentifier and ClassIndexWebElementIdentifier, and the xpath strings of the tag and class selectors, are not modelled. FirstWebElementSelector, PropertyValueStateDifference and MissingWebElementStateDifference formatting, JavaScriptUtil, the final-state oracle message and ActionSequenceResult are not modelled either.
- `isActive` of the action-generator configurations is not modelled; only the explorer loops, which are out of scope, call it.
- A URI is a plain string.
- The `xmlHeader` string of getAllElementsProperties.js is built and never used, so the model does not build it; the output never holds an XML declaration, as in the script.
- Numbers in the locator are unbounded naturals; the JavaScript number range is not modelled.
- `HttpOracle.FailuresAsWritten`: the contract only bounds the length. What the code as written reports is stated by the lemmas beside it.

## Findings

| source | as written | input that shows it | evidently intended | confidence | as-written member | corrected member |
|---|---|---|---|---|---|---|
| webtestingexplorer/src/main/java/org/webtestingexplorer/state/JSONObjectState.java:30 | `JSONObject.getNames` returns null for an object without members, and the loop dereferences it | two empty objects, or any object holding an empty object | an empty object has no differences with an equal one | not executed | JsonState.ObjectDiffAsWritten, JsonState.EmptyObjectThrows | JsonState.AppendJsonObjectDifferences, JsonState.Diff, JsonState.Equals, JsonState.EqualsReflexive, JsonState.AsWrittenAgrees |
| webtestingexplorer/src/main/java/com/google/testing/webtestingexplorer/state/ElementsState.java:96-115 | the diff key is the identifier's text followed by the property name, so keys of different meaning collide | element `x` with property `k` on both sides, and element `xk` on the second side only: the diff is empty | every missing element and every differing property is reported | not executed | ElementsState.TextKeysHideMissingElement | ElementsState.StructuredKeysReportEverything |
| webtestingexplorer/src/main/java/org/webtestingexplorer/actions/ActionGenerator.java:149-154 | the first test is `size() >= 0`, which always holds | a select with no options gets "select option 0"; one with one option gets "select option 1" | one action per existing option, at most two | not executed | ActionGeneration.SelectActionsAsWrittenOutOfRange | ActionGeneration.SelectActionsInRange |
| webtestingexplorer/src/main/java/org/webtestingexplorer/config/selector/PropertyWebElementSelector.java:91-93 | `subList(0, max)` throws when fewer than `max` elements are displayed | a limit of 1 with no displayed element | at most `max` elements | not executed | Selectors.LimitAsWrittenThrows | Selectors.LimitAgrees |
| webtestingexplorer/src/main/java/com/google/testing/webtestingexplorer/oracles/HttpStatusCodeOracle.java:74 | `contains` is given the status map instead of the code, so it never holds | allowed {200}, one entry with code 200: reported as "not allowed" | report only codes outside the allowed set | not executed | HttpOracle.AllowedCodeReportedAsWritten | HttpOracle.SilentIffAllAcceptable |
| webtestingexplorer/src/main/java/com/google/testing/webtestingexplorer/oracles/HttpStatusCodeOracle.java:81-89 | the disallowed test sits inside the allowed branch | no allowed codes, disallowed {500}, one entry with code 500: nothing is reported | a disallowed code is always reported | not executed | HttpOracle.DisallowedCodeMissedAsWritten | HttpOracle.DisallowedReported |
| webtestingexplorer/src/main/java/org/webtestingexplorer/stateexplorer/StateExplorerStateGraph.java:60-73 | `markedStates` is filled but never read, so the search follows links around cycles, and the explorer creates cycles itself: webtestingexplorer/src/main/java/org/webtestingexplorer/stateexplorer/WebTestingStateExplorer.java:269-273 links the current node to the found one, so an action that leaves the page unchanged adds a self-loop | a root that follows itself, searched for a node it is not equal to: the recursion never ends and the stack overflows | skip marked nodes, so the search ends on any graph | not executed | StateGraph.FindStateHelper, StateGraph.SelfLoopOverflows | StateGraph.FindStateMarked |
