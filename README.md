# Municipal services request store, in Dafny

This project models the in-memory side of a municipal-services desktop
application and proves properties of that model. The application files service
requests and keeps them in step across several hand-written indexes:

- an unbalanced binary search tree keyed by the numeric issue id;
- a max-heap ordered by priority;
- a relationship graph with breadth-first and depth-first search;
- a union-find structure that groups similar requests;
- a fixed category tree.

`RequestManager` appends each new request to its list and feeds it to every
index. Its queries read the indexes back:

- search by id;
- the requests in id order;
- the most urgent request;
- the related requests, found by a graph search;
- the grouped requests, found by union-find.

Two smaller stores live beside it:

- a linked list of reported issues that numbers issues from 1;
- an application-wide list of service requests with integer ids. It refuses
  duplicates and proposes the next free id.

Modules, one per file:

- `ServiceRequests` (service_request.dfy): the request record, a class, since
  the indexes share one object. Also its SLA table.
- `Text` (text.dfy): `int.TryParse`, `ToString` of a count, the bounds of a
  C# `int`, and the ordinal case-insensitive comparison for the letters of
  Basic Latin and Latin-1 Supplement.
- `CategoryTrees` (basic_tree.dfy): the n-ary category tree.
- `SearchTrees` (search_tree.dfy): the search tree.
- `PriorityHeaps` (priority_heap.dfy): the heap.
- `RequestGraphs` (request_graph.dfy): the graph.
- `DisjointSets` (union_find.dfy): union-find.
- `RequestManagers` (request_manager.dfy): the orchestrator.
- `IssueLists` (issue_linked_list.dfy): the issue list.
- `ServiceRequestManagers` (service_request_manager.dfy): the
  application-wide store.
- `Wrappers` (wrappers.dfy): `Option`, standing in for `null` results.

Each part takes the form of its source:

- **State changed in place becomes classes.** These are the heap list, the
  union-find arrays, the graph dictionaries, the manager's list and indexes,
  the issue nodes and the store's list. Their methods are proved against
  specification functions.
- **Read-only recursions become functions.** These are the tree searches,
  heights and walks, and the relationship weight.
- **The two indexes stored by value** are the category tree (built once) and
  the search tree's nodes (see "Left out").

The model differs from the code in these ways, each stated in the contracts:

- **The heap orders by a stand-in priority value.** `GetPriorityValue` is
  called by the heap but is not defined in the application's sources.
  `GetPriorityValue` here maps Critical/High/Medium/Low to 4/3/2/1 and
  anything else to 0. The heap proofs hold for any integer-valued function of
  `Priority`.
- **`AddRequest` parses ids like `int.Parse`.** This includes a leading
  sign, surrounding white space and leading zeros. So two records whose id
  texts differ ("07" and "7") can carry the same numeric id.
  `CreateGraphRelationships` compares the texts, not the numbers. In that
  case it adds a self-loop on the shared id (`RelationshipEdgesEnds`,
  `SameIdDifferentText`). It cannot happen otherwise.
- **Indexes are filed under the parsed id.** The search tree keeps the first
  record filed under an id. The graph likewise keeps the first record and its
  edges. `issueIdToIndex` keeps the last position. `RecordIds` is a ghost map
  from each stored record to the id it was filed under.
- **C# `int` arithmetic wraps.**
  - The store's `GetNextId` computes `maxId + 1` unchecked. Once `Int32Max` is stored it proposes `Int32Min`, which can be in use (`NextIdWrapCollides`, `WrappedNextIdRefused`).
  - The issue list's counter wraps the same way after handing out `Int32Max`. Its id invariants are stated for as long as the counter has not wrapped (the ghost flag `Wrapped`).
- **The index agreement is proved separately.** The manager's list and
  indexes agree through `Consistent()`, kept apart from the per-structure
  `Valid()`. Every public operation requires and ensures both.

## Model

| member | source | states |
|---|---|---|
| ServiceRequests.ServiceRequest.constructor | ServiceRequest.cs:39-51 | a new record has empty id, title, category, description, email and street, status "Pending", priority "Medium", reporter "Anonymous", and the given day as its report date |
| ServiceRequests.ServiceRequest.SLADeadline | ServiceRequest.cs:23-37 | the deadline is the report day plus the priority's SLA offset, so it is strictly later than the report day and at most 14 days after it |
| ServiceRequests.SlaOffsetDays | ServiceRequest.cs:27-34 | every offset lies in 1..14, and any priority outside the four known ones gets 7 days |
| ServiceRequests.SlaTable | ServiceRequest.cs:27-33 | Critical → 1, High → 3, Medium → 7, Low → 14 days |
| ServiceRequests.SlaMonotone | ServiceRequest.cs:27-33 | the offset does not decrease from Critical through High and Medium to Low |
| Text.TryParseInt | DataStructures.cs:110 | a parsed id always lies in the 32-bit signed range; malformed text yields no value |
| Text.NatToString | RequestManager.cs:107 | the decimal text of a count is non-empty, all digits, without a leading zero |
| Text.NatToStringValue | RequestManager.cs:107 | the decimal text of n has value n |
| Text.ParseNatToString | RequestManager.cs:105-110 | parsing the text generated for an empty id gives back the number (up to the 32-bit maximum) |
| Text.UpperFoldsPairs | RequestManager.cs:171 | an ASCII or Latin-1 capital and its small letter are the same after upper-casing, and the capital is left alone |
| Text.EqualsIgnoreCaseLatin1 | RequestManager.cs:171 | "Élan St" equals "élan st" ignoring case, but not "Elan St": accents count, case does not |
| Text.EqualsIgnoreCaseMeaning | RequestManager.cs:171 | two strings are equal ignoring case exactly when their lengths agree and each position is the same once upper-cased |
| CategoryTrees.TraverseRecursive | DataStructures.cs:43-53 | the walk appends exactly the node's pre-order sequence to what was collected so far |
| CategoryTrees.Traverse | DataStructures.cs:36-41 | `Traverse` returns the pre-order walk; its first element is the root's data and its length is the node count |
| CategoryTrees.PreOrderLength | DataStructures.cs:43-53 | the pre-order walk visits every node once: its length equals the number of nodes |
| CategoryTrees.PreOrderForestAppend | DataStructures.cs:48-51 | walking children a then b yields a's walk followed by b's |
| CategoryTrees.FindRecursive | DataStructures.cs:60-71 | a found node carries the data sought, and a node is found exactly when the data occurs in the pre-order walk |
| CategoryTrees.FindInChildren | DataStructures.cs:65-69 | searching the children in order finds a node exactly when the data occurs in their walks |
| CategoryTrees.FindIsFirstInPreOrder | DataStructures.cs:55-71 | `Find` returns the first subtree in pre-order whose root data matches, or none |
| CategoryTrees.FindInChildrenIsFirst | DataStructures.cs:65-69 | the children loop returns the first match in pre-order over the children |
| CategoryTrees.GetHeightRecursive | DataStructures.cs:78-82 | every height is at least 1 |
| CategoryTrees.MaxHeight | DataStructures.cs:81 | the maximum bounds every child's height and is attained by one child; 0 exactly for no children |
| CategoryTrees.HeightOfNode | DataStructures.cs:78-82 | a leaf has height 1; otherwise the height is 1 more than that of the tallest child, and each child is strictly lower |
| CategoryTrees.HeightAtMostSize | DataStructures.cs:78-82 | a tree is never taller than it has nodes |
| SearchTrees.InsertRecursive | DataStructures.cs:116-126 | the in-order items of the result are those of the input with the key inserted in order (unchanged when the key is present), and the result is still a search tree |
| SearchTrees.InsertSortedPresent | DataStructures.cs:120-125 | inserting a key already present changes nothing, so the first record filed under it is kept |
| SearchTrees.InsertSortedMembers | DataStructures.cs:116-126 | after insertion the items are the old ones plus (key, record) exactly when the key was new, and the key set gains the key |
| SearchTrees.InsertSortedIncreasing | DataStructures.cs:116-126 | insertion keeps the in-order keys strictly increasing and grows the tree by one exactly for a new key |
| SearchTrees.SearchRecursive | DataStructures.cs:130-134 | a found node has the key sought and its record is stored under it; nothing is found exactly when the key was never inserted |
| SearchTrees.InOrderRecursive | DataStructures.cs:143-151 | the traversal appends the records of the in-order items to what was collected |
| SearchTrees.ServiceRequestBST.constructor | DataStructures.cs:104-106 | a new tree is empty |
| SearchTrees.ServiceRequestBST.Insert | DataStructures.cs:108-114 | a non-numeric id is refused before the tree changes; otherwise the record is inserted under its parsed id and the tree stays a search tree |
| SearchTrees.ServiceRequestBST.Search | DataStructures.cs:128 | `Search(k)` finds the node with key k when k was inserted and nothing otherwise |
| SearchTrees.ServiceRequestBST.InOrderTraversal | DataStructures.cs:136-141 | the records in strictly increasing key order |
| PriorityHeaps.HeapRootIsMax | DataStructures.cs:183-187 | in a max-heap the first slot has the largest priority value |
| PriorityHeaps.MoveLastToRootKeeps | DataStructures.cs:187-190 | moving the last slot to the root and dropping the last loses only the old root, and leaves the order broken at the root alone |
| PriorityHeaps.AppendToHeap | DataStructures.cs:165-166 | appending to a heap breaks the order at most at the new slot |
| PriorityHeaps.RiseStep | DataStructures.cs:171-178 | swapping a slot that outranks its parent moves the only break up to the parent |
| PriorityHeaps.RiseDone | DataStructures.cs:171-180 | when the slot no longer outranks its parent (or is the root) the list is a heap |
| PriorityHeaps.SinkStep | DataStructures.cs:196-211 | swapping a slot with its larger child that outranks it moves the only break down to that child |
| PriorityHeaps.SinkDone | DataStructures.cs:207-212 | when neither child outranks the slot the list is a heap |
| PriorityHeaps.ServiceRequestHeap.constructor | DataStructures.cs:161 | a new heap is empty and valid |
| PriorityHeaps.ServiceRequestHeap.Insert | DataStructures.cs:163-167 | the heap keeps its order and gains exactly the inserted record |
| PriorityHeaps.ServiceRequestHeap.HeapifyUp | DataStructures.cs:169-181 | from a list broken only at `index`, the loop yields a max-heap with the same records |
| PriorityHeaps.ServiceRequestHeap.ExtractMax | DataStructures.cs:183-192 | null on an empty heap; otherwise the old root, which has maximal priority, is removed and every other record stays, with the order kept |
| PriorityHeaps.ServiceRequestHeap.HeapifyDown | DataStructures.cs:194-214 | from a list broken only at `index`, the loop yields a max-heap with the same records |
| PriorityHeaps.ServiceRequestHeap.Swap | DataStructures.cs:216-221 | the two slots exchange their records (and priorities); the multiset of records is unchanged |
| PriorityHeaps.ServiceRequestHeap.Count | DataStructures.cs:223 | the number of records in the heap |
| RequestGraphs.DistinctMeans | DataStructures.cs:283-285 | "contains no duplicates" means no two positions hold the same id |
| RequestGraphs.WithEdgesLists | DataStructures.cs:263-267 | a run of `AddEdge` calls keeps the set of nodes and appends to each known node's list exactly the edges from it, duplicates included |
| RequestGraphs.ReachableFromSink | DataStructures.cs:279-289 | from a node without outgoing edges (an unknown one in particular) only the node itself is reachable |
| RequestGraphs.ClosedHoldsReachable | DataStructures.cs:276-290 | a set closed under edges that holds the start holds everything reachable from it |
| RequestGraphs.ExtendKeeps | DataStructures.cs:281-288 | ids appended while expanding a reachable node are reachable from the start |
| RequestGraphs.DescentKeeps | DataStructures.cs:307-311 | after a recursive visit the ids collected from the node stay reachable from it and the expanded ids keep their targets collected |
| RequestGraphs.ServiceRequestGraph.constructor | DataStructures.cs:248-252 | a new graph has no nodes and no adjacency lists |
| RequestGraphs.ServiceRequestGraph.AddNode | DataStructures.cs:254-261 | a new id gets the record and an empty edge list; a known id leaves record and edges untouched |
| RequestGraphs.ServiceRequestGraph.AddEdge | DataStructures.cs:263-267 | the edge is appended to the list of a known source and ignored for an unknown one; the nodes are unchanged |
| RequestGraphs.ServiceRequestGraph.BreadthFirstSearch | DataStructures.cs:269-293 | the result starts with the start id, holds no duplicates, and holds exactly the ids reachable from the start; an unknown start gives just the start |
| RequestGraphs.ServiceRequestGraph.EnqueueTargets | DataStructures.cs:281-288 | the edge loop appends to visited (and the queue) only unvisited targets of the current id, and afterwards all its targets are visited |
| RequestGraphs.ServiceRequestGraph.DepthFirstSearch | DataStructures.cs:295-300 | the result starts with the start id, holds no duplicates, and holds exactly the ids reachable from the start; an unknown start gives just the start |
| RequestGraphs.ServiceRequestGraph.DFSRecursive | DataStructures.cs:302-313 | the visit appends the node and then only new ids reachable from it, and every appended id has all its targets visited |
| RequestGraphs.ServiceRequestGraph.VisitTargets | DataStructures.cs:305-312 | the edge loop of the recursive visit leaves every target of the node visited and keeps the collected ids reachable |
| RequestGraphs.ServiceRequestGraph.VisitTarget | DataStructures.cs:309-310 | one edge step leaves its target visited, keeps every id visited before, and keeps the collected ids reachable |
| DisjointSets.RootOf | DataStructures.cs:328 | following parents from x ends at a root, and a non-root's root has a strictly larger rank |
| DisjointSets.RootOfParent | DataStructures.cs:328 | x and its parent have the same root |
| DisjointSets.CompressKeepsRoots | DataStructures.cs:328 | pointing x straight at its root (path compression) changes no node's root |
| DisjointSets.LinkKeepsShape | DataStructures.cs:336-339 | hanging the lower-ranked root under the other moves exactly its members to the other root |
| DisjointSets.LinkEqualKeepsShape | DataStructures.cs:340-344 | for equal ranks, hanging y's root under x's and raising that rank moves exactly y's members to x's root |
| DisjointSets.UnionFind.constructor | DataStructures.cs:321-326 | every element starts as its own root with rank 0 |
| DisjointSets.UnionFind.Find | DataStructures.cs:328 | returns x's root, leaves `parent[x]` pointing at it, and changes no element's root |
| DisjointSets.UnionFind.Union | DataStructures.cs:330-345 | afterwards x and y share a root, chosen by rank; a rank grows only when two distinct equal-rank roots merge; the members of the two old sets, and no others, move to the common root |
| RequestManagers.CalculateRelationshipWeight | RequestManager.cs:156-179 | the weight lies in 0..20 |
| RequestManagers.RelationshipWeightMeaning | RequestManager.cs:156-179 | the weight is positive exactly when category, priority, (non-empty, equal ignoring ASCII and Latin-1 case) street or email match, and 20 exactly when all four do |
| RequestManagers.RelationshipWeightSymmetric | RequestManager.cs:156-179 | the weight does not depend on the order of the two requests |
| RequestManagers.RelationshipWeightSelf | RequestManager.cs:156-179 | a request related to itself weighs 20, or 10 without a street address |
| RequestManagers.RelationshipEdgesPaired | RequestManager.cs:147-152 | the edges come in pairs, one each way with the same weight |
| RequestManagers.RelationshipEdgesExact | RequestManager.cs:140-152 | an edge from the new id to x with weight w is added exactly when some other record with parseable id x relates to the new one with positive weight w |
| RequestManagers.RelationshipEdgesEnds | RequestManager.cs:140-152 | every added edge has the new id at one end, and a self-loop needs another record whose different id text parses to the same id |
| RequestManagers.SameIdDifferentText | RequestManager.cs:140-142 | two different id texts ("07", "7") parse to the same id, so the text comparison does not exclude them |
| RequestManagers.GroupFlags | RequestManager.cs:188-201 | position k is flagged exactly when request k has the new request's category and priority, or the same non-empty street ignoring ASCII and Latin-1 case |
| RequestManagers.SameRootMembersMeaning | RequestManager.cs:276-282 | the collected group holds exactly the listed requests whose root is the group's root |
| RequestManagers.MainCategory | RequestManager.cs:71-99 | a main category with its three subcategories walks as those four names and has height 2 |
| RequestManagers.CategoryTreeBuilt | RequestManager.cs:65-100 | the `AddChild` sequence builds the root "Municipal Services" over the four main categories, each with its three subcategories |
| RequestManagers.CategoryTreeWalk | RequestManager.cs:65-100 | the tree's pre-order walk is the seventeen category names, each main category followed by its subcategories |
| RequestManagers.CategoryTreeSize | RequestManager.cs:65-100 | the category tree has 17 nodes |
| RequestManagers.CategoryTreeHeight | RequestManager.cs:65-100 | the category tree has height 3 |
| RequestManagers.TreeIndexesInsert | RequestManager.cs:116 | after inserting a new record, every tree item is a stored record under the id it was filed under |
| RequestManagers.PositionsIndexAppend | RequestManager.cs:125-126 | after appending, `issueIdToIndex` sends each id to a position holding a record filed under it |
| RequestManagers.NodesIndexAdd | RequestManager.cs:122 | after `AddNode`, every graph node holds a stored record filed under the node's id |
| RequestManagers.GroupsWithinMerged | RequestManager.cs:181-203 | grouping the new position with earlier ones keeps every used position's root among the used positions and leaves unused positions alone |
| RequestManagers.IndexedAppend | RequestManager.cs:102-135 | appending a new record to the list, the tree, the heap, the graph and the position map keeps list and indexes in agreement |
| RequestManagers.IndexedRebuild | RequestManager.cs:311-314 | a heap holding exactly the listed records keeps the indexes in agreement |
| RequestManagers.IndexedShrink | RequestManager.cs:224-227 | taking records out of the heap keeps the indexes in agreement |
| RequestManagers.SortedRecords | RequestManager.cs:218-221 | the in-order records are stored records, in strictly increasing id order, and every filed id appears |
| RequestManagers.RecordOf | RequestManager.cs:211-215 | the record filed under the id, or null exactly when no record was filed under it |
| RequestManagers.RelatedOfMeaning | RequestManager.cs:253-261 | the collected records are exactly the records of the visited ids other than the queried one |
| RequestManagers.InCategory | RequestManager.cs:288-291 | `GetRequestsByCategory`: the listed requests whose category equals the argument ignoring ASCII and Latin-1 case, and all of them |
| RequestManagers.RequestManager.constructor | RequestManager.cs:50-63 | empty list and indexes, a union-find of 1000 singletons, and the category tree; list and indexes agree |
| RequestManagers.RequestManager.CreateGraphRelationships | RequestManager.cs:137-154 | the graph gains exactly the relationship edges of the new request with every listed record, in list order |
| RequestManagers.RequestManager.LinkWith | RequestManager.cs:140-153 | one loop step adds the two edges between the new request and record i, when related |
| RequestManagers.RequestManager.LinkBothWays | RequestManager.cs:150-151 | the two `AddEdge` calls add the edge there and the edge back, and change no record |
| RequestManagers.RequestManager.GroupRelatedRequests | RequestManager.cs:181-203 | the new position is united with exactly the flagged earlier positions (same category and priority, or same street ignoring ASCII and Latin-1 case) |
| RequestManagers.RequestManager.StoreInIndexes | RequestManager.cs:115-122 | the record is inserted into the search tree and added as a graph node |
| RequestManagers.RequestManager.AppendRecord | RequestManager.cs:113-126 | the record is appended to the list, filed in the tree and as a graph node, and its position recorded under its id |
| RequestManagers.RequestManager.RecordAndRelate | RequestManager.cs:113-132 | as `AppendRecord`, then the relationship edges are added and the new position grouped |
| RequestManagers.RequestManager.Relate | RequestManager.cs:128-132 | adds the relationship edges and groups the new position |
| RequestManagers.RequestManager.GroupKeepingEdges | RequestManager.cs:131 | grouping merges exactly the sets of the related positions and leaves the relationship edges as they were |
| RequestManagers.RequestManager.AddParsed | RequestManager.cs:110-132 | with the parsed id, the record reaches the list (at the end), the tree, the heap, the graph and the position map, and list and indexes still agree |
| RequestManagers.RequestManager.AddRequest | RequestManager.cs:102-135 | an empty id becomes the text of the list's new length; a non-numeric id is refused with nothing changed; otherwise the list grows by exactly the record at the end and `issueIdToIndex[id]` is the new last index |
| RequestManagers.RequestManager.SearchByID | RequestManager.cs:211-215 | the record filed under the id in the tree, or null exactly when there is none |
| RequestManagers.RequestManager.SearchByIDStored | RequestManager.cs:211-215 | a found record is in the list and was filed under that id; nothing is found exactly when no record was filed under it |
| RequestManagers.RequestManager.GetRequestsSortedByID | RequestManager.cs:218-221 | stored records, in strictly increasing id order, one for every filed id |
| RequestManagers.RequestManager.GetHighestPriorityRequest | RequestManager.cs:224-227 | null on an empty heap; otherwise a stored record of maximal priority, taken out of the heap |
| RequestManagers.RequestManager.GetAllCategories | RequestManager.cs:230-233 | the seventeen category names in pre-order |
| RequestManagers.RequestManager.CategoryExists | RequestManager.cs:236-239 | true exactly for one of the seventeen category names |
| RequestManagers.RequestManager.GetCategoryTreeHeight | RequestManager.cs:242-245 | the height is 3 |
| RequestManagers.RequestManager.FindRelatedRequests | RequestManager.cs:248-264 | exactly the records filed under ids reachable from the queried id, other than that id; none of them was filed under it |
| RequestManagers.RequestManager.GetGroupedRequests | RequestManager.cs:267-285 | nothing for an unknown id; otherwise, in list order, exactly the requests sharing the queried request's root, itself included; no root changes |
| RequestManagers.RequestManager.CollectGroup | RequestManager.cs:275-282 | the loop collects, in list order, the requests whose root is the group's root |
| RequestManagers.RequestManager.CollectStep | RequestManager.cs:277-280 | one pass appends request i exactly when its root is the group's root |
| RequestManagers.RequestManager.FindRoot | RequestManager.cs:273 | `Find` returns the representative of position i and, compressing paths, changes no representative |
| RequestManagers.RequestManager.UpdateRequest | RequestManager.cs:306-317 | status and priority are set, and the new heap holds exactly the listed records, so its count equals the list's |
| IssueLists.IssueNode.constructor | IssueLinkedList.cs:11-15 | a new node holds the issue and links to nothing |
| IssueLists.NextIdExtends | IssueLinkedList.cs:21-46 | filing an issue under a counter below `Int32Max` keeps the ids in range (for the advanced counter) and increasing |
| IssueLists.IncreasingIdsDistinct | IssueLinkedList.cs:21-46 | no two issues in the list share an id |
| IssueLists.IssueLinkedList.constructor | IssueLinkedList.cs:18-21 | a new list is empty and will hand out 1 first |
| IssueLists.IssueLinkedList.GetNextId | IssueLinkedList.cs:43-46 | returns the counter and advances it by one, wrapping from `Int32Max` to `Int32Min` (and recording the wrap), leaving the list unchanged |
| IssueLists.IssueLinkedList.AddIssue | IssueLinkedList.cs:23-41 | the issue gets the counter's value as its id, the counter advances (with the same wrap), and the issue is appended after the old contents; until the counter wraps the ids stay in range and increasing |
| IssueLists.IssueLinkedList.AppendNode | IssueLinkedList.cs:26-40 | a new node with the issue becomes the head of an empty list or follows the old last node |
| IssueLists.IssueLinkedList.Tail | IssueLinkedList.cs:34-38 | the walk from the head ends at the last node |
| IssueLists.IssueLinkedList.GetAllIssues | IssueLinkedList.cs:48-60 | the issues from head to tail; until the counter wraps, their ids increase and lie below the counter |
| IssueLists.NextIdGap | IssueLinkedList.cs:23-46 | on a new list, add, a direct `GetNextId`, add: the issues get ids 1 and 3 |
| ServiceRequestManagers.IndexOfId | ServiceRequestManager.cs:87 | the position of the first request with the id, and none exactly when no request has it |
| ServiceRequestManagers.MaxId | ServiceRequestManager.cs:122 | an id in the list that no listed id exceeds |
| ServiceRequestManagers.NextId | ServiceRequestManager.cs:115-124 | 1001 for an empty list; while `Int32Max` is not listed, one more than a listed id and above every listed id, so never in use; once `Int32Max` is listed, the unchecked `maxId + 1` wraps to `Int32Min` |
| ServiceRequestManagers.NextIdWrapCollides | ServiceRequestManager.cs:122-123 | with ids `Int32Max` and `Int32Min` stored (ids still unique), the proposed id wraps to `Int32Min`, which is in use |
| ServiceRequestManagers.WrappedNextIdRefused | ServiceRequestManager.cs:64-124 | after adding requests with ids `Int32Max` and `Int32Min` to a cleared store, a request filed under the id `GetNextId` proposes is refused as a duplicate |
| ServiceRequestManagers.Select | ServiceRequestManager.cs:169-186 | the kept requests are exactly the listed ones the test accepts |
| ServiceRequestManagers.SelectAppend | ServiceRequestManager.cs:169-186 | filtering keeps list order: the filter of a concatenation is the concatenation of the filters |
| ServiceRequestManagers.SelectSingle | ServiceRequestManager.cs:169-186 | a single request is kept exactly when the test accepts it |
| ServiceRequestManagers.AppendKeepsUnique | ServiceRequestManager.cs:72-77 | appending a request whose id is absent keeps ids unique |
| ServiceRequestManagers.ReplaceKeepsUnique | ServiceRequestManager.cs:94-98 | replacing a request by one with the same id keeps ids unique |
| ServiceRequestManagers.RemoveKeepsUnique | ServiceRequestManager.cs:106-109 | removing a request keeps ids unique |
| ServiceRequestManagers.RemovedIsOnlyMatch | ServiceRequestManager.cs:106-109 | with unique ids, removing the match leaves exactly the requests with other ids |
| ServiceRequestManagers.SampleIdsUnique | ServiceRequestManager.cs:130-152 | the sample ids are 1001 to 1010 in order, hence unique |
| ServiceRequestManagers.ServiceRequestManager.constructor | ServiceRequestManager.cs:56-60 | a new store holds exactly the ten samples, with unique ids |
| ServiceRequestManagers.ServiceRequestManager.LoadSampleData | ServiceRequestManager.cs:128-158 | the empty store receives the samples in order |
| ServiceRequestManagers.ServiceRequestManager.AddRequest | ServiceRequestManager.cs:64-81 | a missing request or a duplicate id is refused with the store unchanged; otherwise the request is appended; ids stay unique |
| ServiceRequestManagers.ServiceRequestManager.GetRequestById | ServiceRequestManager.cs:85-88 | the first request with the id, or none exactly when no request has it |
| ServiceRequestManagers.ServiceRequestManager.UpdateRequest | ServiceRequestManager.cs:92-100 | the request with the same id is replaced in place, every other position and the length unchanged; no-op for an absent id |
| ServiceRequestManagers.ServiceRequestManager.DeleteRequest | ServiceRequestManager.cs:104-111 | the request with the id is cut out, the rest keeping their order; no-op for an absent id; afterwards the id is absent |
| ServiceRequestManagers.ServiceRequestManager.GetNextId | ServiceRequestManager.cs:115-124 | 1001 for an empty store; while `Int32Max` is not stored, one more than a stored id and above every stored id; otherwise `Int32Min` |
| ServiceRequestManagers.ServiceRequestManager.ClearAll | ServiceRequestManager.cs:162-165 | the store is empty |
| ServiceRequestManagers.ServiceRequestManager.GetRequestsByStatus | ServiceRequestManager.cs:169-172 | exactly the stored requests with that status |
| ServiceRequestManagers.ServiceRequestManager.GetRequestsByPriority | ServiceRequestManager.cs:176-179 | exactly the stored requests with that priority |
| ServiceRequestManagers.ServiceRequestManager.GetRequestsByCategory | ServiceRequestManager.cs:183-186 | exactly the stored requests in that category |

## Left out

- `Text.EqualsIgnoreCase` folds only the case pairs of Basic Latin and Latin-1 Supplement, with ÿ going to Ÿ (U+0178).
  - .NET's ordinal case-insensitive comparison also folds the letters of other scripts: Latin Extended, Greek, Cyrillic and the micro sign µ. Those stay distinct here.
  - The reason is that the full Unicode simple upper-case table is not modelled.
- `RequestManagers.CalculateRelationshipWeight` inherits that gap. Two street addresses equal only under folding outside Latin-1 ("Ωmega Rd" and "ωmega rd") add 10 in the source and nothing here.
- `RequestManagers.RelationshipWeightMeaning` states "the same street ignoring case" with the same Latin-1 folding.
- `RequestManagers.GroupFlags` flags the same street with the same Latin-1 folding, so such addresses are not flagged here.
- `RequestManagers.RequestManager.GroupRelatedRequests` does not unite two requests whose streets differ only by case outside Latin-1. The source unites them.
- `RequestManagers.InCategory` leaves out a category that differs from the argument only by case outside Latin-1. `GetRequestsByCategory` returns it.

- **File persistence:** `SaveToFile` and `LoadFromFile` (RequestManager.cs:319-355) are JSON file I/O.
  - `AddRequest` and `UpdateRequest` end by saving; the model stops before that call.
  - Without `LoadFromFile` nothing replaces the manager's tree, graph or union-find, so they are `const` fields. The heap stays a `var` because `UpdateRequest` replaces it.
- **The singletons:** the double-checked-lock `Instance` properties of both managers exist for concurrent lazy creation. The model constructs instances explicitly.
- **Clock-dependent parts:** `DaysOpen` and the `DateTime.Now` default depend on the clock. The report date is a day number given by the caller, and the deadline is a day offset.
- **UI plumbing:** `INotifyPropertyChanged`, the `RequestAdded` event and the `ObservableCollection` change notifications.
- `GetDataStructureStats`: only formats a text report.
- `GetAllRequests`: returns a copy of the list. A Dafny sequence is already a value, so `Requests` itself is that copy.
- `BasicTree.Find` and `GetHeight` (DataStructures.cs:55-58, 73-76): these are `FindRecursive` and `GetHeightRecursive` applied to the root, and are used that way.
- **The tree as a value:** category-tree nodes are values. `AddChild` is used only while the tree is built, which `CategoryTreeBuilt` states.
- **The search tree's nodes as values:** `InsertRecursive` rewrites `node.Left`/`node.Right` in place. The model rebuilds the path to the new leaf as a value and assigns it to the tree object's `root`. Node identity is not modelled, and nothing outside the tree holds a node.
- **Issues as values:** `AddIssue` writes the id into the caller's `Issue` object. The model returns the numbered issue instead.
- **Issue fields:** the issue's date fields are day numbers, and `Issue`'s other members are not modelled.
- `RequestManagers.RequestManager.AddRequest` requires:
  - `|Requests| < 1000`, because the union-find has 1000 fixed slots;
  - a record not already in the list. The source would file the same object twice, and the indexes would then hold it twice.
- `RequestManagers.RequestManager.AddRequest`: the graph, tree and group updates are applied in a different order. The heap insert comes first, then the list, tree, graph and position map, then the edges and groups. Each index is touched by one step only, so the final state is the source's.
- `RequestManagers.RequestManager.FindRelatedRequests` states which records the result holds, not their order. The loop builds them in the search's visiting order.
- `RequestManagers.RequestManager.GetHighestPriorityRequest` states maximal priority through the stand-in `GetPriorityValue`.
- `ServiceRequestManagers.ServiceRequestManager.AddRequest`: `null` is modelled as a missing `Option` value, and the two exceptions as outcome values.
- **`ServiceRequestManager` ids:** the store's records have a 32-bit `IssueID` (`Int32`), as that file uses them, where `ServiceRequest.cs` declares a string.
- **The seven-argument constructor:** it is not among the sources. `Sample` fills the other fields with the parameterless constructor's defaults.
- `ServiceRequestManagers.ServiceRequestManager.UpdateRequest`, `DeleteRequest` and `AddRequest` require unique ids. Every operation keeps them unique from construction on.
- `ServiceRequestManagers.ServiceRequestManager.GetRequestsByStatus`, `GetRequestsByPriority` and `GetRequestsByCategory` state membership. Their order is `Select`'s, proved by `SelectAppend` and `SelectSingle`.
