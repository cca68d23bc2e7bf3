# node-tree in Dafny

A model of the `Node` class of node-tree (`src/index.js`). A `Node` is a
vertex of an ordered, mutable tree. It carries an `id`, a `children` array
that its methods edit in place, and a `parent` back-pointer.

All Node objects live in one store, the class `Tree.Forest`. Its fields:
- `id`: the `id` of every allocated node.
- `kids`: every `children` array, in order.
- `parentOf`: every `parent` pointer. A node without an entry has `parent === null`.
- `next`: the identity the next `new Node(...)` receives.

A `Handle` stands for the identity of a JavaScript object, which is what
`===` and `indexOf` compare. Every method takes its receiver (`this` in the
source) as the parameter `self`.

The invariant `Valid()` covers allocation and the absence of cycles:
- every node has an id and a children array;
- every pointer leads to an allocated node;
- the parent pointers form no cycle (`Links.Acyclic`: some rank decreases along every link).

Parent/child agreement is not part of the invariant. `prepend` and the
splice path of `insertByIndex` do not detach a node from its previous
parent, so the code does not maintain it.

Files:
- `sequences.dfy`: the array operations the class uses, `indexOf`, `splice` and the spread rebuild.
- `links.dfy`: the parent relation, the ancestor chain, the id-based ancestor test, and linking and unlinking without cycles. It also holds the `parents()` walk as written.
- `tree.dfy`: the class, with one method or function per member of `Node`.
- `scenarios.dfy`: the behaviour `test/test.spec.js` checks, replayed on fresh forests, plus "a second `removeNode` changes nothing".

Behaviour kept as the code has it:
- `append` fails, with no change, whenever `node` already has a parent. Its detach step calls `node.parent.remove`, which `Node` does not define.
- `insertByIndex` with a negative index fails, with no change. It calls the undefined `prepand`.
- `insertByIndex` with an index at or past the end defers to `append`. It therefore also fails for a node that has a parent.
- `insertBefore(node, newNode)` removes `node`, not `newNode`, when `newNode` is already a child. The insertion that follows then goes to index -1 and fails, unless `node` was listed twice.
- `prepend` and the splice path of `insertByIndex` leave the node in its old parent's array.
- All cycle checks compare ids, not identities. Over the corrected `parents()` walk they refuse every real ancestor, and when ids are unique they refuse only real ancestors (`Links.NamedCheck`). Over the walk as written, a check that walks from a node with two or more ancestors never returns (see Findings).
- `new Node({parent})` sets the fields first and then calls `setParent`. When that call throws, the allocated object stays behind as a detached root.

A failure (a thrown error) is a `false` result with the state unchanged.
There are two exceptions:
- `insertBefore`: its `removeNode` has already run by the time it fails.
- `new Node({parent})`: the node is allocated whatever the outcome, so `next`, `id` and `kids` grow even when `ok` is false.

`append` of a node that is already listed but has no parent adds a second
copy. Examples: `new Node({children: [n]})` then `p.append(n)`; or
`p.prepend(n)` elsewhere, then `removeNode(n)` there. The children become
`[n, n]` and `getIndex` returns 0. `Tree.Forest.Append` therefore promises
`getIndex` of the last position only for a node not listed before.

## Model

| member | source | states |
|---|---|---|
| Sequences.IndexOf | src/index.js:88-90 | the result is -1 exactly when `x` is absent; otherwise it is a position holding `x` with no earlier `x` |
| Sequences.InsertAt | src/index.js:63-67 | the rebuilt array is one longer: the prefix is kept, `x` sits at `index`, every later entry moves one place right; the multiset gains exactly `x` |
| Sequences.Without | src/index.js:92-100 | the multiset loses one `x`; an array without `x` is returned unchanged; otherwise the entries before the first `x` stay and the later ones move one place left |
| Sequences.WithoutTwice | src/index.js:92-103 | when `x` occurs at most once, it is gone after one removal and a second removal changes nothing |
| Sequences.WithoutTwiceDuplicate | src/index.js:92-103 | when `x` occurs twice or more, one copy survives a removal and a second removal shortens the array again |
| Sequences.InsertBeforeFirst | src/index.js:84-85 | inserting `y` at the index of `x` puts `y` at that index and moves `x` to the next one |
| Links.Ancestors | src/index.js:117-131 | the ancestor chain of a node never contains the node itself |
| Links.AncestorsUnfold | src/index.js:119-127 | the chain is empty at a root and is the parent followed by the parent's chain otherwise |
| Links.AncestorsShallow | src/index.js:117-131 | a root has no ancestors; a child of a root has exactly its parent |
| Links.AncestorsWithin | src/index.js:117-131 | when every parent pointer leads into a set of nodes, so does every ancestor |
| Links.LinkAcyclic | src/index.js:105-111 | pointing `x` at a parent that is not below `x` keeps the parent relation acyclic |
| Links.Link | src/index.js:110 | the relation with `x` pointing at `p` is acyclic; the chain of `x` becomes `p` followed by the chain of `p`; nodes outside the subtree of `x` keep their chains |
| Links.Unlink | src/index.js:99-102 | clearing the parent of `x` keeps the relation acyclic and leaves `x` with an empty chain |
| Links.NamedCheck | src/index.js:133-137 | the id comparison reports every real ancestor; with unique ids it reports exactly the real ancestors |
| Links.SelfLinkAsWritten | src/index.js:105-111 | for a root, the id check passes on the node itself, and the self link it then makes is a cycle |
| Links.ParentsAsWritten | src/index.js:117-131 | the walk as written returns `[]` for a root; any list it does return ends at a root, and every entry in it is the node's own parent |
| Links.ParentsLoopAsWritten | src/index.js:119-128 | one run of the loop as written: a finished run extends the collected list by the current node and after that only by the node's own parent, and it ends at a root |
| Links.ParentsAsWrittenShallow | src/index.js:117-131 | the walk as written returns the true chain for a root and for a child of a root |
| Links.ParentsLoopStuck | src/index.js:121-128 | once the walk reaches a parent that has a parent, it keeps returning to the same parent and never stops |
| Links.ParentsAsWrittenDiverges | src/index.js:127 | for a node with two or more ancestors the walk as written exhausts any step budget |
| Tree.Forest.NewNode | src/index.js:8-17 | a fresh handle with the given id and children; it gets the given parent exactly when the parent has no ancestor carrying the new id; otherwise it stays a root |
| Tree.Forest.GetIndex | src/index.js:88-90 | -1 exactly when `node` is not a child; otherwise `getByIndex` of the result is `node` and no earlier child is `node` |
| Tree.Forest.GetByIndex | src/index.js:71-73 | a child exactly for indices in range, and it is the child at that index |
| Tree.Forest.IsChild | src/index.js:143-145 | true exactly when `node` is listed among the children |
| Tree.Forest.HasParent | src/index.js:139-141 | true exactly when the ancestor chain is non-empty |
| Tree.Forest.IsRoot | src/index.js:113-115 | the complement of `hasParent`: true exactly when the ancestor chain is empty |
| Tree.Forest.Length | src/index.js:161-163 | exactly the indices below it hold a child |
| Tree.Forest.FirstChild | src/index.js:165-169 | null exactly when there are no children; otherwise the child at index 0 |
| Tree.Forest.LastChild | src/index.js:171-175 | null exactly when there are no children; otherwise the child at index `length - 1` |
| Tree.Forest.Iterate | src/index.js:157-159 | yields `length` values, the i-th being the child at index i |
| Tree.Forest.ForEach | src/index.js:147-151 | returns the receiver, and it visits the same children in the same order as iteration |
| Tree.Forest.Map | src/index.js:153-155 | one result per child, the i-th being the function applied to the i-th visited child |
| Tree.Forest.Parents | src/index.js:117-131 | the returned list is the ancestor chain, nearest first, and all of it is allocated |
| Tree.Forest.IsParent | src/index.js:133-137 | true exactly when some ancestor carries `node`'s id; true for every real ancestor; with unique ids, true only for them |
| Tree.Forest.SetParent | src/index.js:105-111 | succeeds exactly when `p` is not the node and no ancestor of `p` carries the node's id; refuses whenever the node is an ancestor of `p`; on success only the node's parent changes and its chain becomes `p` then the chain of `p`; acyclicity is kept |
| Tree.Forest.Append | src/index.js:23-34 | succeeds exactly when `node` is not the receiver, no ancestor of the receiver carries `node`'s id, and `node` has no parent; refuses every ancestor; on success `node` is the last child, its parent is the receiver, and a node not listed before is found by `getIndex` at `length - 1`; on failure nothing changes |
| Tree.Forest.Prepend | src/index.js:36-43 | succeeds exactly when `node` is not the receiver and no ancestor of the receiver carries `node`'s id; on success `node` is the first child at index 0 and its parent is the receiver; the old parent's array is untouched |
| Tree.Forest.InsertByIndex | src/index.js:45-69 | fails when either node is an ancestor of the other or the index is negative; at or past the end it is `append`; otherwise the children become the prefix, `node`, then the rest, and `node`'s parent is the receiver |
| Tree.Forest.InsertBefore | src/index.js:75-86 | no change when `node` is not a child; when `newNode` is not a child, `newNode` takes `node`'s index and `node` moves one place right; when `newNode` is a child, `node` is removed first and the insertion goes to `node`'s new index |
| Tree.Forest.RemoveNode | src/index.js:92-103 | no change when `node` is not a child; otherwise its first occurrence leaves the array, the rest keep their order, `node` becomes a root, and a node listed once is no longer a child |
| Scenarios.RemoveNodeTwice | src/index.js:92-103 | two removals of a node listed at most once have the effect of one |
| Scenarios.AppendTwice | test/test.spec.js:8-18 | after appending `a` then `b`, the last child is `b` |
| Scenarios.PrependTwice | test/test.spec.js:22-32 | after prepending `a` then `b`, the first child is `b` |
| Scenarios.InsertInMiddle | test/test.spec.js:36-50 | inserting `c` at index 1 into `[a, b]` gives `[a, c, b]` |
| Scenarios.ByIndexAfterAppend | test/test.spec.js:54-65 | after appending `a` and `b`, index 0 holds `a` and index 1 holds `b` |
| Scenarios.RemoveFirst | test/test.spec.js:69-81 | removing `a` from `[a, b]` leaves `b` at index 0 and `a` a root |
| Scenarios.RootsAfterAppend | test/test.spec.js:85-97 | the parent is a root and its two appended children are not |
| Scenarios.IterationOrder | test/test.spec.js:101-115 | after appending `b` and prepending `a`, iteration yields `a` then `b` |
| Scenarios.ForEachOrder | test/test.spec.js:119-133 | `forEach` visits `a` then `b` |
| Scenarios.MapOrder | test/test.spec.js:137-149 | `map` reading each child's name gives `["a", "b"]` |

## Left out

- The `data` payload and `src/util.js` (`toMap`): these copy an opaque object into a `Map` and hold no tree logic. The map and iteration scenarios read each child's id where the tests read `data.name`.
- `uuid()`: a foreign library. `NewNode` takes the id as a parameter, and the scenarios give distinct ids.
- The `children()` method at src/index.js:19-21: the instance field of the same name shadows it, so it cannot be reached.
- Constructor aliasing of the caller's `children` array: the model stores the given sequence by value, and its entries get no parent links, as in the source.
- JavaScript iterator objects and `Symbol.iterator`: iteration is modelled as the children sequence that one full traversal yields.
- Side effects of the callbacks given to `forEach` and `map`: callbacks are pure functions of a handle.
- Error messages and error classes: every throw is a `false` result.
- Tree.Forest.Parents: models the walk the code evidently intends, because the walk as written (`Links.ParentsAsWritten`) never ends at depth two or more; see Findings.
- Tree.Forest.IsParent, Tree.Forest.SetParent, Tree.Forest.Append, Tree.Forest.Prepend, Tree.Forest.InsertByIndex, Tree.Forest.InsertBefore, Tree.Forest.NewNode: their cycle checks run over the corrected walk and always return. In the code these calls never return when the walk starts from a node with two or more ancestors. The walk starts from the receiver for `isParent`, `append` and `prepend`; from the argument for `setParent` and `new Node({parent})`; and from either node for `insertByIndex` and so for `insertBefore`.
- Tree.Forest.InsertByIndex, Tree.Forest.GetByIndex: indices are integers, whereas the code accepts any JavaScript number. A fractional index such as `insertByIndex(c, 1.5)` splices at 1, because `slice` truncates. An omitted index (`undefined`) fails both comparisons, so the array is rebuilt as `[...children, c, ...children]`. The model captures neither case.
- Tree.Forest.SetParent, Tree.Forest.Append, Tree.Forest.Prepend, Tree.Forest.InsertByIndex, Tree.Forest.InsertBefore: these refuse to link a node under itself, where the code creates a self-loop; see Findings.
- Tree.Forest.NewNode: a new node always gets a fresh handle; the source's `id || uuid()` fallback for a missing id is part of the left-out uuid generation.

## Findings

| source | as written | input that shows it | evidently intended | confidence | as-written member | corrected member |
|---|---|---|---|---|---|---|
| src/index.js:127 | the `parents()` loop reassigns `parent = this.parent`, so it never advances past the first parent | a node whose parent has a parent, e.g. `c` in `a.append(b); b.append(c)` then `c.parents()` | `parent = parent.parent`, walking up to the root | not executed | Links.ParentsAsWrittenDiverges | Tree.Forest.Parents |
| src/index.js:105-111 | the cycle check only looks at strict ancestors, so linking a root under itself passes it and sets `parent` to the node itself | `x.setParent(x)` or `x.append(x)` on a root `x` | refuse the node itself, as the check refuses its ancestors | not executed | Links.SelfLinkAsWritten | Tree.Forest.SetParent |
