/** The behaviour test/test.spec.js checks, replayed on fresh forests, and
    one property that spans two calls. Each `new Node()` of a test gets its
    own id, standing for the distinct uuid the constructor generates; the
    ids double as the `name` entries the tests keep in `data`. */
module Scenarios {
  import opened Sequences
  import opened Links
  import opened Tree

  /** A forest with a root and two detached nodes, none linked yet. */
  method ThreeRoots() returns (f: Forest, root: Handle, a: Handle, b: Handle)
    ensures fresh(f) && f.Valid()
    ensures root == 0 && a == 1 && b == 2 && f.next == 3
    ensures f.id == map[root := "root", a := "a", b := "b"]
    ensures f.parentOf == map[]
    ensures f.kids == map[root := [], a := [], b := []]
  {
    f := new Forest();
    var ok: bool;
    ok, root := f.NewNode("root", [], None);
    ok, a := f.NewNode("a", [], None);
    ok, b := f.NewNode("b", [], None);
  }

  /** Linking under a root passes the ancestor check: a root has no
      ancestors, so none of them carries the id. */
  lemma RootHasNoNamedAncestor(par: map<Handle, Handle>, id: map<Handle, string>, h: Handle, name: string)
    requires Acyclic(par) && h !in par
    ensures !HasAncestorNamed(par, id, h, name)
  {
    AncestorsShallow(par, h);
  }

  /** `root.append(child)` on three fresh nodes, `child` being `a` or `b`. */
  method OneAppended(child: Handle) returns (f: Forest, root: Handle, a: Handle, b: Handle)
    requires child == 1 || child == 2
    ensures fresh(f) && f.Valid()
    ensures root == 0 && a == 1 && b == 2 && f.next == 3
    ensures f.id == map[root := "root", a := "a", b := "b"]
    ensures f.parentOf == map[child := root]
    ensures root in f.kids && f.kids[root] == [child]
  {
    f, root, a, b := ThreeRoots();
    RootHasNoNamedAncestor(f.parentOf, f.id, root, f.id[child]);
    var ok := f.Append(root, child);
  }

  /** `root.append(a); root.append(b)` on three fresh nodes. */
  method AppendAB() returns (f: Forest, root: Handle, a: Handle, b: Handle)
    ensures fresh(f) && f.Valid()
    ensures root == 0 && a == 1 && b == 2 && f.next == 3
    ensures f.id == map[root := "root", a := "a", b := "b"]
    ensures f.parentOf == map[a := root, b := root]
    ensures root in f.kids && f.kids[root] == [a, b]
  {
    f, root, a, b := OneAppended(1);
    RootHasNoNamedAncestor(f.parentOf, f.id, root, "b");
    var ok := f.Append(root, b);
  }

  /** `root.append(b); root.prepend(a)` on three fresh nodes. */
  method AppendBPrependA() returns (f: Forest, root: Handle, a: Handle, b: Handle)
    ensures fresh(f) && f.Valid()
    ensures root == 0 && a == 1 && b == 2
    ensures f.id == map[root := "root", a := "a", b := "b"]
    ensures root in f.kids && f.kids[root] == [a, b]
  {
    f, root, a, b := OneAppended(2);
    RootHasNoNamedAncestor(f.parentOf, f.id, root, "a");
    var ok := f.Prepend(root, a);
  }

  /** Appending `a` and then `b` makes `b` the last child. */
  method AppendTwice() returns (last: Option<Handle>, b: Handle)
    ensures last == Some(b)
  {
    var f, root, a, b' := AppendAB();
    b := b';
    last := f.LastChild(root);
  }

  /** Prepending `a` and then `b` makes `b` the first child. */
  method PrependTwice() returns (first: Option<Handle>, b: Handle)
    ensures first == Some(b)
  {
    var f, root, a, b' := ThreeRoots();
    b := b';
    RootHasNoNamedAncestor(f.parentOf, f.id, root, "a");
    var ok := f.Prepend(root, a);
    RootHasNoNamedAncestor(f.parentOf, f.id, root, "b");
    ok := f.Prepend(root, b);
    first := f.FirstChild(root);
  }

  /** After appending `a` and `b`, index 0 holds `a` and index 1 holds `b`. */
  method ByIndexAfterAppend() returns (at0: Option<Handle>, at1: Option<Handle>, a: Handle, b: Handle)
    ensures at0 == Some(a) && at1 == Some(b)
  {
    var f, root, a', b' := AppendAB();
    a, b := a', b';
    at0, at1 := f.GetByIndex(root, 0), f.GetByIndex(root, 1);
  }

  /** A fourth fresh node `c` next to the forest of `AppendAB`. */
  method AppendABAndC() returns (f: Forest, root: Handle, a: Handle, b: Handle, c: Handle)
    ensures fresh(f) && f.Valid()
    ensures root == 0 && a == 1 && b == 2 && c == 3
    ensures f.id == map[root := "root", a := "a", b := "b", c := "c"]
    ensures f.parentOf == map[a := root, b := root]
    ensures root in f.kids && f.kids[root] == [a, b]
  {
    f, root, a, b := AppendAB();
    var ok;
    ok, c := f.NewNode("c", [], None);
  }

  /** Inserting `c` at index 1 between `a` and `b` gives `[a, c, b]`. */
  method InsertInMiddle() returns (after: seq<Option<Handle>>, a: Handle, b: Handle, c: Handle)
    ensures after == [Some(a), Some(c), Some(b)]
  {
    var f, root, a', b', c' := AppendABAndC();
    a, b, c := a', b', c';
    RootHasNoNamedAncestor(f.parentOf, f.id, root, "c");
    RootHasNoNamedAncestor(f.parentOf, f.id, c, "root");
    var ok := f.InsertByIndex(root, c, 1);
    assert f.kids[root] == InsertAt([a, b], 1, c) == [a, c, b];
    after := [f.GetByIndex(root, 0), f.GetByIndex(root, 1), f.GetByIndex(root, 2)];
  }

  /** Removing `a` from `[a, b]` leaves `b` at index 0 and `a` without a
      parent. */
  method RemoveFirst() returns (at0: Option<Handle>, aIsRoot: bool, b: Handle)
    ensures at0 == Some(b) && aIsRoot
  {
    var f, root, a, b' := AppendAB();
    b := b';
    f.RemoveNode(root, a);
    at0 := f.GetByIndex(root, 0);
    aIsRoot := f.IsRoot(a);
  }

  /** `removeNode` called twice for a node listed at most once: the second
      call finds nothing to remove and changes nothing. */
  method RemoveNodeTwice(f: Forest, self: Handle, node: Handle)
    requires f.Valid() && self in f.id && multiset(f.kids[self])[node] <= 1
    modifies f`parentOf, f`kids
    ensures f.Valid()
    ensures f.kids == old(f.kids)[self := Without(old(f.kids[self]), node)]
    ensures f.parentOf == if node in old(f.kids[self]) then Unlink(old(f.parentOf), node) else old(f.parentOf)
  {
    f.RemoveNode(self, node);
    ghost var once := (f.parentOf, f.kids);
    f.RemoveNode(self, node);
    assert (f.parentOf, f.kids) == once;
  }

  /** After two appends the parent is a root and its children are not. */
  method RootsAfterAppend() returns (rootIsRoot: bool, aIsRoot: bool, bIsRoot: bool)
    ensures rootIsRoot && !aIsRoot && !bIsRoot
  {
    var f, root, a, b := AppendAB();
    AncestorsShallow(f.parentOf, root);
    AncestorsShallow(f.parentOf, a);
    AncestorsShallow(f.parentOf, b);
    rootIsRoot, aIsRoot, bIsRoot := f.IsRoot(root), f.IsRoot(a), f.IsRoot(b);
  }

  /** Appending `b` and then prepending `a`: iteration visits `a` first. */
  method IterationOrder() returns (visited: seq<Handle>, a: Handle, b: Handle)
    ensures visited == [a, b]
  {
    var f, root, a', b' := AppendBPrependA();
    a, b := a', b';
    visited := f.Iterate(root);
  }

  /** The same children seen through `forEach`. */
  method ForEachOrder() returns (each: seq<Handle>, a: Handle, b: Handle)
    ensures each == [a, b]
  {
    var f, root, a', b' := AppendBPrependA();
    a, b := a', b';
    each := f.ForEach(root).1;
  }

  /** `map` over the children, reading each child's name, gives
      `["a", "b"]`. */
  method MapOrder() returns (names: seq<string>)
    ensures names == ["a", "b"]
  {
    var f, root, a, b := AppendBPrependA();
    var ids := f.id;
    names := f.Map(root, h => if h in ids then ids[h] else "");
  }
}
