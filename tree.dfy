/** The Node class of node-tree (src/index.js). Every Node object lives in
    one `Forest`, which holds the three fields the class keeps per object:
    `id`, the `children` array and the `parent` pointer. A `Handle` stands
    for an object's identity; each method takes its receiver (`this` in the
    source) as `self`. */
module Tree {
  import opened Sequences
  import opened Links

  /** Every entry of a children array is a node of the forest. */
  ghost predicate AllNodes(k: seq<Handle>, id: map<Handle, string>) {
    forall c :: c in k ==> c in id
  }

  /** The invariant of a forest, stated on its field values: every node has
      an id and a children array, every pointer leads to an allocated node,
      and the parent pointers form no cycle. */
  ghost predicate Coherent(id: map<Handle, string>, par: map<Handle, Handle>, kids: map<Handle, seq<Handle>>, next: Handle) {
    kids.Keys == id.Keys
    && (forall h :: h in id ==> h < next)
    && (forall h :: h in par ==> h in id && par[h] in id)
    && (forall h :: h in kids ==> AllNodes(kids[h], id))
    && Acyclic(par)
  }

  /** Detaching `x` and dropping it from the children of `self` keeps the
      invariant. */
  lemma CoherentRemove(id: map<Handle, string>, par: map<Handle, Handle>, kids: map<Handle, seq<Handle>>, next: Handle, self: Handle, x: Handle)
    requires Coherent(id, par, kids, next) && self in id
    ensures Coherent(id, Unlink(par, x), kids[self := Without(kids[self], x)], next)
  {
    assert kids[self := Without(kids[self], x)].Keys == id.Keys;
  }

  /** Allocating a fresh node `next` with the given children keeps the
      invariant. */
  lemma CoherentAdd(id: map<Handle, string>, par: map<Handle, Handle>, kids: map<Handle, seq<Handle>>, next: Handle, name: string, children: seq<Handle>)
    requires Coherent(id, par, kids, next) && AllNodes(children, id)
    ensures Coherent(id[next := name], par, kids[next := children], next + 1)
  {
    assert kids[next := children].Keys == id[next := name].Keys;
  }

  /** Pointing `x` at a parent outside its own subtree keeps the invariant. */
  lemma CoherentLink(id: map<Handle, string>, par: map<Handle, Handle>, kids: map<Handle, seq<Handle>>, next: Handle, x: Handle, p: Handle)
    requires Coherent(id, par, kids, next) && x in id && p in id
    requires x != p && x !in Ancestors(par, p)
    ensures Coherent(id, Link(par, x, p), kids, next)
  {
  }

  /** Replacing the children of a node by nodes of the forest keeps the
      invariant. */
  lemma CoherentChildren(id: map<Handle, string>, par: map<Handle, Handle>, kids: map<Handle, seq<Handle>>, next: Handle, self: Handle, k: seq<Handle>)
    requires Coherent(id, par, kids, next) && self in id && AllNodes(k, id)
    ensures Coherent(id, par, kids[self := k], next)
  {
    assert kids[self := k].Keys == id.Keys;
  }

  /** A second update of the same key replaces the first. */
  lemma UpdateTwice<K, V>(m: map<K, V>, key: K, a: V, b: V)
    ensures m[key := a][key := b] == m[key := b]
  {
  }

  class Forest {
    /** `node.id` of every allocated node; its keys are the allocated nodes. */
    var id: map<Handle, string>
    /** `node.parent`; a node without an entry has `parent === null`. */
    var parentOf: map<Handle, Handle>
    /** `node.children`, in order. */
    var kids: map<Handle, seq<Handle>>
    /** The next identity `new Node(...)` hands out. */
    var next: Handle

    /** Every node has an id and a children array, every pointer leads to an
        allocated node, and the parent pointers form no cycle. Parent/child
        agreement is not part of it: `prepend` and `insertByIndex` do not
        keep it. */
    ghost predicate Valid()
      reads this
    {
      Coherent(id, parentOf, kids, next)
    }

    /** An empty heap of nodes. */
    constructor ()
      ensures Valid()
      ensures id == map[] && parentOf == map[] && kids == map[] && next == 0
    {
      id, parentOf, kids, next := map[], map[], map[], 0;
      new;
      assert Ranked(map[], map[]);
    }

    /** `new Node({id, children, parent})`: the fields are set first (a root
        holding the given children, which get no parent link), then
        `setParent(parent)` runs when a parent is given. When that check
        throws, the allocated object is left behind as a detached root. */
    method NewNode(name: string, children: seq<Handle>, parent: Option<Handle>) returns (ok: bool, h: Handle)
      requires Valid() && AllNodes(children, id)
      requires parent.Some? ==> parent.value in id
      modifies this
      ensures Valid() && h == old(next) && h !in old(id) && next == old(next) + 1
      ensures id == old(id)[h := name] && kids == old(kids)[h := children]
      ensures ok == !(parent.Some? && old(HasAncestorNamed(parentOf, id, parent.value, name)))
      ensures parentOf == if ok && parent.Some? then old(parentOf)[h := parent.value] else old(parentOf)
    {
      h := next;
      CoherentAdd(id, parentOf, kids, next, name, children);
      next := next + 1;
      if parent.Some? {
        AncestorsWithin(parentOf, parent.value, id.Keys);
        NamedOutside(parentOf, id, parent.value, h, name, name);
      }
      id := id[h := name];
      kids := kids[h := children];
      ok := true;
      if parent.Some? {
        ok := SetParent(h, parent.value);
      }
    }

    /** `getIndex(node)`: the first position of `node` among the children of
        `self`, or -1 when it is not a child. */
    function GetIndex(self: Handle, node: Handle): (r: int)
      reads this
      requires self in kids
      ensures r == -1 <==> node !in kids[self]
      ensures 0 <= r ==> GetByIndex(self, r) == Some(node) && node !in kids[self][..r]
    {
      IndexOf(kids[self], node)
    }

    /** `getByIndex(index)`: the child at `index`; `undefined` out of range. */
    function GetByIndex(self: Handle, index: int): (r: Option<Handle>)
      reads this
      requires self in kids
      ensures r.Some? <==> 0 <= index < |kids[self]|
      ensures r.Some? ==> r.value == kids[self][index]
    {
      if 0 <= index < |kids[self]| then Some(kids[self][index]) else None
    }

    /** `isChild(node)`: `node` is a direct child of `self`. */
    function IsChild(self: Handle, node: Handle): (r: bool)
      reads this
      requires self in kids
      ensures r <==> node in kids[self]
    {
      GetIndex(self, node) > -1
    }

    /** `hasParent()`: a parent is set, so the ancestor chain is not empty. */
    function HasParent(h: Handle): (r: bool)
      reads this
      requires Valid()
      ensures r <==> Ancestors(parentOf, h) != []
    {
      AncestorsUnfold(parentOf, h);
      h in parentOf
    }

    /** `isRoot()`: no parent is set; the complement of `hasParent()`. */
    function IsRoot(h: Handle): (r: bool)
      reads this
      requires Valid()
      ensures r <==> !HasParent(h)
      ensures r <==> Ancestors(parentOf, h) == []
    {
      AncestorsUnfold(parentOf, h);
      h !in parentOf
    }

    /** `length`: exactly the indices below it hold a child. */
    function Length(self: Handle): (r: nat)
      reads this
      requires self in kids
      ensures forall i :: 0 <= i < r <==> GetByIndex(self, i).Some?
    {
      |kids[self]|
    }

    /** `firstChild`: the child at index 0, or null without children. */
    function FirstChild(self: Handle): (r: Option<Handle>)
      reads this
      requires self in kids
      ensures r.None? <==> Length(self) == 0
      ensures r.Some? ==> r == GetByIndex(self, 0)
    {
      if |kids[self]| > 0 then Some(kids[self][0]) else None
    }

    /** `lastChild`: the child at index `length - 1`, or null without children. */
    function LastChild(self: Handle): (r: Option<Handle>)
      reads this
      requires self in kids
      ensures r.None? <==> Length(self) == 0
      ensures r.Some? ==> r == GetByIndex(self, Length(self) - 1)
    {
      if |kids[self]| > 0 then Some(kids[self][|kids[self]| - 1]) else None
    }

    /** `[Symbol.iterator]()`: one full traversal yields each direct child
        once, in index order. */
    function Iterate(self: Handle): (r: seq<Handle>)
      reads this
      requires self in kids
      ensures |r| == Length(self)
      ensures forall i :: 0 <= i < |r| ==> GetByIndex(self, i) == Some(r[i])
    {
      kids[self]
    }

    /** `forEach(fn)`: hands the direct children to the visitor in iteration
        order (the second component) and returns `this` for chaining. */
    function ForEach(self: Handle): (r: (Handle, seq<Handle>))
      reads this
      requires self in kids
      ensures r.0 == self
      ensures r.1 == Iterate(self)
    {
      (self, kids[self])
    }

    /** `map(fn)`: the transform applied to each direct child, in iteration
        order. */
    function Map<R>(self: Handle, f: Handle -> R): (r: seq<R>)
      reads this
      requires self in kids
      ensures |r| == |ForEach(self).1|
      ensures forall i :: 0 <= i < |r| ==> r[i] == f(ForEach(self).1[i])
    {
      var k := kids[self];
      seq(|k|, i requires 0 <= i < |k| => f(k[i]))
    }

    /** `parents()`, with the walk advancing to `parent.parent` at each step
        and stopping at the root. */
    method Parents(self: Handle) returns (ps: seq<Handle>)
      requires Valid() && self in id
      ensures ps == Ancestors(parentOf, self)
      ensures forall a :: a in ps ==> a in id
    {
      ps := [];
      ghost var all := Ancestors(parentOf, self);
      AncestorsWithin(parentOf, self, id.Keys);
      AncestorsUnfold(parentOf, self);
      var cur := if self in parentOf then Some(parentOf[self]) else None;
      while cur.Some?
        invariant cur.Some? ==> cur.value in id && all == ps + [cur.value] + Ancestors(parentOf, cur.value)
        invariant cur.None? ==> ps == all
        decreases if cur.Some? then |Ancestors(parentOf, cur.value)| + 1 else 0
      {
        var p := cur.value;
        AncestorsUnfold(parentOf, p);
        ps := ps + [p];
        if p !in parentOf {
          assert ps == all;
          break;
        }
        cur := Some(parentOf[p]);
        assert all == ps + [parentOf[p]] + Ancestors(parentOf, parentOf[p]);
      }
    }

    /** `isParent(node)`: some ancestor of `self` has the id of `node`. The
        id comparison finds every real ancestor, and with unique ids only
        those. */
    method IsParent(self: Handle, node: Handle) returns (b: bool)
      requires Valid() && self in id && node in id
      ensures b == HasAncestorNamed(parentOf, id, self, id[node])
      ensures node in Ancestors(parentOf, self) ==> b
      ensures UniqueIds(id) ==> (b <==> node in Ancestors(parentOf, self))
    {
      var ps := Parents(self);
      b := exists a :: a in ps && id[a] == id[node];
      NamedCheck(parentOf, id, self, node);
    }

    /** `setParent(node)`: refuses when `self` is an ancestor of `p` (by id),
        otherwise points `self` at `p`; no children array changes. */
    method SetParent(self: Handle, p: Handle) returns (ok: bool)
      requires Valid() && self in id && p in id
      modifies this`parentOf
      ensures Valid()
      ensures ok == (self != p && !old(HasAncestorNamed(parentOf, id, p, id[self])))
      ensures self in old(Ancestors(parentOf, p)) ==> !ok
      ensures parentOf == if ok then old(parentOf)[self := p] else old(parentOf)
      ensures ok ==> Ancestors(parentOf, self) == [p] + old(Ancestors(parentOf, p))
    {
      if self == p {
        return false;
      }
      var cyclic := IsParent(p, self);
      if cyclic {
        return false;
      }
      NamedCheck(parentOf, id, p, self);
      CoherentLink(id, parentOf, kids, next, self, p);
      parentOf := Link(parentOf, self, p);
      ok := true;
    }

    /** `append(node)`: refuses an ancestor of `self`; a node that already
        has a parent also fails, because the detach step calls
        `node.parent.remove`, which Node does not define. Otherwise `node`
        becomes the last child of `self`. */
    method Append(self: Handle, node: Handle) returns (ok: bool)
      requires Valid() && self in id && node in id
      modifies this`parentOf, this`kids
      ensures Valid()
      ensures ok == (node != self && !old(HasAncestorNamed(parentOf, id, self, id[node])) && node !in old(parentOf))
      ensures node in old(Ancestors(parentOf, self)) ==> !ok
      ensures ok ==> parentOf == old(parentOf)[node := self] && kids == old(kids)[self := old(kids[self]) + [node]]
      ensures !ok ==> parentOf == old(parentOf) && kids == old(kids)
      ensures ok ==> LastChild(self) == Some(node)
      ensures ok && node !in old(kids[self]) ==> GetIndex(self, node) == Length(self) - 1
      ensures ok ==> Ancestors(parentOf, node) == [self] + old(Ancestors(parentOf, self))
    {
      if node == self {
        return false;
      }
      var cyclic := IsParent(self, node);
      if cyclic {
        return false;
      }
      if !IsRoot(node) && HasParent(node) {
        return false;
      }
      NamedCheck(parentOf, id, self, node);
      CoherentLink(id, parentOf, kids, next, node, self);
      parentOf := Link(parentOf, node, self);
      CoherentChildren(id, parentOf, kids, next, self, kids[self] + [node]);
      var k := kids[self];
      kids := kids[self := k + [node]];
      if node !in k {
        assert (k + [node])[..|k|] == k;
        IndexOfAt(k + [node], node, |k|);
      }
      ok := true;
    }

    /** `prepend(node)`: refuses an ancestor of `self`; otherwise
        `node.setParent(self)` (whose check repeats the first one) and
        `node` becomes the first child. A previous parent keeps `node` in
        its own children array. */
    method Prepend(self: Handle, node: Handle) returns (ok: bool)
      requires Valid() && self in id && node in id
      modifies this`parentOf, this`kids
      ensures Valid()
      ensures ok == (node != self && !old(HasAncestorNamed(parentOf, id, self, id[node])))
      ensures node in old(Ancestors(parentOf, self)) ==> !ok
      ensures ok ==> parentOf == old(parentOf)[node := self] && kids == old(kids)[self := [node] + old(kids[self])]
      ensures !ok ==> parentOf == old(parentOf) && kids == old(kids)
      ensures ok ==> FirstChild(self) == Some(node) && GetIndex(self, node) == 0
      ensures ok ==> Ancestors(parentOf, node) == [self] + old(Ancestors(parentOf, self))
    {
      if node == self {
        return false;
      }
      var cyclic := IsParent(self, node);
      if cyclic {
        return false;
      }
      var linked := SetParent(node, self);
      assert linked;
      CoherentChildren(id, parentOf, kids, next, self, [node] + kids[self]);
      kids := kids[self := [node] + kids[self]];
      ok := true;
    }

    /** `insertByIndex(node, index)`: refuses when either node is an ancestor
        of the other (by id). An index at or past the end appends; a
        negative index fails, because the call goes to the undefined
        `prepand`; any other index splices `node` in at that position
        without detaching it from a previous parent. */
    method InsertByIndex(self: Handle, node: Handle, index: int) returns (ok: bool)
      requires Valid() && self in id && node in id
      modifies this`parentOf, this`kids
      ensures Valid()
      ensures ok == (node != self
                     && !old(HasAncestorNamed(parentOf, id, node, id[self]))
                     && !old(HasAncestorNamed(parentOf, id, self, id[node]))
                     && if index >= |old(kids[self])| then node !in old(parentOf) else 0 <= index)
      ensures self in old(Ancestors(parentOf, node)) || node in old(Ancestors(parentOf, self)) ==> !ok
      ensures ok ==> parentOf == old(parentOf)[node := self]
      ensures ok ==> kids == old(kids)[self := InsertAt(old(kids[self]), if index >= |old(kids[self])| then |old(kids[self])| else index, node)]
      ensures !ok ==> parentOf == old(parentOf) && kids == old(kids)
      ensures ok ==> Ancestors(parentOf, node) == [self] + old(Ancestors(parentOf, self))
    {
      if node == self {
        return false;
      }
      var cyclic := IsParent(node, self);
      if cyclic {
        return false;
      }
      cyclic := IsParent(self, node);
      if cyclic {
        return false;
      }
      if index >= |kids[self]| {
        assert InsertAt(kids[self], |kids[self]|, node) == kids[self] + [node];
        ok := Append(self, node);
        return;
      } else if index < 0 {
        return false;
      }
      CoherentChildren(id, parentOf, kids, next, self, InsertAt(kids[self], index, node));
      kids := kids[self := InsertAt(kids[self], index, node)];
      var linked := SetParent(node, self);
      assert linked;
      ok := true;
    }

    /** `insertBefore(node, newNode)`: fails when `node` is not a child. When
        `newNode` already is a child, the source removes `node` (not
        `newNode`); then `newNode` is inserted by index at the position
        `node` now has, which is -1 and fails once `node` is gone. */
    method InsertBefore(self: Handle, node: Handle, newNode: Handle) returns (ok: bool)
      requires Valid() && self in id && node in id && newNode in id
      modifies this`parentOf, this`kids
      ensures Valid()
      ensures node !in old(kids[self]) ==> !ok && parentOf == old(parentOf) && kids == old(kids)
      ensures node in old(kids[self]) && newNode !in old(kids[self]) ==>
        ok == (newNode != self && !old(HasAncestorNamed(parentOf, id, newNode, id[self])) && !old(HasAncestorNamed(parentOf, id, self, id[newNode])))
      ensures node in old(kids[self]) && newNode !in old(kids[self]) ==>
        (ok ==> parentOf == old(parentOf)[newNode := self] && kids == old(kids)[self := InsertAt(old(kids[self]), IndexOf(old(kids[self]), node), newNode)])
        && (!ok ==> parentOf == old(parentOf) && kids == old(kids))
      ensures node in old(kids[self]) && newNode !in old(kids[self]) && ok ==>
        GetIndex(self, newNode) == old(GetIndex(self, node)) && GetIndex(self, node) == old(GetIndex(self, node)) + 1
      ensures node in old(kids[self]) && newNode in old(kids[self]) ==>
        var par := Unlink(old(parentOf), node);
        var k := Without(old(kids[self]), node);
        ok == (newNode != self && 0 <= IndexOf(k, node) && !HasAncestorNamed(par, id, newNode, id[self]) && !HasAncestorNamed(par, id, self, id[newNode]))
        && (ok ==> parentOf == par[newNode := self] && kids == old(kids)[self := InsertAt(k, IndexOf(k, node), newNode)])
        && (!ok ==> parentOf == par && kids == old(kids)[self := k])
    {
      if !IsChild(self, node) {
        return false;
      }
      if IsChild(self, newNode) {
        ghost var kids0: map<Handle, seq<Handle>> := kids;
        ghost var par := Unlink(parentOf, node);
        ghost var k := Without(kids[self], node);
        RemoveNode(self, node);
        assert parentOf == par && kids == kids0[self := k];
        var i := GetIndex(self, node);
        assert i == IndexOf(k, node) < |k|;
        ghost var kids1 := kids;
        ok := InsertByIndex(self, newNode, i);
        if ok {
          assert kids == kids1[self := InsertAt(k, i, newNode)];
          UpdateTwice(kids0, self, k, InsertAt(k, i, newNode));
        }
        assert ok == (newNode != self && 0 <= IndexOf(k, node) && !HasAncestorNamed(par, id, newNode, id[self]) && !HasAncestorNamed(par, id, self, id[newNode]));
      } else {
        InsertBeforeFirst(kids[self], node, newNode);
        var i := GetIndex(self, node);
        ok := InsertByIndex(self, newNode, i);
      }
    }

    /** `removeNode(node)`: a no-op when `node` is not a child; otherwise the
        first occurrence of `node` leaves the children array, the others keep
        their order, and `node.parent` becomes null. */
    method RemoveNode(self: Handle, node: Handle)
      requires Valid() && self in id
      modifies this`parentOf, this`kids
      ensures Valid()
      ensures node !in old(kids[self]) ==> kids == old(kids) && parentOf == old(parentOf)
      ensures node in old(kids[self]) ==>
        kids == old(kids)[self := Without(old(kids[self]), node)] && parentOf == Unlink(old(parentOf), node)
      ensures node in old(kids[self]) ==> IsRoot(node)
      ensures multiset(old(kids[self]))[node] <= 1 ==> !IsChild(self, node)
    {
      var i := GetIndex(self, node);
      if i < 0 {
        return;
      }
      if multiset(kids[self])[node] <= 1 {
        WithoutTwice(kids[self], node);
      }
      CoherentRemove(id, parentOf, kids, next, self, node);
      parentOf := Unlink(parentOf, node);
      kids := kids[self := Without(kids[self], node)];
    }
  }
}
