/** The `parent` back-pointers of all Node objects, as one finite map from a
    node to its parent (a node absent from the map has `parent === null`).
    This module defines the ancestor chain that `parents()` walks, the
    id-based ancestor test of `isParent`, and proves that linking a node
    under a parent that is not below it keeps the relation acyclic. */
module Links {
  import opened Sequences

  /** The identity of one Node object (what `===` and `indexOf` compare). */
  type Handle = nat

  /** The rank strictly decreases from `h` to its parent, if it has one. */
  ghost predicate RankedAt(par: map<Handle, Handle>, rank: map<Handle, nat>, h: Handle) {
    h in par ==> h in rank && par[h] in rank && rank[par[h]] < rank[h]
  }

  /** Some rank strictly decreases along every parent link. */
  ghost predicate Ranked(par: map<Handle, Handle>, rank: map<Handle, nat>) {
    forall h :: RankedAt(par, rank, h)
  }

  /** No node is its own ancestor: the parent relation admits a ranking. */
  ghost predicate Acyclic(par: map<Handle, Handle>) {
    exists rank :: Ranked(par, rank)
  }

  /** The ancestor chain of `h` under one particular ranking. */
  ghost function AncestorsBy(par: map<Handle, Handle>, rank: map<Handle, nat>, h: Handle): (r: seq<Handle>)
    requires Ranked(par, rank)
    ensures forall a :: a in r ==> h in rank && a in rank && rank[a] < rank[h]
    decreases if h in rank then rank[h] else 0
  {
    if h in par then
      assert RankedAt(par, rank, h);
      [par[h]] + AncestorsBy(par, rank, par[h])
    else []
  }

  /** The chain does not depend on which ranking is used to build it. */
  lemma {:induction false} AncestorsRankFree(par: map<Handle, Handle>, r1: map<Handle, nat>, r2: map<Handle, nat>, h: Handle)
    requires Ranked(par, r1) && Ranked(par, r2)
    ensures AncestorsBy(par, r1, h) == AncestorsBy(par, r2, h)
    decreases if h in r1 then r1[h] else 0
  {
    if h in par {
      assert RankedAt(par, r1, h);
      AncestorsRankFree(par, r1, r2, par[h]);
    }
  }

  /** The ancestors of `h`, from its parent up to the root (root last): what
      a correct `parents()` returns. A node never occurs among its own
      ancestors. */
  ghost function Ancestors(par: map<Handle, Handle>, h: Handle): (r: seq<Handle>)
    requires Acyclic(par)
    ensures h !in r
  {
    var rank :| Ranked(par, rank);
    AncestorsBy(par, rank, h)
  }

  /** Any ranking yields `Ancestors`. */
  lemma AncestorsByAny(par: map<Handle, Handle>, rank: map<Handle, nat>, h: Handle)
    requires Ranked(par, rank)
    ensures Ancestors(par, h) == AncestorsBy(par, rank, h)
  {
    forall r | Ranked(par, r)
      ensures AncestorsBy(par, r, h) == AncestorsBy(par, rank, h)
    {
      AncestorsRankFree(par, r, rank, h);
    }
  }

  /** One step of the walk: a root has no ancestors, any other node has its
      parent followed by its parent's ancestors. */
  lemma AncestorsUnfold(par: map<Handle, Handle>, h: Handle)
    requires Acyclic(par)
    ensures Ancestors(par, h) == if h in par then [par[h]] + Ancestors(par, par[h]) else []
  {
    var rank :| Ranked(par, rank);
    AncestorsByAny(par, rank, h);
    if h in par {
      AncestorsByAny(par, rank, par[h]);
    }
  }

  /** `parents()` of a root is empty; of a child of a root it is that root. */
  lemma AncestorsShallow(par: map<Handle, Handle>, h: Handle)
    requires Acyclic(par)
    ensures h !in par ==> Ancestors(par, h) == []
    ensures h in par && par[h] !in par ==> Ancestors(par, h) == [par[h]]
  {
    AncestorsUnfold(par, h);
    if h in par {
      AncestorsUnfold(par, par[h]);
    }
  }

  /** Every ancestor is the parent of some node, so it lies in any set that
      holds all parents. */
  lemma {:induction false} AncestorsWithin(par: map<Handle, Handle>, h: Handle, s: set<Handle>)
    requires Acyclic(par)
    requires forall k :: k in par ==> par[k] in s
    ensures forall a :: a in Ancestors(par, h) ==> a in s
    decreases |Ancestors(par, h)|
  {
    AncestorsUnfold(par, h);
    if h in par {
      AncestorsWithin(par, par[h], s);
    }
  }

  /** `h` is `x` itself or lies in the subtree below `x`. */
  ghost predicate Below(par: map<Handle, Handle>, h: Handle, x: Handle)
    requires Acyclic(par)
  {
    h == x || x in Ancestors(par, h)
  }

  /** A node lies below `x` exactly when its parent does. */
  lemma BelowStep(par: map<Handle, Handle>, h: Handle, x: Handle)
    requires Acyclic(par) && h in par && h != x
    ensures Below(par, h, x) <==> Below(par, par[h], x)
  {
    AncestorsUnfold(par, h);
  }

  /** Raising the ranks of a set `s` that is closed under the parent links
      (apart from `x`) by `k` ranks the relation with `x` linked under `p`. */
  lemma ShiftRanked(par: map<Handle, Handle>, rank: map<Handle, nat>, s: set<Handle>, x: Handle, p: Handle, k: nat)
    requires Ranked(par, rank) && x in rank && p in rank
    requires x in s && p !in s && rank[p] < rank[x] + k
    requires forall h :: h in par && h != x ==> (h in s <==> par[h] in s)
    ensures Ranked(par[x := p], map y | y in rank :: if y in s then rank[y] + k else rank[y])
  {
    var r := map y | y in rank :: if y in s then rank[y] + k else rank[y];
    var linked := par[x := p];
    forall h
      ensures RankedAt(linked, r, h)
    {
      assert RankedAt(par, rank, h);
    }
  }

  /** Linking `x` under `p` keeps the relation acyclic when `p` is not below `x`:
      the subtree of `x` is lifted above the rank of `p`. */
  lemma LinkAcyclic(par: map<Handle, Handle>, x: Handle, p: Handle)
    requires Acyclic(par) && x != p && x !in Ancestors(par, p)
    ensures Acyclic(par[x := p])
  {
    var rank :| Ranked(par, rank);
    var r0 := rank[x := if x in rank then rank[x] else 0];
    var r1 := r0[p := if p in r0 then r0[p] else 0];
    forall h
      ensures RankedAt(par, r1, h)
    {
      assert RankedAt(par, rank, h);
    }
    var k := if r1[p] + 1 > r1[x] then r1[p] + 1 - r1[x] else 0;
    var s := set y | y in r1 && Below(par, y, x);
    forall h | h in par && h != x
      ensures h in s <==> par[h] in s
    {
      assert RankedAt(par, r1, h);
      BelowStep(par, h, x);
    }
    ShiftRanked(par, r1, s, x, p, k);
  }

  /** Nodes outside the subtree of `x` keep their ancestors when `x` is linked. */
  lemma {:induction false} LinkOutside(par: map<Handle, Handle>, x: Handle, p: Handle, h: Handle)
    requires Acyclic(par) && Acyclic(par[x := p])
    requires !Below(par, h, x)
    ensures Ancestors(par[x := p], h) == Ancestors(par, h)
    decreases |Ancestors(par, h)|
  {
    AncestorsUnfold(par, h);
    AncestorsUnfold(par[x := p], h);
    if h in par {
      BelowStep(par, h, x);
      LinkOutside(par, x, p, par[h]);
    }
  }

  /** `x.parent = p` where `p` is not below `x`: the result is acyclic, `x`
      now has `p` and the ancestors of `p` above it, and nothing outside the
      subtree of `x` sees a different ancestor chain. */
  function Link(par: map<Handle, Handle>, x: Handle, p: Handle): (r: map<Handle, Handle>)
    requires Acyclic(par) && x != p && x !in Ancestors(par, p)
    ensures r == par[x := p]
    ensures Acyclic(r)
    ensures Ancestors(r, x) == [p] + Ancestors(par, p)
    ensures forall h :: !Below(par, h, x) ==> Ancestors(r, h) == Ancestors(par, h)
  {
    LinkAcyclic(par, x, p);
    AncestorsUnfold(par[x := p], x);
    forall h | !Below(par, h, x)
      ensures Ancestors(par[x := p], h) == Ancestors(par, h)
    {
      LinkOutside(par, x, p, h);
    }
    par[x := p]
  }

  /** `x.parent = null`: the result is acyclic and `x` is a root. */
  function Unlink(par: map<Handle, Handle>, x: Handle): (r: map<Handle, Handle>)
    requires Acyclic(par)
    ensures r == par - {x}
    ensures Acyclic(r)
    ensures Ancestors(r, x) == []
  {
    UnlinkAcyclic(par, x);
    AncestorsUnfold(par - {x}, x);
    par - {x}
  }

  lemma UnlinkAcyclic(par: map<Handle, Handle>, x: Handle)
    requires Acyclic(par)
    ensures Acyclic(par - {x})
  {
    var rank :| Ranked(par, rank);
    forall h
      ensures RankedAt(par - {x}, rank, h)
    {
      assert RankedAt(par, rank, h);
    }
    assert Ranked(par - {x}, rank);
  }

  /** `isParent`: some ancestor of `h` carries the identifier `name`. */
  ghost predicate HasAncestorNamed(par: map<Handle, Handle>, id: map<Handle, string>, h: Handle, name: string)
    requires Acyclic(par)
  {
    exists a :: a in Ancestors(par, h) && a in id && id[a] == name
  }

  /** Naming a node outside the ancestry of `h` does not change the check. */
  lemma NamedOutside(par: map<Handle, Handle>, id: map<Handle, string>, h: Handle, x: Handle, s: string, name: string)
    requires Acyclic(par) && x !in Ancestors(par, h)
    ensures HasAncestorNamed(par, id[x := s], h, name) == HasAncestorNamed(par, id, h, name)
  {
  }

  /** As written, `setParent`, `append`, `prepend` and `insertByIndex` only
      ask whether an ancestor carries the id of the node being linked. For
      a root linked under itself that check passes, and the link it then
      makes is a cycle. */
  lemma SelfLinkAsWritten(par: map<Handle, Handle>, id: map<Handle, string>, h: Handle)
    requires Acyclic(par) && h !in par && h in id
    ensures !HasAncestorNamed(par, id, h, id[h])
    ensures !Acyclic(par[h := h])
  {
    AncestorsShallow(par, h);
    var linked := par[h := h];
    forall rank: map<Handle, nat>
      ensures !Ranked(linked, rank)
    {
      assert !RankedAt(linked, rank, h);
    }
  }

  /** Identifiers single out nodes. */
  ghost predicate UniqueIds(id: map<Handle, string>) {
    forall a, b :: a in id && b in id && id[a] == id[b] ==> a == b
  }

  /** The id comparison never misses a real ancestor, and with unique ids it
      finds exactly the ancestors. */
  lemma NamedCheck(par: map<Handle, Handle>, id: map<Handle, string>, h: Handle, x: Handle)
    requires Acyclic(par) && x in id
    ensures x in Ancestors(par, h) ==> HasAncestorNamed(par, id, h, id[x])
    ensures UniqueIds(id) ==> (HasAncestorNamed(par, id, h, id[x]) <==> x in Ancestors(par, h))
  {
  }

  /** `parents()` as written: the loop reloads `this.parent` instead of
      advancing to `parent.parent`. `fuel` bounds the loop iterations;
      `None` means the loop was still running when the fuel ran out. */
  function ParentsAsWritten(par: map<Handle, Handle>, h: Handle, fuel: nat): (r: Option<seq<Handle>>)
    ensures h !in par ==> r == Some([])
    ensures r.Some? && r.value != [] ==> r.value[|r.value| - 1] !in par
    ensures r.Some? ==> forall a :: a in r.value ==> h in par && a == par[h]
  {
    if h in par then ParentsLoopAsWritten(par, h, par[h], [], fuel) else Some([])
  }

  /** One run of the loop from `cur` with `acc` collected so far: a finished
      run extends `acc` by `cur` and then only by `this.parent`, and stops
      at a root. */
  function ParentsLoopAsWritten(par: map<Handle, Handle>, h: Handle, cur: Handle, acc: seq<Handle>, fuel: nat): (r: Option<seq<Handle>>)
    requires h in par
    ensures r.Some? ==> |acc| < |r.value| && r.value[..|acc|] == acc && r.value[|acc|] == cur
    ensures r.Some? ==> r.value[|r.value| - 1] !in par
    ensures r.Some? ==> forall i :: |acc| < i < |r.value| ==> r.value[i] == par[h]
    decreases fuel
  {
    if fuel == 0 then None
    else if cur !in par then Some(acc + [cur])
    else ParentsLoopAsWritten(par, h, par[h], acc + [cur], fuel - 1)
  }

  /** At depth one or less the walk as written agrees with the correct one. */
  lemma ParentsAsWrittenShallow(par: map<Handle, Handle>, h: Handle, fuel: nat)
    requires Acyclic(par) && |Ancestors(par, h)| <= 1 && fuel >= 1
    ensures ParentsAsWritten(par, h, fuel) == Some(Ancestors(par, h))
  {
    AncestorsUnfold(par, h);
    if h in par {
      AncestorsUnfold(par, par[h]);
      assert par[h] !in par;
      assert [] + [par[h]] == [par[h]];
      AncestorsShallow(par, h);
      assert ParentsLoopAsWritten(par, h, par[h], [], fuel) == Some([par[h]]);
    }
  }

  lemma {:induction false} ParentsLoopStuck(par: map<Handle, Handle>, h: Handle, acc: seq<Handle>, fuel: nat)
    requires h in par && par[h] in par
    ensures ParentsLoopAsWritten(par, h, par[h], acc, fuel) == None
    decreases fuel
  {
    if fuel > 0 {
      ParentsLoopStuck(par, h, acc + [par[h]], fuel - 1);
    }
  }

  /** From depth two on the walk as written never finishes, whatever the fuel. */
  lemma ParentsAsWrittenDiverges(par: map<Handle, Handle>, h: Handle, fuel: nat)
    requires Acyclic(par) && |Ancestors(par, h)| >= 2
    ensures ParentsAsWritten(par, h, fuel) == None
  {
    AncestorsUnfold(par, h);
    assert h in par;
    AncestorsUnfold(par, par[h]);
    ParentsLoopStuck(par, h, [], fuel);
  }
}
