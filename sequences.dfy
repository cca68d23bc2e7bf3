/** Sequence operations that the Node class performs on its `children`
    array through JavaScript's Array methods: `indexOf`, `splice` and the
    slice-and-spread rebuild of `insertByIndex`. */
module Sequences {

  datatype Option<T> = None | Some(value: T)

  /** Array.prototype.indexOf: the position of the first occurrence of `x`,
      or -1 when `x` does not occur. */
  function IndexOf<T(==)>(k: seq<T>, x: T): (r: int)
    ensures -1 <= r < |k|
    ensures r == -1 <==> x !in k
    ensures 0 <= r ==> k[r] == x && x !in k[..r]
  {
    if k == [] then -1
    else if k[0] == x then 0
    else
      var i := IndexOf(k[1..], x);
      if i < 0 then -1
      else
        assert k[..i + 1] == [k[0]] + k[1..][..i];
        i + 1
  }

  /** The first occurrence is the only position before which `x` is absent. */
  lemma IndexOfAt<T>(k: seq<T>, x: T, j: nat)
    requires j < |k| && k[j] == x && x !in k[..j]
    ensures IndexOf(k, x) == j
  {
  }

  /** The spread rebuild `[...k.slice(0, i), x, ...k.slice(i)]`: `x` lands at
      position `i`, everything from `i` on moves one place right. */
  function InsertAt<T>(k: seq<T>, i: nat, x: T): (r: seq<T>)
    requires i <= |k|
    ensures |r| == |k| + 1 && r[i] == x
    ensures forall j :: 0 <= j < i ==> r[j] == k[j]
    ensures forall j :: i <= j < |k| ==> r[j + 1] == k[j]
    ensures multiset(r) == multiset(k) + multiset{x}
    ensures forall c :: c in r ==> c in k || c == x
  {
    assert k == k[..i] + k[i..];
    k[..i] + [x] + k[i..]
  }

  /** `k.splice(k.indexOf(x), 1)` guarded by `indexOf >= 0`: drops the first
      occurrence of `x` and keeps the other entries in order. */
  function Without<T(==)>(k: seq<T>, x: T): (r: seq<T>)
    ensures multiset(r) == multiset(k) - multiset{x}
    ensures forall c :: c in r ==> c in k
    ensures x !in k ==> r == k
    ensures x in k ==> |r| == |k| - 1
    ensures x in k ==> var i := IndexOf(k, x);
              (forall j :: 0 <= j < i ==> r[j] == k[j]) &&
              (forall j :: i <= j < |r| ==> r[j] == k[j + 1])
  {
    var i := IndexOf(k, x);
    if i < 0 then k
    else
      Splice(k, i);
      k[..i] + k[i + 1..]
  }

  /** Cutting out position `i` shortens the sequence by one, removes one
      copy of `k[i]` and shifts the tail left. */
  lemma Splice<T>(k: seq<T>, i: nat)
    requires i < |k|
    ensures var r := k[..i] + k[i + 1..];
            |r| == |k| - 1 && multiset(r) == multiset(k) - multiset{k[i]}
            && (forall j :: 0 <= j < i ==> r[j] == k[j])
            && (forall j :: i <= j < |r| ==> r[j] == k[j + 1])
            && (forall c :: c in r ==> c in k)
  {
    assert k == k[..i] + [k[i]] + k[i + 1..];
  }

  /** Removing a value that occurs at most once leaves no occurrence of it,
      so a second removal changes nothing. */
  lemma WithoutTwice<T>(k: seq<T>, x: T)
    requires multiset(k)[x] <= 1
    ensures x !in Without(k, x)
    ensures Without(Without(k, x), x) == Without(k, x)
  {
    assert multiset(Without(k, x))[x] == 0;
  }

  /** A value that occurs twice survives one removal, so a second removal
      drops another entry. */
  lemma WithoutTwiceDuplicate<T>(k: seq<T>, x: T)
    requires multiset(k)[x] >= 2
    ensures x in Without(k, x)
    ensures |Without(Without(k, x), x)| == |k| - 2
  {
    assert multiset(Without(k, x))[x] >= 1;
  }

  /** Inserting `y` at the first position of `x` puts `y` there and moves
      `x` one place right. */
  lemma InsertBeforeFirst<T>(k: seq<T>, x: T, y: T)
    requires x in k && y !in k
    ensures var i := IndexOf(k, x);
            IndexOf(InsertAt(k, i, y), y) == i && IndexOf(InsertAt(k, i, y), x) == i + 1
  {
    var i := IndexOf(k, x);
    var r := InsertAt(k, i, y);
    assert r[..i] == k[..i];
    IndexOfAt(r, y, i);
    assert r[..i + 1] == k[..i] + [y];
    IndexOfAt(r, x, i + 1);
  }
}
