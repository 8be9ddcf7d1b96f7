/** The array-based binary tree of lab13: the node at index `i` has its
    children at `2i` and `2i + 1`; index 0 is never used. The array grows by
    doubling, and `maxIndex` is the largest index ever written. */
module ArrayTree {
  import opened Outcomes

  /** A node: its element and the index it occupies. */
  datatype BTPos<E> = BTPos(element: E, index: int)

  /** The capacity the default constructor uses. */
  const CAPACITY: int := 100

  function Pow2(k: nat): (p: nat)
    ensures p >= 1
  {
    if k == 0 then 1 else 2 * Pow2(k - 1)
  }

  /** `w` lies in the subtree rooted at index `v`: halving `w` reaches `v`. */
  ghost predicate Below(v: int, w: int)
    requires v >= 1
    decreases w
  {
    if w <= v then w == v else Below(v, w / 2)
  }

  /** A node of the subtree at `v` has an index at least `v`. */
  lemma {:induction false} BelowBound(v: int, w: int)
    requires v >= 1 && Below(v, w)
    ensures w >= v
    decreases w
  {
    if w > v {
      BelowBound(v, w / 2);
    }
  }

  /** Every index from 1 on lies below the root index 1. */
  lemma {:induction false} BelowRoot(w: int)
    requires w >= 1
    ensures Below(1, w)
    decreases w
  {
    if w > 1 {
      BelowRoot(w / 2);
    }
  }

  /** A node of a child's subtree lies in the parent's subtree. */
  lemma {:induction false} BelowChild(v: int, c: int, w: int)
    requires v >= 1 && (c == 2 * v || c == 2 * v + 1) && Below(c, w)
    ensures Below(v, w)
    decreases w
  {
    if w > c {
      BelowChild(v, c, w / 2);
    }
  }

  /** A proper descendant of `v` lies below one of its two children. */
  lemma {:induction false} BelowSplit(v: int, w: int)
    requires v >= 1 && w > v && Below(v, w)
    ensures Below(2 * v, w) || Below(2 * v + 1, w)
    decreases w
  {
    if w / 2 > v {
      BelowSplit(v, w / 2);
      if Below(2 * v, w / 2) {
        BelowBound(2 * v, w / 2);
      } else {
        BelowBound(2 * v + 1, w / 2);
      }
    }
  }

  /** Two subtrees containing the same index are nested. */
  lemma {:induction false} BelowNested(a: int, b: int, w: int)
    requires a >= 1 && b >= 1 && Below(a, w) && Below(b, w)
    ensures Below(a, b) || Below(b, a)
    decreases w
  {
    if w > a && w > b {
      BelowNested(a, b, w / 2);
    }
  }

  /** The subtrees of the two children of `v` share no index. */
  lemma SiblingsDisjoint(v: int, w: int)
    requires v >= 1
    ensures !(Below(2 * v, w) && Below(2 * v + 1, w))
  {
    if Below(2 * v, w) && Below(2 * v + 1, w) {
      BelowNested(2 * v, 2 * v + 1, w);
      assert false;
    }
  }

  /** A sequence made of a head and two parts without duplicates, none
      sharing an item, has no duplicates. */
  lemma JoinDistinct<T>(v: T, l: seq<T>, r: seq<T>)
    requires NoDuplicates(l) && NoDuplicates(r)
    requires v !in l && v !in r && forall w :: w in l ==> w !in r
    ensures NoDuplicates([v] + l + r)
  {
    var s := [v] + l + r;
    forall k, m | 0 <= k < m < |s|
      ensures s[k] != s[m]
    {
      if k == 0 {
        if m <= |l| {
          assert s[m] == l[m - 1];
        } else {
          assert s[m] == r[m - 1 - |l|];
        }
      } else if k <= |l| && |l| < m {
        assert s[k] == l[k - 1] && s[m] == r[m - 1 - |l|];
        assert s[k] in l && s[m] in r;
      } else if k <= |l| {
        assert s[k] == l[k - 1] && s[m] == l[m - 1];
      } else {
        assert s[k] == r[k - 1 - |l|] && s[m] == r[m - 1 - |l|];
      }
    }
  }

  lemma Regroup<T>(a: seq<T>, b: seq<T>, c: seq<T>, d: seq<T>)
    ensures a + b + c + d == a + (b + c + d)
  {
  }

  /** A sequence without repeated items. */
  ghost predicate NoDuplicates<T>(s: seq<T>) {
    forall k, m :: 0 <= k < m < |s| ==> s[k] != s[m]
  }

  class ArrayBinaryTree<E> {
    var T: array<Option<BTPos<E>>>
    var capacity: int
    var size: int
    var maxIndex: int

    /** Slot `i` holds a node. */
    ghost predicate Occupied(i: int)
      reads this, T
    {
      1 <= i < T.Length && T[i].Some?
    }

    /** The content of slot `i`, with the slots past the array read as empty. */
    ghost function Slot(i: int): Option<BTPos<E>>
      reads this, T
    {
      if 0 <= i < T.Length then T[i] else None
    }

    /** A node at index `i >= 2` has a node at its parent index `i / 2`. */
    ghost predicate ParentPresent(i: int)
      reads this, T
    {
      2 <= i < T.Length && T[i].Some? ==> T[i / 2].Some?
    }

    /** The class invariant: slot 0 empty, `maxIndex < capacity`, every node
        carries its own index, nothing past `maxIndex`, every non-root node
        has a parent, and the size counter is zero exactly when there is no root. */
    ghost predicate Valid()
      reads this, T
    {
      T.Length == capacity && capacity >= 1 &&
      0 <= maxIndex < capacity &&
      T[0] == None &&
      (forall i :: 0 <= i < T.Length && T[i].Some? ==> T[i].value.index == i) &&
      (forall i :: maxIndex < i < T.Length ==> T[i] == None) &&
      (forall i :: ParentPresent(i)) &&
      size >= 0 && (size == 0 <==> !Occupied(1))
    }

    /** An empty tree with room for `cap` slots. */
    constructor (cap: int)
      requires cap >= 1
      ensures Valid() && fresh(T)
      ensures capacity == cap && size == 0 && maxIndex == 0
      ensures forall i :: Slot(i) == None
    {
      capacity := cap;
      T := new Option<BTPos<E>>[cap](_ => None);
      size := 0;
      maxIndex := 0;
    }

    /** An empty tree with the default capacity. */
    constructor Default()
      ensures Valid() && fresh(T)
      ensures capacity == CAPACITY && size == 0 && maxIndex == 0
      ensures forall i :: Slot(i) == None
    {
      capacity := CAPACITY;
      T := new Option<BTPos<E>>[CAPACITY](_ => None);
      size := 0;
      maxIndex := 0;
    }

    function Size(): int
      reads this
    {
      size
    }

    function IsEmpty(): (r: bool)
      reads this, T
      requires Valid()
      ensures r <==> !Occupied(1)
    {
      size == 0
    }

    /** Every node's ancestors are nodes, up to the root. */
    lemma {:induction false} AncestorOccupied(v: int, w: int)
      requires Valid() && v >= 1 && Occupied(w) && Below(v, w)
      ensures Occupied(v)
      decreases w
    {
      if w > v {
        assert ParentPresent(w);
        AncestorOccupied(v, w / 2);
      }
    }

    /** Raises `maxIndex` to `i` if `i` is larger. */
    method UpdateMaxIndex(i: int)
      modifies this`maxIndex
      ensures maxIndex >= old(maxIndex) && maxIndex >= i
      ensures maxIndex == old(maxIndex) || maxIndex == i
    {
      if i > maxIndex {
        maxIndex := i;
      }
    }

    /** Whether position `v` has a left child. */
    function HasLeft(v: int): (r: bool)
      reads this, T
      requires Valid() && Occupied(v)
      ensures r <==> Occupied(2 * v)
    {
      if 2 * v > maxIndex then false else T[2 * v].Some?
    }

    /** Whether position `v` has a right child. */
    function HasRight(v: int): (r: bool)
      reads this, T
      requires Valid() && Occupied(v)
      ensures r <==> Occupied(2 * v + 1)
    {
      if 2 * v + 1 > maxIndex then false else T[2 * v + 1].Some?
    }

    /** Whether `v` has a child. */
    function IsInternal(v: int): (r: bool)
      reads this, T
      requires Valid() && Occupied(v)
      ensures r <==> exists w :: Occupied(w) && w / 2 == v && w >= 2
    {
      assert HasLeft(v) ==> Occupied(2 * v) && (2 * v) / 2 == v;
      assert HasRight(v) ==> Occupied(2 * v + 1) && (2 * v + 1) / 2 == v;
      HasLeft(v) || HasRight(v)
    }

    /** Whether `v` is a leaf. */
    function IsExternal(v: int): (r: bool)
      reads this, T
      requires Valid() && Occupied(v)
      ensures r <==> forall w :: Occupied(w) && w >= 2 ==> w / 2 != v
    {
      !IsInternal(v)
    }

    /** Whether `v` is the root. */
    function IsRoot(v: int): (r: bool)
      reads this, T
      requires Valid() && Occupied(v)
    {
      v == 1
    }

    /** The root position, or `EmptyTree`. */
    function Root(): (r: Result<int>)
      reads this, T
      requires Valid()
      ensures r.Ok? <==> Occupied(1)
      ensures r.Ok? ==> r.value == 1
      ensures r.Err? ==> r.error == EmptyTree
    {
      if IsEmpty() then Err(EmptyTree) else Ok(1)
    }

    /** The left child of `v`, or `BoundaryViolation` when there is none. */
    function Left(v: int): (r: Result<int>)
      reads this, T
      requires Valid() && Occupied(v)
      ensures r.Ok? <==> Occupied(2 * v)
      ensures r.Ok? ==> r.value == 2 * v
      ensures r.Err? ==> r.error == BoundaryViolation
    {
      if !HasLeft(v) then Err(BoundaryViolation) else Ok(2 * v)
    }

    /** The right child of `v`, or `BoundaryViolation` when there is none. */
    function Right(v: int): (r: Result<int>)
      reads this, T
      requires Valid() && Occupied(v)
      ensures r.Ok? <==> Occupied(2 * v + 1)
      ensures r.Ok? ==> r.value == 2 * v + 1
      ensures r.Err? ==> r.error == BoundaryViolation
    {
      if !HasRight(v) then Err(BoundaryViolation) else Ok(2 * v + 1)
    }

    /** The parent of `v`, or `BoundaryViolation` at the root; the parent
        of a node is always a node. */
    function Parent(v: int): (r: Result<int>)
      reads this, T
      requires Valid() && Occupied(v)
      ensures r.Err? <==> v == 1
      ensures r.Err? ==> r.error == BoundaryViolation
      ensures r.Ok? ==> Occupied(r.value) && (v == 2 * r.value || v == 2 * r.value + 1)
    {
      assert ParentPresent(v);
      if IsRoot(v) then Err(BoundaryViolation) else Ok(v / 2)
    }

    /** Index navigation round trip: a child's parent is the node itself,
        and every non-root node is the left or right child of its parent. */
    lemma ParentChildRoundTrip(v: int)
      requires Valid() && Occupied(v)
      ensures Left(v).Ok? ==> Parent(Left(v).value) == Ok(v)
      ensures Right(v).Ok? ==> Parent(Right(v).value) == Ok(v)
      ensures v != 1 ==> Parent(v).Ok? && (Left(Parent(v).value) == Ok(v) || Right(Parent(v).value) == Ok(v))
    {
    }

    /** The children of `v`, left before right. */
    function Children(v: int): (r: seq<int>)
      reads this, T
      requires Valid() && Occupied(v)
      ensures forall w :: w in r <==> Occupied(w) && w >= 2 && w / 2 == v
      ensures forall k, m :: 0 <= k < m < |r| ==> r[k] < r[m]
    {
      (if HasLeft(v) then [2 * v] else []) + (if HasRight(v) then [2 * v + 1] else [])
    }

    /** All positions, in ascending index order. */
    method Positions() returns (P: seq<int>)
      requires Valid()
      ensures forall k, m :: 0 <= k < m < |P| ==> P[k] < P[m]
      ensures forall w :: w in P <==> Occupied(w)
    {
      P := [];
      for i := 1 to maxIndex + 1
        invariant forall k, m :: 0 <= k < m < |P| ==> P[k] < P[m]
        invariant forall k :: 0 <= k < |P| ==> P[k] < i
        invariant forall w :: w in P <==> 1 <= w < i && Occupied(w)
      {
        if T[i].Some? {
          P := P + [i];
        }
      }
    }

    /** The elements at the given positions, in the same order. */
    ghost function ElementsOf(ps: seq<int>): (r: seq<E>)
      reads this, T
      requires forall k :: 0 <= k < |ps| ==> Occupied(ps[k])
      ensures |r| == |ps|
    {
      seq(|ps|, k requires 0 <= k < |ps| && Occupied(ps[k]) reads this, T => T[ps[k]].value.element)
    }

    lemma ElementsOfConcat(a: seq<int>, b: seq<int>)
      requires forall k :: 0 <= k < |a| ==> Occupied(a[k])
      requires forall k :: 0 <= k < |b| ==> Occupied(b[k])
      ensures ElementsOf(a + b) == ElementsOf(a) + ElementsOf(b)
    {
      var ab := a + b;
      assert forall k :: 0 <= k < |ab| ==> Occupied(ab[k]);
      assert forall k :: 0 <= k < |ab| ==> ElementsOf(ab)[k] == T[ab[k]].value.element;
    }

    /** The elements of a node followed by two runs of positions. */
    lemma ElementsOfJoin(v: int, l: seq<int>, r: seq<int>)
      requires Occupied(v)
      requires forall k :: 0 <= k < |l| ==> Occupied(l[k])
      requires forall k :: 0 <= k < |r| ==> Occupied(r[k])
      ensures ElementsOf([v] + l + r) == [T[v].value.element] + ElementsOf(l) + ElementsOf(r)
    {
      ElementsOfConcat([v], l);
      ElementsOfConcat([v] + l, r);
    }

    /** The elements of all nodes, in ascending index order; `order` names
        the positions they come from. */
    method Iterator() returns (list: seq<E>, ghost order: seq<int>)
      requires Valid()
      ensures forall k, m :: 0 <= k < m < |order| ==> order[k] < order[m]
      ensures forall w :: w in order <==> Occupied(w)
      ensures |list| == |order|
      ensures forall k :: 0 <= k < |order| ==> Occupied(order[k]) && list[k] == T[order[k]].value.element
    {
      list := [];
      order := [];
      for i := 1 to maxIndex + 1
        invariant |list| == |order|
        invariant forall k, m :: 0 <= k < m < |order| ==> order[k] < order[m]
        invariant forall k :: 0 <= k < |order| ==> order[k] < i
        invariant forall w :: w in order <==> 1 <= w < i && Occupied(w)
        invariant forall k :: 0 <= k < |order| ==> Occupied(order[k]) && list[k] == T[order[k]].value.element
      {
        if T[i].Some? {
          list := list + [T[i].value.element];
          order := order + [i];
        }
      }
    }

    /** The positions of the subtree at `v` in preorder: the node, then its
        left subtree, then its right subtree. */
    ghost function Preorder(v: int): (r: seq<int>)
      reads this, T
      requires Valid() && Occupied(v)
      ensures forall k :: 0 <= k < |r| ==> Occupied(r[k])
      decreases T.Length - v
    {
      [v] + (if HasLeft(v) then Preorder(2 * v) else []) + (if HasRight(v) then Preorder(2 * v + 1) else [])
    }

    /** Every position in the preorder of `v` lies in the subtree at `v`. */
    lemma {:induction false} PreorderSound(v: int)
      requires Valid() && Occupied(v)
      ensures forall w :: w in Preorder(v) ==> Below(v, w) && w >= v
      decreases T.Length - v
    {
      var l := if HasLeft(v) then Preorder(2 * v) else [];
      var r := if HasRight(v) then Preorder(2 * v + 1) else [];
      assert Preorder(v) == [v] + l + r;
      if HasLeft(v) {
        PreorderSound(2 * v);
        forall w | w in l
          ensures Below(v, w)
        {
          BelowChild(v, 2 * v, w);
        }
      }
      if HasRight(v) {
        PreorderSound(2 * v + 1);
        forall w | w in r
          ensures Below(v, w)
        {
          BelowChild(v, 2 * v + 1, w);
        }
      }
    }

    /** Every node in the subtree at `v` appears in the preorder of `v`. */
    lemma {:induction false} PreorderComplete(v: int)
      requires Valid() && Occupied(v)
      ensures forall w :: Occupied(w) && Below(v, w) ==> w in Preorder(v)
      decreases T.Length - v
    {
      var l := if HasLeft(v) then Preorder(2 * v) else [];
      var r := if HasRight(v) then Preorder(2 * v + 1) else [];
      assert Preorder(v) == [v] + l + r;
      if HasLeft(v) {
        PreorderComplete(2 * v);
      }
      if HasRight(v) {
        PreorderComplete(2 * v + 1);
      }
      forall w | Occupied(w) && Below(v, w) && w != v
        ensures w in l || w in r
      {
        BelowBound(v, w);
        BelowSplit(v, w);
        if Below(2 * v, w) {
          AncestorOccupied(2 * v, w);
        } else {
          AncestorOccupied(2 * v + 1, w);
        }
      }
    }

    /** The preorder of `v` lists no position twice. */
    lemma {:induction false} PreorderDistinct(v: int)
      requires Valid() && Occupied(v)
      ensures NoDuplicates(Preorder(v))
      decreases T.Length - v
    {
      var l := if HasLeft(v) then Preorder(2 * v) else [];
      var r := if HasRight(v) then Preorder(2 * v + 1) else [];
      var s := Preorder(v);
      assert s == [v] + l + r;
      if HasLeft(v) {
        PreorderDistinct(2 * v);
        PreorderSound(2 * v);
      }
      if HasRight(v) {
        PreorderDistinct(2 * v + 1);
        PreorderSound(2 * v + 1);
      }
      forall w | w in l
        ensures w != v && w !in r
      {
        SiblingsDisjoint(v, w);
      }
      forall w | w in r
        ensures w != v
      {
      }
      JoinDistinct(v, l, r);
    }

    /** Preorder from the root lists every node of the tree exactly once. */
    lemma PreorderVisitsAll()
      requires Valid() && Occupied(1)
      ensures Preorder(1)[0] == 1
      ensures NoDuplicates(Preorder(1))
      ensures forall w :: w in Preorder(1) <==> Occupied(w)
    {
      PreorderSound(1);
      PreorderComplete(1);
      PreorderDistinct(1);
      forall w | Occupied(w)
        ensures Below(1, w)
      {
        BelowRoot(w);
      }
    }

    /** The elements of a subtree in preorder: the node's element, then the
        left subtree's, then the right subtree's. */
    lemma PreorderSplit(v: int)
      requires Valid() && Occupied(v)
      ensures ElementsOf(Preorder(v)) ==
        [T[v].value.element]
        + ElementsOf(if HasLeft(v) then Preorder(2 * v) else [])
        + ElementsOf(if HasRight(v) then Preorder(2 * v + 1) else [])
    {
      var l := if HasLeft(v) then Preorder(2 * v) else [];
      var r := if HasRight(v) then Preorder(2 * v + 1) else [];
      assert Preorder(v) == [v] + l + r;
      ElementsOfJoin(v, l, r);
    }

    /** The elements of the subtree at `v`, read off the array directly:
        the node's own, then its left subtree's, then its right subtree's. */
    ghost function SubtreeElements(v: int): seq<E>
      reads this, T
      requires Valid() && Occupied(v)
      decreases T.Length - v
    {
      [T[v].value.element]
      + (if HasLeft(v) then SubtreeElements(2 * v) else [])
      + (if HasRight(v) then SubtreeElements(2 * v + 1) else [])
    }

    /** Reading a subtree's elements directly gives the elements at its
        preorder positions. */
    lemma {:induction false} PreorderElements(v: int)
      requires Valid() && Occupied(v)
      ensures SubtreeElements(v) == ElementsOf(Preorder(v))
      decreases T.Length - v
    {
      PreorderSplit(v);
      if HasLeft(v) {
        PreorderElements(2 * v);
      }
      if HasRight(v) {
        PreorderElements(2 * v + 1);
      }
    }

    /** Appends the elements of the subtree at `v`, in preorder, to `list`. */
    method ElementsFrom(v: int, list: seq<E>) returns (out: seq<E>)
      requires Valid() && Occupied(v)
      ensures out == list + SubtreeElements(v)
      decreases T.Length - v
    {
      var e := T[v].value.element;
      ghost var l := if HasLeft(v) then SubtreeElements(2 * v) else [];
      ghost var r := if HasRight(v) then SubtreeElements(2 * v + 1) else [];
      out := list + [e];
      if HasLeft(v) {
        out := ElementsFrom(2 * v, out);
      }
      assert out == list + [e] + l;
      if HasRight(v) {
        out := ElementsFrom(2 * v + 1, out);
      }
      Regroup(list, [e], l, r);
    }

    /** The elements in preorder from the root. With no root the source
        dereferences `null` (or reads past a one-slot array). */
    method Elements() returns (r: Result<seq<E>>)
      requires Valid()
      ensures T.Length < 2 ==> r == Err(IndexOutOfBounds)
      ensures T.Length >= 2 && !Occupied(1) ==> r == Err(NullPointer)
      ensures Occupied(1) ==> r == Ok(ElementsOf(Preorder(1)))
    {
      if T.Length < 2 {
        return Err(IndexOutOfBounds);
      }
      if T[1].None? {
        return Err(NullPointer);
      }
      var list := ElementsFrom(1, []);
      PreorderElements(1);
      assert list == ElementsOf(Preorder(1));
      r := Ok(list);
    }

    /** Stores `o` at `v` and returns the element it replaces; the
        structure does not change. */
    method Replace(v: int, o: E) returns (r: E)
      requires Valid() && Occupied(v)
      modifies T
      ensures Valid()
      ensures r == old(T[v].value.element)
      ensures T[v] == Some(BTPos(o, v))
      ensures forall i :: i != v ==> Slot(i) == old(Slot(i))
    {
      r := T[v].value.element;
      T[v] := Some(BTPos(o, v));
      forall i
        ensures ParentPresent(i)
      {
        assert old(ParentPresent(i));
      }
    }

    /** Stores a new node with `e` at index `i`, counts it and raises
        `maxIndex`: the common tail of adding a root or a child. */
    method Place(i: int, e: E)
      requires Valid() && 1 <= i < T.Length
      requires i == 1 ==> size == 0
      requires i != 1 ==> Occupied(i / 2)
      modifies this, T
      ensures Valid() && T == old(T) && capacity == old(capacity)
      ensures Slot(i) == Some(BTPos(e, i)) && size == old(size) + 1
      ensures maxIndex == if i > old(maxIndex) then i else old(maxIndex)
      ensures forall j :: j != i ==> Slot(j) == old(Slot(j))
    {
      if i != 1 {
        BelowRoot(i / 2);
        AncestorOccupied(1, i / 2);
      }
      T[i] := Some(BTPos(e, i));
      size := size + 1;
      UpdateMaxIndex(i);
      forall j
        ensures ParentPresent(j)
      {
        assert old(ParentPresent(j));
      }
    }

    /** Places `e` at index 1 of an empty tree. */
    method AddRoot(e: E) returns (r: Result<int>)
      requires Valid()
      modifies this, T
      ensures Valid() && T == old(T) && capacity == old(capacity)
      ensures old(size) != 0 ==> r == Err(NonEmptyTree)
      ensures old(size) == 0 && old(T.Length) < 2 ==> r == Err(IndexOutOfBounds)
      ensures r.Err? ==> size == old(size) && maxIndex == old(maxIndex) && forall i :: Slot(i) == old(Slot(i))
      ensures old(size) == 0 && old(T.Length) >= 2 ==> r == Ok(1)
      ensures r.Ok? ==> Slot(1) == Some(BTPos(e, 1)) && size == old(size) + 1
      ensures r.Ok? ==> maxIndex >= 1 && (maxIndex == old(maxIndex) || maxIndex == 1)
      ensures r.Ok? ==> forall i :: i != 1 ==> Slot(i) == old(Slot(i))
    {
      if !IsEmpty() {
        return Err(NonEmptyTree);
      }
      if T.Length < 2 {
        return Err(IndexOutOfBounds);
      }
      Place(1, e);
      r := Ok(1);
    }

    /** Grows the array, doubling the capacity until index `i` fits. */
    method ExpandArray(i: int)
      requires Valid()
      modifies this
      ensures Valid()
      ensures i < capacity
      ensures exists k: nat :: capacity == old(capacity) * Pow2(k)
      ensures old(capacity) > i ==> capacity == old(capacity) && T == old(T)
      ensures old(capacity) <= i ==> capacity <= 2 * i && fresh(T)
      ensures size == old(size) && maxIndex == old(maxIndex)
      ensures forall j :: Slot(j) == old(Slot(j))
    {
      if i >= capacity {
        var cap := capacity;
        ghost var k: nat := 0;
        while i >= cap
          invariant cap >= capacity && cap == capacity * Pow2(k)
          invariant k > 0 ==> cap <= 2 * i
          decreases i - cap
        {
          cap := cap * 2;
          k := k + 1;
        }
        capacity := cap;
        var U := new Option<BTPos<E>>[cap](_ => None);
        assert maxIndex < T.Length;
        for j := 0 to maxIndex + 1
          modifies U
          invariant forall m :: 0 <= m < j ==> U[m] == T[m]
          invariant forall m :: j <= m < U.Length ==> U[m] == None
        {
          U[j] := T[j];
        }
        T := U;
        forall j
          ensures ParentPresent(j)
        {
          assert old(ParentPresent(j));
        }
      } else {
        assert capacity == old(capacity) * Pow2(0);
      }
    }

    /** Adds `e` as the left child of `v`; fails when `v` already has one. */
    method InsertLeft(v: int, e: E) returns (r: Result<int>)
      requires Valid() && Occupied(v)
      modifies this, T
      ensures Valid() && (T == old(T) || fresh(T))
      ensures old(Occupied(2 * v)) ==> r == Err(InvalidPosition)
      ensures r.Err? ==> T == old(T) && size == old(size) && maxIndex == old(maxIndex) && forall i :: Slot(i) == old(Slot(i))
      ensures !old(Occupied(2 * v)) ==> r == Ok(2 * v)
      ensures r.Ok? ==> Slot(2 * v) == Some(BTPos(e, 2 * v)) && size == old(size) + 1
      ensures r.Ok? ==> maxIndex == if 2 * v > old(maxIndex) then 2 * v else old(maxIndex)
      ensures r.Ok? ==> forall i :: i != 2 * v ==> Slot(i) == old(Slot(i))
    {
      if HasLeft(v) {
        return Err(InvalidPosition);
      }
      var i := 2 * v;
      ExpandArray(i);
      assert Slot(v) == old(Slot(v)) && i / 2 == v;
      Place(i, e);
      r := Ok(i);
    }

    /** Adds `e` as the right child of `v`, without checking for an existing
        right child: an existing one is overwritten and still counted. */
    method InsertRight(v: int, e: E) returns (p: int)
      requires Valid() && Occupied(v)
      modifies this, T
      ensures Valid() && (T == old(T) || fresh(T))
      ensures p == 2 * v + 1
      ensures Slot(p) == Some(BTPos(e, p)) && size == old(size) + 1
      ensures maxIndex == if p > old(maxIndex) then p else old(maxIndex)
      ensures forall i :: i != p ==> Slot(i) == old(Slot(i))
    {
      var i := 2 * v + 1;
      ExpandArray(i);
      assert Slot(v) == old(Slot(v)) && i / 2 == v;
      Place(i, e);
      p := i;
    }
  }

  /** The first tree of the lab's tester: `*` at the root, `2` and `+`
      as its children, `6` and `5` as the children of `+`. */
  method BuildExpression() returns (bt: ArrayBinaryTree<string>)
    ensures fresh(bt) && fresh(bt.T) && bt.Valid()
    ensures bt.Slot(1) == Some(BTPos("*", 1)) && bt.Slot(2) == Some(BTPos("2", 2))
    ensures bt.Slot(3) == Some(BTPos("+", 3)) && bt.Slot(6) == Some(BTPos("6", 6))
    ensures bt.Slot(7) == Some(BTPos("5", 7))
    ensures bt.Slot(4) == None && bt.Slot(5) == None
    ensures bt.Slot(12) == None && bt.Slot(13) == None
    ensures bt.Slot(14) == None && bt.Slot(15) == None
  {
    bt := new ArrayBinaryTree<string>.Default();
    var root := bt.AddRoot("*");
    var l := bt.InsertLeft(1, "2");
    var plus := bt.InsertRight(1, "+");
    var six := bt.InsertLeft(plus, "6");
    var five := bt.InsertRight(plus, "5");
  }

  /** The tester's first scenario: preorder yields `* 2 + 6 5`, and a
      second left child of the root is refused. */
  method ExpressionScenario() returns (elements: Result<seq<string>>, again: Result<int>)
    ensures elements == Ok(["*", "2", "+", "6", "5"])
    ensures again == Err(InvalidPosition)
  {
    var bt := BuildExpression();
    assert bt.SubtreeElements(2) == ["2"];
    assert bt.SubtreeElements(6) == ["6"];
    assert bt.SubtreeElements(7) == ["5"];
    assert bt.SubtreeElements(3) == ["+", "6", "5"];
    assert bt.SubtreeElements(1) == ["*", "2", "+", "6", "5"];
    bt.PreorderElements(1);
    elements := bt.Elements();
    again := bt.InsertLeft(1, "9");
  }
}
