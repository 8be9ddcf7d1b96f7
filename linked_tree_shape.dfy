/** The node arena behind the linked binary tree of lab9, and the abstract
    shape it encodes. A node is a record of its element and its parent,
    left and right links, stored under an integer id; `None` is a `null`
    link. The ghost `Tree` is the shape the links describe, so preorder
    and the effect of each update can be stated by recursion on it. */
module LinkedShape {
  import opened Outcomes

  /** A node record: element plus parent, left and right links. */
  datatype BTNode<E> = BTNode(element: E, parent: Option<int>, left: Option<int>, right: Option<int>)

  /** The shape of a tree, with the id of the node at each place. */
  datatype Tree = Nil | Node(left: Tree, id: int, right: Tree)

  /** Which child link of a node an update concerns. */
  datatype Side = LeftSide | RightSide

  function RootId(t: Tree): Option<int> {
    if t.Nil? then None else Some(t.id)
  }

  function Ids(t: Tree): set<int> {
    match t
    case Nil => {}
    case Node(l, id, r) => Ids(l) + {id} + Ids(r)
  }

  /** No id occurs twice in the shape. */
  ghost predicate Distinct(t: Tree) {
    match t
    case Nil => true
    case Node(l, id, r) =>
      Distinct(l) && Distinct(r) && id !in Ids(l) && id !in Ids(r) && Ids(l) !! Ids(r)
  }

  /** The arena `m` links the nodes of `t` exactly as `t` says: each node
      records `p` (or its parent in `t`) as parent, and the roots of its
      subtrees as children. */
  ghost predicate Linked<E>(m: map<int, BTNode<E>>, t: Tree, p: Option<int>) {
    match t
    case Nil => true
    case Node(l, id, r) =>
      id in m && m[id].parent == p && m[id].left == RootId(l) && m[id].right == RootId(r) &&
      Linked(m, l, Some(id)) && Linked(m, r, Some(id))
  }

  /** Two records carry the same links. */
  ghost predicate SameLinks<E>(a: BTNode<E>, b: BTNode<E>) {
    a.parent == b.parent && a.left == b.left && a.right == b.right
  }

  /** The ids of `t` in preorder: node, left subtree, right subtree. */
  function Preorder(t: Tree): seq<int> {
    match t
    case Nil => []
    case Node(l, id, r) => [id] + Preorder(l) + Preorder(r)
  }

  ghost predicate NoDuplicates(s: seq<int>) {
    forall k, j :: 0 <= k < j < |s| ==> s[k] != s[j]
  }

  /** `s` with every occurrence of `v` dropped. */
  function Without(s: seq<int>, v: int): seq<int> {
    if s == [] then [] else (if s[0] == v then [] else [s[0]]) + Without(s[1..], v)
  }

  /** `t` with the subtree at `sub` hung below node `v` on `side`. */
  function Graft(t: Tree, v: int, side: Side, sub: Tree): Tree {
    match t
    case Nil => Nil
    case Node(l, id, r) =>
      if id == v then (if side == LeftSide then Node(sub, id, r) else Node(l, id, sub))
      else Node(Graft(l, v, side, sub), id, Graft(r, v, side, sub))
  }

  /** `t` with node `v` cut out and its only child (if any) moved up. */
  function Splice(t: Tree, v: int): Tree {
    match t
    case Nil => Nil
    case Node(l, id, r) =>
      if id == v then (if l != Nil then l else r)
      else Node(Splice(l, v), id, Splice(r, v))
  }

  /** The only child link of a record, `None` for a leaf. */
  function OnlyChild<E>(n: BTNode<E>): Option<int> {
    if n.left.Some? then n.left else n.right
  }

  /** The arena after node `v` is removed: its parent's link to it now
      points to its only child, and that child's parent link to `v`'s parent. */
  ghost function Unlink<E>(m: map<int, BTNode<E>>, v: int): map<int, BTNode<E>>
    requires v in m
  {
    var n := m[v];
    var ww := OnlyChild(n);
    var m1 :=
      if n.parent.Some? && n.parent.value in m then
        var u := m[n.parent.value];
        m[n.parent.value := if u.left == Some(v) then u.(left := ww) else u.(right := ww)]
      else m;
    var m2 := if ww.Some? && ww.value in m1 then m1[ww.value := m1[ww.value].(parent := n.parent)] else m1;
    m2 - {v}
  }

  /** Id `k` renumbered by `off`. */
  function Up(k: int, off: int): int {
    k + off
  }

  function ShiftId(o: Option<int>, off: int): Option<int> {
    if o.Some? then Some(Up(o.value, off)) else None
  }

  function ShiftNode<E>(n: BTNode<E>, off: int): BTNode<E> {
    BTNode(n.element, ShiftId(n.parent, off), ShiftId(n.left, off), ShiftId(n.right, off))
  }

  /** The arena `m` with every id moved up by `off`. */
  function ShiftNodes<E>(m: map<int, BTNode<E>>, off: int): map<int, BTNode<E>> {
    map k | k in m :: Up(k, off) := ShiftNode(m[k], off)
  }

  /** The shape `t` with every id moved up by `off`. */
  function Shift(t: Tree, off: int): Tree {
    match t
    case Nil => Nil
    case Node(l, id, r) => Node(Shift(l, off), Up(id, off), Shift(r, off))
  }

  // ---------------------------------------------------------------------
  // Linkage

  /** Every node of a linked shape has a record. */
  lemma {:induction false} LinkedKeys<E>(m: map<int, BTNode<E>>, t: Tree, p: Option<int>)
    requires Linked(m, t, p)
    ensures Ids(t) <= m.Keys
  {
    match t
    case Nil =>
    case Node(l, id, r) =>
      LinkedKeys(m, l, Some(id));
      LinkedKeys(m, r, Some(id));
  }

  /** Linkage depends only on the links of the shape's own nodes. */
  lemma {:induction false} LinkedFrame<E>(m: map<int, BTNode<E>>, m': map<int, BTNode<E>>, t: Tree, p: Option<int>)
    requires Linked(m, t, p)
    requires forall k :: k in Ids(t) ==> k in m && k in m' && SameLinks(m[k], m'[k])
    ensures Linked(m', t, p)
  {
    match t
    case Nil =>
    case Node(l, id, r) =>
      LinkedFrame(m, m', l, Some(id));
      LinkedFrame(m, m', r, Some(id));
  }

  /** Changing only the root's parent link hangs the same shape below `q`. */
  lemma LinkedReparent<E>(m: map<int, BTNode<E>>, m': map<int, BTNode<E>>, t: Tree, p: Option<int>, q: Option<int>)
    requires Linked(m, t, p) && Distinct(t) && t.Node?
    requires t.id in m' && m'[t.id].parent == q
    requires m'[t.id].left == m[t.id].left && m'[t.id].right == m[t.id].right
    requires forall k :: k in Ids(t) && k != t.id ==> k in m && k in m' && SameLinks(m[k], m'[k])
    ensures Linked(m', t, q)
  {
    LinkedFrame(m, m', t.left, Some(t.id));
    LinkedFrame(m, m', t.right, Some(t.id));
  }

  /** Link consistency inside a linked shape hung below `p`: a node's parent
      link is `p` exactly at the shape's root, any other parent has the node
      as its left or right child, and each child links back to its parent. */
  lemma {:induction false} LinkedLocal<E>(m: map<int, BTNode<E>>, t: Tree, p: Option<int>, w: int)
    requires Linked(m, t, p) && Distinct(t) && w in Ids(t)
    requires p.Some? ==> p.value !in Ids(t)
    ensures Ids(t) <= m.Keys
    ensures m[w].parent == p <==> RootId(t) == Some(w)
    ensures m[w].parent != p ==>
      m[w].parent.Some? && m[w].parent.value in Ids(t) &&
      (m[m[w].parent.value].left == Some(w) || m[m[w].parent.value].right == Some(w))
    ensures m[w].left.Some? ==> m[w].left.value in Ids(t) && m[m[w].left.value].parent == Some(w)
    ensures m[w].right.Some? ==> m[w].right.value in Ids(t) && m[m[w].right.value].parent == Some(w)
    ensures m[w].left.Some? && m[w].right.Some? ==> m[w].left != m[w].right
    decreases t
  {
    LinkedKeys(m, t, p);
    match t
    case Node(l, id, r) =>
      if w == id {
      } else if w in Ids(l) {
        LinkedLocal(m, l, Some(id), w);
      } else {
        LinkedLocal(m, r, Some(id), w);
      }
  }

  // ---------------------------------------------------------------------
  // Preorder

  /** Preorder lists exactly the ids of the shape. */
  lemma {:induction false} PreorderIds(t: Tree)
    ensures forall w :: w in Preorder(t) <==> w in Ids(t)
  {
    match t
    case Nil =>
    case Node(l, id, r) =>
      PreorderIds(l);
      PreorderIds(r);
      assert Preorder(t) == [id] + Preorder(l) + Preorder(r);
  }

  /** Preorder of a shape without repeated ids lists each id once. */
  lemma {:induction false} PreorderDistinct(t: Tree)
    requires Distinct(t)
    ensures NoDuplicates(Preorder(t))
  {
    match t
    case Nil =>
    case Node(l, id, r) =>
      PreorderDistinct(l);
      PreorderDistinct(r);
      PreorderIds(l);
      PreorderIds(r);
      var s := Preorder(t);
      var pl := Preorder(l);
      var pr := Preorder(r);
      assert s == [id] + pl + pr;
      forall k, j | 0 <= k < j < |s|
        ensures s[k] != s[j]
      {
        if k == 0 {
          assert s[j] in pl || s[j] in pr;
          assert s[j] in Ids(l) || s[j] in Ids(r);
        } else if k <= |pl| && |pl| < j {
          assert s[k] == pl[k - 1] && s[j] == pr[j - 1 - |pl|];
          assert s[k] in Ids(l) && s[j] in Ids(r);
        } else if k <= |pl| {
          assert s[k] == pl[k - 1] && s[j] == pl[j - 1];
        } else {
          assert s[k] == pr[k - 1 - |pl|] && s[j] == pr[j - 1 - |pl|];
        }
      }
  }

  lemma {:induction false} WithoutConcat(a: seq<int>, b: seq<int>, v: int)
    ensures Without(a + b, v) == Without(a, v) + Without(b, v)
  {
    if a == [] {
      assert a + b == b;
    } else {
      var ab := a + b;
      var h := if a[0] == v then [] else [a[0]];
      assert ab[0] == a[0] && ab[1..] == a[1..] + b;
      calc {
        Without(ab, v);
        h + Without(a[1..] + b, v);
        { WithoutConcat(a[1..], b, v); }
        h + (Without(a[1..], v) + Without(b, v));
        (h + Without(a[1..], v)) + Without(b, v);
        Without(a, v) + Without(b, v);
      }
    }
  }

  lemma {:induction false} WithoutAbsent(s: seq<int>, v: int)
    requires v !in s
    ensures Without(s, v) == s
  {
    if s != [] {
      WithoutAbsent(s[1..], v);
    }
  }

  lemma {:induction false} SpliceAbsent(t: Tree, v: int)
    requires v !in Ids(t)
    ensures Splice(t, v) == t
  {
    match t
    case Nil =>
    case Node(l, id, r) =>
      SpliceAbsent(l, v);
      SpliceAbsent(r, v);
  }

  // ---------------------------------------------------------------------
  // Removal

  /** What removing `v` does to one other record of the arena. */
  lemma UnlinkAt<E>(m: map<int, BTNode<E>>, v: int, k: int)
    requires v in m && k in m && k != v
    ensures k in Unlink(m, v)
    ensures OnlyChild(m[v]) != Some(k) && m[v].parent != Some(k) ==> Unlink(m, v)[k] == m[k]
    ensures OnlyChild(m[v]) != Some(k) && m[v].parent == Some(k) ==>
      Unlink(m, v)[k] == (if m[k].left == Some(v) then m[k].(left := OnlyChild(m[v])) else m[k].(right := OnlyChild(m[v])))
    ensures OnlyChild(m[v]) == Some(k) && m[v].parent != Some(k) ==>
      Unlink(m, v)[k] == m[k].(parent := m[v].parent)
  {
  }

  /** Removing a node with at most one child from a linked shape leaves the
      spliced shape linked, with that node's id and nothing else gone. */
  lemma {:induction false} SpliceLinked<E>(m: map<int, BTNode<E>>, t: Tree, p: Option<int>, v: int)
    requires Linked(m, t, p) && Distinct(t) && v in Ids(t)
    requires p.Some? ==> p.value !in Ids(t)
    requires v in m && (m[v].left.None? || m[v].right.None?)
    ensures Linked(Unlink(m, v), Splice(t, v), p)
    ensures Ids(Splice(t, v)) == Ids(t) - {v}
    ensures Distinct(Splice(t, v))
    decreases t, 1
  {
    match t
    case Node(l, id, r) =>
      if id == v {
        SpliceRoot(m, t, p);
      } else if v in Ids(l) {
        SpliceLeft(m, t, p, v);
      } else {
        SpliceRight(m, t, p, v);
      }
  }

  /** The case of `SpliceLinked` where the removed node is in the left
      subtree. */
  lemma {:induction false} SpliceLeft<E>(m: map<int, BTNode<E>>, t: Tree, p: Option<int>, v: int)
    requires t.Node? && Linked(m, t, p) && Distinct(t) && v in Ids(t.left)
    requires p.Some? ==> p.value !in Ids(t)
    requires v in m && (m[v].left.None? || m[v].right.None?)
    ensures Linked(Unlink(m, v), Splice(t, v), p)
    ensures Ids(Splice(t, v)) == Ids(t) - {v}
    ensures Distinct(Splice(t, v))
    decreases t, 0
  {
    LinkedKeys(m, t, p);
    LinkedLocal(m, t, p, v);
    var m' := Unlink(m, v);
    var n := m[v];
    var Node(l, id, r) := t;
    SpliceLinked(m, l, Some(id), v);
    SpliceAbsent(r, v);
    LinkedLocal(m, l, Some(id), v);
    forall k | k in Ids(r)
      ensures k in m && k in m' && SameLinks(m[k], m'[k])
    {
      UnlinkAt(m, v, k);
    }
    LinkedFrame(m, m', r, Some(id));
    UnlinkAt(m, v, id);
    if RootId(l) == Some(v) {
      assert RootId(Splice(l, v)) == OnlyChild(n);
    } else {
      assert RootId(Splice(l, v)) == RootId(l);
    }
  }

  /** The case of `SpliceLinked` where the removed node is in the right
      subtree. */
  lemma {:induction false} SpliceRight<E>(m: map<int, BTNode<E>>, t: Tree, p: Option<int>, v: int)
    requires t.Node? && Linked(m, t, p) && Distinct(t) && v in Ids(t.right)
    requires p.Some? ==> p.value !in Ids(t)
    requires v in m && (m[v].left.None? || m[v].right.None?)
    ensures Linked(Unlink(m, v), Splice(t, v), p)
    ensures Ids(Splice(t, v)) == Ids(t) - {v}
    ensures Distinct(Splice(t, v))
    decreases t, 0
  {
    LinkedKeys(m, t, p);
    LinkedLocal(m, t, p, v);
    var m' := Unlink(m, v);
    var n := m[v];
    var Node(l, id, r) := t;
    SpliceLinked(m, r, Some(id), v);
    SpliceAbsent(l, v);
    LinkedLocal(m, r, Some(id), v);
    forall k | k in Ids(l)
      ensures k in m && k in m' && SameLinks(m[k], m'[k])
    {
      UnlinkAt(m, v, k);
    }
    LinkedFrame(m, m', l, Some(id));
    UnlinkAt(m, v, id);
    if RootId(r) == Some(v) {
      assert RootId(Splice(r, v)) == OnlyChild(n);
    } else {
      assert RootId(Splice(r, v)) == RootId(r);
    }
  }

  /** The case of `SpliceLinked` where the removed node is the root of `t`:
      its only child, if any, takes its place under `p`. */
  lemma SpliceRoot<E>(m: map<int, BTNode<E>>, t: Tree, p: Option<int>)
    requires t.Node? && Linked(m, t, p) && Distinct(t)
    requires p.Some? ==> p.value !in Ids(t)
    requires t.id in m && (m[t.id].left.None? || m[t.id].right.None?)
    ensures Linked(Unlink(m, t.id), Splice(t, t.id), p)
    ensures Ids(Splice(t, t.id)) == Ids(t) - {t.id}
    ensures Distinct(Splice(t, t.id))
  {
    var v := t.id;
    LinkedKeys(m, t, p);
    var m' := Unlink(m, v);
    var n := m[v];
    var c := if t.left != Nil then t.left else t.right;
    assert Splice(t, v) == c;
    assert Linked(m, c, Some(v));
    if c.Node? {
      assert OnlyChild(n) == Some(c.id);
      forall k | k in Ids(c)
        ensures k in m && k in m' && k != v
      {
        UnlinkAt(m, v, k);
      }
      forall k | k in Ids(c) && k != c.id
        ensures SameLinks(m[k], m'[k])
      {
        UnlinkAt(m, v, k);
      }
      UnlinkAt(m, v, c.id);
      LinkedReparent(m, m', c, Some(v), p);
    }
  }

  /** The node `v`, wherever it occurs in `t`, has an empty subtree on at
      least one side. */
  ghost predicate Removable(t: Tree, v: int) {
    match t
    case Nil => true
    case Node(l, id, r) =>
      (id == v ==> l == Nil || r == Nil) && Removable(l, v) && Removable(r, v)
  }

  /** A record with an empty link makes its node removable in a linked
      shape. */
  lemma {:induction false} LinkedRemovable<E>(m: map<int, BTNode<E>>, t: Tree, p: Option<int>, v: int)
    requires Linked(m, t, p)
    requires v in m && (m[v].left.None? || m[v].right.None?)
    ensures Removable(t, v)
    decreases t
  {
    match t
    case Nil =>
    case Node(l, id, r) =>
      LinkedRemovable(m, l, Some(id), v);
      LinkedRemovable(m, r, Some(id), v);
  }

  /** Removal drops the node from the preorder and keeps the order of the
      others. */
  lemma {:induction false} SplicePreorder(t: Tree, v: int)
    requires Distinct(t) && v in Ids(t) && Removable(t, v)
    ensures Preorder(Splice(t, v)) == Without(Preorder(t), v)
    decreases t
  {
    match t
    case Node(l, id, r) =>
      PreorderIds(l);
      PreorderIds(r);
      assert Preorder(t) == [id] + Preorder(l) + Preorder(r);
      WithoutConcat([id] + Preorder(l), Preorder(r), v);
      WithoutConcat([id], Preorder(l), v);
      if id == v {
        WithoutAbsent(Preorder(l), v);
        WithoutAbsent(Preorder(r), v);
      } else if v in Ids(l) {
        SplicePreorder(l, v);
        SpliceAbsent(r, v);
        WithoutAbsent(Preorder(r), v);
      } else {
        SplicePreorder(r, v);
        SpliceAbsent(l, v);
        WithoutAbsent(Preorder(l), v);
      }
  }

  // ---------------------------------------------------------------------
  // Grafting

  /** Hanging a linked shape `sub` below node `v`, whose `side` link was
      empty, gives a linked shape holding both trees' ids. */
  lemma {:induction false} GraftLinked<E>(m: map<int, BTNode<E>>, m': map<int, BTNode<E>>, t: Tree, p: Option<int>,
                                          v: int, side: Side, sub: Tree)
    requires Linked(m, t, p) && Distinct(t) && v in Ids(t)
    requires v in m && (if side == LeftSide then m[v].left else m[v].right) == None
    requires Linked(m', sub, Some(v)) && Distinct(sub) && Ids(sub) !! Ids(t)
    requires forall k :: k in Ids(t) && k != v ==> k in m && k in m' && SameLinks(m[k], m'[k])
    requires v in m' && m'[v].parent == m[v].parent
    requires side == LeftSide ==> m'[v].left == RootId(sub) && m'[v].right == m[v].right
    requires side == RightSide ==> m'[v].right == RootId(sub) && m'[v].left == m[v].left
    ensures Linked(m', Graft(t, v, side, sub), p)
    decreases t
  {
    match t
    case Node(l, id, r) =>
      if id == v {
        if side == LeftSide {
          assert l == Nil;
          LinkedFrame(m, m', r, Some(id));
        } else {
          assert r == Nil;
          LinkedFrame(m, m', l, Some(id));
        }
      } else if v in Ids(l) {
        GraftLinked(m, m', l, Some(id), v, side, sub);
        LinkedFrame(m, m', r, Some(id));
        GraftAbsent(r, v, side, sub);
        GraftRoot(l, v, side, sub);
      } else {
        GraftLinked(m, m', r, Some(id), v, side, sub);
        LinkedFrame(m, m', l, Some(id));
        GraftAbsent(l, v, side, sub);
        GraftRoot(r, v, side, sub);
      }
  }

  lemma GraftRoot(t: Tree, v: int, side: Side, sub: Tree)
    ensures RootId(Graft(t, v, side, sub)) == RootId(t)
  {
  }

  /** Hanging `sub` into an empty `side` link of node `v` adds exactly
      the ids of `sub`. */
  lemma {:induction false} GraftIds<E>(m: map<int, BTNode<E>>, t: Tree, p: Option<int>, v: int, side: Side, sub: Tree)
    requires Linked(m, t, p) && Distinct(t) && v in Ids(t)
    requires v in m && (if side == LeftSide then m[v].left else m[v].right) == None
    requires Distinct(sub) && Ids(sub) !! Ids(t)
    ensures Ids(Graft(t, v, side, sub)) == Ids(t) + Ids(sub)
    ensures Distinct(Graft(t, v, side, sub))
    decreases t
  {
    match t
    case Node(l, id, r) =>
      if id == v {
        if side == LeftSide {
          assert l == Nil;
        } else {
          assert r == Nil;
        }
      } else if v in Ids(l) {
        GraftIds(m, l, Some(id), v, side, sub);
        GraftAbsent(r, v, side, sub);
      } else {
        GraftIds(m, r, Some(id), v, side, sub);
        GraftAbsent(l, v, side, sub);
      }
  }

  lemma {:induction false} GraftAbsent(t: Tree, v: int, side: Side, sub: Tree)
    requires v !in Ids(t)
    ensures Graft(t, v, side, sub) == t
  {
    match t
    case Nil =>
    case Node(l, id, r) =>
      GraftAbsent(l, v, side, sub);
      GraftAbsent(r, v, side, sub);
  }

  // ---------------------------------------------------------------------
  // Renumbering a donor tree

  /** Where a record of the renumbered arena comes from. */
  lemma ShiftNodesAt<E>(m: map<int, BTNode<E>>, off: int, j: int)
    ensures j in ShiftNodes(m, off) <==> j - off in m
    ensures j in ShiftNodes(m, off) ==> ShiftNodes(m, off)[j] == ShiftNode(m[j - off], off)
  {
    if j - off in m {
      assert Up(j - off, off) == j;
    }
  }

  /** Renumbering moves each id by `off`. */
  lemma {:induction false} ShiftIdsAt(t: Tree, off: int, j: int)
    ensures j in Ids(Shift(t, off)) <==> j - off in Ids(t)
  {
    match t
    case Nil =>
    case Node(l, id, r) =>
      ShiftIdsAt(l, off, j);
      ShiftIdsAt(r, off, j);
  }

  /** Renumbering keeps ids apart. */
  lemma {:induction false} ShiftDistinct(t: Tree, off: int)
    requires Distinct(t)
    ensures Distinct(Shift(t, off))
  {
    match t
    case Nil =>
    case Node(l, id, r) =>
      ShiftDistinct(l, off);
      ShiftDistinct(r, off);
      ShiftIdsAt(l, off, Up(id, off));
      ShiftIdsAt(r, off, Up(id, off));
      forall j | j in Ids(Shift(l, off))
        ensures j !in Ids(Shift(r, off))
      {
        ShiftIdsAt(l, off, j);
        ShiftIdsAt(r, off, j);
      }
  }

  /** A renumbered linked shape is linked in the renumbered arena. */
  lemma {:induction false} ShiftLinked<E>(m: map<int, BTNode<E>>, t: Tree, p: Option<int>, off: int)
    requires Linked(m, t, p)
    ensures Linked(ShiftNodes(m, off), Shift(t, off), ShiftId(p, off))
  {
    match t
    case Nil =>
    case Node(l, id, r) =>
      ShiftLinked(m, l, Some(id), off);
      ShiftLinked(m, r, Some(id), off);
  }

  // ---------------------------------------------------------------------
  // Hanging a renumbered donor below a node

  /** The arena `m` merged with the donor arena `d` renumbered by `off`,
      the donor's root `droot` linked below `v` on `side`. */
  ghost function Adopted<E>(m: map<int, BTNode<E>>, d: map<int, BTNode<E>>, droot: int, off: int, v: int, side: Side): map<int, BTNode<E>>
    requires v in m
  {
    var m1 := m + ShiftNodes(d, off);
    var r1 := Up(droot, off);
    var m2 := m1[v := if side == LeftSide then m1[v].(left := Some(r1)) else m1[v].(right := Some(r1))];
    if r1 in m2 then m2[r1 := m2[r1].(parent := Some(v))] else m2
  }

  /** Where a record of the merged arena comes from, when the arena's ids
      all lie below `off` and the donor's are non-negative. */
  lemma AdoptedAt<E>(m: map<int, BTNode<E>>, d: map<int, BTNode<E>>, droot: int, off: int, v: int, side: Side, j: int)
    requires v in m && droot in d
    requires forall k :: k in m ==> k < off
    requires forall k :: k in d ==> 0 <= k
    ensures j in Adopted(m, d, droot, off, v, side) <==> j in m || j - off in d
    ensures j in m && j != v ==> Adopted(m, d, droot, off, v, side)[j] == m[j]
    ensures j == v ==> Adopted(m, d, droot, off, v, side)[j] ==
                       if side == LeftSide then m[v].(left := Some(Up(droot, off))) else m[v].(right := Some(Up(droot, off)))
    ensures j - off in d && j != Up(droot, off) ==> Adopted(m, d, droot, off, v, side)[j] == ShiftNode(d[j - off], off)
    ensures j == Up(droot, off) ==> Adopted(m, d, droot, off, v, side)[j] == ShiftNode(d[droot], off).(parent := Some(v))
  {
    ShiftNodesAt(d, off, j);
    ShiftNodesAt(d, off, v);
    ShiftNodesAt(d, off, Up(droot, off));
  }

  /** Hanging a renumbered valid donor below an empty link of a valid
      arena gives a valid arena for the grafted shape. */
  lemma AdoptLinked<E>(m: map<int, BTNode<E>>, t: Tree, d: map<int, BTNode<E>>, dt: Tree, off: int, v: int, side: Side)
    requires Linked(m, t, None) && Distinct(t) && m.Keys == Ids(t)
    requires Linked(d, dt, None) && Distinct(dt) && d.Keys == Ids(dt) && dt.Node?
    requires forall k :: k in m ==> k < off
    requires forall k :: k in d ==> 0 <= k
    requires v in m && (if side == LeftSide then m[v].left else m[v].right) == None
    ensures Linked(Adopted(m, d, dt.id, off, v, side), Graft(t, v, side, Shift(dt, off)), None)
    ensures Distinct(Graft(t, v, side, Shift(dt, off)))
    ensures Ids(Graft(t, v, side, Shift(dt, off))) == Ids(t) + Ids(Shift(dt, off))
  {
    var a := Adopted(m, d, dt.id, off, v, side);
    var s := ShiftNodes(d, off);
    var sub := Shift(dt, off);
    var r1 := Up(dt.id, off);
    ShiftLinked(d, dt, None, off);
    ShiftDistinct(dt, off);
    forall j | j in Ids(sub)
      ensures j in s && j - off in d && j !in Ids(t)
    {
      ShiftIdsAt(dt, off, j);
      ShiftNodesAt(d, off, j);
    }
    assert r1 in Ids(sub);
    forall k | k in Ids(sub) && k != r1
      ensures k in s && k in a && SameLinks(s[k], a[k])
    {
      AdoptedAt(m, d, dt.id, off, v, side, k);
      ShiftNodesAt(d, off, k);
    }
    AdoptedAt(m, d, dt.id, off, v, side, r1);
    ShiftNodesAt(d, off, r1);
    LinkedReparent(s, a, sub, None, Some(v));
    forall k | k in Ids(t) && k != v
      ensures k in m && k in a && SameLinks(m[k], a[k])
    {
      AdoptedAt(m, d, dt.id, off, v, side, k);
    }
    AdoptedAt(m, d, dt.id, off, v, side, v);
    GraftLinked(m, a, t, None, v, side, sub);
    GraftIds(m, t, None, v, side, sub);
  }

  /** The merged arena has a record for each node of the two shapes and no other. */
  lemma AdoptedIds<E>(m: map<int, BTNode<E>>, t: Tree, d: map<int, BTNode<E>>, dt: Tree, off: int, v: int, side: Side)
    requires m.Keys == Ids(t) && d.Keys == Ids(dt) && dt.Node?
    requires forall k :: k in m ==> k < off
    requires forall k :: k in d ==> 0 <= k
    requires v in m
    ensures Adopted(m, d, dt.id, off, v, side).Keys == Ids(t) + Ids(Shift(dt, off))
  {
    forall k
      ensures k in Adopted(m, d, dt.id, off, v, side) <==> k in Ids(t) + Ids(Shift(dt, off))
    {
      AdoptedAt(m, d, dt.id, off, v, side, k);
      ShiftIdsAt(dt, off, k);
    }
  }

  /** The merged arena keeps every record's element, moves the donor's up
      by `off`, uses ids below `off + dnext` only, and leaves the other
      link of `v` alone. */
  lemma AdoptedKeys<E>(m: map<int, BTNode<E>>, d: map<int, BTNode<E>>, droot: int, off: int, dnext: int, v: int, side: Side,
                       a: map<int, BTNode<E>>)
    requires v in m && droot in d
    requires forall k :: k in m ==> 0 <= k < off
    requires forall k :: k in d ==> 0 <= k < dnext
    requires a == Adopted(m, d, droot, off, v, side)
    ensures forall k :: k in a ==> 0 <= k < off + dnext
    ensures forall k :: k in m ==> k in a && a[k].element == m[k].element
    ensures forall k :: k in d ==> Up(k, off) in a && a[Up(k, off)].element == d[k].element
    ensures side == LeftSide ==> a[v].right == m[v].right
    ensures side == RightSide ==> a[v].left == m[v].left
  {
    forall k | k in a
      ensures 0 <= k < off + dnext
    {
      AdoptedAt(m, d, droot, off, v, side, k);
    }
    forall k | k in m
      ensures k in a && a[k].element == m[k].element
    {
      AdoptedAt(m, d, droot, off, v, side, k);
    }
    forall k | k in d
      ensures Up(k, off) in a && a[Up(k, off)].element == d[k].element
    {
      AdoptedAt(m, d, droot, off, v, side, Up(k, off));
    }
    AdoptedAt(m, d, droot, off, v, side, v);
  }

  /** The merged arena `a` is valid for the grafted shape `g`: the facts
      of `AdoptLinked`, `AdoptedIds` and `AdoptedKeys` stated about `a`. */
  lemma AdoptSound<E>(m: map<int, BTNode<E>>, t: Tree, d: map<int, BTNode<E>>, dt: Tree, off: int, dnext: int, v: int, side: Side,
                      a: map<int, BTNode<E>>, g: Tree)
    requires Linked(m, t, None) && Distinct(t) && m.Keys == Ids(t)
    requires Linked(d, dt, None) && Distinct(dt) && d.Keys == Ids(dt) && dt.Node?
    requires forall k :: k in m ==> 0 <= k < off
    requires forall k :: k in d ==> 0 <= k < dnext
    requires v in m && (if side == LeftSide then m[v].left else m[v].right) == None
    requires a == Adopted(m, d, dt.id, off, v, side) && g == Graft(t, v, side, Shift(dt, off))
    ensures Linked(a, g, None) && Distinct(g) && a.Keys == Ids(g) && RootId(g) == RootId(t)
    ensures forall k :: k in a ==> 0 <= k < off + dnext
    ensures forall k :: k in m ==> k in a && a[k].element == m[k].element
    ensures forall k :: k in d ==> Up(k, off) in a && a[Up(k, off)].element == d[k].element
    ensures side == LeftSide ==> a[v].right == m[v].right
    ensures side == RightSide ==> a[v].left == m[v].left
  {
    AdoptLinked(m, t, d, dt, off, v, side);
    AdoptedIds(m, t, d, dt, off, v, side);
    AdoptedKeys(m, d, dt.id, off, dnext, v, side, a);
    GraftRoot(t, v, side, Shift(dt, off));
  }
}
