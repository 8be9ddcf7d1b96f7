/** The linked binary tree of lab9: nodes with parent, left and right links,
    a root reference and a node counter. Positions are node ids of the arena
    described in `LinkedShape`; the ghost `shape` is the tree the links
    encode. */
module LinkedTree {
  import opened Outcomes
  import opened LinkedShape

  class LinkedBinaryTree<E> {
    var root: Option<int>
    var size: int
    var nodes: map<int, BTNode<E>>
    var nextId: int
    ghost var shape: Tree

    /** The links of `nodes` encode `shape` exactly, the root reference is
        the shape's root, ids are distinct, and fresh ids start at `nextId`.
        The counter `size` is not tied to the number of nodes: `attach`
        leaves it unchanged. */
    ghost predicate Valid()
      reads this
    {
      Wellformed(root, nodes, shape, nextId)
    }

    /** `Valid` stated on values. */
    static ghost predicate Wellformed(root: Option<int>, nodes: map<int, BTNode<E>>, shape: Tree, nextId: int) {
      root == RootId(shape) && Linked(nodes, shape, None) && Distinct(shape) &&
      nodes.Keys == Ids(shape) && 0 <= nextId &&
      (forall k :: k in nodes ==> 0 <= k < nextId)
    }

    /** Link consistency over every node: only the root lacks a parent, a
        parent has the node as its left or right child, each child links
        back, and the two children of a node differ. */
    ghost predicate Consistent()
      reads this
    {
      (forall w :: w in nodes ==> (nodes[w].parent.None? <==> root == Some(w))) &&
      (forall w :: w in nodes && nodes[w].parent.Some? ==>
        nodes[w].parent.value in nodes &&
        (nodes[nodes[w].parent.value].left == Some(w) || nodes[nodes[w].parent.value].right == Some(w))) &&
      (forall w :: w in nodes && nodes[w].left.Some? ==>
        nodes[w].left.value in nodes && nodes[nodes[w].left.value].parent == Some(w)) &&
      (forall w :: w in nodes && nodes[w].right.Some? ==>
        nodes[w].right.value in nodes && nodes[nodes[w].right.value].parent == Some(w)) &&
      (forall w :: w in nodes && nodes[w].left.Some? && nodes[w].right.Some? ==> nodes[w].left != nodes[w].right)
    }

    /** An empty tree. */
    constructor ()
      ensures Valid()
      ensures root == None && size == 0 && nodes == map[] && shape == Nil
    {
      root := None;
      size := 0;
      nodes := map[];
      nextId := 0;
      shape := Nil;
    }

    /** The links around one node are consistent. */
    lemma LinksAt(w: int)
      requires Valid() && w in nodes
      ensures nodes[w].parent.None? <==> root == Some(w)
      ensures nodes[w].parent.Some? ==>
        nodes[w].parent.value in nodes &&
        (nodes[nodes[w].parent.value].left == Some(w) || nodes[nodes[w].parent.value].right == Some(w))
      ensures nodes[w].left.Some? ==> nodes[w].left.value in nodes && nodes[nodes[w].left.value].parent == Some(w)
      ensures nodes[w].right.Some? ==> nodes[w].right.value in nodes && nodes[nodes[w].right.value].parent == Some(w)
      ensures nodes[w].left.Some? && nodes[w].right.Some? ==> nodes[w].left != nodes[w].right
    {
      LinkedLocal(nodes, shape, None, w);
    }

    /** Every valid tree has consistent links. */
    lemma ValidConsistent()
      requires Valid()
      ensures Consistent()
    {
      forall w | w in nodes
        ensures (nodes[w].parent.None? <==> root == Some(w))
        ensures nodes[w].parent.Some? ==>
          nodes[w].parent.value in nodes &&
          (nodes[nodes[w].parent.value].left == Some(w) || nodes[nodes[w].parent.value].right == Some(w))
        ensures nodes[w].left.Some? ==> nodes[w].left.value in nodes && nodes[nodes[w].left.value].parent == Some(w)
        ensures nodes[w].right.Some? ==> nodes[w].right.value in nodes && nodes[nodes[w].right.value].parent == Some(w)
        ensures nodes[w].left.Some? && nodes[w].right.Some? ==> nodes[w].left != nodes[w].right
      {
        LinksAt(w);
      }
    }

    /** The nodes naming `v` as parent are exactly its left and right
        children. */
    lemma ChildrenOf(v: int)
      requires Valid() && v in nodes
      ensures forall w :: w in nodes && nodes[w].parent == Some(v) ==> nodes[v].left == Some(w) || nodes[v].right == Some(w)
      ensures nodes[v].left.Some? ==> nodes[v].left.value in nodes && nodes[nodes[v].left.value].parent == Some(v)
      ensures nodes[v].right.Some? ==> nodes[v].right.value in nodes && nodes[nodes[v].right.value].parent == Some(v)
      ensures nodes[v].left.Some? && nodes[v].right.Some? ==> nodes[v].left != nodes[v].right
    {
      forall w | w in nodes && nodes[w].parent == Some(v)
        ensures nodes[v].left == Some(w) || nodes[v].right == Some(w)
      {
        LinksAt(w);
      }
      LinksAt(v);
    }

    function Size(): int
      reads this
    {
      size
    }

    function IsEmpty(): bool
      reads this
    {
      size == 0
    }

    function HasLeft(v: int): bool
      reads this
      requires Valid() && v in nodes
    {
      nodes[v].left.Some?
    }

    function HasRight(v: int): bool
      reads this
      requires Valid() && v in nodes
    {
      nodes[v].right.Some?
    }

    /** Whether `v` has a child: some node names `v` as its parent. */
    function IsInternal(v: int): (r: bool)
      reads this
      requires Valid() && v in nodes
      ensures r <==> exists w :: w in nodes && nodes[w].parent == Some(v)
    {
      ChildrenOf(v);
      if HasLeft(v) then
        var w := nodes[v].left.value;
        assert w in nodes && nodes[w].parent == Some(v);
        true
      else if HasRight(v) then
        var w := nodes[v].right.value;
        assert w in nodes && nodes[w].parent == Some(v);
        true
      else false
    }

    /** Whether `v` is a leaf: no node names `v` as its parent. */
    function IsExternal(v: int): (r: bool)
      reads this
      requires Valid() && v in nodes
      ensures r <==> forall w :: w in nodes ==> nodes[w].parent != Some(v)
    {
      !IsInternal(v)
    }

    /** Whether `v` is the root: exactly the node without a parent. */
    function IsRoot(v: int): (r: bool)
      reads this
      requires Valid() && v in nodes
      ensures r <==> nodes[v].parent.None?
    {
      LinksAt(v);
      Some(v) == root
    }

    /** The root, or `EmptyTree` when there is none. */
    function Root(): (r: Result<int>)
      reads this
      requires Valid()
      ensures r.Ok? <==> nodes != map[]
      ensures r.Ok? ==> r.value in nodes && nodes[r.value].parent.None?
      ensures r.Err? ==> r.error == EmptyTree
    {
      assert shape.Node? ==> shape.id in nodes;
      assert shape.Nil? ==> nodes.Keys == {};
      if root.None? then Err(EmptyTree) else Ok(root.value)
    }

    /** The left child of `v`, or `BoundaryViolation`; the child links back. */
    function Left(v: int): (r: Result<int>)
      reads this
      requires Valid() && v in nodes
      ensures r.Ok? <==> nodes[v].left.Some?
      ensures r.Ok? ==> r.value in nodes && nodes[r.value].parent == Some(v)
      ensures r.Err? ==> r.error == BoundaryViolation
    {
      LinksAt(v);
      var leftPos := nodes[v].left;
      if leftPos.None? then Err(BoundaryViolation) else Ok(leftPos.value)
    }

    /** The right child of `v`, or `BoundaryViolation`; the child links back. */
    function Right(v: int): (r: Result<int>)
      reads this
      requires Valid() && v in nodes
      ensures r.Ok? <==> nodes[v].right.Some?
      ensures r.Ok? ==> r.value in nodes && nodes[r.value].parent == Some(v)
      ensures r.Err? ==> r.error == BoundaryViolation
    {
      LinksAt(v);
      var rightPos := nodes[v].right;
      if rightPos.None? then Err(BoundaryViolation) else Ok(rightPos.value)
    }

    /** The parent of `v`, or `BoundaryViolation` at the root; the parent
        has `v` as a child. */
    function Parent(v: int): (r: Result<int>)
      reads this
      requires Valid() && v in nodes
      ensures r.Err? <==> root == Some(v)
      ensures r.Err? ==> r.error == BoundaryViolation
      ensures r.Ok? ==> r.value in nodes && (nodes[r.value].left == Some(v) || nodes[r.value].right == Some(v))
    {
      LinksAt(v);
      var parentPos := nodes[v].parent;
      if parentPos.None? then Err(BoundaryViolation) else Ok(parentPos.value)
    }

    /** The children of `v`, left before right: exactly the nodes naming
        `v` as parent. */
    function Children(v: int): (r: seq<int>)
      reads this
      requires Valid() && v in nodes
      ensures forall w :: w in r <==> w in nodes && nodes[w].parent == Some(v)
      ensures |r| <= 2 && (|r| == 2 ==> Some(r[0]) == nodes[v].left && Some(r[1]) == nodes[v].right)
    {
      ChildrenOf(v);
      (if HasLeft(v) then [Left(v).value] else []) + (if HasRight(v) then [Right(v).value] else [])
    }

    /** The other child of `v`'s parent, or `BoundaryViolation` for the root
        or when the parent has no other child. */
    function Sibling(v: int): (r: Result<int>)
      reads this
      requires Valid() && v in nodes
      ensures r.Err? ==> r.error == BoundaryViolation
      ensures r.Ok? ==> r.value in nodes && r.value != v && nodes[r.value].parent == nodes[v].parent
      ensures r.Ok? <==> exists w :: w in nodes && w != v && nodes[w].parent.Some? && nodes[w].parent == nodes[v].parent
    {
      LinksAt(v);
      var parentPos := nodes[v].parent;
      if parentPos.None? then Err(BoundaryViolation)
      else
        var u := parentPos.value;
        ChildrenOf(u);
        var sibPos := if nodes[u].left == Some(v) then nodes[u].right else nodes[u].left;
        if sibPos.Some? then Ok(sibPos.value) else Err(BoundaryViolation)
    }

    /** Stores `o` at `v` and returns the element it replaces; no link changes. */
    method Replace(v: int, o: E) returns (r: E)
      requires Valid() && v in nodes
      modifies this
      ensures Valid()
      ensures r == old(nodes[v].element)
      ensures nodes == old(nodes)[v := old(nodes[v]).(element := o)]
      ensures root == old(root) && size == old(size) && shape == old(shape) && nextId == old(nextId)
    {
      var temp := nodes[v].element;
      ghost var m0 := nodes;
      nodes := nodes[v := nodes[v].(element := o)];
      LinkedFrame(m0, nodes, shape, None);
      r := temp;
    }

    /** Makes a fresh parentless, childless node holding `e` the root of an
        empty tree. Nodes left over from an earlier tree are dropped. */
    method AddRoot(e: E) returns (r: Result<int>)
      requires Valid()
      modifies this
      ensures Valid()
      ensures old(size) != 0 ==> r == Err(NonEmptyTree) && unchanged(this)
      ensures old(size) == 0 ==> r.Ok? && root == Some(r.value) && size == 1
      ensures r.Ok? ==> nodes == map[r.value := BTNode(e, None, None, None)] && shape == Node(Nil, r.value, Nil)
    {
      if !IsEmpty() {
        return Err(NonEmptyTree);
      }
      size := 1;
      var w := nextId;
      nextId := nextId + 1;
      nodes := map[w := BTNode(e, None, None, None)];
      root := Some(w);
      shape := Node(Nil, w, Nil);
      r := Ok(w);
    }

    /** Adds a leaf holding `e` as the left child of `v`; fails when there
        is one already. */
    method InsertLeft(v: int, e: E) returns (r: Result<int>)
      requires Valid() && v in nodes
      modifies this
      ensures Valid()
      ensures old(nodes[v].left.Some?) ==> r == Err(InvalidPosition) && unchanged(this)
      ensures old(nodes[v].left.None?) ==> r.Ok? && r.value !in old(nodes)
      ensures r.Ok? ==>
        nodes == old(nodes)[v := old(nodes[v]).(left := Some(r.value))][r.value := BTNode(e, Some(v), None, None)] &&
        shape == Graft(old(shape), v, LeftSide, Node(Nil, r.value, Nil)) &&
        size == old(size) + 1 && root == old(root)
    {
      var vv := nodes[v];
      if vv.left.Some? {
        return Err(InvalidPosition);
      }
      ghost var m0 := nodes;
      var w := nextId;
      nextId := nextId + 1;
      nodes := nodes[v := vv.(left := Some(w))][w := BTNode(e, Some(v), None, None)];
      size := size + 1;
      ghost var leaf := Node(Nil, w, Nil);
      GraftLinked(m0, nodes, shape, None, v, LeftSide, leaf);
      GraftIds(m0, shape, None, v, LeftSide, leaf);
      shape := Graft(shape, v, LeftSide, leaf);
      GraftRoot(old(shape), v, LeftSide, leaf);
      r := Ok(w);
    }

    /** Adds a leaf holding `e` as the right child of `v`; fails when there
        is one already. */
    method InsertRight(v: int, e: E) returns (r: Result<int>)
      requires Valid() && v in nodes
      modifies this
      ensures Valid()
      ensures old(nodes[v].right.Some?) ==> r == Err(InvalidPosition) && unchanged(this)
      ensures old(nodes[v].right.None?) ==> r.Ok? && r.value !in old(nodes)
      ensures r.Ok? ==>
        nodes == old(nodes)[v := old(nodes[v]).(right := Some(r.value))][r.value := BTNode(e, Some(v), None, None)] &&
        shape == Graft(old(shape), v, RightSide, Node(Nil, r.value, Nil)) &&
        size == old(size) + 1 && root == old(root)
    {
      var vv := nodes[v];
      if vv.right.Some? {
        return Err(InvalidPosition);
      }
      ghost var m0 := nodes;
      var w := nextId;
      nextId := nextId + 1;
      nodes := nodes[v := vv.(right := Some(w))][w := BTNode(e, Some(v), None, None)];
      size := size + 1;
      ghost var leaf := Node(Nil, w, Nil);
      GraftLinked(m0, nodes, shape, None, v, RightSide, leaf);
      GraftIds(m0, shape, None, v, RightSide, leaf);
      shape := Graft(shape, v, RightSide, leaf);
      GraftRoot(old(shape), v, RightSide, leaf);
      r := Ok(w);
    }

    /** Removes a node with at most one child, moving that child into its
        place; fails on a node with two children. The removed node is no
        longer a position of the tree. */
    method Remove(v: int) returns (r: Result<E>)
      requires Valid() && v in nodes
      modifies this
      ensures Valid()
      ensures old(nodes[v].left.Some? && nodes[v].right.Some?) ==> r == Err(InvalidPosition) && unchanged(this)
      ensures !old(nodes[v].left.Some? && nodes[v].right.Some?) ==>
        r == Ok(old(nodes[v].element)) && size == old(size) - 1 &&
        nodes == Unlink(old(nodes), v) && shape == Splice(old(shape), v) &&
        nodes.Keys == old(nodes.Keys) - {v} &&
        Preorder(shape) == Without(Preorder(old(shape)), v) &&
        root == (if old(root) == Some(v) then OnlyChild(old(nodes[v])) else old(root))
    {
      var vv := nodes[v];
      if vv.left.Some? && vv.right.Some? {
        return Err(InvalidPosition);
      }
      LinksAt(v);
      var m, rt := Detach(nodes, root, v);
      RemoveSound(nodes, shape, v);
      assert Wellformed(rt, m, Splice(shape, v), nextId);
      size := size - 1;
      nodes := m;
      root := rt;
      shape := Splice(shape, v);
      r := Ok(vv.element);
    }

    /** The relinking of `remove` on the arena: the only child `ww` (or
        nothing) takes `v`'s place below `v`'s parent, or becomes the root. */
    static method Detach(nodes: map<int, BTNode<E>>, root: Option<int>, v: int)
      returns (m: map<int, BTNode<E>>, rt: Option<int>)
      requires v in nodes && (nodes[v].left.None? || nodes[v].right.None?)
      requires root == Some(v) <==> nodes[v].parent.None?
      requires nodes[v].parent.Some? ==> nodes[v].parent.value in nodes
      requires OnlyChild(nodes[v]).Some? ==> OnlyChild(nodes[v]).value in nodes
      ensures m == Unlink(nodes, v)
      ensures rt == if root == Some(v) then OnlyChild(nodes[v]) else root
    {
      var vv := nodes[v];
      var ww := if vv.left.Some? then vv.left else if vv.right.Some? then vv.right else None;
      m := nodes;
      rt := root;
      if Some(v) == rt {
        if ww.Some? {
          m := m[ww.value := m[ww.value].(parent := None)];
        }
        rt := ww;
      } else {
        var u := vv.parent.value;
        if Some(v) == m[u].left {
          m := m[u := m[u].(left := ww)];
        } else {
          m := m[u := m[u].(right := ww)];
        }
        if ww.Some? {
          m := m[ww.value := m[ww.value].(parent := Some(u))];
        }
      }
      m := m - {v};
    }

    /** Cutting a node with at most one child out of a valid arena gives a
        valid arena for the spliced shape, with the only child as the new
        root when the root goes. */
    static lemma RemoveSound(m: map<int, BTNode<E>>, t: Tree, v: int)
      requires Linked(m, t, None) && Distinct(t) && m.Keys == Ids(t)
      requires v in m && (m[v].left.None? || m[v].right.None?)
      ensures Linked(Unlink(m, v), Splice(t, v), None) && Distinct(Splice(t, v))
      ensures Unlink(m, v).Keys == Ids(Splice(t, v)) == m.Keys - {v}
      ensures Preorder(Splice(t, v)) == Without(Preorder(t), v)
      ensures RootId(Splice(t, v)) == if RootId(t) == Some(v) then OnlyChild(m[v]) else RootId(t)
    {
      SpliceLinked(m, t, None, v);
      LinkedRemovable(m, t, None, v);
      SplicePreorder(t, v);
      forall k ensures k in Unlink(m, v) <==> k in m && k != v {
        if k in m && k != v {
          UnlinkAt(m, v, k);
        }
      }
    }

    /** Hangs a renumbered copy of `donor` below `v` on `side`, whose link
        is empty. */
    method Adopt(v: int, donor: LinkedBinaryTree<E>, side: Side)
      requires Valid() && v in nodes && donor.Valid() && donor != this && donor.root.Some?
      requires (if side == LeftSide then nodes[v].left else nodes[v].right).None?
      modifies this
      ensures Valid()
      ensures shape == Graft(old(shape), v, side, Shift(donor.shape, old(nextId)))
      ensures nextId == old(nextId) + donor.nextId && size == old(size) && root == old(root)
      ensures v in nodes
      ensures side == LeftSide ==> nodes[v].right == old(nodes[v].right)
      ensures side == RightSide ==> nodes[v].left == old(nodes[v].left)
      ensures forall k :: k in old(nodes) ==> k in nodes && nodes[k].element == old(nodes[k].element)
      ensures forall k :: k in donor.nodes ==> Up(k, old(nextId)) in nodes && nodes[Up(k, old(nextId))].element == donor.nodes[k].element
    {
      var m, next;
      ghost var g;
      m, g, next := AdoptArena(root, nodes, shape, nextId, donor.nodes, donor.shape, donor.root.value, donor.nextId, v, side);
      nodes := m;
      nextId := next;
      shape := g;
    }

    /** `Adopt` on values: the merged arena, the grafted shape and the next
        free id. */
    static method AdoptArena(root: Option<int>, nodes: map<int, BTNode<E>>, ghost shape: Tree, nextId: int,
                             d: map<int, BTNode<E>>, ghost dt: Tree, droot: int, dnext: int, v: int, side: Side)
      returns (m: map<int, BTNode<E>>, ghost g: Tree, next: int)
      requires Wellformed(root, nodes, shape, nextId) && Wellformed(Some(droot), d, dt, dnext)
      requires v in nodes && (if side == LeftSide then nodes[v].left else nodes[v].right).None?
      ensures Wellformed(root, m, g, next)
      ensures g == Graft(shape, v, side, Shift(dt, nextId)) && next == nextId + dnext
      ensures v in m
      ensures side == LeftSide ==> m[v].right == nodes[v].right
      ensures side == RightSide ==> m[v].left == nodes[v].left
      ensures forall k :: k in nodes ==> k in m && m[k].element == nodes[k].element
      ensures forall k :: k in d ==> Up(k, nextId) in m && m[Up(k, nextId)].element == d[k].element
    {
      m := Merge(nodes, d, droot, nextId, v, side);
      g := Graft(shape, v, side, Shift(dt, nextId));
      AdoptSound(nodes, shape, d, dt, nextId, dnext, v, side, m, g);
      next := nextId + dnext;
    }

    /** Copies the records of `d` into `m` under ids moved up by `off`,
        then links the copy of `droot` below `v` on `side`: `v` takes it
        as child and it takes `v` as parent. */
    static method Merge(m: map<int, BTNode<E>>, d: map<int, BTNode<E>>, droot: int, off: int, v: int, side: Side)
      returns (a: map<int, BTNode<E>>)
      requires v in m && droot in d
      requires forall k :: k in m ==> k < off
      requires forall k :: k in d ==> 0 <= k
      ensures a == Adopted(m, d, droot, off, v, side)
    {
      var r1 := Up(droot, off);
      a := m + ShiftNodes(d, off);
      if side == LeftSide {
        a := a[v := a[v].(left := Some(r1))];
      } else {
        a := a[v := a[v].(right := Some(r1))];
      }
      ShiftNodesAt(d, off, r1);
      a := a[r1 := a[r1].(parent := Some(v))];
    }

    /** Attaches `t1` as the left and `t2` as the right subtree of the leaf
        `v`; an empty donor (by its counter) is skipped. Fails on an internal
        node, and with `EmptyTree` on a donor whose counter is non-zero but
        which has no root, after the left attachment has taken place. The
        node counter is left unchanged. */
    method Attach(v: int, t1: LinkedBinaryTree<E>, t2: LinkedBinaryTree<E>) returns (r: Result<()>)
      requires Valid() && v in nodes && t1.Valid() && t2.Valid()
      requires t1 != this && t2 != this && t1 != t2
      modifies this
      ensures Valid() && size == old(size) && root == old(root)
      ensures forall k :: k in old(nodes) ==> k in nodes && nodes[k].element == old(nodes[k].element)
      ensures old(nodes[v].left.Some? || nodes[v].right.Some?) ==> r == Err(InvalidPosition) && unchanged(this)
      ensures old(nodes[v].left.None? && nodes[v].right.None?) && t1.size != 0 && t1.root.None? ==>
        r == Err(EmptyTree) && unchanged(this)
      ensures old(nodes[v].left.None? && nodes[v].right.None?) && !(t1.size != 0 && t1.root.None?) ==>
        var withLeft := if t1.size != 0 then Graft(old(shape), v, LeftSide, Shift(t1.shape, old(nextId))) else old(shape);
        var off2 := if t1.size != 0 then old(nextId) + t1.nextId else old(nextId);
        (t2.size != 0 && t2.root.None? ==> r == Err(EmptyTree) && shape == withLeft) &&
        (!(t2.size != 0 && t2.root.None?) ==>
          r == Ok(()) &&
          shape == (if t2.size != 0 then Graft(withLeft, v, RightSide, Shift(t2.shape, off2)) else withLeft)) &&
        (t1.size != 0 ==>
          forall k :: k in t1.nodes ==> Up(k, old(nextId)) in nodes && nodes[Up(k, old(nextId))].element == t1.nodes[k].element) &&
        (t2.size != 0 && t2.root.Some? ==>
          forall k :: k in t2.nodes ==> Up(k, off2) in nodes && nodes[Up(k, off2)].element == t2.nodes[k].element)
    {
      if IsInternal(v) {
        return Err(InvalidPosition);
      }
      if !t1.IsEmpty() {
        var r1 := t1.Root();
        if r1.Err? {
          return Err(r1.error);
        }
        Adopt(v, t1, LeftSide);
      }
      if !t2.IsEmpty() {
        var r2 := t2.Root();
        if r2.Err? {
          return Err(r2.error);
        }
        Adopt(v, t2, RightSide);
      }
      r := Ok(());
    }

    /** Appends the ids of the subtree `t` rooted at `v`, in preorder, to `pos`. */
    method PreorderPositions(v: int, pos: seq<int>, ghost t: Tree) returns (out: seq<int>)
      requires Valid() && v in nodes && t.Node? && t.id == v && Linked(nodes, t, nodes[v].parent)
      ensures out == pos + Preorder(t)
      decreases t
    {
      ghost var pl := Preorder(t.left);
      ghost var pr := Preorder(t.right);
      assert Linked(nodes, t.left, Some(v)) && Linked(nodes, t.right, Some(v));
      out := pos + [v];
      if HasLeft(v) {
        var l := Left(v);
        out := PreorderPositions(l.value, out, t.left);
      }
      assert out == pos + [v] + pl;
      if HasRight(v) {
        var r := Right(v);
        out := PreorderPositions(r.value, out, t.right);
      }
      assert out == pos + [v] + pl + pr;
      assert Preorder(t) == [v] + pl + pr;
    }

    /** All positions in preorder; none when the counter is zero, and
        `EmptyTree` when the counter is non-zero but there is no root. */
    method Positions() returns (r: Result<seq<int>>)
      requires Valid()
      ensures size == 0 ==> r == Ok([])
      ensures size != 0 && root.None? ==> r == Err(EmptyTree)
      ensures size != 0 && root.Some? ==> r == Ok(Preorder(shape))
    {
      if size == 0 {
        return Ok([]);
      }
      var rt := Root();
      if rt.Err? {
        return Err(rt.error);
      }
      LinksAt(rt.value);
      var ps := PreorderPositions(rt.value, [], shape);
      assert [] + Preorder(shape) == Preorder(shape);
      r := Ok(ps);
    }

    /** The preorder of a valid tree lists each of its nodes exactly once. */
    lemma PreorderExact()
      requires Valid()
      ensures NoDuplicates(Preorder(shape))
      ensures forall w :: w in Preorder(shape) <==> w in nodes
    {
      PreorderIds(shape);
      PreorderDistinct(shape);
    }

    /** The elements in the order of `Positions`. */
    method Iterator() returns (r: Result<seq<E>>)
      requires Valid()
      ensures size == 0 ==> r == Ok([])
      ensures size != 0 && root.None? ==> r == Err(EmptyTree)
      ensures size != 0 && root.Some? ==>
        r.Ok? && |r.value| == |Preorder(shape)| &&
        forall k :: 0 <= k < |r.value| ==> Preorder(shape)[k] in nodes && r.value[k] == nodes[Preorder(shape)[k]].element
    {
      var positions := Positions();
      if positions.Err? {
        return Err(positions.error);
      }
      var ps := positions.value;
      PreorderExact();
      var elements: seq<E> := [];
      var i := 0;
      while i < |ps|
        invariant 0 <= i <= |ps|
        invariant |elements| == i
        invariant forall k :: 0 <= k < i ==> ps[k] in nodes && elements[k] == nodes[ps[k]].element
      {
        elements := elements + [nodes[ps[i]].element];
        i := i + 1;
      }
      r := Ok(elements);
    }
  }
}
