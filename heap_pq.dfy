/** The heap-based priority queue of lab10: a binary min-heap kept in an
    index list whose slot 0 holds a `null` sentinel, the root at slot 1 and
    the parent of slot `i` at slot `i / 2`. */
module Heaps {
  import opened Outcomes

  /** A key/value pair stored in the queue. */
  datatype Entry<K, V> = Entry(key: K, value: V)

  /** A comparator in the sense of java.util.Comparator: `compare(a, b)` is
      negative, zero or positive. `accepts(k)` is false exactly for the keys
      on which `compare` throws (a key that is not comparable). */
  datatype Comparator<!K> = Comparator(compare: (K, K) -> int, accepts: K -> bool)

  /** `a` orders no later than `b`. */
  predicate Le<K>(c: Comparator<K>, a: K, b: K) {
    c.compare(a, b) <= 0
  }

  /** `b` orders between `a` and `d`. */
  ghost predicate Between<K>(c: Comparator<K>, a: K, b: K, d: K) {
    Le(c, a, b) && Le(c, b, d)
  }

  /** The comparator contract, on the keys it accepts: any two keys are
      comparable one way or the other, and the order is transitive. The
      transitivity clause fires only on a `Between` term, so proofs invoke
      it through `Transitive`. */
  ghost predicate TotalPreorder<K(!new)>(c: Comparator<K>) {
    (forall a, b {:trigger Le(c, a, b)} :: c.accepts(a) && c.accepts(b) ==> Le(c, a, b) || Le(c, b, a)) &&
    (forall a, b, d {:trigger Between(c, a, b, d)} :: c.accepts(a) && c.accepts(b) && c.accepts(d) && Between(c, a, b, d) ==> Le(c, a, d))
  }

  /** One use of transitivity. */
  lemma Transitive<K(!new)>(c: Comparator<K>, a: K, b: K, d: K)
    requires TotalPreorder(c) && c.accepts(a) && c.accepts(b) && c.accepts(d)
    requires Le(c, a, b) && Le(c, b, d)
    ensures Le(c, a, d)
  {
    assert Between(c, a, b, d);
  }

  /** The natural order on integer keys (the default comparator for `int`). */
  function NaturalOrder(): (c: Comparator<int>)
    ensures TotalPreorder(c)
    ensures forall a: int, b: int :: Le(c, a, b) <==> a <= b
  {
    Comparator((a: int, b: int) => a - b, (a: int) => true)
  }

  /** The backing list: the sentinel at index 0 and exactly `n` entries at 1..n. */
  ghost predicate Shaped<K, V>(h: seq<Option<Entry<K, V>>>, n: int) {
    0 <= n && |h| == n + 1 && h[0] == None &&
    forall i :: 1 <= i <= n ==> h[i].Some?
  }

  /** The key stored in slot `i`. */
  function KeyAt<K, V>(h: seq<Option<Entry<K, V>>>, i: int): K
    requires 0 <= i < |h| && h[i].Some?
  {
    h[i].value.key
  }

  /** Every live key is one the comparator accepts. */
  ghost predicate AllAccepted<K, V>(h: seq<Option<Entry<K, V>>>, n: int, c: Comparator<K>)
    requires Shaped(h, n)
  {
    forall i :: 1 <= i <= n ==> c.accepts(KeyAt(h, i))
  }

  /** Heap order: the key in the parent slot `i / 2` orders no later than the key at `i`. */
  ghost predicate HeapOrdered<K, V>(h: seq<Option<Entry<K, V>>>, n: int, c: Comparator<K>)
    requires Shaped(h, n)
  {
    forall i :: 2 <= i <= n ==> Le(c, KeyAt(h, i / 2), KeyAt(h, i))
  }

  /** In a heap-ordered list the root key orders no later than any live key. */
  lemma {:induction false} RootIsLeast<K(!new), V>(h: seq<Option<Entry<K, V>>>, n: int, c: Comparator<K>, i: int)
    requires TotalPreorder(c) && Shaped(h, n) && AllAccepted(h, n, c) && HeapOrdered(h, n, c)
    requires 1 <= i <= n
    ensures Le(c, KeyAt(h, 1), KeyAt(h, i))
    decreases i
  {
    if i == 1 {
      assert c.accepts(KeyAt(h, 1));
    } else {
      RootIsLeast(h, n, c, i / 2);
      Transitive(c, KeyAt(h, 1), KeyAt(h, i / 2), KeyAt(h, i));
    }
  }

  /** The root entry of a heap-ordered list is a minimum of all its entries. */
  lemma RootIsMinimum<K(!new), V>(h: seq<Option<Entry<K, V>>>, n: int, c: Comparator<K>)
    requires TotalPreorder(c) && Shaped(h, n) && AllAccepted(h, n, c) && HeapOrdered(h, n, c)
    requires n >= 1
    ensures forall e :: Some(e) in h[1..] ==> Le(c, KeyAt(h, 1), e.key)
  {
    forall e | Some(e) in h[1..]
      ensures Le(c, KeyAt(h, 1), e.key)
    {
      var j :| 0 <= j < |h[1..]| && h[1..][j] == Some(e);
      RootIsLeast(h, n, c, j + 1);
    }
  }

  /** Moving the last entry into slot 1 keeps the sentinel layout for one
      entry fewer, keeps heap order below slot 1, and leaves the old root
      out of the multiset; the old root key still bounds every key. */
  lemma LastToRoot<K(!new), V>(h0: seq<Option<Entry<K, V>>>, h: seq<Option<Entry<K, V>>>, n: int, c: Comparator<K>)
    requires TotalPreorder(c) && n >= 1
    requires Shaped(h0, n + 1) && AllAccepted(h0, n + 1, c) && HeapOrdered(h0, n + 1, c)
    requires h == h0[..n + 1][1 := h0[n + 1]]
    ensures Shaped(h, n) && AllAccepted(h, n, c)
    ensures forall j :: 2 <= j <= n && j / 2 != 1 ==> Le(c, KeyAt(h, j / 2), KeyAt(h, j))
    ensures forall j :: 1 <= j <= n ==> Le(c, KeyAt(h0, 1), KeyAt(h, j))
    ensures multiset(h0[1..]) == multiset(h[1..]) + multiset{h0[1]}
  {
    assert h0[1..] == [h0[1]] + h0[2..n + 1] + [h0[n + 1]];
    assert h[1..] == [h0[n + 1]] + h0[2..n + 1];
    forall j | 1 <= j <= n
      ensures c.accepts(KeyAt(h, j))
    {
      assert KeyAt(h, j) == KeyAt(h0, if j == 1 then n + 1 else j);
    }
    forall j | 1 <= j <= n
      ensures Le(c, KeyAt(h0, 1), KeyAt(h, j))
    {
      RootIsLeast(h0, n + 1, c, if j == 1 then n + 1 else j);
    }
  }

  /** A key that bounds every slot bounds every stored entry. */
  lemma LeastOfAll<K, V>(h: seq<Option<Entry<K, V>>>, n: int, c: Comparator<K>, k: K)
    requires Shaped(h, n)
    requires forall j :: 1 <= j <= n ==> Le(c, k, KeyAt(h, j))
    ensures forall e :: Some(e) in h[1..] ==> Le(c, k, e.key)
  {
    forall e | Some(e) in h[1..]
      ensures Le(c, k, e.key)
    {
      var m :| 0 <= m < |h[1..]| && h[1..][m] == Some(e);
      assert KeyAt(h, m + 1) == e.key;
    }
  }

  /** The child `j` that sift-down picks orders no later than every child of `i`. */
  lemma SmallerChild<K(!new), V>(h: seq<Option<Entry<K, V>>>, n: int, c: Comparator<K>, i: int, j: int)
    requires TotalPreorder(c) && Shaped(h, n) && AllAccepted(h, n, c)
    requires 1 <= i && 2 * i <= j <= 2 * i + 1 && j <= n
    requires j == 2 * i ==> 2 * i + 1 > n || c.compare(KeyAt(h, j), KeyAt(h, j + 1)) <= 0
    requires j == 2 * i + 1 ==> c.compare(KeyAt(h, j - 1), KeyAt(h, j)) > 0
    ensures forall m :: 2 <= m <= n && m / 2 == i ==> Le(c, KeyAt(h, j), KeyAt(h, m))
  {
    forall m | 2 <= m <= n && m / 2 == i
      ensures Le(c, KeyAt(h, j), KeyAt(h, m))
    {
      assert c.accepts(KeyAt(h, j)) && c.accepts(KeyAt(h, m));
    }
  }

  /** Sift-down stops at a slot without children: heap order holds everywhere. */
  lemma NoChildren<K, V>(h: seq<Option<Entry<K, V>>>, n: int, c: Comparator<K>, i: int)
    requires Shaped(h, n) && 1 <= i && 2 * i > n
    requires forall j :: 2 <= j <= n && j / 2 != i ==> Le(c, KeyAt(h, j / 2), KeyAt(h, j))
    ensures HeapOrdered(h, n, c)
  {
  }

  /** Appending an accepted entry to a heap-ordered list gives a list whose
      only possible break in heap order is at the new last slot. */
  lemma AppendLeaf<K, V>(h0: seq<Option<Entry<K, V>>>, h: seq<Option<Entry<K, V>>>, n: int, c: Comparator<K>,
                         e: Entry<K, V>)
    requires Shaped(h0, n) && AllAccepted(h0, n, c) && HeapOrdered(h0, n, c)
    requires c.accepts(e.key) && h == h0 + [Some(e)]
    ensures Shaped(h, n + 1) && AllAccepted(h, n + 1, c)
    ensures forall j :: 2 <= j <= n + 1 && j != n + 1 ==> Le(c, KeyAt(h, j / 2), KeyAt(h, j))
    ensures multiset(h[1..]) == multiset(h0[1..]) + multiset{Some(e)}
  {
    forall j | 1 <= j <= n + 1
      ensures c.accepts(KeyAt(h, j))
    {
      assert j <= n ==> KeyAt(h, j) == KeyAt(h0, j);
    }
    forall j | 2 <= j <= n
      ensures Le(c, KeyAt(h, j / 2), KeyAt(h, j))
    {
      assert KeyAt(h, j) == KeyAt(h0, j) && KeyAt(h, j / 2) == KeyAt(h0, j / 2);
    }
    assert h[1..] == h0[1..] + [Some(e)];
  }

  /** Swapping two live slots keeps the layout and the entries and exchanges
      the two keys, leaving every other key where it was. */
  lemma SwapKeys<K, V>(h0: seq<Option<Entry<K, V>>>, h: seq<Option<Entry<K, V>>>, n: int, c: Comparator<K>,
                       i: int, j: int)
    requires 1 <= i <= n && 1 <= j <= n && Shaped(h0, n) && AllAccepted(h0, n, c)
    requires h == h0[i := h0[j]][j := h0[i]]
    ensures Shaped(h, n) && AllAccepted(h, n, c)
    ensures KeyAt(h, i) == KeyAt(h0, j) && KeyAt(h, j) == KeyAt(h0, i)
    ensures forall m :: 1 <= m <= n && m != i && m != j ==> KeyAt(h, m) == KeyAt(h0, m)
    ensures multiset(h[1..]) == multiset(h0[1..])
  {
    assert h[1..] == h0[1..][i - 1 := h0[j]][j - 1 := h0[i]];
    forall m | 1 <= m <= n
      ensures c.accepts(KeyAt(h, m))
    {
      var m0 := if m == i then j else if m == j then i else m;
      assert KeyAt(h, m) == KeyAt(h0, m0);
    }
  }

  /** Swapping a slot `i` with its strictly greater parent moves the only
      possible break in heap order up to the parent. */
  lemma SwapUp<K(!new), V>(h0: seq<Option<Entry<K, V>>>, h: seq<Option<Entry<K, V>>>, n: int, c: Comparator<K>, i: int)
    requires 2 <= i <= n && TotalPreorder(c)
    requires Shaped(h0, n) && AllAccepted(h0, n, c)
    requires c.compare(KeyAt(h0, i / 2), KeyAt(h0, i)) > 0
    requires forall j :: 2 <= j <= n && j != i ==> Le(c, KeyAt(h0, j / 2), KeyAt(h0, j))
    requires forall j :: 2 <= j <= n && j / 2 == i ==> Le(c, KeyAt(h0, i / 2), KeyAt(h0, j))
    requires h == h0[i := h0[i / 2]][i / 2 := h0[i]]
    ensures Shaped(h, n) && AllAccepted(h, n, c)
    ensures forall j :: 2 <= j <= n && j != i / 2 ==> Le(c, KeyAt(h, j / 2), KeyAt(h, j))
    ensures i / 2 >= 2 ==> forall j :: 2 <= j <= n && j / 2 == i / 2 ==> Le(c, KeyAt(h, i / 2 / 2), KeyAt(h, j))
    ensures multiset(h[1..]) == multiset(h0[1..])
  {
    var p := i / 2;
    SwapKeys(h0, h, n, c, i, p);
    forall j | 2 <= j <= n && j != p
      ensures Le(c, KeyAt(h, j / 2), KeyAt(h, j))
    {
      if j == i {
        assert c.accepts(KeyAt(h0, i)) && c.accepts(KeyAt(h0, p));
      } else if j / 2 == p {
        // the sibling of i: the new parent key is smaller than the old one
        assert c.accepts(KeyAt(h0, i)) && c.accepts(KeyAt(h0, p)) && c.accepts(KeyAt(h0, j));
        assert Le(c, KeyAt(h0, i), KeyAt(h0, p));
        Transitive(c, KeyAt(h0, i), KeyAt(h0, p), KeyAt(h0, j));
      } else if j / 2 == i {
        assert Le(c, KeyAt(h0, p), KeyAt(h0, j));
      } else {
        assert Le(c, KeyAt(h0, j / 2), KeyAt(h0, j));
      }
    }
    if p >= 2 {
      forall j | 2 <= j <= n && j / 2 == p
        ensures Le(c, KeyAt(h, p / 2), KeyAt(h, j))
      {
        assert Le(c, KeyAt(h0, p / 2), KeyAt(h0, p));
        assert c.accepts(KeyAt(h0, p / 2)) && c.accepts(KeyAt(h0, p)) && c.accepts(KeyAt(h0, j));
        if j != i {
          Transitive(c, KeyAt(h0, p / 2), KeyAt(h0, p), KeyAt(h0, j));
        }
      }
    }
  }

  /** Swapping a parent `i` with its smaller, strictly smaller child `j`
      moves the only possible break in heap order down to `j`, keeps every
      key above `least` and keeps the same entries. */
  lemma SwapDown<K(!new), V>(h0: seq<Option<Entry<K, V>>>, h: seq<Option<Entry<K, V>>>, n: int, c: Comparator<K>,
                             i: int, j: int, least: K)
    requires 1 <= i && 2 * i <= j <= 2 * i + 1 && j <= n && TotalPreorder(c)
    requires Shaped(h0, n) && AllAccepted(h0, n, c)
    requires c.compare(KeyAt(h0, i), KeyAt(h0, j)) > 0
    requires forall m :: 2 <= m <= n && m / 2 == i ==> Le(c, KeyAt(h0, j), KeyAt(h0, m))
    requires forall m :: 2 <= m <= n && m / 2 != i ==> Le(c, KeyAt(h0, m / 2), KeyAt(h0, m))
    requires i >= 2 ==> forall m :: 2 <= m <= n && m / 2 == i ==> Le(c, KeyAt(h0, i / 2), KeyAt(h0, m))
    requires forall m :: 1 <= m <= n ==> Le(c, least, KeyAt(h0, m))
    requires h == h0[i := h0[j]][j := h0[i]]
    ensures Shaped(h, n) && AllAccepted(h, n, c)
    ensures forall m :: 2 <= m <= n && m / 2 != j ==> Le(c, KeyAt(h, m / 2), KeyAt(h, m))
    ensures forall m :: 2 <= m <= n && m / 2 == j ==> Le(c, KeyAt(h, j / 2), KeyAt(h, m))
    ensures forall m :: 1 <= m <= n ==> Le(c, least, KeyAt(h, m))
    ensures multiset(h[1..]) == multiset(h0[1..])
  {
    SwapKeys(h0, h, n, c, i, j);
    forall m | 2 <= m <= n && m / 2 != j
      ensures Le(c, KeyAt(h, m / 2), KeyAt(h, m))
    {
      if m == j {
        assert c.accepts(KeyAt(h0, i)) && c.accepts(KeyAt(h0, j));
      } else if m / 2 == i {
        assert Le(c, KeyAt(h0, j), KeyAt(h0, m));
      } else if m == i {
        assert Le(c, KeyAt(h0, i / 2), KeyAt(h0, j));
      } else {
        assert Le(c, KeyAt(h0, m / 2), KeyAt(h0, m));
      }
    }
    forall m | 2 <= m <= n && m / 2 == j
      ensures Le(c, KeyAt(h, j / 2), KeyAt(h, m))
    {
      assert Le(c, KeyAt(h0, j), KeyAt(h0, m));
      assert c.accepts(KeyAt(h0, i)) && c.accepts(KeyAt(h0, j)) && c.accepts(KeyAt(h0, m));
    }
  }

  class HeapPQ<K(!new), V> {
    var heap: seq<Option<Entry<K, V>>>
    const comp: Comparator<K>
    var size: int

    /** The class invariant: sentinel layout, accepted keys, heap order. */
    ghost predicate Valid()
      reads this
    {
      TotalPreorder(comp) && Shaped(heap, size) && AllAccepted(heap, size, comp) &&
      HeapOrdered(heap, size, comp)
    }

    /** An empty heap with the given comparator. */
    constructor (c: Comparator<K>)
      requires TotalPreorder(c)
      ensures Valid() && comp == c
      ensures heap == [None] && size == 0
    {
      heap := [None];
      comp := c;
      size := 0;
    }

    function Size(): int
      reads this
    {
      size
    }

    /** Empty exactly when the backing list holds only the sentinel. */
    function IsEmpty(): (r: bool)
      reads this
      requires Valid()
      ensures r <==> heap == [None]
    {
      Size() == 0
    }

    /** Fails on an empty queue; otherwise the entry at slot 1, whose key
        orders no later than every stored key. */
    method Min() returns (r: Result<Entry<K, V>>)
      requires Valid()
      ensures r.Err? <==> size == 0
      ensures r.Err? ==> r.error == EmptyPriorityQueue
      ensures r.Ok? ==> heap[1] == Some(r.value)
      ensures r.Ok? ==> forall e :: Some(e) in heap[1..] ==> Le(comp, r.value.key, e.key)
    {
      if IsEmpty() {
        return Err(EmptyPriorityQueue);
      }
      RootIsMinimum(heap, size, comp);
      r := Ok(heap[1].value);
    }

    /** The check made before inserting: the comparator must accept the key. */
    function CheckKey(k: K): Result<()>
    {
      if comp.accepts(k) then Ok(()) else Err(InvalidKey)
    }

    /** Exchanges the contents of slots `i` and `j`; no other slot changes. */
    method Swap(i: int, j: int)
      requires 0 <= i < |heap| && 0 <= j < |heap|
      modifies this`heap
      ensures |heap| == |old(heap)|
      ensures heap[i] == old(heap)[j] && heap[j] == old(heap)[i]
      ensures forall m :: 0 <= m < |heap| && m != i && m != j ==> heap[m] == old(heap)[m]
    {
      var temp := heap[i];
      heap := heap[i := heap[j]];
      heap := heap[j := temp];
    }

    /** Inserts `(k, x)`: rejects a key the comparator does not accept;
        otherwise appends it at slot `size + 1` and sifts it up. */
    method Insert(k: K, x: V) returns (r: Result<Entry<K, V>>)
      requires Valid()
      modifies this`heap, this`size
      ensures Valid()
      ensures !comp.accepts(k) ==> r == Err(InvalidKey) && heap == old(heap) && size == old(size)
      ensures comp.accepts(k) ==> r == Ok(Entry(k, x)) && size == old(size) + 1
      ensures comp.accepts(k) ==> multiset(heap[1..]) == multiset(old(heap)[1..]) + multiset{Some(Entry(k, x))}
    {
      if CheckKey(k).Err? {
        return Err(InvalidKey);
      }
      var entry := Entry(k, x);
      heap := heap + [Some(entry)];
      var n := size + 1;
      AppendLeaf(old(heap), heap, size, comp, entry);
      var i := size + 1;
      while i / 2 >= 1 && comp.compare(KeyAt(heap, i / 2), KeyAt(heap, i)) > 0
        invariant n == size + 1 && 1 <= i <= n
        invariant Shaped(heap, n) && AllAccepted(heap, n, comp)
        invariant forall j :: 2 <= j <= n && j != i ==> Le(comp, KeyAt(heap, j / 2), KeyAt(heap, j))
        invariant i >= 2 ==> forall j :: 2 <= j <= n && j / 2 == i ==> Le(comp, KeyAt(heap, i / 2), KeyAt(heap, j))
        invariant multiset(heap[1..]) == multiset(old(heap)[1..]) + multiset{Some(entry)}
        decreases i
      {
        SiftUpStep(i, n);
        i := i / 2;
      }
      size := size + 1;
      r := Ok(entry);
    }

    /** One step of sift-up: the parent of `i` is strictly greater, so the
        two swap and the hole in heap order moves to the parent. */
    method SiftUpStep(i: int, n: int)
      requires 2 <= i <= n && TotalPreorder(comp)
      requires Shaped(heap, n) && AllAccepted(heap, n, comp)
      requires comp.compare(KeyAt(heap, i / 2), KeyAt(heap, i)) > 0
      requires forall j :: 2 <= j <= n && j != i ==> Le(comp, KeyAt(heap, j / 2), KeyAt(heap, j))
      requires forall j :: 2 <= j <= n && j / 2 == i ==> Le(comp, KeyAt(heap, i / 2), KeyAt(heap, j))
      modifies this`heap
      ensures Shaped(heap, n) && AllAccepted(heap, n, comp)
      ensures forall j :: 2 <= j <= n && j != i / 2 ==> Le(comp, KeyAt(heap, j / 2), KeyAt(heap, j))
      ensures i / 2 >= 2 ==> forall j :: 2 <= j <= n && j / 2 == i / 2 ==> Le(comp, KeyAt(heap, i / 2 / 2), KeyAt(heap, j))
      ensures multiset(heap[1..]) == multiset(old(heap)[1..])
    {
      var p := i / 2;
      ghost var h0 := heap;
      Swap(i, p);
      assert heap == h0[i := h0[p]][p := h0[i]];
      SwapUp(h0, heap, n, comp, i);
    }

    /** Removes and returns the entry at slot 1: fails on an empty queue;
        otherwise moves the last entry to slot 1 and sifts it down. */
    method RemoveMin() returns (r: Result<Entry<K, V>>)
      requires Valid()
      modifies this`heap, this`size
      ensures Valid()
      ensures old(size) == 0 ==> r == Err(EmptyPriorityQueue) && heap == old(heap) && size == old(size)
      ensures old(size) > 0 ==> r.Ok? && old(heap)[1] == Some(r.value) && size == old(size) - 1
      ensures old(size) > 0 ==> multiset(heap[1..]) + multiset{Some(r.value)} == multiset(old(heap)[1..])
      ensures r.Ok? ==> forall e :: Some(e) in heap[1..] ==> Le(comp, r.value.key, e.key)
    {
      if IsEmpty() {
        return Err(EmptyPriorityQueue);
      }
      var temp := Min();
      RootIsMinimum(heap, size, comp);
      if size == 1 {
        heap := heap[..1];
        size := size - 1;
        return temp;
      }
      ghost var h0 := heap;
      var last := heap[size];
      heap := heap[..size];
      heap := heap[1 := last];
      var n := size - 1;
      LastToRoot(h0, heap, n, comp);
      SiftDown(n, KeyAt(h0, 1));
      size := size - 1;
      r := temp;
      LeastOfAll(heap, n, comp, r.value.key);
    }

    /** Sift-down from slot 1 over the `n` live entries (the `size - 1` of
        the source's loop bound): swaps the entry with its smaller child while
        that child is strictly smaller. Restores heap order, keeps the
        multiset of entries and any lower bound on the keys. */
    method SiftDown(n: int, ghost least: K)
      requires TotalPreorder(comp) && n == size - 1 && n >= 1
      requires Shaped(heap, n) && AllAccepted(heap, n, comp)
      requires forall j :: 2 <= j <= n && j / 2 != 1 ==> Le(comp, KeyAt(heap, j / 2), KeyAt(heap, j))
      requires forall j :: 1 <= j <= n ==> Le(comp, least, KeyAt(heap, j))
      modifies this`heap
      ensures Shaped(heap, n) && AllAccepted(heap, n, comp) && HeapOrdered(heap, n, comp)
      ensures forall j :: 1 <= j <= n ==> Le(comp, least, KeyAt(heap, j))
      ensures multiset(heap[1..]) == multiset(old(heap)[1..])
    {
      var i := 1;
      while i * 2 <= size - 1
        invariant n == size - 1 && 1 <= i <= n
        invariant Shaped(heap, n) && AllAccepted(heap, n, comp)
        invariant forall j :: 2 <= j <= n && j / 2 != i ==> Le(comp, KeyAt(heap, j / 2), KeyAt(heap, j))
        invariant i >= 2 ==> forall j :: 2 <= j <= n && j / 2 == i ==> Le(comp, KeyAt(heap, i / 2), KeyAt(heap, j))
        invariant forall j :: 1 <= j <= n ==> Le(comp, least, KeyAt(heap, j))
        invariant multiset(heap[1..]) == multiset(old(heap)[1..])
        decreases n - i
      {
        var j := SmallerChildOf(i, n);
        if comp.compare(KeyAt(heap, i), KeyAt(heap, j)) > 0 {
          SiftDownStep(i, j, n, least);
          i := j;
        } else {
          SettledDown(i, j, n);
          break;
        }
      }
      if i * 2 > size - 1 {
        NoChildren(heap, n, comp, i);
      }
    }

    /** The child of `i` that sift-down compares against: the right child
        when there is one and the left key is strictly greater, else the
        left child. Its key is no greater than any child's. */
    function SmallerChildOf(i: int, n: int): (j: int)
      reads this
      requires TotalPreorder(comp) && n == size - 1 && 1 <= i && 2 * i <= n
      requires Shaped(heap, n) && AllAccepted(heap, n, comp)
      ensures 2 * i <= j <= 2 * i + 1 && j <= n
      ensures forall m :: 2 <= m <= n && m / 2 == i ==> Le(comp, KeyAt(heap, j), KeyAt(heap, m))
    {
      var j := i * 2;
      if j + 1 < size && comp.compare(KeyAt(heap, j), KeyAt(heap, j + 1)) > 0 then
        SmallerChild(heap, n, comp, i, j + 1);
        j + 1
      else
        SmallerChild(heap, n, comp, i, j);
        j
    }

    /** One step of sift-down: `j` is the smaller child of `i` and strictly
        smaller than it, so the two swap and the hole moves to `j`. */
    method SiftDownStep(i: int, j: int, n: int, ghost least: K)
      requires 1 <= i && 2 * i <= j <= 2 * i + 1 && j <= n && TotalPreorder(comp)
      requires Shaped(heap, n) && AllAccepted(heap, n, comp)
      requires comp.compare(KeyAt(heap, i), KeyAt(heap, j)) > 0
      requires forall m :: 2 <= m <= n && m / 2 == i ==> Le(comp, KeyAt(heap, j), KeyAt(heap, m))
      requires forall m :: 2 <= m <= n && m / 2 != i ==> Le(comp, KeyAt(heap, m / 2), KeyAt(heap, m))
      requires i >= 2 ==> forall m :: 2 <= m <= n && m / 2 == i ==> Le(comp, KeyAt(heap, i / 2), KeyAt(heap, m))
      requires forall m :: 1 <= m <= n ==> Le(comp, least, KeyAt(heap, m))
      modifies this`heap
      ensures Shaped(heap, n) && AllAccepted(heap, n, comp)
      ensures forall m :: 2 <= m <= n && m / 2 != j ==> Le(comp, KeyAt(heap, m / 2), KeyAt(heap, m))
      ensures forall m :: 2 <= m <= n && m / 2 == j ==> Le(comp, KeyAt(heap, j / 2), KeyAt(heap, m))
      ensures forall m :: 1 <= m <= n ==> Le(comp, least, KeyAt(heap, m))
      ensures multiset(heap[1..]) == multiset(old(heap)[1..])
    {
      ghost var h0 := heap;
      Swap(i, j);
      assert heap == h0[i := h0[j]][j := h0[i]];
      SwapDown(h0, heap, n, comp, i, j, least);
    }

    /** Sift-down stops at `i`: its smaller child `j` is not strictly smaller,
        so heap order holds everywhere. */
    lemma SettledDown(i: int, j: int, n: int)
      requires 1 <= i && 2 * i <= j <= 2 * i + 1 && j <= n && TotalPreorder(comp)
      requires Shaped(heap, n) && AllAccepted(heap, n, comp)
      requires Le(comp, KeyAt(heap, i), KeyAt(heap, j))
      requires forall m :: 2 <= m <= n && m / 2 == i ==> Le(comp, KeyAt(heap, j), KeyAt(heap, m))
      requires forall m :: 2 <= m <= n && m / 2 != i ==> Le(comp, KeyAt(heap, m / 2), KeyAt(heap, m))
      ensures HeapOrdered(heap, n, comp)
    {
      forall m | 2 <= m <= n && m / 2 == i
        ensures Le(comp, KeyAt(heap, i), KeyAt(heap, m))
      {
        Transitive(comp, KeyAt(heap, i), KeyAt(heap, j), KeyAt(heap, m));
      }
    }
  }
}
