/** The string set of lab3: a singly linked list of string nodes kept in
    strictly ascending `compareTo` order. The ghost `spine` lists the nodes
    from the head, so the list's contents can be stated as a sequence. */
module StringSets {

  /** `String.compareTo` on strings of Basic Multilingual Plane characters:
      the difference of the first differing characters, or of the lengths
      when one string is a prefix of the other. */
  function CompareTo(a: string, b: string): int
  {
    if a == [] || b == [] then |a| - |b|
    else if a[0] != b[0] then a[0] as int - b[0] as int
    else CompareTo(a[1..], b[1..])
  }

  predicate Less(a: string, b: string) {
    CompareTo(a, b) < 0
  }

  /** `compareTo` is zero exactly on equal strings. */
  lemma {:induction false} CompareZero(a: string, b: string)
    ensures CompareTo(a, b) == 0 <==> a == b
  {
    if a == [] || b == [] {
    } else if a[0] != b[0] {
    } else {
      CompareZero(a[1..], b[1..]);
      assert a == [a[0]] + a[1..] && b == [b[0]] + b[1..];
    }
  }

  /** Swapping the arguments negates `compareTo`. */
  lemma {:induction false} CompareFlip(a: string, b: string)
    ensures CompareTo(b, a) == -CompareTo(a, b)
  {
    if a == [] || b == [] {
    } else if a[0] != b[0] {
    } else {
      CompareFlip(a[1..], b[1..]);
    }
  }

  /** The order `compareTo` induces is transitive. */
  lemma {:induction false} LessTransitive(a: string, b: string, c: string)
    requires Less(a, b) && Less(b, c)
    ensures Less(a, c)
  {
    if a == [] || b == [] || c == [] {
    } else if a[0] != b[0] || b[0] != c[0] {
    } else {
      LessTransitive(a[1..], b[1..], c[1..]);
    }
  }

  /** Two different strings are ordered one way or the other. */
  lemma LessTotal(a: string, b: string)
    ensures a == b || Less(a, b) || Less(b, a)
    ensures !(Less(a, b) && Less(b, a)) && !Less(a, a)
  {
    CompareZero(a, b);
    CompareFlip(a, b);
    CompareZero(a, a);
  }

  /** Each string is smaller than every later one, hence no duplicates. */
  ghost predicate StrictlySorted(ss: seq<string>) {
    forall i, j :: 0 <= i < j < |ss| ==> Less(ss[i], ss[j])
  }

  /** `ss` with `s` put in its place, or unchanged when `s` is there already. */
  function InsertSorted(ss: seq<string>, s: string): seq<string> {
    if ss == [] then [s]
    else if ss[0] == s then ss
    else if Less(s, ss[0]) then [s] + ss
    else [ss[0]] + InsertSorted(ss[1..], s)
  }

  /** `ss` without its occurrences of `s`. */
  function Erase(ss: seq<string>, s: string): seq<string> {
    if ss == [] then []
    else (if ss[0] == s then [] else [ss[0]]) + Erase(ss[1..], s)
  }

  /** Inserting keeps a list strictly sorted and adds exactly `s`. */
  lemma {:induction false} InsertSortedSound(ss: seq<string>, s: string)
    requires StrictlySorted(ss)
    ensures StrictlySorted(InsertSorted(ss, s))
    ensures forall x :: x in InsertSorted(ss, s) <==> x in ss || x == s
    ensures s !in ss ==> |InsertSorted(ss, s)| == |ss| + 1
    ensures s in ss ==> InsertSorted(ss, s) == ss
  {
    if ss == [] {
    } else if ss[0] == s {
    } else if Less(s, ss[0]) {
      var r := [s] + ss;
      forall i, j | 0 <= i < j < |r|
        ensures Less(r[i], r[j])
      {
        if i == 0 && j > 1 {
          LessTransitive(s, ss[0], ss[j - 1]);
        }
      }
      forall x | x in ss
        ensures x != s
      {
        var k :| 0 <= k < |ss| && ss[k] == x;
        if k > 0 {
          LessTransitive(s, ss[0], ss[k]);
        }
        LessTotal(s, s);
      }
    } else {
      InsertSortedSound(ss[1..], s);
      LessTotal(s, ss[0]);
      var t := InsertSorted(ss[1..], s);
      var r := [ss[0]] + t;
      forall i, j | 0 <= i < j < |r|
        ensures Less(r[i], r[j])
      {
        if i == 0 {
          assert r[j] in t;
          assert r[j] in ss[1..] || r[j] == s;
        }
      }
      assert ss == [ss[0]] + ss[1..];
    }
  }

  /** Inserting at the first place whose string exceeds `s` is
      `InsertSorted`. */
  lemma {:induction false} InsertAt(ss: seq<string>, s: string, k: int)
    requires StrictlySorted(ss) && 0 <= k <= |ss|
    requires forall i :: 0 <= i < k ==> Less(ss[i], s)
    requires k < |ss| ==> Less(s, ss[k])
    ensures InsertSorted(ss, s) == ss[..k] + [s] + ss[k..]
  {
    if k == 0 {
      if ss != [] {
        LessTotal(s, ss[0]);
      }
    } else {
      LessTotal(ss[0], s);
      InsertAt(ss[1..], s, k - 1);
      assert ss[1..][..k - 1] == ss[1..k];
      assert ss[1..][k - 1..] == ss[k..];
      assert ss[..k] == [ss[0]] + ss[1..k];
    }
  }

  /** Erasing keeps a list strictly sorted and drops exactly `s`. */
  lemma {:induction false} EraseSound(ss: seq<string>, s: string)
    requires StrictlySorted(ss)
    ensures StrictlySorted(Erase(ss, s))
    ensures forall x :: x in Erase(ss, s) <==> x in ss && x != s
    ensures s !in ss ==> Erase(ss, s) == ss
    ensures s in ss ==> |Erase(ss, s)| == |ss| - 1
  {
    if ss != [] {
      EraseSound(ss[1..], s);
      var t := Erase(ss[1..], s);
      if ss[0] != s {
        var r := [ss[0]] + t;
        forall i, j | 0 <= i < j < |r|
          ensures Less(r[i], r[j])
        {
          if i == 0 {
            assert r[j] in t;
            assert r[j] in ss[1..];
          }
        }
      } else {
        forall x | x in ss[1..]
          ensures x != s
        {
          LessTotal(s, s);
        }
      }
      assert ss == [ss[0]] + ss[1..];
    }
  }

  /** Erasing the string at `k` of a strictly sorted list cuts out that place. */
  lemma {:induction false} EraseAt(ss: seq<string>, k: int)
    requires StrictlySorted(ss) && 0 <= k < |ss|
    ensures Erase(ss, ss[k]) == ss[..k] + ss[k + 1..]
  {
    var s := ss[k];
    if k == 0 {
      EraseSound(ss[1..], s);
      forall x | x in ss[1..]
        ensures x != s
      {
        LessTotal(s, s);
      }
    } else {
      LessTotal(s, s);
      EraseAt(ss[1..], k - 1);
      assert ss[1..][..k - 1] == ss[1..k];
      assert ss[1..][k..] == ss[k + 1..];
      assert ss[..k] == [ss[0]] + ss[1..k];
    }
  }

  class Node {
    const element: string
    var next: Node?

    constructor (e: string, n: Node?)
      ensures element == e && next == n
    {
      element := e;
      next := n;
    }
  }

  /** The strings held by a run of nodes. */
  function Strings(ns: seq<Node>): (ss: seq<string>)
    ensures |ss| == |ns| && forall i :: 0 <= i < |ns| ==> ss[i] == ns[i].element
  {
    seq(|ns|, i requires 0 <= i < |ns| => ns[i].element)
  }

  /** What the `next` link of the `i`-th node of a chain should be. */
  function NextOf(ns: seq<Node>, i: int): Node?
    requires 0 <= i < |ns|
  {
    if i + 1 < |ns| then ns[i + 1] else null
  }

  /** Each node of `ns` links to the following one, and the last to `null`. */
  ghost predicate Chained(ns: seq<Node>)
    reads ns
  {
    forall i {:trigger ns[i].next} :: 0 <= i < |ns| ==> ns[i].next == NextOf(ns, i)
  }

  /** Nodes holding strictly ascending strings are distinct. */
  lemma NodesDistinct(ns: seq<Node>)
    requires StrictlySorted(Strings(ns))
    ensures forall i, j :: 0 <= i < j < |ns| ==> ns[i] != ns[j]
  {
    forall i, j | 0 <= i < j < |ns|
      ensures ns[i] != ns[j]
    {
      LessTotal(ns[i].element, ns[j].element);
    }
  }

  class StringSet {
    var head: Node?
    var size: int
    ghost var spine: seq<Node>

    /** `head` starts the chain of `spine`, and the strings along it are
        strictly ascending. */
    ghost predicate Valid()
      reads this, spine
    {
      head == (if spine == [] then null else spine[0]) &&
      Chained(spine) && StrictlySorted(Strings(spine))
    }

    /** The strings of the set, in list order. */
    ghost function Elements(): seq<string>
      reads this
    {
      Strings(spine)
    }

    /** The counter matches the number of strings. */
    ghost predicate Counted()
      reads this
    {
      size == |spine|
    }

    /** An empty set. */
    constructor ()
      ensures Valid() && Counted() && spine == [] && Elements() == []
    {
      head := null;
      size := 0;
      spine := [];
    }

    function IsEmpty(): bool
      reads this
    {
      size == 0
    }

    /** When the counter is kept, emptiness is having no strings. */
    lemma EmptyIffNone()
      requires Valid() && Counted()
      ensures IsEmpty() <==> Elements() == []
    {
    }

    /** The first node holding `s`, or `null` when there is none. */
    method Find(s: string) returns (x: Node?)
      requires Valid()
      ensures x == null <==> s !in Elements()
      ensures x != null ==> exists k :: 0 <= k < |spine| && spine[k] == x && Elements()[k] == s && s !in Elements()[..k]
    {
      x := head;
      ghost var k := 0;
      while x != null
        invariant 0 <= k <= |spine|
        invariant x == (if k < |spine| then spine[k] else null)
        invariant s !in Elements()[..k]
        decreases |spine| - k
      {
        if x.element == s {
          return;
        }
        assert Elements()[..k + 1] == Elements()[..k] + [Elements()[k]];
        assert x.next == NextOf(spine, k);
        x := x.next;
        k := k + 1;
      }
      assert Elements()[..k] == Elements();
    }

    /** Whether some node holds `s`. */
    method Contains(s: string) returns (b: bool)
      requires Valid()
      ensures b <==> s in Elements()
    {
      var x := Find(s);
      b := x != null;
    }

    /** Adds `s` in its sorted place and counts it; a string already there
        changes nothing. */
    method Insert(s: string)
      requires Valid()
      modifies this, set n | n in spine
      ensures Valid()
      ensures Elements() == InsertSorted(old(Elements()), s)
      ensures old(s in Elements()) ==> size == old(size) && spine == old(spine)
      ensures old(s !in Elements()) ==> size == old(size) + 1
      ensures forall n :: n in spine ==> n in old(spine) || fresh(n)
    {
      var present := Contains(s);
      if present {
        InsertSortedSound(Elements(), s);
        return;
      }
      Place(s);
      size := size + 1;
    }

    /** The linking step of `insert` for a string not yet present: a new
        node goes in front of the head or after the walk's stopping node. */
    method Place(s: string)
      requires Valid() && s !in Elements()
      modifies this, set n | n in spine
      ensures Valid() && size == old(size)
      ensures Elements() == InsertSorted(old(Elements()), s)
      ensures forall n :: n in spine ==> n in old(spine) || fresh(n)
    {
      ghost var E := Elements();
      InsertSortedSound(E, s);
      if head == null {
        InsertAt(E, s, 0);
        LinkFirst(s);
      } else {
        var b, k := FindPlace(s);
        InsertAt(E, s, k);
        if b == head && CompareTo(b.element, s) > 0 {
          LinkFirst(s);
        } else {
          LinkAfter(b, k, s);
        }
      }
    }

    /** The walk of `insert`: the last node whose string is smaller than
        `s`, or the head when there is none; `k` is how many strings are
        smaller than `s`. */
    method FindPlace(s: string) returns (b: Node, ghost k: int)
      requires Valid() && head != null && s !in Elements()
      ensures 0 <= k <= |spine|
      ensures forall i :: 0 <= i < k ==> Less(Elements()[i], s)
      ensures k < |spine| ==> Less(s, Elements()[k])
      ensures k == 0 ==> b == head && CompareTo(b.element, s) > 0
      ensures k > 0 ==> b == spine[k - 1] && CompareTo(b.element, s) < 0
    {
      ghost var E := Elements();
      var t := head;
      b := head;
      k := 0;
      ghost var last := false;
      while CompareTo(t.element, s) < 0
        invariant 0 <= k < |spine| && t == spine[k]
        invariant forall i :: 0 <= i < k ==> Less(E[i], s)
        invariant k == 0 ==> b == spine[0]
        invariant k > 0 ==> b == spine[k - 1]
        decreases |spine| - k
      {
        b := t;
        assert t.next == NextOf(spine, k);
        if t.next == null {
          last := true;
          break;
        } else {
          t := t.next;
          k := k + 1;
        }
      }
      if last {
        assert k == |spine| - 1 && b == spine[k] && Less(E[k], s);
        k := k + 1;
      } else {
        CompareZero(t.element, s);
        CompareFlip(t.element, s);
        assert Less(s, E[k]);
      }
    }

    /** Puts a new node holding `s` in front of the head. */
    method LinkFirst(s: string)
      requires Valid() && (spine != [] ==> Less(s, Elements()[0]))
      requires StrictlySorted([s] + Elements())
      modifies this
      ensures Valid() && size == old(size)
      ensures Elements() == [s] + old(Elements())
      ensures |spine| == |old(spine)| + 1 && fresh(spine[0]) && spine[1..] == old(spine)
      ensures forall n :: n in spine ==> n in old(spine) || fresh(n)
    {
      var x := new Node(s, head);
      head := x;
      spine := [x] + spine;
      assert Elements() == [s] + old(Elements());
    }

    /** Links a new node holding `s` after `b`, the `k`-th node. */
    method LinkAfter(b: Node, ghost k: int, s: string)
      requires Valid() && 0 < k <= |spine| && b == spine[k - 1]
      requires StrictlySorted(Elements()[..k] + [s] + Elements()[k..])
      modifies this, b
      ensures Valid() && size == old(size)
      ensures Elements() == old(Elements())[..k] + [s] + old(Elements())[k..]
      ensures spine == old(spine)[..k] + [spine[k]] + old(spine)[k..] && fresh(spine[k])
      ensures forall n :: n in spine ==> n in old(spine) || fresh(n)
    {
      ghost var S := spine;
      ghost var E := Elements();
      NodesDistinct(S);
      var a := b.next;
      var x := new Node(s, a);
      b.next := x;
      spine := S[..k] + [x] + S[k..];
      forall i | 0 <= i < |spine|
        ensures spine[i].next == NextOf(spine, i)
      {
        if i < k - 1 {
          assert spine[i] == S[i] && S[i] != b && spine[i + 1] == S[i + 1];
        } else if i > k {
          assert spine[i] == S[i - 1] && S[i - 1] != b;
        }
      }
      assert Elements() == E[..k] + [s] + E[k..];
    }

    /** Unlinks the node holding `s`, if any, and reports whether it was found. */
    method Unlink(s: string) returns (found: bool)
      requires Valid()
      modifies this, set n | n in spine
      ensures Valid() && size == old(size)
      ensures found <==> old(s in Elements())
      ensures Elements() == Erase(old(Elements()), s)
      ensures forall n :: n in spine ==> n in old(spine)
    {
      var r := Find(s);
      EraseSound(Elements(), s);
      if r == null {
        return false;
      }
      ghost var E := Elements();
      ghost var j :| 0 <= j < |spine| && spine[j] == r && E[j] == s;
      EraseAt(E, j);
      if head == r {
        NodesDistinct(spine);
        assert j == 0;
        DropHead();
      } else {
        var y := Predecessor(r, j);
        var a := y.next.next;
        var b := y;
        CutAfter(b, a, j);
      }
      found := true;
    }

    /** The walk of `remove`: the node just before `r`, the `j`-th node. */
    method Predecessor(r: Node, ghost j: int) returns (y: Node)
      requires Valid() && 0 < j < |spine| && spine[j] == r
      ensures y == spine[j - 1]
    {
      NodesDistinct(spine);
      var x := head;
      var p: Node? := null;
      ghost var k := 0;
      while x != r
        invariant 0 <= k <= j && x == spine[k]
        invariant k > 0 ==> p == spine[k - 1]
        decreases j - k
      {
        p := x;
        assert x.next == NextOf(spine, k);
        x := x.next;
        k := k + 1;
      }
      y := p;
    }

    /** Moves the head to the next node. */
    method DropHead()
      requires Valid() && head != null
      modifies this
      ensures Valid() && size == old(size)
      ensures spine == old(spine)[1..]
      ensures Elements() == old(Elements())[1..]
      ensures forall n :: n in spine ==> n in old(spine)
    {
      assert head.next == NextOf(spine, 0);
      head := head.next;
      spine := spine[1..];
    }

    /** Relinks `b`, the node before the `j`-th, to `a`, the node after it. */
    method CutAfter(b: Node, a: Node?, ghost j: int)
      requires Valid() && 0 < j < |spine| && b == spine[j - 1]
      requires a == spine[j].next
      requires StrictlySorted(Elements()[..j] + Elements()[j + 1..])
      modifies this, b
      ensures Valid() && size == old(size)
      ensures spine == old(spine)[..j] + old(spine)[j + 1..]
      ensures Elements() == old(Elements())[..j] + old(Elements())[j + 1..]
      ensures forall n :: n in spine ==> n in old(spine)
    {
      ghost var S := spine;
      ghost var E := Elements();
      NodesDistinct(S);
      assert a == NextOf(S, j);
      b.next := a;
      spine := S[..j] + S[j + 1..];
      forall i | 0 <= i < |spine|
        ensures spine[i].next == NextOf(spine, i)
      {
        if i < j - 1 {
          assert spine[i] == S[i] && S[i] != b && spine[i + 1] == S[i + 1];
        } else if i >= j {
          assert spine[i] == S[i + 1] && S[i + 1] != b;
        }
      }
      assert Elements() == E[..j] + E[j + 1..];
    }

    /** Unlinks the node holding `s`, if any; the counter is left as it is. */
    method Remove(s: string)
      requires Valid()
      modifies this, set n | n in spine
      ensures Valid() && size == old(size)
      ensures Elements() == Erase(old(Elements()), s)
      ensures forall n :: n in spine ==> n in old(spine)
    {
      var _ := Unlink(s);
    }

    /** `Remove` with the counter kept: it drops by one when a string goes. */
    method RemoveCounted(s: string)
      requires Valid()
      modifies this, set n | n in spine
      ensures Valid()
      ensures Elements() == Erase(old(Elements()), s)
      ensures size == if old(s in Elements()) then old(size) - 1 else old(size)
      ensures forall n :: n in spine ==> n in old(spine)
    {
      var found := Unlink(s);
      if found {
        size := size - 1;
      }
    }
  }

  /** Inserting a string and removing it again leaves no strings but a
      counter of one, so the set reports itself non-empty. */
  method StaleSizeExample() returns (set1: StringSet)
    ensures set1.Valid() && set1.Elements() == [] && !set1.IsEmpty()
  {
    set1 := new StringSet();
    set1.Insert("a");
    set1.Remove("a");
  }

  /** With the corrected removal the same calls leave an empty set. */
  method CountedExample() returns (set1: StringSet)
    ensures set1.Valid() && set1.Elements() == [] && set1.IsEmpty()
  {
    set1 := new StringSet();
    set1.Insert("a");
    set1.RemoveCounted("a");
  }
}
