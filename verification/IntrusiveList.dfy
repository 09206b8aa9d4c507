/** The circular doubly linked list of `utils/list.h`: the nodes relink each other in place,
    and a list that points at its first node is the sequence of the nodes in its ring. */
module IntrusiveList {
  /** `__intrusive_list_node`. */
  class Node {
    var prev: Node
    var next: Node

    constructor ()
      ensures IsRing([this]) && fresh(this)
    {
      prev := this;
      next := this;
    }

    /** `single`. */
    method Single(ghost s: seq<Node>) returns (b: bool)
      requires IsRing(s) && this in s
      ensures b <==> |s| == 1
    {
      SingleIff(s, this);
      b := prev == this || next == this;
    }

    /** `insert_between`, which does nothing unless this node is alone; `s` is the ring it
        goes into, behind its last node, `t` the ring it is in, which may be the same. */
    method InsertBetween(before: Node, after: Node, ghost s: seq<Node>, ghost t: seq<Node>)
      requires IsRing(s) && before == s[|s| - 1] && after == s[0]
      requires IsRing(t) && t[0] == this
      modifies this, before, after
      ensures Joins(this, s, t) ==> IsRing(s + [this])
      ensures !Joins(this, s, t) ==> IsRing(s) && IsRing(t)
    {
      if this in s { SingleIff(s, this); }
      var alone := Single(t);
      if !alone { return; }
      before.next := this;
      after.prev := this;
      prev := before;
      next := after;
    }

    /** `insert_before`, for the ring that starts with this node: at its end. */
    method InsertBefore(ptr: Node, ghost s: seq<Node>, ghost t: seq<Node>)
      requires IsRing(s) && s[0] == this
      requires IsRing(t) && t[0] == ptr
      modifies this, prev, ptr
      ensures Joins(ptr, s, t) ==> IsRing(s + [ptr])
      ensures !Joins(ptr, s, t) ==> IsRing(s) && IsRing(t)
    {
      ptr.InsertBetween(prev, this, s, t);
    }

    /** `insert_after`, for the ring that starts with this node: behind it. */
    method InsertAfter(ptr: Node, ghost s: seq<Node>, ghost t: seq<Node>)
      requires IsRing(s) && s[0] == this
      requires IsRing(t) && t[0] == ptr
      modifies this, next, ptr
      ensures Joins(ptr, s, t) ==> IsRing([this, ptr] + s[1..])
      ensures !Joins(ptr, s, t) ==> IsRing(s) && IsRing(t)
    {
      ghost var r := s[1..] + [s[0]];
      Rotated(s);
      assert next == r[0];
      ptr.InsertBetween(this, next, r, t);
      if Joins(ptr, s, t) {
        RotatedBack(r + [ptr], |s| - 1);
        assert (r + [ptr])[|s| - 1..] + (r + [ptr])[..|s| - 1] == [this, ptr] + s[1..];
      } else {
        RotatedBack(r, |s| - 1);
        assert r[|s| - 1..] + r[..|s| - 1] == s;
      }
    }

    /** `insert_list_between`: the ring of this node, at the end of the ring `s`. */
    method InsertListBetween(before: Node, after: Node, ghost s: seq<Node>, ghost t: seq<Node>)
      requires IsRing(s) && before == s[|s| - 1] && after == s[0]
      requires IsRing(t) && t[0] == this && Disjoint(s, t)
      modifies this, prev, before, after
      ensures IsRing(s + t)
    {
      var a := this;
      var b := prev;
      before.next := a;
      a.prev := before;
      after.prev := b;
      b.next := after;
      JoinChains(s, t);
    }

    /** `insert_list_before`. */
    method InsertListBefore(ptr: Node, ghost s: seq<Node>, ghost t: seq<Node>)
      requires IsRing(s) && s[0] == this
      requires IsRing(t) && t[0] == ptr && Disjoint(s, t)
      modifies this, prev, ptr, ptr.prev
      ensures IsRing(s + t)
    {
      ptr.InsertListBetween(prev, this, s, t);
    }

    /** `insert_list_after`. */
    method InsertListAfter(ptr: Node, ghost s: seq<Node>, ghost t: seq<Node>)
      requires IsRing(s) && s[0] == this
      requires IsRing(t) && t[0] == ptr && Disjoint(s, t)
      modifies this, next, ptr, ptr.prev
      ensures IsRing([this] + t + s[1..])
    {
      ghost var r := s[1..] + [s[0]];
      Rotated(s);
      assert next == r[0];
      ptr.InsertListBetween(this, next, r, t);
      RotatedBack(r + t, |s| - 1);
      assert (r + t)[|s| - 1..] + (r + t)[..|s| - 1] == [this] + t + s[1..];
    }

    /** `remove_from_list`, for the node at `k`: it is alone then, the others close up. */
    method RemoveFromList(ghost s: seq<Node>, ghost k: nat) returns (following: Node?)
      requires IsRing(s) && k < |s| && s[k] == this
      modifies this, prev, next
      ensures IsRing([this])
      ensures |s| == 1 ==> following == null
      ensures |s| > 1 ==> IsRing(Without(s, k)) && following == s[if k + 1 == |s| then 0 else k + 1]
    {
      var alone := Single(s);
      if alone { return null; }
      ghost var p, q := if k == 0 then |s| - 1 else k - 1, if k + 1 == |s| then 0 else k + 1;
      assert prev == s[p] && next == s[q];
      next.prev := prev;
      prev.next := next;
      following := next;
      prev := this;
      next := this;
      forall i | 0 <= i < |s| - 1 && i != k && i + 1 != k
        ensures s[i].next == s[i + 1] && s[i + 1].prev == s[i]
      {
        assert s[i] != s[p] && s[i + 1] != s[q] && s[i] != s[k] && s[i + 1] != s[k];
      }
      ClosedUp(s, k);
    }

    /** `split`: two rings, the second from `ptr` on. */
    method Split(ptr: Node, ghost s: seq<Node>, ghost k: nat)
      requires IsRing(s) && s[0] == this && 0 < k < |s| && s[k] == ptr
      modifies this, prev, ptr, ptr.prev
      ensures IsRing(s[..k]) && IsRing(s[k..])
    {
      var front_head, front_tail := this, ptr.prev;
      var back_head, back_tail := ptr, this.prev;
      assert front_tail == s[k - 1] && back_tail == s[|s| - 1];
      front_head.prev := front_tail;
      front_tail.next := front_head;
      back_head.prev := back_tail;
      back_tail.next := back_head;
      forall i | 0 <= i < |s| - 1 && i != k - 1 ensures s[i].next == s[i + 1] && s[i + 1].prev == s[i] {
        assert s[i] != s[k - 1] && s[i] != s[|s| - 1] && s[i + 1] != s[0] && s[i + 1] != s[k];
      }
      CutChain(s, k);
    }
  }

  // ---------------------------------------------------------------- lists

  /** `intrusive_list`; `contents` is the ring from the first node on. */
  class List {
    var node: Node?
    ghost var contents: seq<Node>

    ghost predicate Valid()
      reads this, contents
    {
      && (node == null <==> contents == [])
      && (contents != [] ==> contents[0] == node && IsRing(contents))
    }

    /** An empty list, or the list of a ring. */
    constructor (first: Node?, ghost ring: seq<Node>)
      requires if first == null then ring == [] else IsRing(ring) && ring[0] == first
      ensures Valid() && contents == ring && fresh(this)
    {
      node := first;
      contents := ring;
    }

    /** `push_back` of the node `ptr`, whose ring is `t`.  A node that is not alone, one of this
        list among them, is not inserted into a list, but an empty list takes its whole ring. */
    method PushBack(ptr: Node, ghost t: seq<Node>)
      requires Valid() && IsRing(t) && t[0] == ptr
      modifies this, contents, ptr
      ensures Valid()
      ensures contents ==
        if old(contents) == [] then t else if Joins(ptr, old(contents), t) then old(contents) + [ptr] else old(contents)
      ensures !Joins(ptr, old(contents), t) ==> IsRing(t)
    {
      if node == null {
        node := ptr;
        contents := t;
      } else {
        node.InsertBefore(ptr, contents, t);
        if Joins(ptr, contents, t) { contents := contents + [ptr]; }
      }
    }

    /** `push_back` of a list, which is emptied.  An empty one must not be appended to a list
        that is not: the ring operation would follow its null pointer. */
    method PushBackList(lst: List)
      requires Valid() && lst.Valid() && lst != this && Disjoint(contents, lst.contents)
      requires contents == [] || lst.contents != []
      modifies this, contents, lst, lst.contents
      ensures Valid() && lst.Valid()
      ensures contents == old(contents) + old(lst.contents) && lst.contents == []
    {
      if node == null {
        node := lst.node;
      } else {
        node.InsertListBefore(lst.node, contents, lst.contents);
      }
      contents := contents + lst.contents;
      lst.node := null;
      lst.contents := [];
    }

    /** `push_front` of a node.  If it is not alone the list is lost for its ring; if it is one
        of this list, which is the same ring, the list begins with it then. */
    method PushFront(ptr: Node, ghost t: seq<Node>)
      requires Valid() && IsRing(t) && t[0] == ptr
      modifies this, contents, ptr
      ensures Valid()
      ensures contents == if Joins(ptr, old(contents), t) then [ptr] + old(contents) else t
      ensures !Joins(ptr, old(contents), t) && old(contents) != [] ==> IsRing(old(contents))
      ensures forall k :: 0 <= k < |old(contents)| && old(contents)[k] == ptr ==>
        contents == old(contents)[k..] + old(contents)[..k]
    {
      ghost var s := contents;
      ghost var joins := Joins(ptr, s, t);
      forall k | 0 <= k < |s| && s[k] == ptr ensures t == s[k..] + s[..k] {
        RotatedBack(s, k);
        OneRing(t, s[k..] + s[..k]);
      }
      if node != null {
        node.InsertBefore(ptr, contents, t);
        if joins {
          RotatedBack(s + [ptr], |s|);
          assert (s + [ptr])[|s|..] + (s + [ptr])[..|s|] == [ptr] + s;
        }
      }
      node := ptr;
      contents := if joins then [ptr] + s else t;
      assert joins ==> t == [ptr];
    }

    /** `pop_front`. */
    method PopFront() returns (rst: Node?)
      requires Valid()
      modifies this, contents
      ensures Valid()
      ensures old(contents) == [] ==> rst == null && contents == []
      ensures old(contents) != [] ==> rst == old(contents)[0] && contents == old(contents)[1..] && IsRing([rst])
    {
      if node == null { return null; }
      rst := node;
      Neighbours(contents, 0);
      node := node.RemoveFromList(contents, 0);
      assert Without(contents, 0) == contents[1..];
      contents := contents[1..];
    }

    /** `pop_back`. */
    method PopBack() returns (rst: Node?)
      requires Valid()
      modifies this, contents
      ensures Valid()
      ensures old(contents) == [] ==> rst == null && contents == []
      ensures old(contents) != [] ==>
        var last := |old(contents)| - 1;
        rst == old(contents)[last] && contents == old(contents)[..last] && IsRing([rst])
    {
      if node == null { return null; }
      ghost var last := |contents| - 1;
      Neighbours(contents, 0);
      Neighbours(contents, last);
      rst := node.prev;
      if rst == node {
        node := null;
      } else {
        var _ := rst.RemoveFromList(contents, last);
        assert Without(contents, last) == contents[..last];
      }
      contents := contents[..last];
    }

    /** `erase`: the node at `k` goes, the one behind it is returned, the first behind the
        last, and null if none is left. */
    method Erase(ptr: Node, ghost k: nat) returns (nx: Node?)
      requires Valid() && k < |contents| && contents[k] == ptr
      modifies this, contents
      ensures Valid() && contents == Without(old(contents), k) && IsRing([ptr])
      ensures nx == if contents == [] then null else contents[if k == |contents| then 0 else k]
    {
      Neighbours(contents, k);
      nx := ptr.RemoveFromList(contents, k);
      if ptr == node { node := nx; }
      contents := Without(contents, k);
    }

    /** What both splits come to when `rest_head`, at `k`, is neither first nor missing. */
    method CutAt(rest_head: Node, ghost k: nat) returns (front: List)
      requires Valid() && 0 < k < |contents| && contents[k] == rest_head
      modifies this, contents
      ensures Valid() && front.Valid() && fresh(front)
      ensures front.contents == old(contents)[..k] && contents == old(contents)[k..]
    {
      var ret := node;
      ghost var s := contents;
      SplitReach(s, k);
      node.Split(rest_head, s, k);
      node, contents := rest_head, s[k..];
      front := new List(ret, s[..k]);
    }

    /** All elements are split off. */
    method TakeAll() returns (front: List)
      requires Valid()
      modifies this
      ensures Valid() && front.Valid() && fresh(front)
      ensures front.contents == old(contents) && contents == []
    {
      var ret := node;
      ghost var s := contents;
      node, contents := null, [];
      front := new List(ret, s);
    }

    /** `split_front_inclusive`: the nodes up to `ptr`, at `k`, become a list of their own. */
    method SplitFrontInclusive(ptr: Node?, ghost k: nat) returns (front: List)
      requires Valid() && (ptr != null ==> k < |contents| && contents[k] == ptr)
      modifies this, contents
      ensures Valid() && front.Valid() && fresh(front)
      ensures var n := if ptr == null then 0 else k + 1;
        front.contents == old(contents)[..n] && contents == old(contents)[n..]
    {
      if node == null || ptr == null {
        front := new List(null, []);
        return;
      }
      Neighbours(contents, k);
      if ptr.next == node {
        assert contents[..k + 1] == contents && contents[k + 1..] == [];
        front := TakeAll();
        return;
      }
      front := CutAt(ptr.next, k + 1);
    }

    /** `split_front_exclusive`: the nodes in front of `ptr`, at `k`, or all for null. */
    method SplitFrontExclusive(ptr: Node?, ghost k: nat) returns (front: List)
      requires Valid() && (ptr != null ==> k < |contents| && contents[k] == ptr)
      modifies this, contents
      ensures Valid() && front.Valid() && fresh(front)
      ensures var n := if ptr == null then |old(contents)| else k;
        front.contents == old(contents)[..n] && contents == old(contents)[n..]
    {
      if ptr == null {
        assert contents[..|contents|] == contents && contents[|contents|..] == [];
        front := TakeAll();
        return;
      }
      FirstIsFirst(contents, k);
      if node == null || ptr == node {
        front := new List(null, []);
        return;
      }
      front := CutAt(ptr, k);
    }

    /** The loop of `split_by_predicate`. */
    method FirstNotFit(pred: Node -> bool) returns (x: Node?, ghost k: nat)
      requires Valid()
      ensures if x == null then k == |contents| else k < |contents| && contents[k] == x && !pred(x)
      ensures k <= |contents| && forall i :: 0 <= i < k ==> pred(contents[i])
    {
      x, k := node, 0;
      while x != null
        invariant if x == null then k == |contents| else k < |contents| && contents[k] == x
        invariant k <= |contents| && forall i :: 0 <= i < k ==> pred(contents[i])
        decreases |contents| - k
      {
        if !pred(x) { return; }
        Neighbours(contents, k);
        x := x.next;
        k := k + 1;
        if x == node { x := null; }
      }
    }

    /** `split_by_predicate`: the longest front that satisfies `pred`. */
    method SplitByPredicate(pred: Node -> bool) returns (front: List)
      requires Valid()
      modifies this, contents
      ensures Valid() && front.Valid() && fresh(front)
      ensures front.contents + contents == old(contents)
      ensures forall i :: 0 <= i < |front.contents| ==> pred(front.contents[i])
      ensures contents != [] ==> !pred(contents[0])
    {
      if node == null {
        front := new List(null, []);
        return;
      }
      ghost var k;
      var first_not_fit;
      first_not_fit, k := FirstNotFit(pred);
      front := SplitFrontExclusive(first_not_fit, k);
    }
  }

  // ---------------------------------------------------------------- rings

  ghost predicate Distinct(s: seq<Node>) {
    forall i, j :: 0 <= i < j < |s| ==> s[i] != s[j]
  }

  ghost predicate Disjoint(s: seq<Node>, t: seq<Node>) {
    forall i, j :: 0 <= i < |s| && 0 <= j < |t| ==> s[i] != t[j]
  }

  /** `ptr`, first of the ring `t`, can be inserted into the ring of `s`: it is alone, and not in `s`. */
  ghost predicate Joins(ptr: Node, s: seq<Node>, t: seq<Node>) {
    |t| == 1 && ptr !in s
  }

  /** Neighbours in `s` are linked both ways. */
  ghost predicate Chain(s: seq<Node>)
    reads s
  {
    forall i :: 0 <= i < |s| - 1 ==> s[i].next == s[i + 1] && s[i + 1].prev == s[i]
  }

  /** `s` is all there is to a ring, from one of its nodes on. */
  ghost predicate IsRing(s: seq<Node>)
    reads s
  {
    && s != [] && Distinct(s) && Chain(s)
    && s[|s| - 1].next == s[0] && s[0].prev == s[|s| - 1]
  }

  lemma Neighbours(s: seq<Node>, k: nat)
    requires IsRing(s) && k < |s|
    ensures s[k].next == if k + 1 == |s| then s[0] else s[k + 1]
    ensures s[k].prev == if k == 0 then s[|s| - 1] else s[k - 1]
    ensures s[k] in s && s[k].next in s && s[k].prev in s
    ensures s[k].next == s[0] <==> k + 1 == |s|
  {
    if k == 0 && |s| > 1 { assert s[1] != s[0]; }
  }

  /** A node and the links determine its ring. */
  lemma OneRing(s: seq<Node>, t: seq<Node>)
    requires IsRing(s) && IsRing(t) && s[0] == t[0]
    ensures s == t
  {
    SamePrefix(s, t, if |s| < |t| then |s| else |t|);
  }

  lemma {:induction false} SamePrefix(s: seq<Node>, t: seq<Node>, n: nat)
    requires IsRing(s) && IsRing(t) && s[0] == t[0] && n <= |s| && n <= |t|
    ensures s[..n] == t[..n]
    ensures n == |s| || n == |t| ==> |s| == |t| || n == 0
  {
    if n > 0 {
      SamePrefix(s, t, n - 1);
      if n > 1 {
        Neighbours(s, n - 2);
        Neighbours(t, n - 2);
        assert s[n - 2] == s[..n - 1][n - 2] == t[..n - 1][n - 2] == t[n - 2];
      }
      assert s[n - 1] == t[n - 1];
      Neighbours(s, n - 1);
      Neighbours(t, n - 1);
    }
  }

  /** The nodes that a split relinks are in the ring. */
  lemma SplitReach(s: seq<Node>, k: nat)
    requires IsRing(s) && k < |s|
    ensures s[0] in s && s[0].prev in s && s[k] in s && s[k].prev in s
  {
    Neighbours(s, 0);
    Neighbours(s, k);
  }

  lemma FirstIsFirst(s: seq<Node>, k: nat)
    requires Distinct(s) && k < |s|
    ensures s[k] == s[0] ==> k == 0
  {
  }

  lemma SingleIff(s: seq<Node>, n: Node)
    requires IsRing(s) && n in s
    ensures (n.prev == n || n.next == n) <==> |s| == 1
  {
    var i :| 0 <= i < |s| && s[i] == n;
    if |s| > 1 {
      assert n.next == if i + 1 < |s| then s[i + 1] else s[0];
      assert n.prev == if i > 0 then s[i - 1] else s[|s| - 1];
    }
  }

  function Without(s: seq<Node>, k: nat): seq<Node>
    requires k < |s|
  {
    s[..k] + s[k + 1..]
  }

  lemma JoinChains(s: seq<Node>, t: seq<Node>)
    requires s != [] && t != [] && Distinct(s) && Distinct(t) && Disjoint(s, t) && Chain(s) && Chain(t)
    requires s[|s| - 1].next == t[0] && t[0].prev == s[|s| - 1]
    ensures Chain(s + t) && Distinct(s + t)
  {
  }

  lemma CutChain(s: seq<Node>, k: nat)
    requires Distinct(s) && 0 < k < |s|
    requires forall i :: 0 <= i < |s| - 1 && i != k - 1 ==> s[i].next == s[i + 1] && s[i + 1].prev == s[i]
    requires s[k - 1].next == s[0] && s[0].prev == s[k - 1] && s[|s| - 1].next == s[k] && s[k].prev == s[|s| - 1]
    ensures IsRing(s[..k]) && IsRing(s[k..])
  {
    assert forall i :: 0 <= i < |s| - k ==> s[k..][i] == s[k + i];
  }

  /** A ring seen from the next node. */
  lemma Rotated(s: seq<Node>)
    requires IsRing(s)
    ensures IsRing(s[1..] + [s[0]])
  {
    if |s| == 1 {
      assert s[1..] + [s[0]] == s;
    } else {
      RotatedBack(s, 1);
      assert s[1..] + s[..1] == s[1..] + [s[0]];
    }
  }

  /** A ring seen from the node at `k`. */
  lemma RotatedBack(s: seq<Node>, k: nat)
    requires IsRing(s) && k < |s|
    ensures IsRing(s[k..] + s[..k])
  {
    var t := s[k..] + s[..k];
    assert forall i :: 0 <= i < |t| ==> t[i] == if i < |s| - k then s[k + i] else s[i - (|s| - k)];
  }

  /** The neighbours of the node that was at `k` are linked to each other. */
  lemma ClosedUp(s: seq<Node>, k: nat)
    requires Distinct(s) && k < |s| && |s| > 1
    requires forall i :: 0 <= i < |s| - 1 && i != k && i + 1 != k ==> s[i].next == s[i + 1] && s[i + 1].prev == s[i]
    requires 0 < k < |s| - 1 ==> s[k - 1].next == s[k + 1] && s[k + 1].prev == s[k - 1]
    requires var first, last := if k == 0 then s[1] else s[0], if k == |s| - 1 then s[k - 1] else s[|s| - 1];
      last.next == first && first.prev == last
    ensures IsRing(Without(s, k))
  {
    var t := Without(s, k);
    assert forall i :: 0 <= i < |t| ==> t[i] == if i < k then s[i] else s[i + 1];
  }
}
