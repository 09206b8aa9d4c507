/** Choosing a server (`load_balance.h`): the consistent-hash ring and the weighted choice. */
module LoadBalance {
  /** `ServerNode` with its endpoint; `tag` and `valid` take no part in the choice. */
  datatype Server = Server(host: string, port: int, weight: int)

  type Hash4 = v: seq<nat> | |v| == 4 witness [0, 0, 0, 0]

  /** MurmurHash3 of "host:port-i", as four 32-bit values; any function will do. */
  type Hashing = (string, int, nat) -> Hash4

  type Ring = map<nat, Server>

  // ---------------------------------------------------------------- the ring

  /** The point is among the values of the server's first `keys` keys. */
  ghost predicate Owns(hash: Hashing, keys: nat, s: Server, p: nat) {
    exists i :: 0 <= i < keys && p in hash(s.host, s.port, i)
  }

  /** The last server of the list to own the point. */
  ghost predicate LastOwner(hash: Hashing, factor: nat, servers: seq<Server>, p: nat, n: nat) {
    && n < |servers| && Owns(hash, factor, servers[n], p)
    && forall m :: n < m < |servers| ==> !Owns(hash, factor, servers[m], p)
  }

  /** The ring of a list of servers: it holds the points they own, each with the last of
      its owners. */
  ghost predicate IsRing(hash: Hashing, factor: nat, servers: seq<Server>, ring: Ring) {
    && (forall p :: p in ring ==> exists n: nat :: LastOwner(hash, factor, servers, p, n))
    && (forall p: nat, n: nat :: LastOwner(hash, factor, servers, p, n) ==> p in ring && ring[p] == servers[n])
  }

  lemma {:induction false} LastOwnerExists(hash: Hashing, factor: nat, servers: seq<Server>, p: nat, k: nat) returns (n: nat)
    requires k < |servers| && Owns(hash, factor, servers[k], p)
    ensures LastOwner(hash, factor, servers, p, n) && k <= n
    decreases |servers| - k
  {
    if m :| k < m < |servers| && Owns(hash, factor, servers[m], p) {
      n := LastOwnerExists(hash, factor, servers, p, m);
    } else {
      n := k;
    }
  }

  /** The points of a ring are the hash values: four for each of the first `factor` keys of
      each server; and a point belongs to the last server with such a value. */
  lemma RingPoints(hash: Hashing, factor: nat, servers: seq<Server>, ring: Ring, p: nat)
    requires IsRing(hash, factor, servers, ring)
    ensures p in ring <==> exists n: nat, i: nat, j: nat ::
      n < |servers| && i < factor && j < 4 && hash(servers[n].host, servers[n].port, i)[j] == p
    ensures p in ring ==> exists n: nat, i: nat, j: nat ::
      && n < |servers| && i < factor && j < 4 && hash(servers[n].host, servers[n].port, i)[j] == p && ring[p] == servers[n]
      && forall m: nat, k: nat, l: nat :: n < m < |servers| && k < factor && l < 4 ==>
           hash(servers[m].host, servers[m].port, k)[l] != p
  {
    if p in ring {
      var n: nat :| LastOwner(hash, factor, servers, p, n);
      var i :| 0 <= i < factor && p in hash(servers[n].host, servers[n].port, i);
      var j :| 0 <= j < 4 && hash(servers[n].host, servers[n].port, i)[j] == p;
      forall m: nat, k: nat, l: nat | n < m < |servers| && k < factor && l < 4
        ensures hash(servers[m].host, servers[m].port, k)[l] != p
      {
        assert !Owns(hash, factor, servers[m], p);
      }
    }
    if n: nat, i: nat, j: nat :| n < |servers| && i < factor && j < 4 && hash(servers[n].host, servers[n].port, i)[j] == p {
      assert p in hash(servers[n].host, servers[n].port, i);
      assert Owns(hash, factor, servers[n], p);
      var last := LastOwnerExists(hash, factor, servers, p, n);
    }
  }

  /** A list of servers has one ring. */
  lemma RingUnique(hash: Hashing, factor: nat, servers: seq<Server>, a: Ring, b: Ring)
    requires IsRing(hash, factor, servers, a) && IsRing(hash, factor, servers, b)
    ensures a == b
  {
    assert forall p :: p in a <==> p in b;
    assert forall p :: p in a ==> a[p] == b[p];
  }

  lemma NotEmpty(hash: Hashing, factor: nat, servers: seq<Server>, ring: Ring)
    requires IsRing(hash, factor, servers, ring) && servers != [] && factor > 0
    ensures ring != map[]
  {
    var s := servers[0];
    var p := hash(s.host, s.port, 0)[0];
    assert p in hash(s.host, s.port, 0);
    assert Owns(hash, factor, s, p);
    var n := LastOwnerExists(hash, factor, servers, p, 0);
  }

  // ---------------------------------------------------------------- looking up

  /** The entry a seed belongs to: the first point at or behind it, or else the first of all. */
  ghost predicate Serves(ring: Ring, seed: nat, p: nat) {
    && p in ring
    && if exists q :: q in ring && seed <= q
       then seed <= p && forall q :: q in ring && seed <= q ==> p <= q
       else forall q :: q in ring ==> p <= q
  }

  predicate IsLeast(m: nat, s: set<nat>) {
    m in s && forall k :: k in s ==> m <= k
  }

  lemma {:induction false} FindLeast(s: set<nat>) returns (m: nat)
    requires s != {}
    ensures IsLeast(m, s)
    decreases |s|
  {
    var first :| first in s;
    var below := set k | k in s && k < first;
    m := first;
    if below != {} {
      SmallerSet(below, s, first);
      m := FindLeast(below);
    }
    forall k | k in s ensures m <= k {
      if k < first { assert k in below; }
    }
  }

  lemma SmallerSet(a: set<nat>, b: set<nat>, x: nat)
    requires a <= b && x in b && x !in a
    ensures |a| < |b|
  {
    var rest := b - a - {x};
    assert b == a + {x} + rest;
  }

  lemma LeastExists(s: set<nat>)
    requires s != {}
    ensures exists m :: IsLeast(m, s)
  {
    var m := FindLeast(s);
  }

  /** The least element: `begin()` of an ordered map. */
  function Least(s: set<nat>): (m: nat)
    requires s != {}
    ensures IsLeast(m, s)
  {
    LeastExists(s);
    var m :| IsLeast(m, s);
    m
  }

  /** The keys that `lower_bound(seed)` ranges over. */
  function FromSeed(ring: Ring, seed: nat): set<nat> {
    set q | q in ring.Keys && seed <= q
  }

  /** A seed is served by one point only. */
  lemma ServesUnique(ring: Ring, seed: nat, p: nat, q: nat)
    requires Serves(ring, seed, p) && Serves(ring, seed, q)
    ensures p == q
  {
  }

  /** An entry that survives when others disappear keeps the seeds it served. */
  lemma FewerPoints(big: Ring, small: Ring, seed: nat, p: nat)
    requires Serves(big, seed, p) && p in small && forall q :: q in small ==> q in big
    ensures Serves(small, seed, p)
  {
  }

  /** The same server, in the list without `x`. */
  lemma OwnerWithout(hash: Hashing, factor: nat, a: seq<Server>, x: Server, b: seq<Server>, p: nat, n: nat)
    requires LastOwner(hash, factor, a + [x] + b, p, n) && n != |a|
    ensures LastOwner(hash, factor, a + b, p, if n < |a| then n else n - 1)
  {
    var all, rest := a + [x] + b, a + b;
    var k := if n < |a| then n else n - 1;
    assert rest[k] == all[n];
    forall m | k < m < |rest| ensures !Owns(hash, factor, rest[m], p) {
      assert rest[m] == all[if m < |a| then m else m + 1];
    }
  }

  /** A server of the list without `x` is in the whole list. */
  lemma OwnerWithin(hash: Hashing, factor: nat, a: seq<Server>, x: Server, b: seq<Server>, p: nat, n: nat) returns (m: nat)
    requires LastOwner(hash, factor, a + b, p, n)
    ensures LastOwner(hash, factor, a + [x] + b, p, m)
  {
    var k := if n < |a| then n else n + 1;
    assert (a + [x] + b)[k] == (a + b)[n];
    m := LastOwnerExists(hash, factor, a + [x] + b, p, k);
  }

  /** Taking a server off the list never moves a seed that another server had, whatever the
      hash function and however its values collide; read backwards, adding a server moves
      seeds to that server only. */
  lemma RemovalMovesOnlyItsSeeds(hash: Hashing, factor: nat, a: seq<Server>, x: Server, b: seq<Server>,
                                 all: Ring, rest: Ring, seed: nat, p: nat)
    requires IsRing(hash, factor, a + [x] + b, all) && IsRing(hash, factor, a + b, rest)
    requires Serves(all, seed, p) && all[p] != x
    ensures Serves(rest, seed, p) && rest[p] == all[p]
  {
    var n: nat :| LastOwner(hash, factor, a + [x] + b, p, n);
    OwnerWithout(hash, factor, a, x, b, p, n);
    forall q | q in rest ensures q in all {
      var m: nat :| LastOwner(hash, factor, a + b, q, m);
      var k := OwnerWithin(hash, factor, a, x, b, q, m);
    }
    FewerPoints(all, rest, seed, p);
  }

  /** `ring` is `before` with the points of the first `keys` keys, and those in `more`,
      overwritten by `s`. */
  ghost predicate Overlaid(hash: Hashing, before: Ring, ring: Ring, s: Server, keys: nat, more: seq<nat>) {
    && (forall p :: p in ring <==> p in before || Owns(hash, keys, s, p) || p in more)
    && (forall p :: p in ring ==> ring[p] == if Owns(hash, keys, s, p) || p in more then s else before[p])
  }

  lemma KeyDone(hash: Hashing, before: Ring, ring: Ring, s: Server, keys: nat)
    requires Overlaid(hash, before, ring, s, keys, hash(s.host, s.port, keys))
    ensures Overlaid(hash, before, ring, s, keys + 1, [])
  {
    forall p ensures Owns(hash, keys + 1, s, p) <==> Owns(hash, keys, s, p) || p in hash(s.host, s.port, keys) {
      if Owns(hash, keys, s, p) {
        var i :| 0 <= i < keys && p in hash(s.host, s.port, i);
        assert 0 <= i < keys + 1;
      }
    }
  }

  /** One server more. */
  lemma ServerDone(hash: Hashing, factor: nat, servers: seq<Server>, s: Server, before: Ring, ring: Ring)
    requires IsRing(hash, factor, servers, before) && Overlaid(hash, before, ring, s, factor, [])
    ensures IsRing(hash, factor, servers + [s], ring)
  {
    var more := servers + [s];
    forall p: nat, n: nat | LastOwner(hash, factor, more, p, n) ensures p in ring && ring[p] == more[n] {
      if n < |servers| {
        assert !Owns(hash, factor, more[|servers|], p);
        assert LastOwner(hash, factor, servers, p, n) by {
          assert forall m :: n < m < |servers| ==> more[m] == servers[m];
        }
      }
    }
    forall p | p in ring ensures exists n: nat :: LastOwner(hash, factor, more, p, n) {
      if p in before && !Owns(hash, factor, s, p) {
        var n: nat :| LastOwner(hash, factor, servers, p, n);
        var k := LastOwnerExists(hash, factor, more, p, n);
      } else {
        var k := LastOwnerExists(hash, factor, more, p, |servers|);
      }
    }
  }

  class ConsistentHashBalance {
    const factor_: nat
    const hash: Hashing
    var ring_: Ring

    constructor (factor: nat, hash: Hashing)
      ensures factor_ == factor && this.hash == hash && ring_ == map[]
    {
      factor_, this.hash, ring_ := factor, hash, map[];
    }

    /** The four entries of one key. */
    method WriteFour(ring: Ring, server: Server, i: nat, ghost before: Ring) returns (ring': Ring)
      requires Overlaid(hash, before, ring, server, i, [])
      ensures Overlaid(hash, before, ring', server, i, hash(server.host, server.port, i))
    {
      var val := hash(server.host, server.port, i);
      ring' := ring;
      var j := 0;
      while j < 4
        invariant 0 <= j <= 4 && Overlaid(hash, before, ring', server, i, val[..j])
      {
        assert val[..j + 1] == val[..j] + [val[j]];
        ring' := ring'[val[j] := server];
        j := j + 1;
      }
      assert val[..4] == val;
    }

    /** The entries of one server. */
    method WriteServer(before: Ring, server: Server) returns (ring: Ring)
      ensures Overlaid(hash, before, ring, server, factor_, [])
    {
      ring := before;
      var i := 0;
      while i < factor_
        invariant 0 <= i <= factor_ && Overlaid(hash, before, ring, server, i, [])
      {
        ring := WriteFour(ring, server, i, before);
        KeyDone(hash, before, ring, server, i);
        i := i + 1;
      }
    }

    /** `initialize_circle`. */
    method InitializeCircle(servers: seq<Server>) returns (ring: Ring)
      ensures IsRing(hash, factor_, servers, ring)
    {
      ring := map[];
      var n := 0;
      while n < |servers|
        invariant 0 <= n <= |servers| && IsRing(hash, factor_, servers[..n], ring)
      {
        ghost var before := ring;
        ring := WriteServer(ring, servers[n]);
        ServerDone(hash, factor_, servers[..n], servers[n], before, ring);
        assert servers[..n + 1] == servers[..n] + [servers[n]];
        n := n + 1;
      }
      assert servers[..n] == servers;
    }

    /** `get_next`; the ring is filled from `servers` when it is empty.  There must be an
        entry then. */
    method GetNext(seed: nat, servers: seq<Server>) returns (server: Server, ghost point: nat)
      requires ring_ != map[] || (servers != [] && factor_ > 0)
      modifies this`ring_
      ensures if servers != [] && old(ring_) == map[] then IsRing(hash, factor_, servers, ring_) else ring_ == old(ring_)
      ensures Serves(ring_, seed, point) && server == ring_[point]
    {
      if servers != [] && ring_ == map[] {
        ring_ := InitializeCircle(servers);
        NotEmpty(hash, factor_, servers, ring_);
      }
      assert ring_.Keys != {};
      var ahead := FromSeed(ring_, seed);
      assert forall q :: q in ahead <==> q in ring_ && seed <= q;
      var node := if ahead == {} then Least(ring_.Keys) else Least(ahead);
      server, point := ring_[node], node;
    }

    /** `on_changed`. */
    method OnChanged(new_servers: seq<Server>)
      modifies this`ring_
      ensures IsRing(hash, factor_, new_servers, ring_)
    {
      ring_ := InitializeCircle(new_servers);
    }
  }

  // ---------------------------------------------------------------- weighted choice

  /** Sum of the first `n` weights. */
  function Presum(servers: seq<Server>, n: nat): int
    requires n <= |servers|
  {
    if n == 0 then 0 else Presum(servers, n - 1) + servers[n - 1].weight
  }

  ghost predicate Weighted(servers: seq<Server>) {
    forall i :: 0 <= i < |servers| ==> servers[i].weight >= 0
  }

  lemma {:induction false} PresumMonotone(servers: seq<Server>, i: nat, j: nat)
    requires Weighted(servers) && i <= j <= |servers|
    ensures Presum(servers, i) <= Presum(servers, j)
    decreases j
  {
    if i < j { PresumMonotone(servers, i, j - 1); }
  }

  /** The loop of `get_next` that builds the prefix sums. */
  method Presums(servers: seq<Server>) returns (presum: seq<int>, total: int)
    ensures |presum| == |servers| && total == Presum(servers, |servers|)
    ensures forall i :: 0 <= i < |servers| ==> presum[i] == Presum(servers, i + 1)
  {
    presum, total := [], 0;
    var i := 0;
    while i < |servers|
      invariant 0 <= i <= |servers| && |presum| == i && total == Presum(servers, i)
      invariant forall k :: 0 <= k < i ==> presum[k] == Presum(servers, k + 1)
    {
      total := total + servers[i].weight;
      presum := presum + [if i > 0 then presum[i - 1] + servers[i].weight else servers[i].weight];
      i := i + 1;
    }
  }

  ghost predicate Sorted(a: seq<int>) {
    forall i, j :: 0 <= i <= j < |a| ==> a[i] <= a[j]
  }

  /** `binarySearch`: a prefix sum that is not below `x` behind one that is, if there is one
      before it; in sorted sums the first that is not below. */
  method BinarySearch(presum: seq<int>, x: int) returns (low: nat)
    requires presum != [] && x <= presum[|presum| - 1]
    ensures low < |presum| && x <= presum[low] && (low > 0 ==> presum[low - 1] < x)
    ensures Sorted(presum) ==> forall k :: 0 <= k < low ==> presum[k] < x
  {
    var lo, high := 0, |presum| - 1;
    while lo < high
      invariant 0 <= lo <= high < |presum| && x <= presum[high]
      invariant lo > 0 ==> presum[lo - 1] < x
      invariant Sorted(presum) ==> forall k :: 0 <= k < lo ==> presum[k] < x
      decreases high - lo
    {
      var mid := (high - lo) / 2 + lo;
      if presum[mid] < x { lo := mid + 1; } else { high := mid; }
    }
    low := lo;
  }

  /** Which server the drawn number `x` selects. */
  ghost predicate Selects(servers: seq<Server>, x: int, i: nat) {
    i < |servers| && Presum(servers, i) < x <= Presum(servers, i + 1)
  }

  /** `get_next` of the weighted balance; `x` is the number drawn from 1 to the total. */
  method WeightedNext(servers: seq<Server>, x: int) returns (idx: nat)
    requires 1 <= x <= Presum(servers, |servers|)
    ensures Selects(servers, x, idx)
  {
    var presum, total := Presums(servers);
    idx := BinarySearch(presum, x);
  }

  /** Without negative weights a number selects one server only. */
  lemma SelectsOne(servers: seq<Server>, x: int, i: nat, j: nat)
    requires Weighted(servers) && Selects(servers, x, i) && Selects(servers, x, j)
    ensures i == j
  {
    if i < j { PresumMonotone(servers, i + 1, j); }
    if j < i { PresumMonotone(servers, j + 1, i); }
  }

  /** The numbers from `lo + 1` to `hi`. */
  ghost function Numbers(lo: int, hi: int): set<int> {
    set x: int | lo < x <= hi && Between(lo, x, hi)
  }

  ghost predicate Between(lo: int, x: int, hi: int) {
    lo < x <= hi
  }

  lemma {:induction false} CountNumbers(lo: int, hi: int)
    requires lo <= hi
    ensures |Numbers(lo, hi)| == hi - lo
    decreases hi - lo
  {
    if lo < hi {
      CountNumbers(lo, hi - 1);
      assert Numbers(lo, hi) == Numbers(lo, hi - 1) + {hi};
    } else {
      assert Numbers(lo, hi) == {};
    }
  }

  /** Of the numbers that can be drawn, exactly `weight` select a server: it is chosen in
      proportion to its weight, and never with weight 0. */
  lemma ChosenByWeight(servers: seq<Server>, i: nat)
    requires Weighted(servers) && i < |servers|
    ensures var drawn := set x: int | 1 <= x <= Presum(servers, |servers|) && Selects(servers, x, i);
      |drawn| == servers[i].weight
  {
    PresumMonotone(servers, 0, i);
    PresumMonotone(servers, i + 1, |servers|);
    CountNumbers(Presum(servers, i), Presum(servers, i + 1));
    assert (set x: int | 1 <= x <= Presum(servers, |servers|) && Selects(servers, x, i))
        == Numbers(Presum(servers, i), Presum(servers, i + 1));
  }
}
