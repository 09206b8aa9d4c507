/** What the callbacks of an `http_parser` are given, and the sense in which two sequences of
    callbacks say the same: a data callback may be made in pieces. */
module HttpEvents {
  import opened Bytes
  import opened Sequences

  datatype Kind = Field | Value | Body

  datatype Event =
    | Data(kind: Kind, bytes: seq<byte>)
    | HeadersComplete
    | ChunkHeader(length: int)
    | ChunkComplete
    | MessageComplete

  /** One more callback: a data callback continues the previous one of its kind. */
  function Push(acc: seq<Event>, e: Event): seq<Event> {
    if e.Data? && acc != [] && acc[|acc| - 1].Data? && acc[|acc| - 1].kind == e.kind
    then acc[..|acc| - 1] + [Data(e.kind, acc[|acc| - 1].bytes + e.bytes)]
    else acc + [e]
  }

  function Merge(acc: seq<Event>, es: seq<Event>): seq<Event>
    decreases |es|
  {
    if es == [] then acc else Merge(Push(acc, es[0]), es[1..])
  }

  /** Callbacks with the pieces of every run put together. */
  function Joined(es: seq<Event>): seq<Event> {
    Merge([], es)
  }

  lemma {:induction false} MergeConcat(acc: seq<Event>, a: seq<Event>, b: seq<Event>)
    ensures Merge(acc, a + b) == Merge(Merge(acc, a), b)
    decreases |a|
  {
    if a == [] {
      assert a + b == b;
    } else {
      assert (a + b)[0] == a[0] && (a + b)[1..] == a[1..] + b;
      MergeConcat(Push(acc, a[0]), a[1..], b);
    }
  }

  lemma MergeOne(acc: seq<Event>, e: Event)
    ensures Merge(acc, [e]) == Push(acc, e)
  {
    assert [e][1..] == [];
    assert Merge(Push(acc, e), []) == Push(acc, e);
  }

  lemma JoinedSnoc(es: seq<Event>, e: Event)
    ensures Joined(es + [e]) == Push(Joined(es), e)
  {
    MergeConcat([], es, [e]);
    MergeOne(Joined(es), e);
  }

  /** Two pieces of one kind are one. */
  lemma PushTwice(acc: seq<Event>, k: Kind, x: seq<byte>, y: seq<byte>)
    ensures Push(Push(acc, Data(k, x)), Data(k, y)) == Push(acc, Data(k, x + y))
  {
    var once := Push(acc, Data(k, x));
    assert once[|once| - 1].kind == k;
    if acc != [] && acc[|acc| - 1].Data? && acc[|acc| - 1].kind == k {
      assert once[..|once| - 1] == acc[..|acc| - 1];
      assert acc[|acc| - 1].bytes + x + y == acc[|acc| - 1].bytes + (x + y);
    } else {
      assert once[..|once| - 1] == acc;
    }
  }

  // ---------------------------------------------------------------- one byte at a time

  /** Data callbacks of one byte each. */
  function Singles(k: Kind, bytes: seq<byte>): (es: seq<Event>)
    ensures |es| == |bytes|
  {
    if bytes == [] then [] else [Data(k, bytes[..1])] + Singles(k, bytes[1..])
  }

  /** They are one callback with all the bytes. */
  lemma {:induction false} SinglesJoin(acc: seq<Event>, k: Kind, bytes: seq<byte>)
    requires bytes != []
    ensures Merge(acc, Singles(k, bytes)) == Push(acc, Data(k, bytes))
    decreases |bytes|
  {
    var rest := bytes[1..];
    assert Singles(k, bytes)[1..] == Singles(k, rest);
    if rest == [] {
      assert bytes[..1] == bytes;
    } else {
      SinglesJoin(Push(acc, Data(k, bytes[..1])), k, rest);
      PushTwice(acc, k, bytes[..1], rest);
      assert bytes[..1] + rest == bytes;
    }
  }

  // ---------------------------------------------------------------- what a reader gets

  function Piece(k: Kind, e: Event): seq<byte> {
    if e.Data? && e.kind == k then e.bytes else []
  }

  /** All bytes given to the data callback of one kind. */
  function Gathered(k: Kind, es: seq<Event>): seq<byte> {
    if es == [] then [] else Piece(k, es[0]) + Gathered(k, es[1..])
  }

  /** How often a notification was made. */
  function Count(n: Event, es: seq<Event>): nat {
    if es == [] then 0 else (if es[0] == n then 1 else 0) + Count(n, es[1..])
  }

  lemma {:induction false} GatheredConcat(k: Kind, a: seq<Event>, b: seq<Event>)
    ensures Gathered(k, a + b) == Gathered(k, a) + Gathered(k, b)
    decreases |a|
  {
    if a == [] {
      assert a + b == b;
    } else {
      HeadTail(a, b);
      GatheredConcat(k, a[1..], b);
      Assoc(Piece(k, a[0]), Gathered(k, a[1..]), Gathered(k, b));
    }
  }

  lemma {:induction false} CountConcat(n: Event, a: seq<Event>, b: seq<Event>)
    ensures Count(n, a + b) == Count(n, a) + Count(n, b)
    decreases |a|
  {
    if a == [] {
      assert a + b == b;
    } else {
      HeadTail(a, b);
      CountConcat(n, a[1..], b);
    }
  }

  lemma GatheredOne(k: Kind, e: Event)
    ensures Gathered(k, [e]) == Piece(k, e)
  {
    assert [e][1..] == [];
    assert Gathered(k, []) == [];
  }

  lemma CountOne(n: Event, e: Event)
    ensures Count(n, [e]) == if e == n then 1 else 0
  {
    assert [e][1..] == [];
    assert Count(n, []) == 0;
  }

  lemma GatheredPush(k: Kind, acc: seq<Event>, e: Event)
    ensures Gathered(k, Push(acc, e)) == Gathered(k, acc) + Piece(k, e)
  {
    GatheredOne(k, e);
    GatheredConcat(k, acc, [e]);
    if e.Data? && acc != [] && acc[|acc| - 1].Data? && acc[|acc| - 1].kind == e.kind {
      var init, last := acc[..|acc| - 1], acc[|acc| - 1];
      var joined := Data(e.kind, last.bytes + e.bytes);
      assert acc == init + [last];
      GatheredOne(k, last);
      GatheredOne(k, joined);
      GatheredConcat(k, init, [last]);
      GatheredConcat(k, init, [joined]);
      Assoc(Gathered(k, init), Piece(k, last), Piece(k, e));
      assert Piece(k, last) + Piece(k, e) == Piece(k, joined);
    }
  }

  lemma CountPush(n: Event, acc: seq<Event>, e: Event)
    requires !n.Data?
    ensures Count(n, Push(acc, e)) == Count(n, acc) + if e == n then 1 else 0
  {
    CountOne(n, e);
    CountConcat(n, acc, [e]);
    if e.Data? && acc != [] && acc[|acc| - 1].Data? && acc[|acc| - 1].kind == e.kind {
      var init, last := acc[..|acc| - 1], acc[|acc| - 1];
      var joined := Data(e.kind, last.bytes + e.bytes);
      assert acc == init + [last];
      CountOne(n, last);
      CountOne(n, joined);
      CountConcat(n, init, [last]);
      CountConcat(n, init, [joined]);
    }
  }

  lemma {:induction false} MergeGathers(k: Kind, acc: seq<Event>, es: seq<Event>)
    ensures Gathered(k, Merge(acc, es)) == Gathered(k, acc) + Gathered(k, es)
    decreases |es|
  {
    if es != [] {
      MergeGathers(k, Push(acc, es[0]), es[1..]);
      GatheredPush(k, acc, es[0]);
      Assoc(Gathered(k, acc), Piece(k, es[0]), Gathered(k, es[1..]));
    }
  }

  lemma {:induction false} MergeCounts(n: Event, acc: seq<Event>, es: seq<Event>)
    requires !n.Data?
    ensures Count(n, Merge(acc, es)) == Count(n, acc) + Count(n, es)
    decreases |es|
  {
    if es != [] {
      MergeCounts(n, Push(acc, es[0]), es[1..]);
      CountPush(n, acc, es[0]);
    }
  }

  /** Callbacks that say the same deliver the same bytes ... */
  lemma SameBytes(k: Kind, a: seq<Event>, b: seq<Event>)
    requires Joined(a) == Joined(b)
    ensures Gathered(k, a) == Gathered(k, b)
  {
    MergeGathers(k, [], a);
    MergeGathers(k, [], b);
    assert Gathered(k, []) == [];
    assert [] + Gathered(k, a) == Gathered(k, a) && [] + Gathered(k, b) == Gathered(k, b);
  }

  /** ... and the same notifications. */
  lemma SameCounts(n: Event, a: seq<Event>, b: seq<Event>)
    requires Joined(a) == Joined(b) && !n.Data?
    ensures Count(n, a) == Count(n, b)
  {
    MergeCounts(n, [], a);
    MergeCounts(n, [], b);
  }
}
