/** The marks of `http_parser_execute`: where in the buffer the data that has been parsed
    but not yet reported begins. */
module HttpMarks {
  import opened Bytes
  import opened HttpEvents
  import opened HttpMachine
  import opened HttpSafety
  import opened HttpBody

  /** `p - data` and the marks, each an offset into the buffer or -1 for null. */
  datatype Cursor = Cursor(p: nat, field: int, value: int, body: int)

  function Unreported(k: Kind, data: seq<byte>, mark: int, p: nat): seq<Event>
    requires mark <= p <= |data|
  {
    if 0 <= mark < p then [Data(k, data[mark..p])] else []
  }

  predicate InBuffer(data: seq<byte>, c: Cursor) {
    c.p <= |data| && c.field <= c.p && c.value <= c.p && c.body <= c.p
  }

  function Pending(data: seq<byte>, c: Cursor): seq<Event>
    requires InBuffer(data, c)
  {
    if c.field >= 0 then Unreported(Field, data, c.field, c.p)
    else if c.value >= 0 then Unreported(Value, data, c.value, c.p)
    else Unreported(Body, data, c.body, c.p)
  }

  /** The callbacks so far, and the ones that are due. */
  function Seen(log: seq<Event>, data: seq<byte>, c: Cursor): seq<Event>
    requires InBuffer(data, c)
  {
    Joined(log + Pending(data, c))
  }

  predicate ReadsBody(s: State) {
    s.BodyIdentity? || s.BodyIdentityEof? || s.ChunkData? || s.ChunkDataAlmostDone?
  }

  /** Which mark can be set in which state; in particular at most one is set. */
  ghost predicate MarksFit(s: State, data: seq<byte>, c: Cursor) {
    && InBuffer(data, c)
    && (c.field >= 0 <==> s.HeaderField?)
    && (c.value >= 0 ==> s.HeaderValue?)
    && (c.body >= 0 ==> ReadsBody(s))
    && (c.field >= 0 ==> (c.field < c.p || c.p == 0) && forall i :: c.field <= i < c.p ==> Token(data[i]) != 0)
    && (c.value >= 0 ==> c.value < c.p || c.p == 0)
    && (c.body >= 0 ==> c.body < c.p)
  }

  // ---------------------------------------------------------------- what the macros do

  /** One more byte behind a mark. */
  lemma MarkedByte(log: seq<Event>, k: Kind, data: seq<byte>, mark: int, p: nat)
    requires 0 <= mark <= p < |data|
    ensures Joined(log + Unreported(k, data, mark, p + 1))
         == Merge(Joined(log + Unreported(k, data, mark, p)), [Data(k, [data[p]])])
  {
    MarkedBytes(log, k, data, mark, p, p + 1);
    assert data[p..p + 1] == [data[p]];
    SinglesCons(k, [data[p]]);
    assert [data[p]][1..] == [];
  }

  /** Any number of bytes behind a mark. */
  lemma MarkedBytes(log: seq<Event>, k: Kind, data: seq<byte>, mark: int, p: nat, q: nat)
    requires 0 <= mark <= p < q <= |data|
    ensures Joined(log + Unreported(k, data, mark, q))
         == Merge(Joined(log + Unreported(k, data, mark, p)), Singles(k, data[p..q]))
  {
    SinglesJoin(Joined(log + Unreported(k, data, mark, p)), k, data[p..q]);
    JoinedSnoc(log, Data(k, data[mark..q]));
    assert data[mark..p] + data[p..q] == data[mark..q];
    if mark < p {
      JoinedSnoc(log, Data(k, data[mark..p]));
      PushTwice(Joined(log), k, data[mark..p], data[p..q]);
    } else {
      assert log + [] == log;
    }
  }

  /** CALLBACK_DATA. */
  lemma Reported(log: seq<Event>, k: Kind, data: seq<byte>, mark: int, p: nat)
    requires 0 <= mark <= p <= |data|
    ensures Joined(log + [Data(k, data[mark..p])] + []) == Merge(Joined(log + Unreported(k, data, mark, p)), [Data(k, [])])
  {
    assert log + [Data(k, data[mark..p])] + [] == log + [Data(k, data[mark..p])];
    MergeOne(Joined(log + Unreported(k, data, mark, p)), Data(k, []));
    JoinedSnoc(log, Data(k, data[mark..p]));
    assert data[mark..p] + [] == data[mark..p];
    if mark < p {
      PushTwice(Joined(log), k, data[mark..p], []);
    } else {
      assert log + [] == log && data[mark..p] == [];
    }
  }

  /** CALLBACK_DATA where the machine has reported every byte already. */
  lemma ReportedAll(log: seq<Event>, k: Kind, data: seq<byte>, mark: int, p: nat)
    requires 0 <= mark < p <= |data|
    ensures Joined(log + [Data(k, data[mark..p])] + []) == Merge(Joined(log + Unreported(k, data, mark, p)), [])
  {
    assert log + [Data(k, data[mark..p])] + [] == log + [Data(k, data[mark..p])];
  }

  /** Nothing due, nothing done. */
  lemma Unchanged(log: seq<Event>)
    ensures Joined(log + []) == Merge(Joined(log + []), [])
  {
  }

  /** More of a value, whether or not its mark is set. */
  lemma ValueBytesSeen(log: seq<Event>, data: seq<byte>, c: Cursor, q: nat)
    requires MarksFit(HeaderValue, data, c) && c.p < q <= |data|
    ensures InBuffer(data, c.(p := q))
    ensures Seen(log, data, c.(p := q)) == Merge(Seen(log, data, c), if c.value < 0 then [] else Singles(Value, data[c.p..q]))
  {
    if c.value >= 0 { MarkedBytes(log, Value, data, c.value, c.p, q); } else { Unchanged(log); }
  }

  /** A callback while nothing is pending. */
  lemma Notified(log: seq<Event>, e: Event)
    ensures Joined(log + [e] + []) == Merge(Joined(log + []), [e])
  {
    assert log + [] == log && log + [e] + [] == log + [e];
    JoinedSnoc(log, e);
    MergeOne(Joined(log), e);
  }

  // ---------------------------------------------------------------- steps of the loop

  /** From one point of the loop to a later one; `es` is what the machine reports between. */
  ghost predicate Went(g: Setting, data: seq<byte>, c: Cursor, v: Parser, log: seq<Event>,
                       c': Cursor, v': Parser, log': seq<Event>, es: seq<Event>)
    requires InBuffer(data, c) && InBuffer(data, c')
  {
    && c.p <= c'.p
    && Run(g, v, data[c.p..]) == Before(es, c'.p - c.p, Run(g, v', data[c'.p..]))
    && Seen(log', data, c') == Merge(Seen(log, data, c), es)
  }

  /** The same, and the loop can go on from there. */
  ghost predicate Reaches(g: Setting, data: seq<byte>, c: Cursor, v: Parser, log: seq<Event>,
                          c': Cursor, v': Parser, log': seq<Event>, es: seq<Event>)
    requires InBuffer(data, c)
  {
    && MarksFit(v'.state, data, c') && Sound(v') && v'.muted == (v'.state.HeaderValue? && c'.value < 0)
    && Went(g, data, c, v, log, c', v', log', es)
    && (c'.p > c.p || Rank(v'.state) < Rank(v.state))
  }

  lemma WentOn(g: Setting, data: seq<byte>, c: Cursor, v: Parser, log: seq<Event>,
               c1: Cursor, v1: Parser, log1: seq<Event>, es1: seq<Event>,
               c2: Cursor, v2: Parser, log2: seq<Event>, es2: seq<Event>)
    requires InBuffer(data, c) && InBuffer(data, c1) && InBuffer(data, c2)
    requires Went(g, data, c, v, log, c1, v1, log1, es1) && Went(g, data, c1, v1, log1, c2, v2, log2, es2)
    ensures Went(g, data, c, v, log, c2, v2, log2, es1 + es2)
  {
    BeforeBefore(es1, c1.p - c.p, es2, c2.p - c1.p, Run(g, v2, data[c2.p..]));
    MergeConcat(Seen(log, data, c), es1, es2);
  }

  /** `break` out of the switch: the byte is consumed. */
  lemma Taken(g: Setting, data: seq<byte>, c: Cursor, v: Parser, log: seq<Event>,
              c': Cursor, v': Parser, log': seq<Event>, es: seq<Event>)
    requires InBuffer(data, c) && InBuffer(data, c') && c'.p == c.p + 1
    requires !v.state.Start? && Sound(v) && TurnOf(g, v, data[c.p]) == Take(v', es)
    requires Seen(log', data, c') == Merge(Seen(log, data, c), es)
    requires MarksFit(v'.state, data, c') && v'.muted == (v'.state.HeaderValue? && c'.value < 0)
    ensures Reaches(g, data, c, v, log, c', v', log', es)
  {
    TurnSound(g, v, data[c.p]);
    assert data[c.p..][0] == data[c.p] && data[c.p..][1..] == data[c'.p..];
    RunTake(g, v, data[c.p..], v', es);
  }

  /** `goto reexecute_byte`. */
  lemma LookedAtAgain(g: Setting, data: seq<byte>, c: Cursor, v: Parser, log: seq<Event>,
                      c': Cursor, v': Parser, log': seq<Event>, es: seq<Event>)
    requires InBuffer(data, c) && InBuffer(data, c') && c'.p == c.p < |data|
    requires !v.state.Start? && Sound(v) && TurnOf(g, v, data[c.p]) == Again(v', es)
    requires Seen(log', data, c') == Merge(Seen(log, data, c), es)
    requires MarksFit(v'.state, data, c') && v'.muted == (v'.state.HeaderValue? && c'.value < 0)
    ensures Reaches(g, data, c, v, log, c', v', log', es)
  {
    TurnSound(g, v, data[c.p]);
    assert data[c.p..][0] == data[c.p];
    RunAgain(g, v, data[c.p..], v', es);
  }

  lemma WentNowhere(g: Setting, data: seq<byte>, c: Cursor, v: Parser, log: seq<Event>)
    requires InBuffer(data, c)
    ensures Went(g, data, c, v, log, c, v, log, [])
  {
    assert [] + Run(g, v, data[c.p..]).events == Run(g, v, data[c.p..]).events;
  }

  predicate IsOpening(data: seq<byte>, c: Cursor) {
    c.p == 0 && c.field <= 0 && c.value <= 0 && c.body <= 0
  }

  /** The call ends at `c1`, where the machine's run continues with `o`, reporting `es2`. */
  lemma StopsHere(g: Setting, data: seq<byte>, c: Cursor, v: Parser, log: seq<Event>,
                  c1: Cursor, v1: Parser, log1: seq<Event>, es1: seq<Event>, es2: seq<Event>, o: Outcome)
    requires IsOpening(data, c) && InBuffer(data, c1) && Went(g, data, c, v, log, c1, v1, log1, es1)
    requires Run(g, v1, data[c1.p..]) == o && o.events == es2
    ensures var r := Run(g, v, data);
      && r.p == o.p && r.end == o.end && r.used == c1.p + o.used && r.events == es1 + es2
      && Merge(Joined(log), r.events) == Merge(Seen(log1, data, c1), es2)
  {
    assert data[0..] == data;
    assert log + [] == log;
    MergeConcat(Joined(log), es1, es2);
  }

  /** The loop ends because the buffer or the message does. */
  lemma LoopEnds(g: Setting, data: seq<byte>, c: Cursor, v: Parser, log: seq<Event>,
                 c1: Cursor, v1: Parser, log1: seq<Event>, es: seq<Event>)
    requires IsOpening(data, c) && InBuffer(data, c1) && Went(g, data, c, v, log, c1, v1, log1, es)
    requires c1.p == |data| || v1.state.Start?
    ensures var r := Run(g, v, data);
      && r.p == v1 && r.end == (if v1.state.Start? then Complete else More) && r.used == c1.p
      && Seen(log1, data, c1) == Merge(Joined(log), r.events)
  {
    StopsHere(g, data, c, v, log, c1, v1, log1, es, [], Run(g, v1, data[c1.p..]));
  }
}
