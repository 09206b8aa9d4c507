/** Routes as they are written: literal segments, `:name` and `:name(regex)`.  What the parser
    of fragments reads, which routes are accepted, and which paths a route matches, told of
    the written parts alone. */
module RoutePatterns {
  import opened RouteTree
  import opened RouteInsert

  datatype Piece = Literal(text: string) | Named(name: string) | Patterned(name: string, regex: string)

  function Written(p: Piece): string {
    match p
    case Literal(text) => text
    case Named(name) => ":" + name
    case Patterned(name, regex) => ":" + name + "(" + regex + ")"
  }

  function WrittenAll(ps: seq<Piece>): (frags: seq<string>)
    ensures |frags| == |ps| && forall i :: 0 <= i < |ps| ==> frags[i] == Written(ps[i])
  {
    if ps == [] then [] else [Written(ps[0])] + WrittenAll(ps[1..])
  }

  /** What tells the three apart: a literal begins with no colon, and a parenthesis behind a
      name, closed at the end of the segment, begins a pattern. */
  predicate IsPiece(p: Piece) {
    match p
    case Literal(text) => text == "" || (text[0] != ':' && '/' !in text)
    case Named(name) => name == "" || name[|name| - 1] != ')' || '(' !in name
    case Patterned(name, _) => '(' !in name
  }

  /** What the route may hold: names and literals that pass the test of segments, and no
      empty pattern. */
  predicate IsAllowed(r: Rules, p: Piece) {
    match p
    case Literal(text) => text == "" || r.segmentOk(text)
    case Named(name) => name != "" && r.segmentOk(name)
    case Patterned(name, regex) => regex != "" && r.segmentOk(name)
  }

  /** The segments a piece stands for. */
  predicate Matches(r: Rules, p: Piece, s: string) {
    match p
    case Literal(text) => s == text
    case Named(_) => true
    case Patterned(_, regex) => r.regexMatch(s, regex)
  }

  predicate AllMatch(r: Rules, ps: seq<Piece>, segs: seq<string>) {
    |ps| == |segs| && forall i :: 0 <= i < |ps| ==> Matches(r, ps[i], segs[i])
  }

  ghost predicate ArePieces(ps: seq<Piece>) {
    forall i :: 0 <= i < |ps| ==> IsPiece(ps[i])
  }

  ghost predicate AllAllowed(r: Rules, ps: seq<Piece>) {
    forall i :: 0 <= i < |ps| ==> IsAllowed(r, ps[i])
  }

  // ---------------------------------------------------------------- what is read

  lemma {:induction false} FirstOpen(a: string, b: string)
    requires '(' !in a
    ensures FindOpen(a + "(" + b) == |a|
  {
    var s := a + "(" + b;
    if a != "" {
      assert s[0] == a[0] && s[1..] == a[1..] + "(" + b;
      FirstOpen(a[1..], b);
    }
  }

  lemma {:induction false} NoOpen(s: string)
    ensures FindOpen(s) < |s| <==> '(' in s
  {
    if s != "" && s[0] != '(' {
      NoOpen(s[1..]);
      assert s == [s[0]] + s[1..];
    }
  }

  /** `:name(regex)` is read as its name and its pattern, and refused without a pattern or with
      a name that is no segment. */
  lemma PatternRead(r: Rules, name: string, regex: string)
    requires '(' !in name
    ensures ParseColon(r, name + "(" + regex + ")") ==
      if regex == "" then BadColon("") else if r.segmentOk(name) then Colon(name, regex) else BadColon(regex)
  {
    var rest := name + "(" + regex + ")";
    assert rest == name + "(" + (regex + ")");
    FirstOpen(name, regex + ")");
    assert rest[..|name|] == name && rest[|name| + 1..|rest| - 1] == regex;
  }

  /** Any other `:name` is read as a name, and refused if that is empty or no segment. */
  lemma NameRead(r: Rules, name: string)
    requires name == "" || name[|name| - 1] != ')' || '(' !in name
    ensures ParseColon(r, name) == if name != "" && r.segmentOk(name) then Colon(name, "") else BadColon("")
  {
    NoOpen(name);
  }

  /** A colon piece is read as what it says exactly when it is allowed. */
  lemma PieceRead(r: Rules, p: Piece)
    requires IsPiece(p) && !p.Literal?
    ensures IsColon(Written(p))
    ensures var c := ParseColon(r, Written(p)[1..]);
      if IsAllowed(r, p) then c == Colon(p.name, if p.Named? then "" else p.regex) else c.BadColon?
  {
    if p.Named? {
      NameRead(r, p.name);
      assert Written(p)[1..] == p.name;
    } else {
      PatternRead(r, p.name, p.regex);
      assert Written(p)[1..] == p.name + "(" + p.regex + ")";
    }
  }

  /** Every fragment is one of the three. */
  lemma EveryFragment(frag: string) returns (p: Piece)
    requires '/' !in frag
    ensures IsPiece(p) && Written(p) == frag
  {
    if frag == "" || frag[0] != ':' {
      p := Literal(frag);
    } else {
      var name := frag[1..];
      assert frag == ":" + name;
      p := Named(name);
      if name != "" && name[|name| - 1] == ')' && '(' in name {
        var open, regex := SplitOpen(name);
        p := Patterned(open, regex);
        assert ":" + open + "(" + regex + ")" == ":" + (open + "(" + regex + ")");
      }
    }
  }

  lemma {:induction false} SplitOpen(name: string) returns (open: string, regex: string)
    requires name != "" && name[|name| - 1] == ')' && '(' in name
    ensures '(' !in open && name == open + "(" + regex + ")"
  {
    if name[0] == '(' {
      open, regex := "", name[1..|name| - 1];
    } else {
      assert name == [name[0]] + name[1..];
      open, regex := SplitOpen(name[1..]);
      assert name == [name[0]] + (open + "(" + regex + ")") == [name[0]] + open + "(" + regex + ")";
      open := [name[0]] + open;
    }
  }

  /** A written piece fits exactly the segments it stands for. */
  lemma FitsMeans(r: Rules, p: Piece, s: string)
    requires IsPiece(p) && IsAllowed(r, p)
    ensures Fits(r, Written(p), s) <==> Matches(r, p, s)
  {
    if !p.Literal? { PieceRead(r, p); }
  }

  lemma {:induction false} AllFitMeans(r: Rules, ps: seq<Piece>, segs: seq<string>)
    requires ArePieces(ps) && AllAllowed(r, ps)
    ensures AllFit(r, WrittenAll(ps), segs) <==> AllMatch(r, ps, segs)
    decreases |ps|
  {
    if ps != [] {
      assert WrittenAll(ps)[1..] == WrittenAll(ps[1..]);
      if segs != [] {
        FitsMeans(r, ps[0], segs[0]);
        AllFitMeans(r, ps[1..], segs[1..]);
        AllMatchNext(r, ps, segs);
      }
    }
  }

  lemma AllMatchNext(r: Rules, ps: seq<Piece>, segs: seq<string>)
    requires ps != [] && segs != []
    ensures AllMatch(r, ps, segs) <==> Matches(r, ps[0], segs[0]) && AllMatch(r, ps[1..], segs[1..])
  {
    if Matches(r, ps[0], segs[0]) && AllMatch(r, ps[1..], segs[1..]) {
      forall i | 0 <= i < |ps| ensures Matches(r, ps[i], segs[i]) {
        if i > 0 { assert ps[i] == ps[1..][i - 1] && segs[i] == segs[1..][i - 1]; }
      }
    }
  }

  // ---------------------------------------------------------------- what is accepted

  /** The colon child agrees with the piece. */
  predicate SameColon(t: Tree, c: nat, p: Piece)
    requires c < |t| && !p.Literal?
  {
    t[c].name == p.name && t[c].regex == if p.Named? then "" else p.regex
  }

  /** A route is accepted below `n`: it follows children that are there as far as they go, and
      what is new of it is allowed.  A colon piece must agree with the colon child there is. */
  ghost predicate Accepted(r: Rules, t: Tree, n: nat, ps: seq<Piece>)
    requires Linked(t) && n < |t|
    decreases |ps|
  {
    ps == [] || (
      if ps[0].Literal? then
        NextInTree(r, t, n, ps[0].text);
        var child := ExactFor(t, n, ps[0].text);
        if child.Some? then Accepted(r, t, child.value, ps[1..]) else AllAllowed(r, ps)
      else
        var c := t[n].colon;
        if c != -1 then IsAllowed(r, ps[0]) && SameColon(t, c, ps[0]) && Accepted(r, t, c, ps[1..]) else AllAllowed(r, ps))
  }

  lemma FirstAllowed(r: Rules, ps: seq<Piece>)
    requires ps != []
    ensures AllAllowed(r, ps) <==> IsAllowed(r, ps[0]) && AllAllowed(r, ps[1..])
  {
    if IsAllowed(r, ps[0]) && AllAllowed(r, ps[1..]) {
      forall i | 0 <= i < |ps| ensures IsAllowed(r, ps[i]) {
        if i > 0 { assert ps[i] == ps[1..][i - 1]; }
      }
    }
  }

  /** One piece. */
  lemma PieceAccepted(r: Rules, t: Tree, n: nat, p: Piece)
    requires Built(t) && n < |t| && IsPiece(p)
    ensures GetOrNew(r, t, n, Written(p)).node.Some? <==>
      if p.Literal? then ExactFor(t, n, p.text).Some? || IsAllowed(r, p)
      else IsAllowed(r, p) && (t[n].colon == -1 || SameColon(t, t[n].colon, p))
  {
    if p.Literal? {
      assert Key(p.text) == p.text && !IsColon(p.text);
    } else {
      PieceRead(r, p);
      ColonIsNoKey(t, n, Written(p));
      ColonMade(r, t, n, Written(p));
    }
  }

  /** At a node without links every piece is new. */
  lemma {:induction false} FreshAccepts(r: Rules, t: Tree, n: nat, ps: seq<Piece>)
    requires Built(t) && n < |t| && t[n].children == [] && t[n].colon == -1 && ArePieces(ps)
    ensures Insert(r, t, n, WrittenAll(ps)).node.Some? <==> AllAllowed(r, ps)
    decreases |ps|
  {
    if ps != [] {
      var frag := Written(ps[0]);
      var x := GetOrNew(r, t, n, frag);
      assert WrittenAll(ps)[1..] == WrittenAll(ps[1..]);
      PieceAccepted(r, t, n, ps[0]);
      FirstAllowed(r, ps);
      GetOrNewBuilt(r, t, n, frag);
      FirstLink(r, t, n, frag);
      if x.node.Some? { FreshAccepts(r, x.t, x.node.value, ps[1..]); }
    }
  }

  /** In any tree a route is accepted exactly under that condition. */
  lemma {:induction false} InsertAccepts(r: Rules, t0: Tree, t: Tree, n: nat, ps: seq<Piece>)
    requires Built(t0) && Built(t) && t0 <= t && n < |t0| && ArePieces(ps)
    ensures Insert(r, t, n, WrittenAll(ps)).node.Some? <==> Accepted(r, t0, n, ps)
    decreases |ps|
  {
    if ps == [] {
    } else if GetOrNew(r, t, n, Written(ps[0])).node.None? {
      FirstRefused(r, t0, t, n, ps);
    } else {
      var x := GetOrNew(r, t, n, Written(ps[0]));
      PieceKeeps(r, t0, t, n, ps[0]);
      if x.node.value < |t| {
        InsertAccepts(r, t0, x.t, x.node.value, ps[1..]);
      } else {
        NewAccepts(r, t, n, ps);
      }
      AcceptsThen(r, t0, t, n, ps, x);
    }
  }

  lemma PieceKeeps(r: Rules, t0: Tree, t: Tree, n: nat, p: Piece)
    requires Built(t0) && Built(t) && t0 <= t && n < |t0| && GetOrNew(r, t, n, Written(p)).node.Some?
    ensures var x := GetOrNew(r, t, n, Written(p));
      && Built(x.t) && x.node.value < |x.t|
      && (x.node.value < |t| ==> x.node.value < |t0| && t0 <= x.t)
  {
    GetOrNewBuilt(r, t, n, Written(p));
    GetOrNewAgrees(r, t0, t, n, Written(p));
    LinkMade(r, t, n, Written(p));
  }

  lemma FirstRefused(r: Rules, t0: Tree, t: Tree, n: nat, ps: seq<Piece>)
    requires Built(t0) && Built(t) && t0 <= t && n < |t0| && ps != [] && IsPiece(ps[0])
    requires GetOrNew(r, t, n, Written(ps[0])).node.None?
    ensures Insert(r, t, n, WrittenAll(ps)).node.None? && !Accepted(r, t0, n, ps)
  {
    GetOrNewAgrees(r, t0, t, n, Written(ps[0]));
    PieceAccepted(r, t0, n, ps[0]);
    FirstAllowed(r, ps);
  }

  /** Behind a piece that is new, all is. */
  lemma NewAccepts(r: Rules, t: Tree, n: nat, ps: seq<Piece>)
    requires Built(t) && n < |t| && ps != [] && ArePieces(ps)
    requires var x := GetOrNew(r, t, n, Written(ps[0])); x.node.Some? && x.node.value >= |t|
    ensures var x := GetOrNew(r, t, n, Written(ps[0]));
      && Built(x.t) && x.node.value < |x.t|
      && (Insert(r, x.t, x.node.value, WrittenAll(ps[1..])).node.Some? <==> AllAllowed(r, ps[1..]))
  {
    var x := GetOrNew(r, t, n, Written(ps[0]));
    GetOrNewBuilt(r, t, n, Written(ps[0]));
    LinkMade(r, t, n, Written(ps[0]));
    FreshAccepts(r, x.t, x.node.value, ps[1..]);
  }

  lemma AcceptsThen(r: Rules, t0: Tree, t: Tree, n: nat, ps: seq<Piece>, x: Inserted)
    requires Built(t0) && Built(t) && t0 <= t && n < |t0| && ps != [] && ArePieces(ps)
    requires x == GetOrNew(r, t, n, Written(ps[0])) && x.node.Some? && Built(x.t) && x.node.value < |x.t|
    requires x.node.value < |t| ==> x.node.value < |t0|
    requires Insert(r, x.t, x.node.value, WrittenAll(ps[1..])).node.Some? <==>
      if x.node.value < |t| then Accepted(r, t0, x.node.value, ps[1..]) else AllAllowed(r, ps[1..])
    ensures Insert(r, t, n, WrittenAll(ps)).node.Some? <==> Accepted(r, t0, n, ps)
  {
    assert WrittenAll(ps)[1..] == WrittenAll(ps[1..]) && WrittenAll(ps)[0] == Written(ps[0]);
    AcceptedNext(r, t0, t, n, ps, x.node.value);
  }

  /** Behind a piece that is accepted, when it leads to `c`. */
  lemma AcceptedNext(r: Rules, t0: Tree, t: Tree, n: nat, ps: seq<Piece>, c: nat)
    requires Built(t0) && Built(t) && t0 <= t && n < |t0| && ps != [] && IsPiece(ps[0])
    requires GetOrNew(r, t, n, Written(ps[0])).node == Some(c)
    ensures if c < |t| then c < |t0| && (Accepted(r, t0, n, ps) <==> Accepted(r, t0, c, ps[1..]))
      else Accepted(r, t0, n, ps) <==> AllAllowed(r, ps[1..])
  {
    GetOrNewAgrees(r, t0, t, n, Written(ps[0]));
    PieceAccepted(r, t0, n, ps[0]);
    PieceLink(r, t0, t, n, ps[0]);
    FirstAllowed(r, ps);
  }

  /** The child a piece leads to, if it was there before. */
  lemma PieceLink(r: Rules, t0: Tree, t: Tree, n: nat, p: Piece)
    requires Built(t0) && Built(t) && t0 <= t && n < |t0| && IsPiece(p)
    requires GetOrNew(r, t, n, Written(p)).node.Some?
    ensures var c := GetOrNew(r, t, n, Written(p)).node.value;
      && (p.Literal? ==> ExactFor(t0, n, p.text) == if c < |t| then Some(c) else None)
      && (!p.Literal? ==> t0[n].colon == if c < |t| then c else -1)
  {
    GetOrNewAgrees(r, t0, t, n, Written(p));
    LinkMade(r, t, n, Written(p));
    if p.Literal? {
      assert Key(p.text) == p.text && !IsColon(p.text);
    } else {
      PieceRead(r, p);
    }
  }

  // ---------------------------------------------------------------- one route alone

  /** The tree with the one route `ps`, if it is accepted. */
  lemma OneRoute(r: Rules, ps: seq<Piece>, segs: seq<string>)
    requires ArePieces(ps) && ps != []
    ensures var t := [NewNode(-1)];
      && Built(t)
      && var x := Insert(r, t, 0, WrittenAll(ps));
      && Linked(x.t)
      && (x.node.Some? <==> AllAllowed(r, ps))
      && (x.node.Some? ==> Direct(r, x.t, 0, segs) == if AllMatch(r, ps, segs) then x.node else None)
  {
    var t := [NewNode(-1)];
    RootBuilt();
    FreshAccepts(r, t, 0, ps);
    FreshDirect(r, t, 0, WrittenAll(ps), segs);
    if AllAllowed(r, ps) { AllFitMeans(r, ps, segs); }
  }

  lemma RootBuilt()
    ensures Built([NewNode(-1)])
  {
    assert LinksOwn([NewNode(-1)], 0);
  }
}
