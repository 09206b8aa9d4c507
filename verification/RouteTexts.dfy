/** Routes and paths as texts: what `add_node` makes of a pattern, and which paths are then
    matched. */
module RouteTexts {
  import opened RouteTree
  import opened RouteInsert
  import opened RoutePatterns
  import opened RouteTrie
  import opened Sequences

  /** The white space of the C locale. */
  predicate IsBlank(c: char) {
    c == ' ' || c == '\t' || c == '\n' || c == '\r' || c as int == 11 || c as int == 12
  }

  lemma {:induction false} WithoutConcat(a: string, b: string)
    ensures WithoutSpaces(a + b) == WithoutSpaces(a) + WithoutSpaces(b)
    decreases |a|
  {
    if a == "" {
      assert a + b == b;
    } else {
      assert (a + b)[0] == a[0] && (a + b)[1..] == a[1..] + b;
      WithoutConcat(a[1..], b);
      Assoc(if IsSpace(a[0]) then "" else [a[0]], WithoutSpaces(a[1..]), WithoutSpaces(b));
    }
  }

  lemma WithoutChar(c: char)
    ensures WithoutSpaces([c]) == if IsBlank(c) then "" else [c]
  {
    assert [c][1..] == "" && WithoutSpaces("") == "";
  }

  lemma WithoutOne(a: string, c: char, b: string)
    ensures WithoutSpaces(a + [c] + b) == if IsBlank(c) then WithoutSpaces(a + b) else WithoutSpaces(a) + [c] + WithoutSpaces(b)
  {
    WithoutConcat(a + [c], b);
    WithoutConcat(a, [c]);
    WithoutConcat(a, b);
    WithoutChar(c);
    assert WithoutSpaces(a) + "" == WithoutSpaces(a);
  }

  /** White space is dropped wherever it stands in a pattern. */
  lemma SpacesIgnored(r: Rules, t: Tree, a: string, c: char, b: string)
    requires Linked(t) && PlainKeys(t) && IsBlank(c)
    ensures AddRoute(r, t, a + [c] + b) == AddRoute(r, t, a + b)
  {
    WithoutOne(a, c, b);
  }

  lemma {:induction false} NothingBlank(s: string)
    requires forall i :: 0 <= i < |s| ==> !IsBlank(s[i])
    ensures WithoutSpaces(s) == s
  {
    if s != "" {
      NothingBlank(s[1..]);
      assert [s[0]] + s[1..] == s;
    }
  }

  /** Two slashes in a row are refused, and the tree is left alone. */
  lemma DoubleSlashRefused(r: Rules, t: Tree, a: string, b: string)
    requires Linked(t) && PlainKeys(t)
    ensures AddRoute(r, t, a + "/" + "/" + b) == Inserted(t, None)
  {
    var s := WithoutSpaces(a + "/" + "/" + b);
    WithoutOne(a + "/", '/', b);
    WithoutOne(a, '/', "");
    assert a + ['/'] + "" == a + "/" && WithoutSpaces("") == "";
    assert s == WithoutSpaces(a) + ['/'] + "" + ['/'] + WithoutSpaces(b);
    var i := |WithoutSpaces(a)|;
    assert s[i] == '/' && s[i + 1] == '/';
  }

  // ---------------------------------------------------------------- patterns of pieces

  /** The parts of a pattern: none contains a slash, and none but the last is empty. */
  ghost predicate AreParts(frags: seq<string>) {
    && frags != []
    && (forall i :: 0 <= i < |frags| ==> '/' !in frags[i])
    && (forall i :: 0 <= i < |frags| - 1 ==> frags[i] != "")
  }

  lemma SlashBetween(a: string, b: string)
    requires a != "" && '/' !in a && !HasDoubleSlash(b) && (b != "" ==> b[0] != '/')
    ensures var s := a + ['/'] + b; !HasDoubleSlash(s) && s[0] != '/'
  {
    var s := a + ['/'] + b;
    assert s[0] == a[0];
    forall i | 0 <= i < |s| - 1 ensures !(s[i] == '/' && s[i + 1] == '/') {
      if i < |a| {
        assert s[i] == a[i];
      } else if i == |a| {
        assert s[i + 1] == b[0];
      } else {
        assert s[i] == b[i - |a| - 1] && s[i + 1] == b[i - |a|];
      }
    }
  }

  lemma {:induction false} JoinedParts(frags: seq<string>)
    requires AreParts(frags)
    ensures var s := Join(frags, '/'); !HasDoubleSlash(s) && (s != "" ==> s[0] != '/')
    decreases |frags|
  {
    if |frags| > 1 {
      JoinedParts(frags[1..]);
      SlashBetween(frags[0], Join(frags[1..], '/'));
    }
  }

  lemma OneSlash(s: string)
    requires !HasDoubleSlash(s) && (s != "" ==> s[0] != '/')
    ensures !HasDoubleSlash("/" + s) && WithoutSlashes("/" + s) == s
  {
    var u := "/" + s;
    assert u[1..] == s;
    forall i | 0 <= i < |u| - 1 ensures !(u[i] == '/' && u[i + 1] == '/') {
      assert u[i + 1] == s[i];
      if i > 0 { assert u[i] == s[i - 1]; }
    }
  }

  /** A pattern is inserted as its parts; the slash in front makes no difference. */
  lemma PatternParts(r: Rules, t: Tree, frags: seq<string>)
    requires Linked(t) && PlainKeys(t) && AreParts(frags)
    requires forall i :: 0 <= i < |PathOf(frags)| ==> !IsBlank(PathOf(frags)[i])
    ensures AddRoute(r, t, PathOf(frags)) == AddRoute(r, t, Join(frags, '/')) == Insert(r, t, 0, frags)
  {
    var s := Join(frags, '/');
    assert forall i :: 0 <= i < |s| ==> s[i] == PathOf(frags)[i + 1];
    NothingBlank(PathOf(frags));
    NothingBlank(s);
    JoinedParts(frags);
    OneSlash(s);
    assert WithoutSlashes(s) == s;
    SplitJoin(frags, '/');
  }

  /** A route as it is written. */
  ghost predicate IsRoute(ps: seq<Piece>) {
    && ArePieces(ps) && AreParts(WrittenAll(ps))
    && forall i :: 0 <= i < |PathOf(WrittenAll(ps))| ==> !IsBlank(PathOf(WrittenAll(ps))[i])
  }

  /** The text of a route. */
  function TextOf(ps: seq<Piece>): string
    requires ps != []
  {
    PathOf(WrittenAll(ps))
  }

  /** In any tree a route is accepted exactly when what it shares with the tree agrees with it
      and the rest is allowed. */
  lemma RouteAccepted(r: Rules, t: Tree, ps: seq<Piece>)
    requires Built(t) && ps != [] && IsRoute(ps)
    ensures AddRoute(r, t, TextOf(ps)).node.Some? <==> Accepted(r, t, 0, ps)
  {
    PatternParts(r, t, WrittenAll(ps));
    InsertAccepts(r, t, t, 0, ps);
  }

  /** The only route of a server: it is accepted exactly when its parts are allowed, and then a
      path of as many segments leads to it exactly when each segment is what its part stands
      for - the text itself, anything, or what the pattern matches.  Whatever the limit. */
  lemma RouteAlone(r: Rules, ps: seq<Piece>, max: int, segs: seq<string>)
    requires ps != [] && IsRoute(ps)
    requires segs != [] && forall i :: 0 <= i < |segs| ==> '/' !in segs[i]
    ensures Built([NewNode(-1)])
    ensures var x := AddRoute(r, [NewNode(-1)], TextOf(ps));
      && Linked(x.t)
      && (x.node.Some? <==> AllAllowed(r, ps))
      && (x.node.Some? ==> Route(r, x.t, max, false, PathOf(segs)).node == if AllMatch(r, ps, segs) then x.node else None)
  {
    RootBuilt();
    PatternParts(r, [NewNode(-1)], WrittenAll(ps));
    OneRoute(r, ps, segs);
    var x := AddRoute(r, [NewNode(-1)], TextOf(ps));
    PathSegments(segs);
    RouteMeans(r, x.t, max, false, PathOf(segs));
  }

  /** The case of one part: "/:name(regex)" matches the paths "/s" whose segment the pattern
      matches and no others, and "/:name" matches every "/s". */
  lemma PatternDecides(r: Rules, name: string, regex: string, max: int, s: string)
    requires '(' !in name && regex != "" && r.segmentOk(name) && '/' !in s
    requires forall i :: 0 <= i < |name + regex| ==> !IsBlank((name + regex)[i]) && (name + regex)[i] != '/'
    ensures Built([NewNode(-1)])
    ensures var x := AddRoute(r, [NewNode(-1)], "/:" + name + "(" + regex + ")");
      && x.node.Some? && Linked(x.t)
      && (Route(r, x.t, max, false, "/" + s).node == if r.regexMatch(s, regex) then x.node else None)
    ensures name != "" && name[|name| - 1] != ')' ==>
      var x := AddRoute(r, [NewNode(-1)], "/:" + name);
      x.node.Some? && Linked(x.t) && Route(r, x.t, max, false, "/" + s).node == x.node
  {
    RootBuilt();
    OnePiece(r, Patterned(name, regex), name + "(" + regex + ")", name + regex, max, s);
    assert "/:" + name + "(" + regex + ")" == "/" + (":" + (name + "(" + regex + ")"));
    if name != "" && name[|name| - 1] != ')' {
      OnePiece(r, Named(name), name, name + regex, max, s);
      assert "/:" + name == "/" + (":" + name);
    }
  }

  lemma OnePiece(r: Rules, p: Piece, rest: string, clean: string, max: int, s: string)
    requires IsPiece(p) && IsAllowed(r, p) && Written(p) == ":" + rest && '/' !in s
    requires forall i :: 0 <= i < |clean| ==> !IsBlank(clean[i]) && clean[i] != '/'
    requires forall i :: 0 <= i < |rest| ==> rest[i] in clean || rest[i] == '(' || rest[i] == ')'
    ensures Built([NewNode(-1)])
    ensures var x := AddRoute(r, [NewNode(-1)], "/" + (":" + rest));
      && x.node.Some? && Linked(x.t)
      && Route(r, x.t, max, false, "/" + s).node == if Matches(r, p, s) then x.node else None
  {
    var ps := [p];
    assert ps[1..] == [] && WrittenAll(ps) == [Written(p)] && TextOf(ps) == "/" + (":" + rest);
    forall i | 0 <= i < |rest| ensures !IsBlank(rest[i]) && rest[i] != '/' { }
    assert forall i :: 1 < i < |TextOf(ps)| ==> TextOf(ps)[i] == rest[i - 2];
    assert AllAllowed(r, ps);
    RouteAlone(r, ps, max, [s]);
    assert PathOf([s]) == "/" + s;
    assert AllMatch(r, ps, [s]) <==> Matches(r, p, s) by { assert ps[0] == p && [s][0] == s; }
  }

  /** Where one part of a route may differ, no two may differ in its name or pattern: a second
      colon part at the same place is accepted exactly when it is the same one. */
  lemma ColonConflict(r: Rules, p: Piece, q: Piece)
    requires IsRoute([p]) && IsRoute([q]) && !p.Literal? && !q.Literal? && IsAllowed(r, p) && IsAllowed(r, q)
    ensures Built([NewNode(-1)])
    ensures var x := AddRoute(r, [NewNode(-1)], TextOf([p]));
      && x.node.Some? && Built(x.t)
      && var y := AddRoute(r, x.t, TextOf([q]));
      && (y.node.Some? <==> p == q)
      && (y.node.Some? ==> y.node == x.node)
  {
    var t := [NewNode(-1)];
    RootBuilt();
    assert [p][1..] == [] && [q][1..] == [];
    assert WrittenAll([p]) == [Written(p)] && WrittenAll([q]) == [Written(q)];
    PatternParts(r, t, [Written(p)]);
    InsertBuilt(r, t, 0, [Written(p)]);
    var x := AddRoute(r, t, TextOf([p]));
    ColonTreeOf(r, p);
    RouteAccepted(r, x.t, [q]);
    PatternParts(r, x.t, [Written(q)]);
    if p == q { SameAgain(r, p); }
  }

  /** The tree of one colon part. */
  lemma ColonTreeOf(r: Rules, p: Piece)
    requires IsPiece(p) && !p.Literal? && IsAllowed(r, p) && Built([NewNode(-1)])
    ensures var x := Insert(r, [NewNode(-1)], 0, [Written(p)]);
      && x.node == Some(1) && |x.t| == 2 && x.t[0].colon == 1 && x.t[0].children == []
      && SameColon(x.t, 1, p)
  {
    PieceRead(r, p);
    assert [Written(p)][1..] == [];
  }

  lemma SameAgain(r: Rules, p: Piece)
    requires IsPiece(p) && !p.Literal? && IsAllowed(r, p) && Built([NewNode(-1)])
    ensures var x := Insert(r, [NewNode(-1)], 0, [Written(p)]);
      Built(x.t) && Insert(r, x.t, 0, [Written(p)]).node == x.node
  {
    InsertBuilt(r, [NewNode(-1)], 0, [Written(p)]);
    ColonTreeOf(r, p);
    var x := Insert(r, [NewNode(-1)], 0, [Written(p)]);
    PieceRead(r, p);
    ColonMade(r, x.t, 0, Written(p));
    assert [Written(p)][1..] == [];
  }
}
