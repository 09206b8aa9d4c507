/** `Trie` of `http/trie.cc` as an object: its lookup loops with their explicit stack of
    fallbacks, and its insertion, proved against the search and the insertion on trees. */
module RouteTrie {
  import opened RouteTree
  import opened RouteInsert
  import opened Sequences

  // ---------------------------------------------------------------- splitting

  /** `string_split` at `d`; empty pieces are kept. */
  function Split(s: string, d: char): (r: seq<string>)
    ensures r != []
  {
    if s == "" then [""]
    else
      var rest := Split(s[1..], d);
      if s[0] == d then [""] + rest else [[s[0]] + rest[0]] + rest[1..]
  }

  function Join(parts: seq<string>, d: char): string
    requires parts != []
  {
    if |parts| == 1 then parts[0] else parts[0] + [d] + Join(parts[1..], d)
  }

  lemma {:induction false} SplitPlain(s: string, d: char)
    requires d !in s
    ensures Split(s, d) == [s]
  {
    if s != "" {
      SplitPlain(s[1..], d);
      assert [s[0]] + s[1..] == s && [s[1..]][1..] == [];
    }
  }

  lemma {:induction false} SplitAt(a: string, b: string, d: char)
    requires d !in a
    ensures Split(a + [d] + b, d) == [a] + Split(b, d)
  {
    if a == "" {
      assert a + [d] + b == [d] + b;
    } else {
      SplitAt(a[1..], b, d);
      assert (a + [d] + b)[1..] == a[1..] + [d] + b;
      assert [a[0]] + a[1..] == a;
    }
  }

  /** Splitting undoes joining: a path names its segments and no others. */
  lemma {:induction false} SplitJoin(parts: seq<string>, d: char)
    requires parts != [] && forall i :: 0 <= i < |parts| ==> d !in parts[i]
    ensures Split(Join(parts, d), d) == parts
  {
    if |parts| == 1 {
      SplitPlain(parts[0], d);
    } else {
      SplitJoin(parts[1..], d);
      SplitAt(parts[0], Join(parts[1..], d), d);
    }
  }

  function Prefixed(x: string, parts: seq<string>): seq<string>
    requires parts != []
  {
    [x + parts[0]] + parts[1..]
  }

  /** One character of the loop of `string_split`: `st` is where the present piece began. */
  lemma SplitStep(s: string, d: char, st: nat, i: nat)
    requires st <= i < |s|
    ensures Prefixed(s[st..i], Split(s[i..], d)) ==
      if s[i] == d then [s[st..i]] + Split(s[i + 1..], d) else Prefixed(s[st..i + 1], Split(s[i + 1..], d))
  {
    assert s[i..][0] == s[i] && s[i..][1..] == s[i + 1..];
    var rest := Split(s[i + 1..], d);
    if s[i] == d {
      assert s[st..i] + "" == s[st..i];
    } else {
      assert s[st..i] + ([s[i]] + rest[0]) == s[st..i + 1] + rest[0];
    }
  }

  method StringSplit(s: string, d: char) returns (result: seq<string>)
    ensures result == Split(s, d)
  {
    var start := -1;
    result := [];
    var i := 0;
    PrefixNothing(s, 0, d);
    assert s[0..] == s;
    while i <= |s|
      invariant 0 <= i <= |s| + 1 && -1 <= start <= i
      invariant i <= |s| ==>
        Split(s, d) == result + Prefixed(s[if start == -1 then i else start..i], Split(s[i..], d))
      invariant i == |s| + 1 ==> result == Split(s, d)
    {
      if start == -1 { start := i; }
      if i == |s| {
        LastPiece(s, start, d);
        result := result + [s[start..i]];
        start := -1;
      } else {
        SplitStep(s, d, start, i);
        if s[i] == d {
          Assoc(result, [s[start..i]], Split(s[i + 1..], d));
          result := result + [s[start..i]];
          start := -1;
          PrefixNothing(s, i + 1, d);
        }
      }
      i := i + 1;
    }
  }

  lemma LastPiece(s: string, st: nat, d: char)
    requires st <= |s|
    ensures Prefixed(s[st..|s|], Split(s[|s|..], d)) == [s[st..|s|]]
  {
    assert s[|s|..] == "" && s[st..|s|] + "" == s[st..|s|];
  }

  lemma PrefixNothing(s: string, i: nat, d: char)
    requires i <= |s|
    ensures Prefixed(s[i..i], Split(s[i..], d)) == Split(s[i..], d)
  {
    assert s[i..i] == "" && "" + Split(s[i..], d)[0] == Split(s[i..], d)[0];
  }

  // ---------------------------------------------------------------- lookup

  /** `Matched`, without parameters and pipeline. */
  datatype Matched = Matched(node: Option<nat>, error: bool)

  datatype LookupResult = LookupResult(first: bool, second: Matched)

  /** How many times `fallback_lookup` is called, with `d` dead ends met: once for each that
      leaves something to try, and once in vain when there never was anything. */
  function FallbackCalls(found: bool, d: nat): nat {
    if d == 0 then 0 else if found || d == 1 then d else d - 1
  }

  /** `_match` for the segments of a path; `error` is what an earlier try has left behind.  A
      fallback that succeeds delivers no node: its result is copied before the node is known. */
  function Lookup(r: Rules, t: Tree, max: int, segs: seq<string>, error: bool): Matched
    requires Linked(t)
  {
    var found, d := Search(r, t, 0, segs), DeadEnds(r, t, 0, segs);
    if d == 0 then Matched(found, error)
    else if FallbackCalls(found.Some?, d) > max then Matched(None, true)
    else Matched(None, if found.Some? then false else error)
  }

  /** `Trie::match`: a path that ends in a slash is tried again without it. */
  function Route(r: Rules, t: Tree, max: int, strict: bool, path: string): Matched
    requires Linked(t)
  {
    if path == "" || path[0] != '/' then Matched(None, true)
    else
      var m := Lookup(r, t, max, Split(path, '/')[1..], false);
      if m.node.None? && strict && path[|path| - 1] == '/'
      then Lookup(r, t, max, Split(path[..|path| - 1], '/')[1..], m.error)
      else m
  }

  class Trie {
    /** The root and the nodes made since. */
    var nodes: Tree
    const rules: Rules
    const strict_route: bool
    const max_fallback_depth: int

    ghost predicate Valid()
      reads this
    {
      Built(nodes)
    }

    constructor (rules: Rules, strict_route: bool, max_fallback_depth: int)
      ensures Valid() && nodes == [NewNode(-1)]
      ensures this.rules == rules && this.strict_route == strict_route && this.max_fallback_depth == max_fallback_depth
    {
      this.rules, this.strict_route, this.max_fallback_depth := rules, strict_route, max_fallback_depth;
      nodes := [NewNode(-1)];
    }

    /** `Node::find_child`. */
    method FindChildOf(n: nat, key: string) returns (child: Option<nat>)
      requires n < |nodes|
      ensures child == FindChild(nodes[n].children, key)
    {
      var children := nodes[n].children;
      var i := 0;
      assert children[0..] == children;
      while i < |children|
        invariant 0 <= i <= |children| && FindChild(children, key) == FindChild(children[i..], key)
      {
        assert children[i..][0] == children[i] && children[i..][1..] == children[i + 1..];
        if children[i].key == key { return Some(children[i].val); }
        i := i + 1;
      }
      child := None;
    }

    /** `get_colon_node`. */
    method GetColonNode(parent: nat, segment: string) returns (child: Option<nat>)
      requires Linked(nodes) && parent < |nodes|
      ensures child == ColonFor(rules, nodes, parent, segment)
    {
      var c := nodes[parent].colon;
      child := None;
      if c != -1 {
        child := Some(c);
        if nodes[c].regex != "" && !rules.regexMatch(segment, nodes[c].regex) { child := None; }
      }
    }

    /** `find_matched_child`: where to go, and the colon child to remember. */
    method FindMatchedChild(parent: nat, segment: string) returns (node: Option<nat>, colon_node: Option<nat>, is_same: bool)
      requires Linked(nodes) && parent < |nodes|
      ensures var exact, colon := ExactFor(nodes, parent, segment), ColonFor(rules, nodes, parent, segment);
        node == OrElse(exact, colon) && colon_node == colon && is_same == (exact.None? && colon.Some?)
    {
      var child := FindChildOf(parent, segment);
      colon_node := GetColonNode(parent, segment);
      if child.Some? {
        return child, colon_node, false;
      } else if colon_node.Some? {
        return colon_node, colon_node, true;
      } else {
        return None, None, false;
      }
    }

    /** The descent both lookups share: from `start` at segment `from`, pushing what is to be
        tried later, to an endpoint or a dead end. */
    method Descend(segments: seq<string>, start: nat, from: nat, stack: seq<Fallback>)
      returns (found: Option<nat>, stack': seq<Fallback>)
      requires Linked(nodes) && start < |nodes| && from <= |segments| && StackOk(nodes, segments, stack)
      ensures StackOk(nodes, segments, stack')
      ensures found.Some? ==>
        && Remaining(rules, nodes, segments, start, from, stack) == found
        && RemainingDeadEnds(rules, nodes, segments, start, from, stack) == 0
      ensures found.None? ==>
        && Remaining(rules, nodes, segments, start, from, stack) == FromStack(rules, nodes, segments, stack')
        && RemainingDeadEnds(rules, nodes, segments, start, from, stack) == 1 + StackDeadEnds(rules, nodes, segments, stack')
    {
      var parent: nat := start;
      stack' := stack;
      var i := from;
      while i < |segments|
        invariant from <= i <= |segments| && parent < |nodes| && StackOk(nodes, segments, stack')
        invariant Remaining(rules, nodes, segments, start, from, stack) == Remaining(rules, nodes, segments, parent, i, stack')
        invariant RemainingDeadEnds(rules, nodes, segments, start, from, stack)
               == RemainingDeadEnds(rules, nodes, segments, parent, i, stack')
      {
        DescendOne(rules, nodes, segments, parent, i, stack');
        var node, colon_node, is_same := FindMatchedChild(parent, segments[i]);
        if colon_node.Some? && !is_same {
          stack' := stack' + [Fallback(i, colon_node.value)];
        }
        if node.None? { return None, stack'; }
        parent := node.value;
        i := i + 1;
      }
      assert segments[i..] == [];
      found := if nodes[parent].endpoint then Some(parent) else None;
    }

    /** `fallback_lookup`: take the last entry off the stack and descend from it.  Only the
        first component of the result says whether a node was found. */
    method FallbackLookup(segments: seq<string>, stack: seq<Fallback>) returns (lr: LookupResult, stack': seq<Fallback>)
      requires Linked(nodes) && StackOk(nodes, segments, stack)
      ensures StackOk(nodes, segments, stack') && lr.second == Matched(None, false)
      ensures lr.first ==>
        FromStack(rules, nodes, segments, stack).Some? && StackDeadEnds(rules, nodes, segments, stack) == 0 && stack != []
      ensures !lr.first ==>
        && FromStack(rules, nodes, segments, stack) == FromStack(rules, nodes, segments, stack')
        && StackDeadEnds(rules, nodes, segments, stack)
           == (if stack == [] then 0 else 1) + StackDeadEnds(rules, nodes, segments, stack')
        && (stack == [] ==> stack' == [])
    {
      lr := LookupResult(false, Matched(None, false));
      if stack == [] { return lr, stack; }
      var fallback := stack[|stack| - 1];
      var found;
      found, stack' := Descend(segments, fallback.node, fallback.index + 1, stack[..|stack| - 1]);
      lr := lr.(first := found.Some?);
    }

    /** `_match`: the descent from the root, then one fallback after another until a node is
        found, nothing is left to try, or the limit is reached.  Each round but one in vain
        leaves fewer dead ends, so the loop would end without its limit too. */
    method MatchSegments(segments: seq<string>, error: bool) returns (matched: Matched)
      requires Linked(nodes)
      ensures matched == Lookup(rules, nodes, max_fallback_depth, segments, error)
    {
      ghost var d := DeadEnds(rules, nodes, 0, segments);
      assert segments[0..] == segments;
      var found, stack := Descend(segments, 0, 0, []);
      if found.Some? { return Matched(found, error); }
      var depth := 0;
      while true
        invariant depth >= 0 && StackOk(nodes, segments, stack)
        invariant Search(rules, nodes, 0, segments) == FromStack(rules, nodes, segments, stack)
        invariant d == 1 + depth + StackDeadEnds(rules, nodes, segments, stack)
        invariant stack == [] ==> depth == 0
        invariant depth <= max_fallback_depth || depth == 0
        decreases StackDeadEnds(rules, nodes, segments, stack), |stack|
      {
        CallsAhead(rules, nodes, segments, stack);
        depth := depth + 1;
        if depth > max_fallback_depth { return Matched(None, true); }
        ghost var before := stack;
        var lr;
        lr, stack := FallbackLookup(segments, stack);
        if lr.first { return lr.second; }
        if stack == [] { return Matched(None, error); }
      }
    }

    /** `match`. */
    method Match(path: string) returns (matched: Matched)
      requires Linked(nodes)
      ensures matched == Route(rules, nodes, max_fallback_depth, strict_route, path)
    {
      if path == "" || path[0] != '/' { return Matched(None, true); }
      var segments := StringSplit(path, '/');
      matched := MatchSegments(segments[1..], false);
      if matched.node.None? && strict_route {
        if path[|path| - 1] == '/' {
          segments := StringSplit(path[..|path| - 1], '/');
          matched := MatchSegments(segments[1..], matched.error);
        }
      }
    }

    // -------------------------------------------------------------- insertion

    /** A new node, not linked yet. */
    method MakeNode(parent: nat) returns (n: nat)
      modifies this`nodes
      ensures n == |old(nodes)| && nodes == old(nodes) + [NewNode(parent)]
    {
      n := |nodes|;
      nodes := nodes + [NewNode(parent)];
    }

    /** The part of `_get_or_new_node` for a fragment that begins with a colon. */
    method ColonNode(parent: nat, rest: string) returns (node: Option<nat>)
      requires Linked(nodes) && parent < |nodes|
      modifies this`nodes
      ensures var p := ParseColon(rules, rest);
        var t := old(nodes);
        if p.BadColon? then node == None && nodes == t + [NewNode(parent).(regex := p.regex)]
        else
          var t1 := t + [NewNode(parent).(name := p.name, regex := p.regex)];
          var c := t[parent].colon;
          if c != -1 then
            nodes == t1 && node == if t[c].name == p.name && t[c].regex == p.regex then Some(c as nat) else None
          else nodes == t1[parent := t1[parent].(colon := |t|)] && node == Some(|t|)
    {
      var n := MakeNode(parent);
      var name := rest;
      if rest == "" { return None; }
      if rest[|rest| - 1] == ')' {
        var search := FindOpen(name);
        if search < |name| {
          var regex := name[search + 1..|name| - 1];
          if regex == "" { return None; }
          name := name[..search];
          nodes := nodes[n := nodes[n].(regex := regex)];
        }
      }
      if !rules.segmentOk(name) { return None; }
      nodes := nodes[n := nodes[n].(name := name)];
      var colon_child := nodes[parent].colon;
      if colon_child != -1 {
        if nodes[n].name == nodes[colon_child].name && nodes[n].regex == nodes[colon_child].regex {
          return Some(colon_child);
        }
        return None;
      }
      nodes := nodes[parent := nodes[parent].(colon := n)];
      node := Some(n);
    }

    /** `_get_or_new_node`. */
    method GetOrNewNode(parent: nat, frag: string) returns (node: Option<nat>)
      requires Valid() && parent < |nodes|
      modifies this`nodes
      ensures Valid()
      ensures Inserted(nodes, node) == GetOrNew(rules, old(nodes), parent, frag)
    {
      GetOrNewBuilt(rules, nodes, parent, frag);
      var key := if frag == "" || frag == "/" then "" else frag;
      node := FindChildOf(parent, key);
      if node.Some? { return; }
      if key != "" && key[0] == ':' {
        node := ColonNode(parent, key[1..]);
        return;
      }
      var n := MakeNode(parent);
      if key != "" && !rules.segmentOk(key) { return None; }
      nodes := nodes[parent := nodes[parent].(children := nodes[parent].children + [Child(key, n)])];
      node := Some(n);
    }

    /** `_insert_node`. */
    method InsertNode(parent: nat, frags: seq<string>) returns (node: Option<nat>)
      requires Valid() && parent < |nodes| && frags != []
      modifies this`nodes
      ensures Valid() && Extends(old(nodes), nodes)
      ensures Inserted(nodes, node) == Insert(rules, old(nodes), parent, frags)
      decreases |frags|
    {
      InsertKeeps(rules, nodes, parent, frags);
      InsertBuilt(rules, nodes, parent, frags);
      GetOrNewBuilt(rules, nodes, parent, frags[0]);
      node := GetOrNewNode(parent, frags[0]);
      if node.None? { return; }
      var child := node.value;
      if |frags| == 1 {
        nodes := nodes[child := nodes[child].(endpoint := true)];
        return;
      }
      node := InsertNode(child, frags[1..]);
    }

    /** `add_node`; `None` is an exception. */
    method AddNode(pattern: string) returns (node: Option<nat>)
      requires Valid()
      modifies this`nodes
      ensures Valid() && Extends(old(nodes), nodes)
      ensures Inserted(nodes, node) == AddRoute(rules, old(nodes), pattern)
    {
      var trimmed := WithoutSpaces(pattern);
      if HasDoubleSlash(trimmed) { return None; }
      var segments := StringSplit(WithoutSlashes(trimmed), '/');
      node := InsertNode(0, segments);
    }
  }

  predicate IsSpace(c: char) {
    c == ' ' || 9 as char <= c <= 13 as char
  }

  /** `trim_path_spaces`. */
  function WithoutSpaces(s: string): string {
    if s == "" then "" else (if IsSpace(s[0]) then "" else [s[0]]) + WithoutSpaces(s[1..])
  }

  predicate HasDoubleSlash(s: string) {
    exists i :: 0 <= i < |s| - 1 && s[i] == '/' && s[i + 1] == '/'
  }

  /** `trim_prefix_slash`. */
  function WithoutSlashes(s: string): string {
    if s != "" && s[0] == '/' then WithoutSlashes(s[1..]) else s
  }

  /** `add_node` on trees. */
  function AddRoute(r: Rules, t: Tree, pattern: string): Inserted
    requires Linked(t) && PlainKeys(t)
  {
    var trimmed := WithoutSpaces(pattern);
    if HasDoubleSlash(trimmed) then Inserted(t, None) else Insert(r, t, 0, Split(WithoutSlashes(trimmed), '/'))
  }

  // ---------------------------------------------------------------- what callers get

  /** A path made of segments. */
  function PathOf(segs: seq<string>): string
    requires segs != []
  {
    "/" + Join(segs, '/')
  }

  lemma PathSegments(segs: seq<string>)
    requires segs != [] && forall i :: 0 <= i < |segs| ==> '/' !in segs[i]
    ensures Split(PathOf(segs), '/')[1..] == segs
  {
    assert "" + ['/'] + Join(segs, '/') == PathOf(segs);
    SplitAt("", Join(segs, '/'), '/');
    SplitJoin(segs, '/');
  }

  /** The fallbacks of a search that is needed: one for each dead end before the node that is
      found; one less than there are dead ends when nothing is found, but at least one. */
  function Fallbacks(r: Rules, t: Tree, segs: seq<string>): int
    requires Linked(t)
  {
    var d := DeadEnds(r, t, 0, segs);
    if Search(r, t, 0, segs).Some? || d < 2 then d else d - 1
  }

  /** One try finds a node exactly when the plain descent ends at an endpoint, whatever the
      limit; so it misses what the search would find exactly when that takes a fallback.  It is
      an error exactly when there are more fallbacks to call than the limit allows. */
  lemma LookupMeans(r: Rules, t: Tree, max: int, segs: seq<string>)
    requires Linked(t)
    ensures var m := Lookup(r, t, max, segs, false);
      var direct, found := Direct(r, t, 0, segs), Search(r, t, 0, segs);
      && m.node == direct
      && (m.node != found <==> Reachable(r, t, 0, segs) && direct.None?)
      && (m.error <==> direct.None? && Fallbacks(r, t, segs) > max)
  {
    SearchComplete(r, t, 0, segs);
    DirectIff(r, t, 0, segs);
  }

  /** The segments a path is looked up with. */
  function Segments(path: string): seq<string> {
    Split(path, '/')[1..]
  }

  /** The limit ends the search before it is over. */
  predicate LimitReached(r: Rules, t: Tree, max: int, segs: seq<string>)
    requires Linked(t)
  {
    DeadEnds(r, t, 0, segs) > 0 && Fallbacks(r, t, segs) > max
  }

  /** `match` finds a node exactly when the plain descent along the path ends at an endpoint or,
      where that is allowed, the one along the path without its last slash.  An error is
      reported when the limit was reached, except that a second try whose fallback succeeds
      clears it; a second try that succeeds at once does not. */
  lemma RouteMeans(r: Rules, t: Tree, max: int, strict: bool, path: string)
    requires Linked(t) && path != "" && path[0] == '/'
    ensures var m := Route(r, t, max, strict, path);
      var first, second := Segments(path), Segments(path[..|path| - 1]);
      var again := Direct(r, t, 0, first).None? && strict && path[|path| - 1] == '/';
      && m.node == Direct(r, t, 0, if again then second else first)
      && (m.error <==>
            if !again then LimitReached(r, t, max, first)
            else if Reachable(r, t, 0, second) && Direct(r, t, 0, second).None? then LimitReached(r, t, max, second)
            else LimitReached(r, t, max, first) || LimitReached(r, t, max, second))
  {
    DirectIff(r, t, 0, Segments(path));
    DirectIff(r, t, 0, Segments(path[..|path| - 1]));
    SearchComplete(r, t, 0, Segments(path[..|path| - 1]));
  }

  /** So a node can come with the error flag set: "/a/" against the one route "/a", with no
      fallback allowed. */
  lemma MatchCanBeFlagged(r: Rules)
    ensures var t := [Node("", "", false, -1, [Child("a", 1)], -1), Node("", "", true, 0, [], -1)];
      Linked(t) && Route(r, t, 0, true, "/a/") == Matched(Some(1), true)
  {
    var t := [Node("", "", false, -1, [Child("a", 1)], -1), Node("", "", true, 0, [], -1)];
    SlashSegments();
    assert ["a", ""][1..] == [""] && ["a"][1..] == [];
    assert ExactFor(t, 0, "a") == Some(1) && ExactFor(t, 1, "").None?;
    assert DeadEnds(r, t, 1, [""]) == 1 && Search(r, t, 1, [""]).None?;
    assert Search(r, t, 1, []) == Some(1) && DeadEnds(r, t, 1, []) == 0;
  }

  lemma SlashSegments()
    ensures Segments("/a/") == ["a", ""] && Segments("/a/"[..2]) == ["a"] && |"/a/"| == 3 && "/a/"[2] == '/'
  {
    SplitAt("", "a/", '/');
    SplitAt("a", "", '/');
    assert "" + ['/'] + "a/" == "/a/" && "a" + ['/'] + "" == "a/";
    SplitAt("", "a", '/');
    SplitPlain("a", '/');
    assert "" + ['/'] + "a" == "/a" && "/a/"[..2] == "/a";
  }

  /** What a path whose segments fit a new route is answered with: the route's node, unless the
      descent leaves the route at an exact child beside one of its colon fragments. */
  lemma RegisteredRouteMatches(r: Rules, t: Tree, max: int, frags: seq<string>, segs: seq<string>)
    requires Built(t) && AllFit(r, frags, segs) && Insert(r, t, 0, frags).node.Some?
    ensures var x := Insert(r, t, 0, frags);
      && Linked(x.t) && Lookup(r, x.t, max, segs, false).node == Answer(r, t, 0, frags, segs, x.node.value)
  {
    DirectAfter(r, t, t, 0, frags, segs);
    RouteAnswers(r, t, t, 0, frags, segs);
    LookupMeans(r, Insert(r, t, 0, frags).t, max, segs);
  }

  /** A path that is matched stays matched exactly when the new route does not divert it. */
  lemma LookupStaysMatched(r: Rules, t: Tree, max: int, frags: seq<string>, segs: seq<string>)
    requires Built(t) && Lookup(r, t, max, segs, false).node.Some?
    ensures var x := Insert(r, t, 0, frags);
      && Linked(x.t)
      && (Lookup(r, x.t, max, segs, false).node.Some? <==> !Diverted(r, t, 0, frags, segs, x.node.Some?))
  {
    LookupMeans(r, t, max, segs);
    MatchedStaysMatched(r, t, 0, frags, segs);
    LookupMeans(r, Insert(r, t, 0, frags).t, max, segs);
  }

  /** The tree of the one route "/:x/c". */
  function ColonTree(): Tree {
    [Node("", "", false, -1, [], 1), Node("x", "", false, 0, [Child("c", 2)], -1), Node("", "", true, 1, [], -1)]
  }

  /** The tree after "/a/b" has been added. */
  function BothTree(): Tree {
    [Node("", "", false, -1, [Child("a", 3)], 1), Node("x", "", false, 0, [Child("c", 2)], -1), Node("", "", true, 1, [], -1),
     Node("", "", false, 0, [Child("b", 4)], -1), Node("", "", true, 3, [], -1)]
  }

  /** "/a/c" is matched by the route "/:x/c", and no longer when "/a/b" has been added, though
      the search would find it. */
  lemma FallbackLosesNode(r: Rules, max: nat)
    requires max > 0 && r.segmentOk("x") && r.segmentOk("a") && r.segmentOk("b") && r.segmentOk("c")
    ensures Linked(ColonTree()) && PlainKeys(ColonTree()) && Linked(BothTree())
    ensures Insert(r, [NewNode(-1)], 0, [":x", "c"]) == Inserted(ColonTree(), Some(2))
    ensures Lookup(r, ColonTree(), max, ["a", "c"], false) == Matched(Some(2), false)
    ensures Insert(r, ColonTree(), 0, ["a", "b"]) == Inserted(BothTree(), Some(4))
    ensures Search(r, BothTree(), 0, ["a", "c"]) == Some(2)
    ensures Lookup(r, BothTree(), max, ["a", "c"], false) == Matched(None, false)
  {
    ColonTreeBuilt(r);
    BothTreeBuilt(r);
    BothTreeLinked();
    ColonTreeFinds(r, max);
    BothTreeSearched(r, max);
  }

  lemma ColonTreeFinds(r: Rules, max: nat)
    requires Linked(ColonTree())
    ensures Lookup(r, ColonTree(), max, ["a", "c"], false) == Matched(Some(2), false)
  {
    var t := ColonTree();
    assert ["a", "c"][1..] == ["c"] && ["c"][1..] == [];
    assert ExactFor(t, 0, "a").None? && ExactFor(t, 1, "c") == Some(2);
    assert Search(r, t, 1, ["c"]) == Some(2) && DeadEnds(r, t, 1, ["c"]) == 0;
  }

  lemma BothTreeLinked()
    ensures Linked(BothTree())
  {
  }

  lemma BothTreeSearched(r: Rules, max: nat)
    requires max > 0 && Linked(BothTree())
    ensures Search(r, BothTree(), 0, ["a", "c"]) == Some(2)
    ensures Lookup(r, BothTree(), max, ["a", "c"], false) == Matched(None, false)
  {
    var u := BothTree();
    assert ["a", "c"][1..] == ["c"] && ["c"][1..] == [];
    assert ExactFor(u, 0, "a") == Some(3) && ExactFor(u, 1, "c") == Some(2);
    assert Search(r, u, 1, ["c"]) == Some(2) && DeadEnds(r, u, 1, ["c"]) == 0;
    assert u[3].children[1..] == [] && ExactFor(u, 3, "c").None?;
    assert Search(r, u, 3, ["c"]).None? && DeadEnds(r, u, 3, ["c"]) == 1;
  }

  /** After ":x". */
  function FirstTree(): Tree {
    [Node("", "", false, -1, [], 1), Node("x", "", false, 0, [], -1)]
  }

  lemma ColonTreeBuilt(r: Rules)
    requires r.segmentOk("x") && r.segmentOk("c")
    ensures Linked(ColonTree()) && PlainKeys(ColonTree())
    ensures Insert(r, [NewNode(-1)], 0, [":x", "c"]) == Inserted(ColonTree(), Some(2))
  {
    FirstTreeMade(r);
    FirstTreeNext(r);
    assert [":x", "c"][1..] == ["c"] && ["c"][1..] == [];
  }

  lemma FirstTreeMade(r: Rules)
    requires r.segmentOk("x")
    ensures GetOrNew(r, [NewNode(-1)], 0, ":x") == Inserted(FirstTree(), Some(1))
  {
    assert ":x"[1..] == "x" && FindOpen("x") == 1;
  }

  lemma FirstTreeNext(r: Rules)
    requires r.segmentOk("c")
    ensures GetOrNew(r, FirstTree(), 1, "c") == Inserted(ColonTree()[2 := Node("", "", false, 1, [], -1)], Some(2))
  {
    assert [] + [Child("c", 2)] == [Child("c", 2)];
    assert FindChild(FirstTree()[1].children, "c").None?;
  }

  lemma BothTreeBuilt(r: Rules)
    requires r.segmentOk("a") && r.segmentOk("b")
    requires Linked(ColonTree()) && PlainKeys(ColonTree())
    ensures Insert(r, ColonTree(), 0, ["a", "b"]) == Inserted(BothTree(), Some(4))
  {
    var t, y := ColonTree(), MiddleTree();
    assert [] + [Child("a", 3)] == [Child("a", 3)];
    assert FindChild(t[0].children, "a").None?;
    assert GetOrNew(r, t, 0, "a") == Inserted(y, Some(3));
    MiddleTreeNext(r);
    assert ["a", "b"][1..] == ["b"] && ["b"][1..] == [];
  }

  /** Between them. */
  function MiddleTree(): Tree {
    [Node("", "", false, -1, [Child("a", 3)], 1), Node("x", "", false, 0, [Child("c", 2)], -1), Node("", "", true, 1, [], -1),
     Node("", "", false, 0, [], -1)]
  }

  lemma MiddleTreeNext(r: Rules)
    requires r.segmentOk("b")
    ensures GetOrNew(r, MiddleTree(), 3, "b") == Inserted(BothTree()[4 := Node("", "", false, 3, [], -1)], Some(4))
  {
    assert [] + [Child("b", 4)] == [Child("b", 4)];
    assert FindChild(MiddleTree()[3].children, "b").None?;
  }

  /** The limit cannot hurt a static route: its own path is matched by it at once. */
  lemma StaticRouteMatches(r: Rules, t: Tree, max: int, frags: seq<string>)
    requires Linked(t) && PlainKeys(t) && frags != [] && Insert(r, t, 0, frags).node.Some?
    requires forall i :: 0 <= i < |frags| ==> !IsColon(frags[i]) && '/' !in frags[i]
    ensures var x := Insert(r, t, 0, frags);
      Linked(x.t) && Route(r, x.t, max, true, PathOf(frags)) == Matched(x.node, false)
  {
    var x := Insert(r, t, 0, frags);
    InsertKeeps(r, t, 0, frags);
    PathSegments(frags);
    forall i | 0 <= i < |frags| ensures frags[i] == Key(frags[i]) { }
    StaticRouteWins(r, t, 0, frags, frags);
    DirectIff(r, x.t, 0, frags);
  }

  /** While the stack is not empty, the dead ends in it decide how many calls are ahead. */
  lemma CallsAhead(r: Rules, t: Tree, segs: seq<string>, stack: seq<Fallback>)
    requires Linked(t) && StackOk(t, segs, stack)
    ensures stack != [] && FromStack(r, t, segs, stack).None? ==> StackDeadEnds(r, t, segs, stack) >= 1
    ensures stack == [] ==> FromStack(r, t, segs, stack).None? && StackDeadEnds(r, t, segs, stack) == 0
  {
    if stack != [] {
      var top := stack[|stack| - 1];
      if Search(r, t, top.node, segs[top.index + 1..]).None? {
        FailureIsDeadEnd(r, t, top.node, segs[top.index + 1..]);
      }
    }
  }
}
