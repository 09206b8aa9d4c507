/** Adding routes (`Trie::add_node` and what it calls). */
module RouteInsert {
  import opened RouteTree

  /** A tree with the node found or made; `None` stands for an exception, which leaves in
      place whatever had been built by then. */
  datatype Inserted = Inserted(t: Tree, node: Option<nat>)

  /** A new node; `parent` is set, a link to it is not. */
  function NewNode(parent: int): Node {
    Node("", "", false, parent, [], -1)
  }

  predicate IsColon(frag: string) {
    frag != "" && frag[0] == ':'
  }

  /** The key an exact child is stored under. */
  function Key(frag: string): string {
    if frag == "/" then "" else frag
  }

  /** Where `(` is, or the length. */
  function FindOpen(s: string): (i: nat)
    ensures i <= |s| && (i < |s| ==> s[i] == '(')
  {
    if s == "" || s[0] == '(' then 0 else 1 + FindOpen(s[1..])
  }

  datatype Colon = Colon(name: string, regex: string) | BadColon(regex: string)

  /** ":name" or ":name(regex)" without its colon.  A bare ":" is out of range. */
  function ParseColon(r: Rules, rest: string): Colon {
    if rest == "" then BadColon("")
    else
      var open := FindOpen(rest);
      var last := rest[|rest| - 1];
      if last == ')' && open < |rest| then
        var regex := rest[open + 1..|rest| - 1];
        if regex == "" then BadColon("")
        else if r.segmentOk(rest[..open]) then Colon(rest[..open], regex) else BadColon(regex)
      else if r.segmentOk(rest) then Colon(rest, "") else BadColon("")
  }

  function AddChild(t: Tree, n: nat, c: Child): Tree
    requires n < |t|
  {
    t[n := t[n].(children := t[n].children + [c])]
  }

  /** `_get_or_new_node`; a node made in vain stays, unlinked. */
  function GetOrNew(r: Rules, t: Tree, parent: nat, frag: string): Inserted
    requires parent < |t|
  {
    var key := Key(frag);
    var found := FindChild(t[parent].children, key);
    if found.Some? then Inserted(t, found)
    else
      var made := |t|;
      if key == "" then Inserted(AddChild(t + [NewNode(parent)], parent, Child(key, made)), Some(made))
      else if IsColon(key) then
        var p := ParseColon(r, key[1..]);
        if p.BadColon? then Inserted(t + [NewNode(parent).(regex := p.regex)], None)
        else
          var t1 := t + [NewNode(parent).(name := p.name, regex := p.regex)];
          var c := t[parent].colon;
          if 0 <= c < |t| then
            Inserted(t1, if t[c].name == p.name && t[c].regex == p.regex then Some(c as nat) else None)
          else Inserted(t1[parent := t1[parent].(colon := made)], Some(made))
      else if r.segmentOk(key) then Inserted(AddChild(t + [NewNode(parent)], parent, Child(key, made)), Some(made))
      else Inserted(t + [NewNode(parent)], None)
  }

  /** What insertion does to the nodes there were. */
  ghost predicate Extends(t: Tree, u: Tree) {
    && |t| <= |u|
    && forall n :: 0 <= n < |t| ==>
         && u[n].name == t[n].name && u[n].regex == t[n].regex && u[n].parent == t[n].parent && (t[n].endpoint ==> u[n].endpoint)
         && t[n].children <= u[n].children && (t[n].colon != -1 ==> u[n].colon == t[n].colon)
  }

  /** Keys of exact children are not colon fragments. */
  ghost predicate PlainKeys(t: Tree) {
    forall n, i :: 0 <= n < |t| && 0 <= i < |t[n].children| ==> !IsColon(t[n].children[i].key)
  }

  /** `frag` leads from `parent` to `c`. */
  ghost predicate Leads(r: Rules, t: Tree, parent: nat, frag: string, c: nat) {
    && parent < |t| && c < |t|
    && if IsColon(frag) then
         var p := ParseColon(r, frag[1..]);
         p.Colon? && t[parent].colon == c && t[c].regex == p.regex
       else FindChild(t[parent].children, Key(frag)) == Some(c)
  }

  lemma {:induction false} FindAppended(children: seq<Child>, more: seq<Child>, key: string)
    ensures FindChild(children + more, key) ==
      OrElse(FindChild(children, key), FindChild(more, key))
    decreases |children|
  {
    if children == [] {
      assert [] + more == more;
    } else {
      assert (children + more)[0] == children[0] && (children + more)[1..] == children[1..] + more;
      FindAppended(children[1..], more, key);
    }
  }

  lemma FindKept(t: Tree, u: Tree, n: nat, key: string)
    requires Extends(t, u) && n < |t| && FindChild(t[n].children, key).Some?
    ensures FindChild(u[n].children, key) == FindChild(t[n].children, key)
  {
    var more := u[n].children[|t[n].children|..];
    assert u[n].children == t[n].children + more;
    FindAppended(t[n].children, more, key);
  }

  lemma ColonIsNoKey(t: Tree, n: nat, key: string)
    requires PlainKeys(t) && n < |t| && IsColon(key)
    ensures FindChild(t[n].children, key).None?
  {
    FoundIsChild(t[n].children, key);
  }

  lemma ChildAdded(t: Tree, parent: nat, key: string)
    requires Linked(t) && PlainKeys(t) && parent < |t| && !IsColon(key) && FindChild(t[parent].children, key).None?
    ensures var u := AddChild(t + [NewNode(parent)], parent, Child(key, |t|));
      Linked(u) && PlainKeys(u) && Extends(t, u) && FindChild(u[parent].children, key) == Some(|t|)
  {
    FindAppended(t[parent].children, [Child(key, |t|)], key);
  }

  lemma NodeAdded(t: Tree, node: Node)
    requires Linked(t) && PlainKeys(t) && node.children == [] && node.colon == -1
    ensures Linked(t + [node]) && PlainKeys(t + [node]) && Extends(t, t + [node])
  {
  }

  lemma ColonAdded(t: Tree, parent: nat, node: Node)
    requires Linked(t) && PlainKeys(t) && parent < |t| && t[parent].colon == -1
    requires node.children == [] && node.colon == -1
    ensures var t1 := t + [node];
      var u := t1[parent := t1[parent].(colon := |t|)];
      Linked(u) && PlainKeys(u) && Extends(t, u)
  {
  }

  /** One fragment: what was there stays, and the fragment leads to the node returned. */
  lemma GetOrNewKeeps(r: Rules, t: Tree, parent: nat, frag: string)
    requires Linked(t) && PlainKeys(t) && parent < |t|
    ensures var x := GetOrNew(r, t, parent, frag);
      && Linked(x.t) && PlainKeys(x.t) && Extends(t, x.t)
      && (x.node.Some? ==> parent < x.node.value < |x.t| && Leads(r, x.t, parent, frag, x.node.value))
  {
    var key := Key(frag);
    var found := FindChild(t[parent].children, key);
    FoundIsChild(t[parent].children, key);
    if IsColon(key) {
      ColonIsNoKey(t, parent, key);
      var p := ParseColon(r, key[1..]);
      if p.BadColon? {
        NodeAdded(t, NewNode(parent).(regex := p.regex));
      } else {
        NodeAdded(t, NewNode(parent).(name := p.name, regex := p.regex));
        if t[parent].colon == -1 { ColonAdded(t, parent, NewNode(parent).(name := p.name, regex := p.regex)); }
      }
    } else if found.None? {
      ChildAdded(t, parent, key);
      NodeAdded(t, NewNode(parent));
    }
  }

  /** `_insert_node`; without fragments the node itself becomes an endpoint. */
  function Insert(r: Rules, t: Tree, parent: nat, frags: seq<string>): Inserted
    requires Linked(t) && PlainKeys(t) && parent < |t|
    decreases |frags|
  {
    if frags == [] then Inserted(t[parent := t[parent].(endpoint := true)], Some(parent))
    else
      GetOrNewKeeps(r, t, parent, frags[0]);
      var x := GetOrNew(r, t, parent, frags[0]);
      if x.node.None? then x else Insert(r, x.t, x.node.value, frags[1..])
  }

  lemma ExtendsTransitive(t: Tree, u: Tree, v: Tree)
    requires Extends(t, u) && Extends(u, v)
    ensures Extends(t, v)
  {
  }

  /** Insertion keeps the tree well formed and every node in it, also when it fails. */
  lemma {:induction false} InsertKeeps(r: Rules, t: Tree, parent: nat, frags: seq<string>)
    requires Linked(t) && PlainKeys(t) && parent < |t|
    ensures var x := Insert(r, t, parent, frags);
      && Linked(x.t) && PlainKeys(x.t) && Extends(t, x.t)
      && (x.node.Some? ==> parent <= x.node.value < |x.t| && x.t[x.node.value].endpoint)
    decreases |frags|
  {
    if frags != [] {
      GetOrNewKeeps(r, t, parent, frags[0]);
      var x := GetOrNew(r, t, parent, frags[0]);
      if x.node.Some? {
        InsertKeeps(r, x.t, x.node.value, frags[1..]);
        ExtendsTransitive(t, x.t, Insert(r, x.t, x.node.value, frags[1..]).t);
      }
    }
  }

  // ---------------------------------------------------------------- what a route matches

  /** The path segment fits the fragment. */
  predicate Fits(r: Rules, frag: string, s: string) {
    if IsColon(frag) then
      var p := ParseColon(r, frag[1..]);
      p.Colon? && (p.regex == "" || r.regexMatch(s, p.regex))
    else s == Key(frag)
  }

  predicate AllFit(r: Rules, frags: seq<string>, segs: seq<string>): (fit: bool)
    ensures fit ==> |frags| == |segs|
  {
    if frags == [] then segs == []
    else segs != [] && Fits(r, frags[0], segs[0]) && AllFit(r, frags[1..], segs[1..])
  }

  lemma LeadsKept(r: Rules, t: Tree, u: Tree, parent: nat, frag: string, c: nat)
    requires Extends(t, u) && Leads(r, t, parent, frag, c)
    ensures Leads(r, u, parent, frag, c)
  {
    if !IsColon(frag) { FindKept(t, u, parent, Key(frag)); }
  }

  /** The child that the first fragment leads to, in the finished tree. */
  lemma FirstStep(r: Rules, t: Tree, parent: nat, frags: seq<string>) returns (c: nat)
    requires Linked(t) && PlainKeys(t) && parent < |t| && frags != [] && Insert(r, t, parent, frags).node.Some?
    ensures var x := Insert(r, t, parent, frags);
      var y := GetOrNew(r, t, parent, frags[0]);
      && Leads(r, x.t, parent, frags[0], c)
      && Linked(y.t) && PlainKeys(y.t) && c < |y.t| && y.node == Some(c) && x == Insert(r, y.t, c, frags[1..])
  {
    GetOrNewKeeps(r, t, parent, frags[0]);
    var y := GetOrNew(r, t, parent, frags[0]);
    c := y.node.value;
    InsertKeeps(r, y.t, c, frags[1..]);
    LeadsKept(r, y.t, Insert(r, y.t, c, frags[1..]).t, parent, frags[0], c);
  }

  /** Every path whose segments fit the fragments leads to the node of the route. */
  lemma {:induction false} RouteReachable(r: Rules, t: Tree, parent: nat, frags: seq<string>, segs: seq<string>)
    returns (choices: seq<bool>)
    requires Linked(t) && PlainKeys(t) && parent < |t| && AllFit(r, frags, segs)
    requires Insert(r, t, parent, frags).node.Some?
    ensures var x := Insert(r, t, parent, frags);
      Linked(x.t) && parent < |x.t| && |choices| == |segs| && Follow(r, x.t, parent, segs, choices) == x.node
    decreases |frags|
  {
    InsertKeeps(r, t, parent, frags);
    if frags == [] {
      choices := [];
    } else {
      var c := FirstStep(r, t, parent, frags);
      var y := GetOrNew(r, t, parent, frags[0]);
      var more := RouteReachable(r, y.t, c, frags[1..], segs[1..]);
      choices := [!IsColon(frags[0])] + more;
      assert choices[1..] == more;
    }
  }

  /** A route without colon fragments is found by its own path, whatever else is in the tree,
      and no dead end lies before it. */
  lemma {:induction false} StaticRouteWins(r: Rules, t: Tree, parent: nat, frags: seq<string>, segs: seq<string>)
    requires Linked(t) && PlainKeys(t) && parent < |t|
    requires Insert(r, t, parent, frags).node.Some?
    requires |segs| == |frags| && forall i :: 0 <= i < |frags| ==> !IsColon(frags[i]) && segs[i] == Key(frags[i])
    ensures var x := Insert(r, t, parent, frags);
      && Linked(x.t) && parent < |x.t| && Search(r, x.t, parent, segs) == Direct(r, x.t, parent, segs) == x.node
    decreases |frags|
  {
    InsertKeeps(r, t, parent, frags);
    if frags != [] {
      var c := FirstStep(r, t, parent, frags);
      var y := GetOrNew(r, t, parent, frags[0]);
      StaticRouteWins(r, y.t, c, frags[1..], segs[1..]);
    }
  }

  // ---------------------------------------------------------------- subtrees

  /** Parent pointers agree with the links, and no two links of a node lead to the same child. */
  ghost predicate Rooted(t: Tree) {
    forall n :: 0 <= n < |t| ==> -1 <= t[n].parent < n && LinksOwn(t, n)
  }

  ghost predicate LinksOwn(t: Tree, n: nat)
    requires n < |t|
  {
    && (0 <= t[n].colon < |t| ==> t[t[n].colon].parent == n)
    && (forall i :: 0 <= i < |t[n].children| ==>
         && t[n].children[i].val < |t| && t[t[n].children[i].val].parent == n
         && t[n].children[i].val != t[n].colon)
    && (forall i, j :: 0 <= i < j < |t[n].children| ==> t[n].children[i].val != t[n].children[j].val)
  }

  /** What holds of every tree that insertions have built. */
  ghost predicate Built(t: Tree) {
    Linked(t) && PlainKeys(t) && Rooted(t)
  }

  /** `m` is `top` or a descendant of it. */
  ghost predicate Below(t: Tree, top: nat, m: nat)
    requires m < |t|
  {
    m == top || (0 <= t[m].parent < m && Below(t, top, t[m].parent))
  }

  lemma {:induction false} BelowIsYounger(t: Tree, top: nat, m: nat)
    requires m < |t| && Below(t, top, m)
    ensures top <= m
  {
    if m != top { BelowIsYounger(t, top, t[m].parent); }
  }

  lemma {:induction false} BelowTransitive(t: Tree, a: nat, b: nat, m: nat)
    requires m < |t| && b < |t| && Below(t, b, m) && Below(t, a, b)
    ensures Below(t, a, m)
  {
    if m != b && m != a { BelowTransitive(t, a, b, t[m].parent); }
  }

  lemma {:induction false} BelowKept(t: Tree, u: Tree, top: nat, m: nat)
    requires |t| <= |u| && m < |t| && forall k :: 0 <= k < |t| ==> u[k].parent == t[k].parent
    ensures Below(u, top, m) == Below(t, top, m)
  {
    if m != top && 0 <= t[m].parent < m { BelowKept(t, u, top, t[m].parent); }
  }

  /** Subtrees of two children of a node have nothing in common. */
  lemma {:induction false} SiblingsApart(t: Tree, n: nat, c: nat, d: nat, m: nat)
    requires Rooted(t) && c < |t| && d < |t| && m < |t| && c != d && t[c].parent == n == t[d].parent
    requires Below(t, c, m) && Below(t, d, m)
    ensures false
  {
    if m == c {
      BelowIsYounger(t, d, n);
    } else if m == d {
      BelowIsYounger(t, c, n);
    } else {
      SiblingsApart(t, n, c, d, t[m].parent);
    }
  }

  /** The links of a node lead to nodes below it. */
  lemma NextIsChild(r: Rules, t: Tree, n: nat, s: string)
    requires Linked(t) && Rooted(t) && n < |t|
    ensures ExactFor(t, n, s).Some? ==> ExactFor(t, n, s).value < |t| && t[ExactFor(t, n, s).value].parent == n
    ensures ColonFor(r, t, n, s).Some? ==> t[ColonFor(r, t, n, s).value].parent == n
    ensures ExactFor(t, n, s).Some? ==> ExactFor(t, n, s).value != t[n].colon
  {
    FoundIsChild(t[n].children, s);
  }

  lemma KeysTellApart(t: Tree, n: nat, s: string, key: string)
    requires Rooted(t) && n < |t| && s != key && ExactFor(t, n, s).Some? && ExactFor(t, n, key).Some?
    ensures ExactFor(t, n, s) != ExactFor(t, n, key)
  {
    FoundIsChild(t[n].children, s);
    FoundIsChild(t[n].children, key);
  }

  /** A new node, linked from nowhere, then linked as a child or as the colon child. */
  lemma RootedNode(t: Tree, node: Node)
    requires Linked(t) && Rooted(t) && node.children == [] && node.colon == -1 && -1 <= node.parent < |t|
    ensures Rooted(t + [node])
  {
    var u := t + [node];
    forall n | 0 <= n < |u| ensures -1 <= u[n].parent < n && LinksOwn(u, n) {
      if n < |t| { assert LinksOwn(t, n); }
    }
  }

  lemma RootedChild(t: Tree, parent: nat, key: string)
    requires Linked(t) && Rooted(t) && parent < |t|
    ensures Rooted(AddChild(t + [NewNode(parent)], parent, Child(key, |t|)))
  {
    var u := AddChild(t + [NewNode(parent)], parent, Child(key, |t|));
    ChildOwned(t, u, parent, key);
    forall n | 0 <= n < |u| ensures -1 <= u[n].parent < n && LinksOwn(u, n) {
      if n < |t| && n != parent { assert LinksOwn(t, n); }
    }
  }

  lemma ChildOwned(t: Tree, u: Tree, parent: nat, key: string)
    requires Linked(t) && Rooted(t) && parent < |t|
    requires u == AddChild(t + [NewNode(parent)], parent, Child(key, |t|))
    ensures LinksOwn(u, parent)
  {
    assert LinksOwn(t, parent);
    assert u[parent] == t[parent].(children := t[parent].children + [Child(key, |t|)]);
    forall i | 0 <= i < |u[parent].children|
      ensures u[parent].children[i].val < |u| && u[u[parent].children[i].val].parent == parent
      ensures i < |t[parent].children| ==> u[parent].children[i] == t[parent].children[i] && u[parent].children[i].val < |t|
    {
    }
  }

  lemma RootedColon(t: Tree, parent: nat, node: Node)
    requires Linked(t) && Rooted(t) && parent < |t|
    requires node.children == [] && node.colon == -1 && node.parent == parent
    ensures var t1 := t + [node];
      Rooted(t1[parent := t1[parent].(colon := |t|)])
  {
    var t1 := t + [node];
    var u := t1[parent := t1[parent].(colon := |t|)];
    forall n | 0 <= n < |u| ensures -1 <= u[n].parent < n && LinksOwn(u, n) {
      if n < |t| { assert LinksOwn(t, n); }
    }
  }

  /** One fragment changes no old node but the parent, and leads to a child of it. */
  lemma GetOrNewLocal(r: Rules, t: Tree, parent: nat, frag: string)
    requires parent < |t| && LinksOwn(t, parent)
    requires ExactFor(t, parent, Key(frag)).Some? ==>
      var c := ExactFor(t, parent, Key(frag)).value; c < |t| && t[c].parent == parent
    ensures var x := GetOrNew(r, t, parent, frag);
      && |t| <= |x.t|
      && (forall m :: 0 <= m < |t| && m != parent ==> x.t[m] == t[m])
      && (x.node.Some? ==> x.node.value < |x.t| && x.t[x.node.value].parent == parent)
  {
  }

  lemma GetOrNewRooted(r: Rules, t: Tree, parent: nat, frag: string)
    requires Built(t) && parent < |t|
    ensures Rooted(GetOrNew(r, t, parent, frag).t)
  {
    var key := Key(frag);
    RootedNode(t, NewNode(parent));
    if IsColon(key) {
      var p := ParseColon(r, key[1..]);
      var node := NewNode(parent).(regex := p.regex);
      RootedNode(t, node);
      if p.Colon? {
        node := NewNode(parent).(name := p.name, regex := p.regex);
        RootedNode(t, node);
        RootedColon(t, parent, node);
      }
    } else {
      RootedChild(t, parent, key);
    }
  }

  /** So it keeps the tree built. */
  lemma GetOrNewBuilt(r: Rules, t: Tree, parent: nat, frag: string)
    requires Built(t) && parent < |t|
    ensures var x := GetOrNew(r, t, parent, frag);
      && Built(x.t) && Extends(t, x.t)
      && (forall m :: 0 <= m < |t| && m != parent ==> x.t[m] == t[m])
      && (x.node.Some? ==> parent < x.node.value < |x.t| && x.t[x.node.value].parent == parent)
  {
    GetOrNewKeeps(r, t, parent, frag);
    NextIsChild(r, t, parent, Key(frag));
    assert LinksOwn(t, parent);
    GetOrNewLocal(r, t, parent, frag);
    GetOrNewRooted(r, t, parent, frag);
  }

  lemma {:induction false} InsertBuilt(r: Rules, t: Tree, parent: nat, frags: seq<string>)
    requires Built(t) && parent < |t|
    ensures Built(Insert(r, t, parent, frags).t)
    decreases |frags|
  {
    InsertKeeps(r, t, parent, frags);
    if frags == [] {
      var u := Insert(r, t, parent, frags).t;
      forall n | 0 <= n < |u| ensures -1 <= u[n].parent < n && LinksOwn(u, n) {
        assert LinksOwn(t, n);
      }
    } else {
      GetOrNewBuilt(r, t, parent, frags[0]);
      var x := GetOrNew(r, t, parent, frags[0]);
      if x.node.Some? { InsertBuilt(r, x.t, x.node.value, frags[1..]); }
    }
  }

  /** Insertion changes no node outside the subtree it works in. */
  lemma {:induction false} InsertLocal(r: Rules, t: Tree, parent: nat, frags: seq<string>, m: nat)
    requires Built(t) && parent < |t| && m < |t| && !Below(t, parent, m)
    ensures var x := Insert(r, t, parent, frags); |t| <= |x.t| && x.t[m] == t[m]
    decreases |frags|
  {
    if frags != [] {
      GetOrNewBuilt(r, t, parent, frags[0]);
      var x := GetOrNew(r, t, parent, frags[0]);
      if x.node.Some? {
        var c := x.node.value;
        BelowKept(t, x.t, parent, m);
        if Below(x.t, c, m) { BelowTransitive(x.t, parent, c, m); }
        InsertLocal(r, x.t, c, frags[1..], m);
      }
    }
  }

  /** A descent sees its own subtree only. */
  lemma {:induction false} DirectLocal(r: Rules, t: Tree, u: Tree, d: nat, segs: seq<string>)
    requires Linked(t) && Linked(u) && Rooted(t) && d < |t| <= |u|
    requires forall m :: 0 <= m < |t| && Below(t, d, m) ==> u[m] == t[m]
    ensures Direct(r, u, d, segs) == Direct(r, t, d, segs)
    decreases |segs|
  {
    assert Below(t, d, d);
    if segs != [] {
      NextInTree(r, t, d, segs[0]);
      NextIsChild(r, t, d, segs[0]);
      var c := t[d].colon;
      if c != -1 { assert LinksOwn(t, d) && Below(t, d, c); }
      var exact, colon := ExactFor(t, d, segs[0]), ColonFor(r, t, d, segs[0]);
      if exact.Some? || colon.Some? {
        var next := if exact.Some? then exact.value else colon.value;
        forall m | 0 <= m < |t| && Below(t, next, m) ensures u[m] == t[m] {
          BelowTransitive(t, d, next, m);
        }
        DirectLocal(r, t, u, next, segs[1..]);
      }
    }
  }

  // ---------------------------------------------------------------- the descent after an insertion

  /** Where the plain descent ends when `frags` have been inserted at `n` with the result
      `node`, said of the tree before. */
  function After(r: Rules, t: Tree, n: nat, frags: seq<string>, segs: seq<string>, node: Option<nat>): Option<nat>
    requires Linked(t) && n < |t|
    decreases |segs|
  {
    if frags == [] && segs == [] then Some(n)
    else if frags == [] || segs == [] || GetOrNew(r, t, n, frags[0]).node.None? then Direct(r, t, n, segs)
    else
      NextInTree(r, t, n, segs[0]);
      var exact, colon := ExactFor(t, n, segs[0]), ColonFor(r, t, n, segs[0]);
      var chain := if AllFit(r, frags[1..], segs[1..]) then node else None;
      if !IsColon(frags[0]) && Fits(r, frags[0], segs[0]) then
        if exact.Some? then After(r, t, exact.value, frags[1..], segs[1..], node) else chain
      else if exact.Some? then Direct(r, t, exact.value, segs[1..])
      else if IsColon(frags[0]) && Fits(r, frags[0], segs[0]) then
        if colon.Some? then After(r, t, colon.value, frags[1..], segs[1..], node) else chain
      else if colon.Some? then Direct(r, t, colon.value, segs[1..])
      else None
  }

  /** The one link of a node that had none. */
  lemma FirstLink(r: Rules, t: Tree, n: nat, frag: string)
    requires Built(t) && n < |t| && t[n].children == [] && t[n].colon == -1
    ensures var x := GetOrNew(r, t, n, frag);
      && (x.node.None? ==> n < |x.t| && x.t[n] == t[n])
      && (x.node.Some? ==>
            && x.node == Some(|t|) && |x.t| == |t| + 1 && OneLink(r, x.t, n, frag, |t|)
            && x.t[n].endpoint == t[n].endpoint
            && x.t[|t|].children == [] && x.t[|t|].colon == -1 && !x.t[|t|].endpoint)
  {
  }

  /** The only link of `n` is that of `frag`, to `k`. */
  ghost predicate OneLink(r: Rules, t: Tree, n: nat, frag: string, k: nat) {
    && n < k < |t|
    && if IsColon(frag) then
         var p := ParseColon(r, frag[1..]);
         p.Colon? && t[n].children == [] && t[n].colon == k && t[k].regex == p.regex
       else t[n].children == [Child(Key(frag), k)] && t[n].colon == -1
  }

  lemma OneLinkDirect(r: Rules, t: Tree, n: nat, frag: string, k: nat, segs: seq<string>)
    requires Linked(t) && OneLink(r, t, n, frag, k) && segs != []
    ensures Direct(r, t, n, segs) == if Fits(r, frag, segs[0]) then Direct(r, t, k, segs[1..]) else None
  {
    var s := segs[0];
    if !IsColon(frag) {
      assert t[n].children[0] == Child(Key(frag), k) && t[n].children[1..] == [];
      assert FindChild([], s).None? && FindChild(t[n].children[1..], s).None?;
      assert ExactFor(t, n, s) == if s == Key(frag) then Some(k) else None;
      assert ColonFor(r, t, n, s).None?;
    } else {
      assert ExactFor(t, n, s).None?;
      assert ColonFor(r, t, n, s) == if Fits(r, frag, s) then Some(k) else None;
    }
  }

  /** A node without links leads exactly where the fragments inserted at it fit. */
  lemma {:induction false} FreshDirect(r: Rules, t: Tree, n: nat, frags: seq<string>, segs: seq<string>)
    requires Built(t) && n < |t| && t[n].children == [] && t[n].colon == -1 && !t[n].endpoint
    ensures var x := Insert(r, t, n, frags);
      && Linked(x.t) && n < |x.t|
      && Direct(r, x.t, n, segs) == if AllFit(r, frags, segs) then x.node else None
    decreases |frags|
  {
    InsertKeeps(r, t, n, frags);
    if frags != [] {
      FirstLink(r, t, n, frags[0]);
      GetOrNewBuilt(r, t, n, frags[0]);
      var y := GetOrNew(r, t, n, frags[0]);
      if y.node.Some? {
        OneLinkKept(r, y.t, n, frags[0], |t|, frags[1..]);
        if segs != [] {
          FreshDirect(r, y.t, |t|, frags[1..], segs[1..]);
          OneLinkDirect(r, Insert(r, y.t, |t|, frags[1..]).t, n, frags[0], |t|, segs);
        }
      }
    }
  }

  /** The rest of the route goes below the new node. */
  lemma OneLinkKept(r: Rules, t: Tree, n: nat, frag: string, k: nat, rest: seq<string>)
    requires Built(t) && n < |t| && OneLink(r, t, n, frag, k)
    ensures var u := Insert(r, t, k, rest).t;
      Linked(u) && n < |u| && u[n] == t[n] && OneLink(r, u, n, frag, k)
  {
    if Below(t, k, n) { BelowIsYounger(t, k, n); }
    InsertLocal(r, t, k, rest, n);
    InsertKeeps(r, t, k, rest);
  }

  /** The link a fragment is given, and where it leads. */
  lemma LinkMade(r: Rules, t: Tree, n: nat, frag: string)
    requires Built(t) && n < |t| && GetOrNew(r, t, n, frag).node.Some?
    ensures var x := GetOrNew(r, t, n, frag);
      var c := x.node.value;
      && n < |x.t| && c < |x.t| && x.t[n].endpoint == t[n].endpoint
      && (c < |t| ==> t <= x.t)
      && (c >= |t| ==> c == |t| && x.t[c].children == [] && x.t[c].colon == -1 && !x.t[c].endpoint)
      && (IsColon(frag) ==>
            && x.t[n].children == t[n].children && x.t[n].colon == c && ParseColon(r, frag[1..]).Colon?
            && x.t[c].regex == ParseColon(r, frag[1..]).regex && (t[n].colon == if c < |t| then c else -1))
      && (!IsColon(frag) ==>
            && x.t[n].colon == t[n].colon
            && (c < |t| ==> ExactFor(t, n, Key(frag)) == Some(c))
            && (c >= |t| ==> ExactFor(t, n, Key(frag)).None? && x.t[n].children == t[n].children + [Child(Key(frag), c)]))
  {
    NextInTree(r, t, n, Key(frag));
    if IsColon(frag) { ColonIsNoKey(t, n, Key(frag)); }
  }

  /** Inserting below one child of `n` leaves the subtrees of the others alone. */
  lemma OtherChildKept(r: Rules, t: Tree, y: Tree, n: nat, c: nat, d: nat, rest: seq<string>, segs: seq<string>)
    requires Built(t) && Built(y) && n < |t| <= |y| && d < |t| && c < |y| && c != d
    requires t[d].parent == n == y[c].parent
    requires forall m :: 0 <= m < |t| ==> y[m].parent == t[m].parent && (m != n ==> y[m] == t[m])
    ensures var u := Insert(r, y, c, rest).t;
      Linked(u) && d < |u| && Direct(r, u, d, segs) == Direct(r, t, d, segs)
  {
    InsertKeeps(r, y, c, rest);
    var u := Insert(r, y, c, rest).t;
    forall m | 0 <= m < |t| && Below(t, d, m) ensures u[m] == t[m] {
      BelowIsYounger(t, d, m);
      BelowKept(t, y, d, m);
      if Below(y, c, m) { SiblingsApart(y, n, c, d, m); }
      InsertLocal(r, y, c, rest, m);
    }
    DirectLocal(r, t, u, d, segs);
  }

  /** The rest of a route is inserted below `c`, which leaves the links of `n` as they are. */
  lemma LinksKept(r: Rules, y: Tree, n: nat, c: nat, rest: seq<string>)
    requires Built(y) && n < c < |y|
    ensures var u := Insert(r, y, c, rest).t;
      && Linked(u) && |y| <= |u| && u[n] == y[n]
      && forall m :: 0 <= m < |y| ==> u[m].regex == y[m].regex
  {
    InsertKeeps(r, y, c, rest);
    if Below(y, c, n) { BelowIsYounger(y, c, n); }
    InsertLocal(r, y, c, rest, n);
  }

  /** The links of `n` after a fragment that is no colon fragment. */
  lemma PlainLinks(r: Rules, t: Tree, n: nat, frag: string, s: string)
    requires Built(t) && n < |t| && !IsColon(frag) && GetOrNew(r, t, n, frag).node.Some?
    ensures var y := GetOrNew(r, t, n, frag);
      && n < |y.t| && |t| <= |y.t|
      && ExactFor(y.t, n, s) == (if s == Key(frag) then y.node else ExactFor(t, n, s))
      && y.t[n].colon == t[n].colon
      && (s != Key(frag) && ExactFor(t, n, s).Some? ==> ExactFor(t, n, s) != y.node)
      && (ColonFor(r, t, n, s).Some? ==> ColonFor(r, t, n, s) != y.node)
  {
    LinkMade(r, t, n, frag);
    var y := GetOrNew(r, t, n, frag);
    var c := y.node.value;
    NextInTree(r, t, n, s);
    if c >= |t| {
      FindAppended(t[n].children, [Child(Key(frag), c)], s);
      assert FindChild([], s).None? && [Child(Key(frag), c)][1..] == [];
    } else {
      NextIsChild(r, t, n, Key(frag));
      if s != Key(frag) && ExactFor(t, n, s).Some? { KeysTellApart(t, n, s, Key(frag)); }
    }
  }

  /** One step of the descent in the finished tree, for a fragment that is no colon fragment.
      `t` may have unlinked nodes that `t0` has not. */
  lemma PlainDirect(r: Rules, t0: Tree, t: Tree, n: nat, frag: string, rest: seq<string>, segs: seq<string>)
    requires Built(t0) && Built(t) && t0 <= t && n < |t0| && segs != []
    requires !IsColon(frag) && GetOrNew(r, t, n, frag).node.Some?
    ensures var y := GetOrNew(r, t, n, frag);
      && Built(y.t) && n < y.node.value < |y.t|
      && var u := Insert(r, y.t, y.node.value, rest).t;
      && Linked(u) && |y.t| <= |u|
      && Direct(r, u, n, segs) == (
           var exact, colon := ExactFor(t0, n, segs[0]), ColonFor(r, t0, n, segs[0]);
           if segs[0] == Key(frag) then Direct(r, u, y.node.value, segs[1..])
           else if exact.Some? then NextInTree(r, t0, n, segs[0]); Direct(r, t0, exact.value, segs[1..])
           else if colon.Some? then Direct(r, t0, colon.value, segs[1..])
           else None)
  {
    GetOrNewBuilt(r, t, n, frag);
    PlainLinks(r, t, n, frag, segs[0]);
    var y := GetOrNew(r, t, n, frag);
    var c := y.node.value;
    LinksKept(r, y.t, n, c, rest);
    var s := segs[0];
    NextInTree(r, t0, n, s);
    NextIsChild(r, t0, n, s);
    var exact, colon := ExactFor(t0, n, s), ColonFor(r, t0, n, s);
    if s != Key(frag) {
      if exact.Some? {
        OtherChildKept(r, t0, y.t, n, c, exact.value, rest, segs[1..]);
      } else if colon.Some? {
        OtherChildKept(r, t0, y.t, n, c, colon.value, rest, segs[1..]);
      }
    }
    var u := Insert(r, y.t, c, rest).t;
    assert ExactFor(u, n, s) == if s == Key(frag) then Some(c) else exact;
    assert ColonFor(r, u, n, s) == colon;
  }

  /** The same for a colon fragment. */
  lemma ColonDirect(r: Rules, t0: Tree, t: Tree, n: nat, frag: string, rest: seq<string>, segs: seq<string>)
    requires Built(t0) && Built(t) && t0 <= t && n < |t0| && segs != []
    requires IsColon(frag) && GetOrNew(r, t, n, frag).node.Some?
    ensures var y := GetOrNew(r, t, n, frag);
      && Built(y.t) && n < y.node.value < |y.t|
      && var u := Insert(r, y.t, y.node.value, rest).t;
      && Linked(u) && |y.t| <= |u|
      && Direct(r, u, n, segs) == (
           var exact := ExactFor(t0, n, segs[0]);
           if exact.Some? then NextInTree(r, t0, n, segs[0]); Direct(r, t0, exact.value, segs[1..])
           else if Fits(r, frag, segs[0]) then Direct(r, u, y.node.value, segs[1..])
           else None)
      && ColonFor(r, t0, n, segs[0]) == (if y.node.value < |t| && Fits(r, frag, segs[0]) then y.node else None)
  {
    GetOrNewBuilt(r, t, n, frag);
    LinkMade(r, t, n, frag);
    var y := GetOrNew(r, t, n, frag);
    var c := y.node.value;
    LinksKept(r, y.t, n, c, rest);
    var u := Insert(r, y.t, c, rest).t;
    var s := segs[0];
    NextInTree(r, t0, n, s);
    NextIsChild(r, t0, n, s);
    var exact := ExactFor(t0, n, s);
    assert ExactFor(u, n, s) == exact;
    assert ColonFor(r, u, n, s) == if Fits(r, frag, s) then Some(c) else None;
    if exact.Some? { OtherChildKept(r, t0, y.t, n, c, exact.value, rest, segs[1..]); }
  }

  /** Unlinked nodes at the end of the tree make no difference to a fragment, and one that is
      refused leaves nothing but such a node behind. */
  lemma GetOrNewAgrees(r: Rules, t0: Tree, t: Tree, n: nat, frag: string)
    requires Built(t0) && t0 <= t && n < |t0|
    ensures GetOrNew(r, t, n, frag).node.None? <==> GetOrNew(r, t0, n, frag).node.None?
    ensures GetOrNew(r, t, n, frag).node.None? ==> t <= GetOrNew(r, t, n, frag).t
    ensures GetOrNew(r, t, n, frag).node.Some? ==>
      var c := GetOrNew(r, t, n, frag).node.value;
      && (c < |t| <==> if IsColon(frag) then t0[n].colon != -1 else ExactFor(t0, n, Key(frag)).Some?)
      && (c < |t| ==> c < |t0|)
  {
    assert t[n] == t0[n];
    NextInTree(r, t0, n, Key(frag));
    if IsColon(frag) {
      ColonIsNoKey(t0, n, Key(frag));
      ColonMade(r, t, n, frag);
      ColonMade(r, t0, n, frag);
      var c := t0[n].colon;
      if c != -1 { assert 0 <= c < |t0| && t[c] == t0[c]; }
    }
  }

  /** When a colon fragment is refused, and what it is given otherwise. */
  lemma ColonMade(r: Rules, t: Tree, n: nat, frag: string)
    requires n < |t| && IsColon(frag) && FindChild(t[n].children, frag).None? && -1 <= t[n].colon < |t|
    ensures var x := GetOrNew(r, t, n, frag);
      var p, c := ParseColon(r, frag[1..]), t[n].colon;
      && (x.node.None? <==> p.BadColon? || (c != -1 && !(t[c].name == p.name && t[c].regex == p.regex)))
      && (x.node.None? ==> t <= x.t)
      && (x.node.Some? ==> x.node.value == if c != -1 then c else |t|)
  {
  }

  lemma DirectInPrefix(r: Rules, t: Tree, u: Tree, n: nat, segs: seq<string>)
    requires Built(t) && Linked(u) && t <= u && n < |t|
    ensures Direct(r, u, n, segs) == Direct(r, t, n, segs)
  {
    DirectLocal(r, t, u, n, segs);
  }

  /** Making a node an endpoint matters to the path that ends there. */
  lemma EndpointDirect(r: Rules, t: Tree, u: Tree, n: nat, segs: seq<string>)
    requires Built(t) && Linked(u) && n < |t| <= |u| && segs != []
    requires u[n] == t[n].(endpoint := u[n].endpoint) && forall m :: 0 <= m < |t| && m != n ==> u[m] == t[m]
    ensures Direct(r, u, n, segs) == Direct(r, t, n, segs)
  {
    NextInTree(r, t, n, segs[0]);
    NextIsChild(r, t, n, segs[0]);
    var exact, colon := ExactFor(t, n, segs[0]), ColonFor(r, t, n, segs[0]);
    if exact.Some? || colon.Some? {
      var next := if exact.Some? then exact.value else colon.value;
      forall m | 0 <= m < |t| && Below(t, next, m) ensures u[m] == t[m] { BelowIsYounger(t, next, m); }
      DirectLocal(r, t, u, next, segs[1..]);
    }
  }

  /** The descent after any insertion, successful or not, told from the tree before. */
  lemma {:induction false} DirectAfter(r: Rules, t0: Tree, t: Tree, n: nat, frags: seq<string>, segs: seq<string>)
    requires Built(t0) && Built(t) && t0 <= t && n < |t0|
    ensures var x := Insert(r, t, n, frags);
      && Linked(x.t) && n < |x.t|
      && Direct(r, x.t, n, segs) == After(r, t0, n, frags, segs, x.node)
    decreases |frags|
  {
    InsertKeeps(r, t, n, frags);
    var x := Insert(r, t, n, frags);
    if frags == [] {
      if segs != [] { EndpointDirect(r, t0, x.t, n, segs); }
    } else {
      GetOrNewAgrees(r, t0, t, n, frags[0]);
      GetOrNewBuilt(r, t, n, frags[0]);
      var y := GetOrNew(r, t, n, frags[0]);
      if y.node.None? {
        DirectInPrefix(r, t0, x.t, n, segs);
      } else if segs == [] {
        LinkMade(r, t, n, frags[0]);
        LinksKept(r, y.t, n, y.node.value, frags[1..]);
      } else {
        DirectAfterStep(r, t0, t, n, frags, segs);
      }
    }
  }

  lemma {:induction false} DirectAfterStep(r: Rules, t0: Tree, t: Tree, n: nat, frags: seq<string>, segs: seq<string>)
    requires Built(t0) && Built(t) && t0 <= t && n < |t0| && frags != [] && segs != []
    requires GetOrNew(r, t, n, frags[0]).node.Some?
    ensures var x := Insert(r, t, n, frags);
      && Linked(x.t) && n < |x.t|
      && Direct(r, x.t, n, segs) == After(r, t0, n, frags, segs, x.node)
    decreases |frags|, 0
  {
    GetOrNewAgrees(r, t0, t, n, frags[0]);
    GetOrNewBuilt(r, t, n, frags[0]);
    LinkMade(r, t, n, frags[0]);
    NextInTree(r, t0, n, segs[0]);
    var y := GetOrNew(r, t, n, frags[0]);
    var c := y.node.value;
    if c < |t| {
      DirectAfter(r, t0, y.t, c, frags[1..], segs[1..]);
    } else {
      FreshDirect(r, y.t, c, frags[1..], segs[1..]);
    }
    if IsColon(frags[0]) { AfterColon(r, t0, t, n, frags, segs); } else { AfterPlain(r, t0, t, n, frags, segs); }
  }

  /** What the descent does behind the first fragment. */
  ghost predicate BehindFirst(r: Rules, t0: Tree, t: Tree, u: Inserted, c: nat, frags: seq<string>, segs: seq<string>)
    requires Linked(t0) && Linked(u.t) && c < |u.t| && frags != [] && segs != []
  {
    && (c < |t| ==> c < |t0| && Direct(r, u.t, c, segs[1..]) == After(r, t0, c, frags[1..], segs[1..], u.node))
    && (c >= |t| ==> Direct(r, u.t, c, segs[1..]) == if AllFit(r, frags[1..], segs[1..]) then u.node else None)
  }

  lemma AfterPlain(r: Rules, t0: Tree, t: Tree, n: nat, frags: seq<string>, segs: seq<string>)
    requires Built(t0) && Built(t) && t0 <= t && n < |t0| && frags != [] && segs != []
    requires !IsColon(frags[0]) && GetOrNew(r, t, n, frags[0]).node.Some?
    requires var c := GetOrNew(r, t, n, frags[0]).node.value;
      var x := Insert(r, t, n, frags);
      && (c < |t| <==> ExactFor(t0, n, Key(frags[0])).Some?)
      && Linked(x.t) && c < |x.t| && BehindFirst(r, t0, t, x, c, frags, segs)
    ensures var x := Insert(r, t, n, frags);
      n < |x.t| && Direct(r, x.t, n, segs) == After(r, t0, n, frags, segs, x.node)
  {
    GetOrNewAgrees(r, t0, t, n, frags[0]);
    LinkMade(r, t, n, frags[0]);
    PlainDirect(r, t0, t, n, frags[0], frags[1..], segs);
  }

  lemma AfterColon(r: Rules, t0: Tree, t: Tree, n: nat, frags: seq<string>, segs: seq<string>)
    requires Built(t0) && Built(t) && t0 <= t && n < |t0| && frags != [] && segs != []
    requires IsColon(frags[0]) && GetOrNew(r, t, n, frags[0]).node.Some?
    requires var c := GetOrNew(r, t, n, frags[0]).node.value;
      var x := Insert(r, t, n, frags);
      && Linked(x.t) && c < |x.t| && BehindFirst(r, t0, t, x, c, frags, segs)
    ensures var x := Insert(r, t, n, frags);
      n < |x.t| && Direct(r, x.t, n, segs) == After(r, t0, n, frags, segs, x.node)
  {
    GetOrNewAgrees(r, t0, t, n, frags[0]);
    ColonDirect(r, t0, t, n, frags[0], frags[1..], segs);
  }

  // ---------------------------------------------------------------- what an insertion changes

  /** The path takes a colon child where the route makes an exact child beside it, and the
      rest of the route does not fit it. */
  predicate Diverted(r: Rules, t: Tree, n: nat, frags: seq<string>, segs: seq<string>, added: bool)
    requires Linked(t) && n < |t|
    decreases |segs|
  {
    frags != [] && segs != [] && GetOrNew(r, t, n, frags[0]).node.Some? && Fits(r, frags[0], segs[0]) && (
      NextInTree(r, t, n, segs[0]);
      var exact, colon := ExactFor(t, n, segs[0]), ColonFor(r, t, n, segs[0]);
      if exact.Some? then !IsColon(frags[0]) && Diverted(r, t, exact.value, frags[1..], segs[1..], added)
      else if !IsColon(frags[0]) then !(added && AllFit(r, frags[1..], segs[1..]))
      else colon.Some? && Diverted(r, t, colon.value, frags[1..], segs[1..], added))
  }

  /** A path that the descent matches is matched after adding a route, unless the route
      diverts it. */
  lemma {:induction false} MatchedStaysMatched(r: Rules, t: Tree, n: nat, frags: seq<string>, segs: seq<string>)
    requires Built(t) && n < |t| && Direct(r, t, n, segs).Some?
    ensures var x := Insert(r, t, n, frags);
      && Linked(x.t) && n < |x.t|
      && (Direct(r, x.t, n, segs).Some? <==> !Diverted(r, t, n, frags, segs, x.node.Some?))
  {
    DirectAfter(r, t, t, n, frags, segs);
    AfterMatched(r, t, n, frags, segs, Insert(r, t, n, frags).node);
  }

  lemma {:induction false} AfterMatched(r: Rules, t: Tree, n: nat, frags: seq<string>, segs: seq<string>, node: Option<nat>)
    requires Linked(t) && n < |t| && Direct(r, t, n, segs).Some?
    ensures After(r, t, n, frags, segs, node).Some? <==> !Diverted(r, t, n, frags, segs, node.Some?)
    decreases |segs|
  {
    if frags != [] && segs != [] && GetOrNew(r, t, n, frags[0]).node.Some? {
      NextInTree(r, t, n, segs[0]);
      var exact, colon := ExactFor(t, n, segs[0]), ColonFor(r, t, n, segs[0]);
      if exact.Some? {
        AfterMatched(r, t, exact.value, frags[1..], segs[1..], node);
      } else {
        AfterMatched(r, t, colon.value, frags[1..], segs[1..], node);
      }
    }
  }

  /** The node that answers a path fitting a route: where an exact child stands beside one of
      its colon fragments the descent leaves the route. */
  function Answer(r: Rules, t: Tree, n: nat, frags: seq<string>, segs: seq<string>, node: nat): Option<nat>
    requires Linked(t) && n < |t| && |frags| == |segs|
    decreases |segs|
  {
    if segs == [] then Some(node)
    else
      NextInTree(r, t, n, segs[0]);
      var exact, colon := ExactFor(t, n, segs[0]), ColonFor(r, t, n, segs[0]);
      if exact.Some? && IsColon(frags[0]) then Direct(r, t, exact.value, segs[1..])
      else if exact.Some? then Answer(r, t, exact.value, frags[1..], segs[1..], node)
      else if colon.Some? && IsColon(frags[0]) then Answer(r, t, colon.value, frags[1..], segs[1..], node)
      else Some(node)
  }

  lemma {:induction false} RouteAnswers(r: Rules, t0: Tree, t: Tree, n: nat, frags: seq<string>, segs: seq<string>)
    requires Built(t0) && Built(t) && t0 <= t && n < |t0| && AllFit(r, frags, segs)
    requires Insert(r, t, n, frags).node.Some?
    ensures var x := Insert(r, t, n, frags);
      After(r, t0, n, frags, segs, x.node) == Answer(r, t0, n, frags, segs, x.node.value)
    decreases |frags|
  {
    if frags != [] {
      GetOrNewAgrees(r, t0, t, n, frags[0]);
      GetOrNewBuilt(r, t, n, frags[0]);
      LinkMade(r, t, n, frags[0]);
      NextInTree(r, t0, n, segs[0]);
      var y := GetOrNew(r, t, n, frags[0]);
      if y.node.value < |t| { RouteAnswers(r, t0, y.t, y.node.value, frags[1..], segs[1..]); }
      if IsColon(frags[0]) {
        ColonDirect(r, t0, t, n, frags[0], frags[1..], segs);
      }
    }
  }
}
