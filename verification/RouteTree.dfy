/** Route lookup and insertion (`http/trie.cc`) on a tree of nodes: the depth-first search
    that tries the exact child before the colon child, and what it finds. */
module RouteTree {
  datatype Child = Child(key: string, val: nat)

  /** `http/node.h`, as far as lookup and insertion use it; -1 is the null pointer. */
  datatype Node = Node(name: string, regex: string, endpoint: bool, parent: int, children: seq<Child>, colon: int)

  /** Nodes are numbered in the order they are made; 0 is the root. */
  type Tree = seq<Node>

  /** The two regular-expression tests, of a colon child's pattern and of a segment's form. */
  datatype Rules = Rules(regexMatch: (string, string) -> bool, segmentOk: string -> bool)

  datatype Option<T> = None | Some(value: T)

  /** Links lead to younger nodes. */
  ghost predicate Linked(t: Tree) {
    && |t| > 0
    && forall n :: 0 <= n < |t| ==>
         && (t[n].colon == -1 || n < t[n].colon < |t|)
         && forall i :: 0 <= i < |t[n].children| ==> n < t[n].children[i].val < |t|
  }

  // ---------------------------------------------------------------- children

  /** `Node::find_child`: the first child with the key. */
  function FindChild(children: seq<Child>, key: string): Option<nat> {
    if children == [] then None
    else if children[0].key == key then Some(children[0].val)
    else FindChild(children[1..], key)
  }

  lemma {:induction false} FoundIsChild(children: seq<Child>, key: string)
    ensures var r := FindChild(children, key);
      r.Some? ==> exists i :: 0 <= i < |children| && children[i] == Child(key, r.value)
    decreases |children|
  {
    if children != [] && children[0].key != key {
      FoundIsChild(children[1..], key);
      if FindChild(children, key).Some? {
        var i :| 0 <= i < |children[1..]| && children[1..][i] == Child(key, FindChild(children, key).value);
        assert children[i + 1] == children[1..][i];
      }
    } else if children != [] {
      assert children[0] == Child(key, children[0].val);
    }
  }

  /** `Trie::get_colon_node`. */
  function ColonFor(r: Rules, t: Tree, n: nat, s: string): Option<nat>
    requires n < |t|
  {
    var c := t[n].colon;
    if 0 <= c < |t| && (t[c].regex == "" || r.regexMatch(s, t[c].regex)) then Some(c) else None
  }

  function ExactFor(t: Tree, n: nat, s: string): Option<nat>
    requires n < |t|
  {
    FindChild(t[n].children, s)
  }

  lemma NextInTree(r: Rules, t: Tree, n: nat, s: string)
    requires Linked(t) && n < |t|
    ensures ExactFor(t, n, s).Some? ==> ExactFor(t, n, s).value < |t|
    ensures ColonFor(r, t, n, s).Some? ==> ColonFor(r, t, n, s).value < |t|
  {
    FoundIsChild(t[n].children, s);
  }

  // ---------------------------------------------------------------- the search

  /** Depth-first, the exact child first. */
  function Search(r: Rules, t: Tree, n: nat, segs: seq<string>): Option<nat>
    requires Linked(t) && n < |t|
    decreases |segs|
  {
    if segs == [] then (if t[n].endpoint then Some(n) else None)
    else
      NextInTree(r, t, n, segs[0]);
      var exact, colon := ExactFor(t, n, segs[0]), ColonFor(r, t, n, segs[0]);
      var first := if exact.Some? then Search(r, t, exact.value, segs[1..]) else None;
      if first.Some? then first
      else if colon.Some? then Search(r, t, colon.value, segs[1..])
      else None
  }

  /** How many places the search gives up at before it finds a node, or in all. */
  function DeadEnds(r: Rules, t: Tree, n: nat, segs: seq<string>): nat
    requires Linked(t) && n < |t|
    decreases |segs|
  {
    if segs == [] then (if t[n].endpoint then 0 else 1)
    else
      NextInTree(r, t, n, segs[0]);
      var exact, colon := ExactFor(t, n, segs[0]), ColonFor(r, t, n, segs[0]);
      if exact.None? && colon.None? then 1
      else
        var d := if exact.Some? then DeadEnds(r, t, exact.value, segs[1..]) else 0;
        if colon.None? || (exact.Some? && Search(r, t, exact.value, segs[1..]).Some?) then d
        else d + DeadEnds(r, t, colon.value, segs[1..])
  }

  /** A fruitless search has a dead end. */
  lemma {:induction false} FailureIsDeadEnd(r: Rules, t: Tree, n: nat, segs: seq<string>)
    requires Linked(t) && n < |t| && Search(r, t, n, segs).None?
    ensures DeadEnds(r, t, n, segs) >= 1
    decreases |segs|
  {
    if segs != [] {
      NextInTree(r, t, n, segs[0]);
      var exact, colon := ExactFor(t, n, segs[0]), ColonFor(r, t, n, segs[0]);
      if exact.Some? { FailureIsDeadEnd(r, t, exact.value, segs[1..]); }
      if colon.Some? { FailureIsDeadEnd(r, t, colon.value, segs[1..]); }
    }
  }

  // ---------------------------------------------------------------- the descent alone

  /** Where the descent ends that takes the exact child if there is one, else the colon
      child, and never goes back. */
  function Direct(r: Rules, t: Tree, n: nat, segs: seq<string>): Option<nat>
    requires Linked(t) && n < |t|
    decreases |segs|
  {
    if segs == [] then (if t[n].endpoint then Some(n) else None)
    else
      NextInTree(r, t, n, segs[0]);
      var exact, colon := ExactFor(t, n, segs[0]), ColonFor(r, t, n, segs[0]);
      if exact.Some? then Direct(r, t, exact.value, segs[1..])
      else if colon.Some? then Direct(r, t, colon.value, segs[1..])
      else None
  }

  /** The search meets no dead end exactly when the descent ends at an endpoint, and then it
      finds that one. */
  lemma {:induction false} DirectIff(r: Rules, t: Tree, n: nat, segs: seq<string>)
    requires Linked(t) && n < |t|
    ensures Direct(r, t, n, segs).Some? <==> DeadEnds(r, t, n, segs) == 0
    ensures Direct(r, t, n, segs).Some? ==> Search(r, t, n, segs) == Direct(r, t, n, segs)
    decreases |segs|
  {
    if segs != [] {
      NextInTree(r, t, n, segs[0]);
      var exact, colon := ExactFor(t, n, segs[0]), ColonFor(r, t, n, segs[0]);
      if exact.Some? {
        DirectIff(r, t, exact.value, segs[1..]);
        if Search(r, t, exact.value, segs[1..]).None? { FailureIsDeadEnd(r, t, exact.value, segs[1..]); }
      } else if colon.Some? {
        DirectIff(r, t, colon.value, segs[1..]);
      }
    }
  }

  // ---------------------------------------------------------------- what the search finds

  /** The node reached by taking, segment by segment, the exact child (true) or the colon
      child (false). */
  function Follow(r: Rules, t: Tree, n: nat, segs: seq<string>, choices: seq<bool>): Option<nat>
    requires Linked(t) && n < |t| && |choices| == |segs|
    decreases |segs|
  {
    if segs == [] then (if t[n].endpoint then Some(n) else None)
    else
      NextInTree(r, t, n, segs[0]);
      var next := if choices[0] then ExactFor(t, n, segs[0]) else ColonFor(r, t, n, segs[0]);
      if next.None? then None else Follow(r, t, next.value, segs[1..], choices[1..])
  }

  /** The segments lead to an endpoint along some choice. */
  ghost predicate Reachable(r: Rules, t: Tree, n: nat, segs: seq<string>)
    requires Linked(t) && n < |t|
  {
    exists choices: seq<bool> :: |choices| == |segs| && Follow(r, t, n, segs, choices).Some?
  }

  /** `a` prefers the exact child where `b`, alike so far, takes the colon child. */
  predicate Earlier(a: seq<bool>, b: seq<bool>) {
    a != [] && b != [] && ((a[0] && !b[0]) || (a[0] == b[0] && Earlier(a[1..], b[1..])))
  }

  /** The choices the search settles on. */
  lemma {:induction false} SearchFollows(r: Rules, t: Tree, n: nat, segs: seq<string>) returns (choices: seq<bool>)
    requires Linked(t) && n < |t| && Search(r, t, n, segs).Some?
    ensures |choices| == |segs| && Follow(r, t, n, segs, choices) == Search(r, t, n, segs)
    ensures forall c: seq<bool> :: |c| == |segs| && Earlier(c, choices) ==> Follow(r, t, n, segs, c).None?
    decreases |segs|
  {
    if segs == [] {
      choices := [];
    } else {
      NextInTree(r, t, n, segs[0]);
      var exact, colon := ExactFor(t, n, segs[0]), ColonFor(r, t, n, segs[0]);
      var byExact := exact.Some? && Search(r, t, exact.value, segs[1..]).Some?;
      var next := if byExact then exact.value else colon.value;
      var more := SearchFollows(r, t, next, segs[1..]);
      choices := [byExact] + more;
      assert choices[1..] == more;
      forall c: seq<bool> | |c| == |segs| && Earlier(c, choices) ensures Follow(r, t, n, segs, c).None? {
        if c[0] && !byExact {
          if exact.Some? { NothingToFind(r, t, exact.value, segs[1..], c[1..]); }
        } else {
          assert c[0] == byExact && Earlier(c[1..], more);
        }
      }
    }
  }

  /** A fruitless search has overlooked nothing. */
  lemma {:induction false} NothingToFind(r: Rules, t: Tree, n: nat, segs: seq<string>, choices: seq<bool>)
    requires Linked(t) && n < |t| && Search(r, t, n, segs).None? && |choices| == |segs|
    ensures Follow(r, t, n, segs, choices).None?
    decreases |segs|
  {
    if segs != [] {
      NextInTree(r, t, n, segs[0]);
      var next := if choices[0] then ExactFor(t, n, segs[0]) else ColonFor(r, t, n, segs[0]);
      if next.Some? { NothingToFind(r, t, next.value, segs[1..], choices[1..]); }
    }
  }

  /** The search finds nothing exactly when no choice leads to an endpoint. */
  lemma SearchComplete(r: Rules, t: Tree, n: nat, segs: seq<string>)
    requires Linked(t) && n < |t|
    ensures Search(r, t, n, segs).Some? <==> Reachable(r, t, n, segs)
  {
    if Search(r, t, n, segs).Some? {
      var choices := SearchFollows(r, t, n, segs);
    } else {
      forall choices: seq<bool> | |choices| == |segs| ensures Follow(r, t, n, segs, choices).None? {
        NothingToFind(r, t, n, segs, choices);
      }
    }
  }

  // ---------------------------------------------------------------- the stack

  /** A colon child not tried yet, with the index of the segment it would match. */
  datatype Fallback = Fallback(index: nat, node: nat)

  ghost predicate StackOk(t: Tree, segs: seq<string>, stack: seq<Fallback>) {
    forall k :: 0 <= k < |stack| ==> stack[k].index < |segs| && stack[k].node < |t|
  }

  /** What the entries would find, the last pushed first. */
  function FromStack(r: Rules, t: Tree, segs: seq<string>, stack: seq<Fallback>): Option<nat>
    requires Linked(t) && StackOk(t, segs, stack)
    decreases |stack|
  {
    if stack == [] then None
    else
      var top := stack[|stack| - 1];
      var found := Search(r, t, top.node, segs[top.index + 1..]);
      if found.Some? then found else FromStack(r, t, segs, stack[..|stack| - 1])
  }

  /** How many dead ends the entries hold, up to the first success. */
  function StackDeadEnds(r: Rules, t: Tree, segs: seq<string>, stack: seq<Fallback>): nat
    requires Linked(t) && StackOk(t, segs, stack)
    decreases |stack|
  {
    if stack == [] then 0
    else
      var top := stack[|stack| - 1];
      var rest := segs[top.index + 1..];
      DeadEnds(r, t, top.node, rest)
      + (if Search(r, t, top.node, rest).Some? then 0 else StackDeadEnds(r, t, segs, stack[..|stack| - 1]))
  }

  function OrElse(a: Option<nat>, b: Option<nat>): Option<nat> {
    if a.Some? then a else b
  }

  /** What a descent from `n` at segment `i` followed by the stack finds. */
  function Remaining(r: Rules, t: Tree, segs: seq<string>, n: nat, i: nat, stack: seq<Fallback>): Option<nat>
    requires Linked(t) && n < |t| && i <= |segs| && StackOk(t, segs, stack)
  {
    OrElse(Search(r, t, n, segs[i..]), FromStack(r, t, segs, stack))
  }

  function RemainingDeadEnds(r: Rules, t: Tree, segs: seq<string>, n: nat, i: nat, stack: seq<Fallback>): nat
    requires Linked(t) && n < |t| && i <= |segs| && StackOk(t, segs, stack)
  {
    DeadEnds(r, t, n, segs[i..])
    + (if Search(r, t, n, segs[i..]).Some? then 0 else StackDeadEnds(r, t, segs, stack))
  }

  /** One segment of a descent: the colon child is remembered when the exact child is taken. */
  lemma DescendOne(r: Rules, t: Tree, segs: seq<string>, n: nat, i: nat, stack: seq<Fallback>)
    requires Linked(t) && n < |t| && i < |segs| && StackOk(t, segs, stack)
    ensures var exact, colon := ExactFor(t, n, segs[i]), ColonFor(r, t, n, segs[i]);
      && (exact.Some? && colon.Some? ==>
            var pushed := stack + [Fallback(i, colon.value)];
            && exact.value < |t| && StackOk(t, segs, pushed)
            && Remaining(r, t, segs, n, i, stack) == Remaining(r, t, segs, exact.value, i + 1, pushed)
            && RemainingDeadEnds(r, t, segs, n, i, stack) == RemainingDeadEnds(r, t, segs, exact.value, i + 1, pushed))
      && (exact.Some? != colon.Some? ==>
            var next := if exact.Some? then exact.value else colon.value;
            && next < |t|
            && Remaining(r, t, segs, n, i, stack) == Remaining(r, t, segs, next, i + 1, stack)
            && RemainingDeadEnds(r, t, segs, n, i, stack) == RemainingDeadEnds(r, t, segs, next, i + 1, stack))
      && (exact.None? && colon.None? ==>
            && Remaining(r, t, segs, n, i, stack) == FromStack(r, t, segs, stack)
            && RemainingDeadEnds(r, t, segs, n, i, stack) == 1 + StackDeadEnds(r, t, segs, stack))
  {
    var exact, colon := ExactFor(t, n, segs[i]), ColonFor(r, t, n, segs[i]);
    NextInTree(r, t, n, segs[i]);
    assert segs[i..][0] == segs[i] && segs[i..][1..] == segs[i + 1..];
    if exact.Some? && colon.Some? {
      var pushed := stack + [Fallback(i, colon.value)];
      assert pushed[..|pushed| - 1] == stack;
    }
  }
}
