/**
 * The tree bookkeeping of P2/src/mcts_modified.py. Nodes live in a map
 * from identities to records (the source's `MCTSNode` objects); a node
 * refers to its parent and children by identity. Actions are the board's
 * move values; only their equality matters here, so they are integers.
 */
module Mcts {
  import opened Wrappers

  type NodeId = nat
  type Action = int

  /**
   * An `MCTSNode`: `parent`, `parent_action`, `wins`, `visits`,
   * `untried_actions` and `child_nodes`, the last as its (action, child)
   * pairs in dictionary order.
   */
  datatype Node = Node(parent: Option<NodeId>, parentAction: Option<Action>, wins: int, visits: int,
                       untried: seq<Action>, children: seq<(Action, NodeId)>)

  type Tree = map<NodeId, Node>

  /**
   * Every parent and child a node refers to is in the tree, a child's
   * parent is the node listing it, and a parent's identity is smaller than
   * its child's (nodes are created after their parents), so following
   * parents always ends at the root.
   */
  predicate WellFormed(t: Tree) {
    && (forall id :: id in t && t[id].parent.Some? ==> t[id].parent.value in t && t[id].parent.value < id)
    && (forall id, k :: id in t && 0 <= k < |t[id].children| ==>
          t[id].children[k].1 in t && t[t[id].children[k].1].parent == Some(id))
  }

  // ---------------------------------------------------------------------
  // outcome
  // ---------------------------------------------------------------------

  /** `game_points`: the final points of players 1 (red) and 2 (blue). */
  datatype GamePoints = GamePoints(red: int, blue: int)

  /** How many boxes `owner` owns in `owned_boxes.values()`. */
  function Owned(owned: seq<int>, owner: int): nat {
    multiset(owned)[owner]
  }

  /**
   * `outcome(owned_boxes, game_points, current_player)`: red's and blue's
   * score are nine times their points when the game is over and their box
   * counts otherwise; the result is the current player's lead.
   */
  function Outcome(owned: seq<int>, points: Option<GamePoints>, player: int): (r: int)
    ensures points.Some? && player == 1 ==> r == 9 * (points.value.red - points.value.blue)
    ensures points.Some? && player != 1 ==> r == 9 * (points.value.blue - points.value.red)
    ensures points.None? && player == 1 ==> r == |OwnedBy(owned, 1)| - |OwnedBy(owned, 2)|
    ensures points.None? && player != 1 ==> r == |OwnedBy(owned, 2)| - |OwnedBy(owned, 1)|
    ensures points.Some? ==> r % 9 == 0
    ensures points.Some? && player == 1 ==> (r > 0 <==> points.value.red > points.value.blue)
    ensures points.None? && player == 1 ==> (r > 0 <==> Owned(owned, 1) > Owned(owned, 2))
    ensures points.None? && player != 1 ==> (r > 0 <==> Owned(owned, 2) > Owned(owned, 1))
    ensures points.None? ==> -|owned| <= r <= |owned|
  {
    var red := if points.Some? then points.value.red * 9 else Owned(owned, 1);
    var blue := if points.Some? then points.value.blue * 9 else Owned(owned, 2);
    assert points.None? ==> Owned(owned, 1) + Owned(owned, 2) <= |owned| by {
      if points.None? {
        OwnedBound(owned);
      }
    }
    OwnedIndices(owned, 1);
    OwnedIndices(owned, 2);
    if player == 1 then red - blue else blue - red
  }

  /** The positions of `owned` that hold `owner`, counted one by one. */
  ghost function OwnedBy(owned: seq<int>, owner: int): set<nat> {
    set i: nat | i < |owned| && owned[i] == owner
  }

  /** The multiset count agrees with counting positions. */
  lemma {:induction false} OwnedIndices(owned: seq<int>, owner: int)
    ensures Owned(owned, owner) == |OwnedBy(owned, owner)|
    decreases |owned|
  {
    if owned != [] {
      var init := owned[..|owned| - 1];
      var last := owned[|owned| - 1];
      assert owned == init + [last];
      OwnedIndices(init, owner);
      OwnedSnoc(init, last, owner);
      OwnedBySnoc(init, last, owner);
    }
  }

  lemma OwnedSnoc(init: seq<int>, last: int, owner: int)
    ensures Owned(init + [last], owner) == Owned(init, owner) + if last == owner then 1 else 0
  {
    assert multiset(init + [last]) == multiset(init) + multiset{last};
  }

  lemma OwnedBySnoc(init: seq<int>, last: int, owner: int)
    ensures OwnedBy(init + [last], owner) == OwnedBy(init, owner) + if last == owner then {|init|} else {}
  {
    var owned := init + [last];
    var extra: set<nat> := if last == owner then {|init|} else {};
    forall i: nat ensures i in OwnedBy(owned, owner) <==> i in OwnedBy(init, owner) + extra {
      if i < |init| {
        assert owned[i] == init[i];
      }
    }
  }

  lemma {:induction false} OwnedBound(owned: seq<int>)
    ensures Owned(owned, 1) + Owned(owned, 2) <= |owned|
  {
    if owned != [] {
      OwnedBound(owned[1..]);
      assert owned == [owned[0]] + owned[1..];
    }
  }

  /** Red's and blue's outcomes are each other's negation, so the game is zero-sum. */
  lemma OutcomeZeroSum(owned: seq<int>, points: Option<GamePoints>)
    ensures Outcome(owned, points, 1) == -Outcome(owned, points, 2)
  {
  }

  // ---------------------------------------------------------------------
  // backpropagate
  // ---------------------------------------------------------------------

  /** Whether `id` is `start` or one of its ancestors. */
  predicate OnPath(t: Tree, start: Option<NodeId>, id: NodeId)
    requires WellFormed(t)
    decreases if start.Some? then start.value + 1 else 0
  {
    start.Some? && start.value in t && (start.value == id || OnPath(t, t[start.value].parent, id))
  }

  /** Two trees with the same nodes and the same parents have the same ancestor paths. */
  lemma {:induction false} OnPathFrame(t: Tree, t': Tree, start: Option<NodeId>, id: NodeId)
    requires WellFormed(t) && WellFormed(t') && t.Keys == t'.Keys
    requires forall n :: n in t ==> t'[n].parent == t[n].parent
    ensures OnPath(t, start, id) == OnPath(t', start, id)
    decreases if start.Some? then start.value + 1 else 0
  {
    if start.Some? && start.value in t {
      OnPathFrame(t, t', t[start.value].parent, id);
    }
  }

  /** `node.wins += won; node.visits += 1`. */
  function Visit(n: Node, won: int): Node {
    n.(wins := n.wins + won, visits := n.visits + 1)
  }

  /** Updating one node's counters keeps every parent and child link. */
  lemma VisitKeepsShape(t: Tree, n: NodeId, won: int)
    requires WellFormed(t) && n in t
    ensures WellFormed(t[n := Visit(t[n], won)])
    ensures forall m :: m in t ==> t[n := Visit(t[n], won)][m].parent == t[m].parent
  {
    var t' := t[n := Visit(t[n], won)];
    assert forall m :: m in t ==> t'[m].parent == t[m].parent && t'[m].children == t[m].children;
    forall id | id in t' && t'[id].parent.Some?
      ensures t'[id].parent.value in t' && t'[id].parent.value < id
    {
      assert t'[id].parent == t[id].parent;
    }
    forall id, k | id in t' && 0 <= k < |t'[id].children|
      ensures t'[id].children[k].1 in t' && t'[t'[id].children[k].1].parent == Some(id)
    {
      var c := t[id].children[k].1;
      assert t'[id].children[k].1 == c && c in t;
      assert t'[c].parent == t[c].parent;
    }
  }

  /**
   * `backpropagate(node, won)`: every node from `node` up to the root is
   * visited once more and credited with `won`; every other node, and
   * every field but the two counters, is left as it was.
   */
  function Backpropagate(t: Tree, node: Option<NodeId>, won: int): (r: Tree)
    requires WellFormed(t) && (node.Some? ==> node.value in t)
    ensures WellFormed(r) && r.Keys == t.Keys
    ensures forall id :: id in t ==> r[id] == if OnPath(t, node, id) then Visit(t[id], won) else t[id]
    decreases if node.Some? then node.value + 1 else 0
  {
    if node.None? then t
    else
      var n := node.value;
      var t' := t[n := Visit(t[n], won)];
      VisitKeepsShape(t, n, won);
      var r := Backpropagate(t', t[n].parent, won);
      VisitThenAncestors(t, n, won, t', r);
      r
  }

  /** Visiting `n` and then its ancestors visits exactly the path from `n`. */
  lemma VisitThenAncestors(t: Tree, n: NodeId, won: int, t': Tree, r: Tree)
    requires WellFormed(t) && n in t && t' == t[n := Visit(t[n], won)]
    requires WellFormed(t') && forall m :: m in t ==> t'[m].parent == t[m].parent
    requires r.Keys == t'.Keys
    requires forall id :: id in t' ==> r[id] == if OnPath(t', t[n].parent, id) then Visit(t'[id], won) else t'[id]
    ensures forall id :: id in t ==> r[id] == if OnPath(t, Some(n), id) then Visit(t[id], won) else t[id]
  {
    forall id | id in t ensures r[id] == if OnPath(t, Some(n), id) then Visit(t[id], won) else t[id] {
      OnPathFrame(t, t', t[n].parent, id);
      if id == n {
        AncestorsBelow(t, t[n].parent, id);
      }
    }
  }

  /** Every node on the path from `start` has an identity no larger than `start`'s. */
  lemma {:induction false} AncestorsBelow(t: Tree, start: Option<NodeId>, id: NodeId)
    requires WellFormed(t)
    ensures OnPath(t, start, id) ==> start.Some? && id <= start.value
    decreases if start.Some? then start.value + 1 else 0
  {
    if start.Some? && start.value in t && start.value != id {
      AncestorsBelow(t, t[start.value].parent, id);
    }
  }

  // ---------------------------------------------------------------------
  // find_best_win_rate
  // ---------------------------------------------------------------------

  /** `child.wins / child.visits`, exactly. */
  function WinRate(n: Node): real
    requires n.visits != 0
  {
    n.wins as real / n.visits as real
  }

  /** Child `k` of `n` has the highest win rate of all, and a strictly higher one than every child before it. */
  predicate FirstBest(t: Tree, n: NodeId, k: nat)
    requires WellFormed(t) && n in t
    requires forall j :: 0 <= j < |t[n].children| ==> t[t[n].children[j].1].visits != 0
  {
    var cs := t[n].children;
    && k < |cs|
    && (forall j :: 0 <= j < |cs| ==> WinRate(t[cs[j].1]) <= WinRate(t[cs[k].1]))
    && (forall j :: 0 <= j < k ==> WinRate(t[cs[j].1]) < WinRate(t[cs[k].1]))
  }

  /**
   * `find_best_win_rate(node)`: None without children; a ZeroDivisionError
   * if some child has no visits; otherwise the first child with the
   * highest win rate (a later child must beat it strictly).
   */
  method FindBestWinRate(t: Tree, n: NodeId) returns (r: Result<Option<NodeId>>)
    requires WellFormed(t) && n in t
    ensures r.Err? <==> exists j :: 0 <= j < |t[n].children| && t[t[n].children[j].1].visits == 0
    ensures r.Err? ==> r.error == ZeroDivision
    ensures r == Ok(None) <==> t[n].children == []
    ensures r.Ok? && r.value.Some? ==>
              exists k :: 0 <= k < |t[n].children| && t[n].children[k].1 == r.value.value && FirstBest(t, n, k)
  {
    var cs := t[n].children;
    var best: Option<nat> := None;
    var i := 0;
    while i < |cs|
      invariant 0 <= i <= |cs|
      invariant forall j :: 0 <= j < i ==> t[cs[j].1].visits != 0
      invariant best.None? <==> i == 0
      invariant best.Some? ==> best.value < i
      invariant best.Some? ==> forall j :: 0 <= j < i ==> WinRate(t[cs[j].1]) <= WinRate(t[cs[best.value].1])
      invariant best.Some? ==> forall j :: 0 <= j < best.value ==> WinRate(t[cs[j].1]) < WinRate(t[cs[best.value].1])
    {
      var child := t[cs[i].1];
      if child.visits == 0 {
        return Err(ZeroDivision);
      }
      if best.None? || WinRate(child) > WinRate(t[cs[best.value].1]) {
        best := Some(i);
      }
      i := i + 1;
    }
    if best.None? {
      return Ok(None);
    }
    return Ok(Some(cs[best.value].1));
  }

  // ---------------------------------------------------------------------
  // expand_leaf
  // ---------------------------------------------------------------------

  /** `list.index(a)`: where `a` first occurs. */
  function FirstIndex(s: seq<Action>, a: Action): (i: nat)
    requires a in s
    ensures i < |s| && s[i] == a && a !in s[..i]
  {
    if s[0] == a then 0
    else
      var i := FirstIndex(s[1..], a);
      assert s[..i + 1] == [s[0]] + s[1..][..i];
      i + 1
  }

  /** `list.remove(a)`: drops the first occurrence of `a`. */
  function RemoveFirst(s: seq<Action>, a: Action): (r: seq<Action>)
    requires a in s
    ensures multiset(r) + multiset{a} == multiset(s)
    ensures var i := FirstIndex(s, a); |r| == |s| - 1 && r[..i] == s[..i] && r[i..] == s[i + 1..]
  {
    var i := FirstIndex(s, a);
    assert s == s[..i] + [a] + s[i + 1..];
    s[..i] + s[i + 1..]
  }

  /** Some entry of `cs` is listed under action `a`. */
  predicate HasKey(cs: seq<(Action, NodeId)>, a: Action) {
    exists k :: 0 <= k < |cs| && cs[k].0 == a
  }

  /** No action is listed twice, as in a dictionary. */
  predicate UniqueKeys(cs: seq<(Action, NodeId)>) {
    forall j, k :: 0 <= j < k < |cs| ==> cs[j].0 != cs[k].0
  }

  /**
   * `child_nodes[a] = c`: an existing entry under `a` is replaced where it
   * stands and an absent key is appended at the end.
   */
  function SetChild(cs: seq<(Action, NodeId)>, a: Action, c: NodeId): (r: seq<(Action, NodeId)>)
    ensures (a, c) in r
    ensures forall k :: 0 <= k < |r| ==> r[k] == (a, c) || r[k] in cs
    ensures forall k :: 0 <= k < |cs| && cs[k].0 != a ==> cs[k] in r
    ensures !HasKey(cs, a) ==> r == cs + [(a, c)]
    ensures HasKey(cs, a) ==> |r| == |cs|
  {
    if cs == [] then [(a, c)]
    else if cs[0].0 == a then [(a, c)] + cs[1..]
    else [cs[0]] + SetChild(cs[1..], a, c)
  }

  lemma UniqueKeysTail(cs: seq<(Action, NodeId)>)
    requires UniqueKeys(cs) && cs != []
    ensures UniqueKeys(cs[1..])
  {
    forall i, k | 0 <= i < k < |cs[1..]| ensures cs[1..][i].0 != cs[1..][k].0 {
      assert cs[1..][i] == cs[i + 1] && cs[1..][k] == cs[k + 1];
    }
  }

  /** `r` is `cs` with the entry listed under `a` replaced by `(a, c)`, where it stands. */
  ghost predicate ReplacedAt(cs: seq<(Action, NodeId)>, r: seq<(Action, NodeId)>, a: Action, c: NodeId) {
    |r| == |cs| && forall k :: 0 <= k < |cs| ==> r[k] == if cs[k].0 == a then (a, c) else cs[k]
  }

  /** On a dictionary that lists `a`, `SetChild` replaces exactly that entry, where it stands. */
  lemma {:induction false} SetChildInPlace(cs: seq<(Action, NodeId)>, a: Action, c: NodeId)
    requires UniqueKeys(cs) && HasKey(cs, a)
    ensures ReplacedAt(cs, SetChild(cs, a, c), a, c)
  {
    if cs[0].0 == a {
      ReplaceHead(cs, a, c);
    } else {
      var tail := cs[1..];
      var j :| 0 <= j < |cs| && cs[j].0 == a;
      assert tail[j - 1].0 == a;
      UniqueKeysTail(cs);
      SetChildInPlace(tail, a, c);
      ReplaceCons(cs, SetChild(tail, a, c), a, c);
    }
  }

  lemma ReplaceHead(cs: seq<(Action, NodeId)>, a: Action, c: NodeId)
    requires UniqueKeys(cs) && cs != [] && cs[0].0 == a
    ensures ReplacedAt(cs, SetChild(cs, a, c), a, c)
  {
    var r := [(a, c)] + cs[1..];
    assert SetChild(cs, a, c) == r;
    forall k | 0 < k < |cs| ensures r[k] == cs[k] && cs[k].0 != a {
      assert cs[0].0 != cs[k].0;
    }
  }

  lemma ReplaceCons(cs: seq<(Action, NodeId)>, rt: seq<(Action, NodeId)>, a: Action, c: NodeId)
    requires cs != [] && cs[0].0 != a && rt == SetChild(cs[1..], a, c) && ReplacedAt(cs[1..], rt, a, c)
    ensures ReplacedAt(cs, SetChild(cs, a, c), a, c)
  {
    var r := [cs[0]] + rt;
    assert SetChild(cs, a, c) == r;
    forall k | 0 < k < |cs| ensures r[k] == if cs[k].0 == a then (a, c) else cs[k] {
      assert r[k] == rt[k - 1] && cs[k] == cs[1..][k - 1];
    }
  }

  /**
   * `SetChild` keeps a dictionary a dictionary, and the only entry it then
   * lists under `a` is `(a, c)`.
   */
  lemma SetChildKeepsDictionary(cs: seq<(Action, NodeId)>, a: Action, c: NodeId)
    requires UniqueKeys(cs)
    ensures var r := SetChild(cs, a, c);
            UniqueKeys(r) && forall k :: 0 <= k < |r| && r[k].0 == a ==> r[k] == (a, c)
  {
    var r := SetChild(cs, a, c);
    if HasKey(cs, a) {
      SetChildInPlace(cs, a, c);
      forall i, k | 0 <= i < k < |r| ensures r[i].0 != r[k].0 {
        assert cs[i].0 != cs[k].0;
      }
    } else {
      assert r == cs + [(a, c)];
      forall i, k | 0 <= i < k < |r| ensures r[i].0 != r[k].0 {
        if k == |cs| {
          assert cs[i].0 != a;
        }
      }
    }
  }

  /** Listing a new leaf under `n` and storing it keeps every parent and child link. */
  lemma AddChildShape(t: Tree, n: NodeId, newId: NodeId, node': Node, child: Node)
    requires WellFormed(t) && n in t && newId !in t && n < newId
    requires node'.parent == t[n].parent && child.parent == Some(n) && child.children == []
    requires forall k :: 0 <= k < |node'.children| ==>
               node'.children[k].1 == newId || node'.children[k] in t[n].children
    ensures WellFormed(t[newId := child][n := node'])
  {
    var t' := t[newId := child][n := node'];
    forall id | id in t' && t'[id].parent.Some?
      ensures t'[id].parent.value in t' && t'[id].parent.value < id
    {
      if id != n && id != newId {
        assert t'[id] == t[id];
      }
    }
    forall id, k | id in t' && 0 <= k < |t'[id].children|
      ensures t'[id].children[k].1 in t' && t'[t'[id].children[k].1].parent == Some(id)
    {
      var c := t'[id].children[k].1;
      if id == n {
        if c != newId {
          var j :| 0 <= j < |t[n].children| && t[n].children[j] == t'[id].children[k];
          assert t[c].parent == Some(n);
          assert c != n;
          assert t'[c] == t[c];
        }
      } else {
        assert id != newId && t'[id] == t[id];
        assert c in t && t[c].parent == Some(id);
        assert c != newId;
        if c != n {
          assert t'[c] == t[c];
        }
      }
    }
  }

  /** `node.untried_actions.remove(a)` and `node.child_nodes[a] = c`; every other field stays. */
  function AddChild(node: Node, a: Action, c: NodeId): (r: Node)
    requires a in node.untried
    ensures r.parent == node.parent && r.parentAction == node.parentAction
    ensures r.wins == node.wins && r.visits == node.visits
    ensures r.untried == RemoveFirst(node.untried, a)
    ensures (a, c) in r.children
    ensures forall k :: 0 <= k < |r.children| ==> r.children[k].1 == c || r.children[k] in node.children
    ensures forall p :: p in node.children && p.0 != a ==> p in r.children
    ensures forall p :: p in r.children ==> p == (a, c) || p in node.children
  {
    node.(untried := RemoveFirst(node.untried, a), children := SetChild(node.children, a, c))
  }

  /**
   * `t'` is `t` with a fresh leaf `c`, reached from `n` by action `a` and
   * holding `childActions` untried: `a` moves from `n`'s untried actions
   * to its children, and no other node changes.
   */
  ghost predicate GrewLeaf(t: Tree, t': Tree, n: NodeId, a: Action, c: NodeId, childActions: seq<Action>) {
    && n in t && n in t' && c in t' && a in t[n].untried
    && t'.Keys == t.Keys + {c} && WellFormed(t')
    && t'[c] == Node(Some(n), Some(a), 0, 0, childActions, [])
    && multiset(t'[n].untried) + multiset{a} == multiset(t[n].untried)
    && (a, c) in t'[n].children
    && t'[n].untried == RemoveFirst(t[n].untried, a)
    && (forall p :: p in t[n].children && p.0 != a ==> p in t'[n].children)
    && (forall p :: p in t'[n].children ==> p == (a, c) || p in t[n].children)
    && t'[n].parent == t[n].parent && t'[n].parentAction == t[n].parentAction
    && t'[n].wins == t[n].wins && t'[n].visits == t[n].visits
    && (forall id :: id in t && id != n ==> t'[id] == t[id])
  }

  /**
   * `expand_leaf(node, board, state)`. The random choice is the index
   * `pick` into the untried actions; `childActions` stands for
   * `board.legal_actions(next_state)`, and `newId` for the new node's
   * identity. A new node starts with no wins, no visits and no children.
   */
  function ExpandLeaf(t: Tree, n: NodeId, pick: nat, childActions: seq<Action>, newId: NodeId): (r: Result<(Tree, NodeId)>)
    requires WellFormed(t) && n in t && newId !in t && n < newId
    requires t[n].untried != [] ==> pick < |t[n].untried|
    ensures r.Err? <==> t[n].untried == []
    ensures r.Err? ==> r.error == EmptyChoice
    ensures r.Ok? ==>
              && t[n].untried != [] && r.value.1 == newId
              && GrewLeaf(t, r.value.0, n, t[n].untried[pick], newId, childActions)
  {
    var node := t[n];
    if node.untried == [] then Err(EmptyChoice)
    else
      var a := node.untried[pick];
      var child := Node(Some(n), Some(a), 0, 0, childActions, []);
      var node' := AddChild(node, a, newId);
      var t' := t[newId := child][n := node'];
      AddChildShape(t, n, newId, node', child);
      Ok((t', newId))
  }

  /**
   * One step of the search's bookkeeping: expanding `n` and then
   * backpropagating from the new child counts one visit for the child
   * and for `n` and each of its ancestors, and none for any other node.
   */
  lemma ExpandThenBackpropagate(t: Tree, n: NodeId, pick: nat, childActions: seq<Action>, newId: NodeId,
                                won: int, id: NodeId)
    requires WellFormed(t) && n in t && newId !in t && n < newId
    requires t[n].untried != [] && pick < |t[n].untried|
    requires id in t || id == newId
    ensures var (t', c) := ExpandLeaf(t, n, pick, childActions, newId).value;
            var t'' := Backpropagate(t', Some(c), won);
            && t''[id].visits == t'[id].visits + (if id == newId || OnPath(t, Some(n), id) then 1 else 0)
            && t''[newId].wins == won && t''[newId].visits == 1
  {
    var (t', c) := ExpandLeaf(t, n, pick, childActions, newId).value;
    forall m | m in t ensures OnPath(t', Some(n), m) == OnPath(t, Some(n), m) {
      OnPathSubtree(t, t', Some(n), m);
    }
    if id in t {
      OnPathFrame2(t, t', n, c, id);
    }
  }

  /** Adding a node keeps the ancestor paths of the nodes already there. */
  lemma {:induction false} OnPathSubtree(t: Tree, t': Tree, start: Option<NodeId>, id: NodeId)
    requires WellFormed(t) && WellFormed(t') && t.Keys <= t'.Keys
    requires forall m :: m in t ==> t'[m].parent == t[m].parent
    requires start.Some? ==> start.value in t
    ensures OnPath(t', start, id) == OnPath(t, start, id)
    decreases if start.Some? then start.value + 1 else 0
  {
    if start.Some? {
      OnPathSubtree(t, t', t[start.value].parent, id);
    }
  }

  /** From a new child, the path is the child and then its parent's path. */
  lemma OnPathFrame2(t: Tree, t': Tree, n: NodeId, c: NodeId, id: NodeId)
    requires WellFormed(t') && c in t' && t'[c].parent == Some(n) && id != c
    ensures OnPath(t', Some(c), id) == OnPath(t', Some(n), id)
  {
  }
}
