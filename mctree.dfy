/** The Monte Carlo tree: GameState's and MCTree's operations on the arena
    of nodes. The source's global `userPlayer` is the tree's `user`; the
    exploration term of the UCB score is the parameter `explore`, and the
    random playout is a nondeterministic choice among its three outcomes. */
module Mcts {
  import opened Board
  import opened Scores
  import opened Tree

  // ---------------------------------------------------------------------
  // Expansion

  /** The indices start, start + 1, ..., start + n - 1. */
  function Indices(start: nat, n: nat): (r: seq<nat>)
    ensures |r| == n && forall k :: 0 <= k < n ==> r[k] == start + k
  {
    seq(n, k requires 0 <= k < n => start + k)
  }

  /** The node expand makes for board `g` under parent `p`, whose player is
      `parentPlayer`: the other player to move, no children, and the
      terminal rule applied. */
  function Child(g: Grid, p: nat, parentPlayer: char, user: char): (n: Node)
    requires WellFormed(g)
    ensures n.board == g && n.parent == Some(p) && n.children == []
    ensures n.player == GetNextPlayer(parentPlayer)
    ensures n.leaf ==> n.visits == 0
  {
    ApplyTerminalRule(Node(g, GetNextPlayer(parentPlayer), 0, 0, Some(p), [], false), user)
  }

  /** A GameState made for board g and then linked under p by setParent is
      the child expand means to make. */
  lemma AdoptedIsChild(g: Grid, p: nat, parentPlayer: char, user: char)
    requires WellFormed(g)
    ensures ApplyTerminalRule(NewState(g, parentPlayer, user).(parent := Some(p), player := GetNextPlayer(parentPlayer)), user)
            == Child(g, p, parentPlayer, user)
  {
    TerminalRuleIdempotent(Node(g, parentPlayer, 0, 0, None, [], false), user, Some(p), GetNextPlayer(parentPlayer));
  }

  /** `after` is `before` with one new child of node i appended for each of
      the boards `moves`, in order. */
  predicate ExpandedWith(before: seq<Node>, after: seq<Node>, i: nat, moves: seq<Grid>, user: char)
    requires i < |before| && forall k :: 0 <= k < |moves| ==> WellFormed(moves[k])
  {
    |after| == |before| + |moves| &&
    (forall j :: 0 <= j < |before| && j != i ==> after[j] == before[j]) &&
    after[i] == before[i].(children := before[i].children + Indices(|before|, |moves|)) &&
    forall k :: 0 <= k < |moves| ==> after[|before| + k] == Child(moves[k], i, before[i].player, user)
  }

  lemma NextGridsWellFormed(g: Grid, player: char)
    requires WellFormed(g)
    ensures forall k :: 0 <= k < |NextGrids(g, player)| ==> WellFormed(NextGrids(g, player)[k])
  {
  }

  /** expand on node i: one child per successor board of getNextMoves. */
  predicate Expansion(before: seq<Node>, after: seq<Node>, i: nat, user: char)
    requires i < |before| && WellFormed(before[i].board)
  {
    var moves := NextGrids(before[i].board, before[i].player);
    NextGridsWellFormed(before[i].board, before[i].player);
    ExpandedWith(before, after, i, moves, user)
  }

  /** Linking a parentless node c under p, as setParent does, keeps the
      links consistent. */
  lemma AdoptKeepsLinked(before: seq<Node>, c: nat, p: nat, child: Node)
    requires Linked(before) && p < c < |before| && before[c].parent == None
    requires forall k :: 0 <= k < |before[p].children| ==> before[p].children[k] < c
    requires child.parent == Some(p) && child.children == before[c].children
    ensures Linked(before[c := child][p := before[p].(children := before[p].children + [c])])
  {
    var after := before[c := child][p := before[p].(children := before[p].children + [c])];
    forall j | 0 <= j < |after| ensures ParentLinked(after, j) && ChildrenLinked(after, j) {
      assert ParentLinked(before, j) && ChildrenLinked(before, j);
      if j == c {
        assert c in after[p].children;
      }
    }
  }

  /** One child appended by expand keeps the tree rooted and extends the
      expansion by that child. */
  lemma ExpandStep(before: seq<Node>, mid: seq<Node>, after: seq<Node>, i: nat, moves: seq<Grid>, m: nat, user: char)
    requires i < |before| && m < |moves| && forall k :: 0 <= k < |moves| ==> WellFormed(moves[k])
    requires Rooted(mid) && (i == 0 || !before[i].leaf)
    requires ExpandedWith(before, mid, i, moves[..m], user)
    requires after == (mid + [Child(moves[m], i, before[i].player, user)])
                        [i := mid[i].(children := mid[i].children + [|mid|])]
    requires Linked(after)
    ensures Rooted(after) && ExpandedWith(before, after, i, moves[..m + 1], user)
  {
    assert before[i].children + Indices(|before|, m + 1) == before[i].children + Indices(|before|, m) + [|mid|];
    forall j, k | 0 <= j < |after| && 0 <= k < |after[j].children| && after[j].children[k] < |after|
      ensures after[after[j].children[k]].player == GetNextPlayer(after[j].player)
    {
      if j < |mid| && (j != i || k < |mid[i].children|) {
        assert ChildrenLinked(mid, j);
      }
    }
    var made := moves[..m + 1];
    forall k | 0 <= k < |made|
      ensures after[|before| + k] == Child(made[k], i, before[i].player, user)
    {
      if k < m {
        assert mid[|before| + k] == Child(moves[..m][k], i, before[i].player, user);
      }
    }
  }

  // ---------------------------------------------------------------------
  // Selection

  /** What findHighestUCBILeaf does from node i: it stops where Stop says;
      an unvisited node with a parent is returned as it is, a childless node
      is expanded and its first new child returned, or the node itself when
      no child was made. */
  predicate Descent(before: seq<Node>, after: seq<Node>, i: nat, leaf: nat, user: char, explore: (int, int) -> real)
    requires Rooted(before) && i < |before|
  {
    var s := Stop(before, i, user, explore);
    if before[s].visits == 0 && before[s].parent.Some? then
      after == before && leaf == s
    else
      Expansion(before, after, s, user) && leaf == if |after| > |before| then |before| else s
  }

  /** A descent from the child that findHighestUCBILeaf picks at node i is
      a descent from i. */
  lemma DescentFromChild(before: seq<Node>, after: seq<Node>, i: nat, k: nat, leaf: nat, user: char, explore: (int, int) -> real)
    requires Rooted(before) && i < |before| && before[i].children != []
    requires !(before[i].visits == 0 && before[i].parent.Some?)
    requires k == FirstBest(ChildScores(before, i, user, explore), Maximizes(before[i], user))
    requires ChildrenLinked(before, i) && Descent(before, after, before[i].children[k], leaf, user, explore)
    ensures Descent(before, after, i, leaf, user, explore)
  {
    assert Stop(before, i, user, explore) == Stop(before, before[i].children[k], user, explore);
  }

  /** The descent only adds children to a childless node: a node that had
      children keeps exactly those. */
  lemma DescentKeepsChildren(before: seq<Node>, after: seq<Node>, i: nat, leaf: nat, user: char, explore: (int, int) -> real)
    requires Rooted(before) && i < |before| && Descent(before, after, i, leaf, user, explore)
    ensures |before| <= |after|
    ensures forall j :: 0 <= j < |before| && before[j].children != [] ==> after[j].children == before[j].children
  {
  }

  // ---------------------------------------------------------------------
  // Backpropagation

  /** roll's effect on the arena: a terminal node's visit count is set to -1. */
  function Rolled(mid: seq<Node>, sel: nat): (r: seq<Node>)
    requires Linked(mid) && sel < |mid|
    ensures SameShape(mid, r) && Linked(r) && Ancestry(r, sel) == Ancestry(mid, sel)
    ensures forall j :: 0 <= j < |mid| ==> r[j] == if j == sel && mid[sel].leaf then mid[j].(visits := -1) else mid[j]
  {
    var r := if mid[sel].leaf then mid[sel := mid[sel].(visits := -1)] else mid;
    AncestrySameShape(mid, r, sel);
    r
  }

  /** iterate's bookkeeping after the selection: roll, then add the score to
      the total, and one to the visit count, of the node and of each of its
      ancestors. */
  function Backup(mid: seq<Node>, sel: nat, score: int): (after: seq<Node>)
    requires Linked(mid) && sel < |mid|
    ensures SameShape(mid, after)
  {
    Credit(Rolled(mid, sel), sel, score, 1)
  }

  /** One iteration's backup: every node from `sel` up to the root gains
      `score` in its total and one visit, each exactly once (a terminal `sel`,
      whose count roll reset to -1, ends with no visits); every other node is
      unchanged. */
  lemma BackupEffect(mid: seq<Node>, sel: nat, score: int)
    requires Linked(mid) && sel < |mid|
    ensures var after := Backup(mid, sel, score);
      forall j :: 0 <= j < |mid| ==>
        after[j] == if j !in Ancestry(mid, sel) then mid[j]
                    else if j == sel && mid[sel].leaf then mid[j].(total := mid[j].total + score, visits := 0)
                    else Bumped(mid[j], score, 1)
  {
  }

  /** A node on the path from `s` up, other than `s`, has a child. */
  lemma AncestorHasChildren(nodes: seq<Node>, s: nat, j: nat)
    requires Linked(nodes) && s < |nodes| && j in Ancestry(nodes, s) && j != s
    ensures j < |nodes| && nodes[j].children != []
  {
    var path := Ancestry(nodes, s);
    var k :| 0 <= k < |path| && path[k] == j;
    assert nodes[path[k - 1]].parent == Some(j);
    assert ParentLinked(nodes, path[k - 1]);
  }

  /** Rooted depends only on links, boards, players and terminal nodes'
      counters. */
  lemma RootedKept(a: seq<Node>, b: seq<Node>)
    requires Rooted(a) && SameShape(a, b) && TerminalsSettled(b)
    requires forall i :: 0 <= i < |a| ==> b[i].board == a[i].board && b[i].player == a[i].player
    ensures Rooted(b)
  {
    LinkedSameShape(a, b);
  }

  /** The backup keeps the tree rooted: links, boards and players are
      untouched, and a terminal node that is backed up ends with no visits. */
  lemma BackupKeepsRooted(mid: seq<Node>, sel: nat, score: int)
    requires Rooted(mid) && sel < |mid|
    ensures Rooted(Backup(mid, sel, score))
  {
    var after := Backup(mid, sel, score);
    BackupEffect(mid, sel, score);
    forall j | 0 < j < |after| && after[j].leaf
      ensures after[j].visits == 0 && after[j].children == []
    {
      if j in Ancestry(mid, sel) && j != sel {
        AncestorHasChildren(mid, sel, j);
      }
    }
    RootedKept(mid, after);
  }

  // ---------------------------------------------------------------------
  // Decision

  /** One call of iterate takes the arena `before` to `after`: a descent from
      the root reaches `mid` and selects `sel`, roll scores it (its own total
      if terminal, else a playout outcome), and the score is backed up. */
  ghost predicate IterationStep(before: seq<Node>, after: seq<Node>, user: char, explore: (int, int) -> real) {
    Rooted(before) &&
    exists sel: nat, mid: seq<Node>, score: int ::
      Rooted(mid) && sel < |mid| && Descent(before, mid, 0, sel, user, explore) &&
      (mid[sel].leaf ==> score == mid[sel].total) &&
      (!mid[sel].leaf ==> score == -50 || score == 0 || score == 50) &&
      after == Backup(mid, sel, score)
  }

  /** Each arena of the trace is reached from the one before it by one
      call of iterate. */
  ghost predicate Steps(trace: seq<seq<Node>>, user: char, explore: (int, int) -> real) {
    |trace| <= 1 ||
    (Steps(trace[..|trace| - 1], user, explore) &&
     IterationStep(trace[|trace| - 2], trace[|trace| - 1], user, explore))
  }

  /** A trace of iterations extended by one more iteration. */
  lemma StepsExtended(trace: seq<seq<Node>>, after: seq<Node>, user: char, explore: (int, int) -> real)
    requires |trace| > 0 && Steps(trace, user, explore)
    requires IterationStep(trace[|trace| - 1], after, user, explore)
    ensures Steps(trace + [after], user, explore)
  {
    var longer := trace + [after];
    assert longer[..|longer| - 1] == trace;
    assert longer[|longer| - 2] == trace[|trace| - 1] && longer[|longer| - 1] == after;
  }

  /** What Iterate promises is one IterationStep. */
  lemma IterationStepOf(before: seq<Node>, after: seq<Node>, sel: nat, mid: seq<Node>, score: int, user: char, explore: (int, int) -> real)
    requires Rooted(before) && Rooted(mid) && sel < |mid| && Descent(before, mid, 0, sel, user, explore)
    requires mid[sel].leaf ==> score == mid[sel].total
    requires !mid[sel].leaf ==> score == -50 || score == 0 || score == 50
    requires after == Backup(mid, sel, score)
    ensures IterationStep(before, after, user, explore)
  {
  }

  /** makeChoice's scores: the average of each root child, in order. */
  function RootAverages(nodes: seq<Node>): (scores: seq<Score>)
    requires Linked(nodes) && |nodes| > 0
    ensures |scores| == |nodes[0].children|
    ensures forall k :: 0 <= k < |scores| ==> scores[k].Finite?
  {
    assert ChildrenLinked(nodes, 0);
    var ch := nodes[0].children;
    seq(|ch|, k requires 0 <= k < |ch| => Finite(Average(nodes[ch[k]])))
  }

  class MCTree {
    /** The arena; node 0 is the root. */
    var nodes: seq<Node>
    /** The human player (the source's global `userPlayer`). */
    const user: char

    ghost predicate Valid()
      reads this
    {
      Rooted(nodes)
    }

    /** MCTree(start): takes the root and expands it once. */
    constructor (start: Node, user: char)
      requires start.parent == None && start.children == [] && WellFormed(start.board)
      ensures Valid() && this.user == user
      ensures Expansion([start], nodes, 0, user)
    {
      this.user := user;
      nodes := [start];
      new;
      Expand(0);
    }

    /** GameState(board): a new parentless node in the arena. */
    method AddState(board: Grid, player: char) returns (id: nat)
      requires WellFormed(board)
      modifies this
      ensures id == |old(nodes)| && nodes == old(nodes) + [NewState(board, player, user)]
      ensures Linked(old(nodes)) ==> Linked(nodes)
    {
      id := |nodes|;
      nodes := nodes + [NewState(board, player, user)];
      if Linked(old(nodes)) {
        forall i | 0 <= i < |nodes| ensures ParentLinked(nodes, i) && ChildrenLinked(nodes, i) {
          if i < id {
            assert ParentLinked(old(nodes), i) && ChildrenLinked(old(nodes), i);
          }
        }
      }
    }

    /** addChild: append c to p's children. */
    method AddChild(p: nat, c: nat)
      requires p < |nodes|
      modifies this
      ensures nodes == old(nodes)[p := old(nodes[p]).(children := old(nodes[p].children) + [c])]
    {
      nodes := nodes[p := nodes[p].(children := nodes[p].children + [c])];
    }

    /** setParent: link c under p, give c the player after p's, and re-apply
        the terminal rule to c's board. */
    method SetParent(c: nat, p: nat)
      requires Linked(nodes) && p < c < |nodes| && nodes[c].parent == None && WellFormed(nodes[c].board)
      requires forall k :: 0 <= k < |nodes[p].children| ==> nodes[p].children[k] < c
      modifies this
      ensures Linked(nodes)
      ensures nodes == old(nodes)
        [c := ApplyTerminalRule(old(nodes[c]).(parent := Some(p), player := GetNextPlayer(old(nodes[p].player))), user)]
        [p := old(nodes[p]).(children := old(nodes[p].children) + [c])]
    {
      nodes := nodes[c := nodes[c].(parent := Some(p), player := GetNextPlayer(nodes[p].player))];
      AddChild(p, c);
      nodes := nodes[c := ApplyTerminalRule(nodes[c], user)];
      AdoptKeepsLinked(old(nodes), c, p, nodes[c]);
      assert nodes == old(nodes)[c := nodes[c]][p := old(nodes[p]).(children := old(nodes[p].children) + [c])];
    }

    /** roll: a terminal node reports its own total and has its visit count
        set to -1; any other node reports the outcome of a random playout,
        which is -50, 0 or 50. */
    method Roll(i: nat) returns (score: int)
      requires i < |nodes|
      modifies this
      ensures old(nodes[i]).leaf ==> score == old(nodes[i]).total && nodes == old(nodes)[i := old(nodes[i]).(visits := -1)]
      ensures !old(nodes[i]).leaf ==> (score == -50 || score == 0 || score == 50) && nodes == old(nodes)
    {
      if nodes[i].leaf {
        nodes := nodes[i := nodes[i].(visits := -1)];
        return nodes[i].total;
      }
      // simulate(board, getNextPlayer(player)): the playout's outcome
      score :| score == -50 || score == 0 || score == 50;
    }

    /** addToTotal: add v to the total of node i and of every ancestor. */
    method AddToTotal(i: nat, v: int)
      requires Linked(nodes) && i < |nodes|
      modifies this
      decreases i
      ensures nodes == Credit(old(nodes), i, v, 0)
    {
      assert ParentLinked(nodes, i);
      nodes := nodes[i := nodes[i].(total := nodes[i].total + v)];
      assert nodes == old(nodes)[i := Bumped(old(nodes[i]), v, 0)];
      LinkedSameShape(old(nodes), nodes);
      if nodes[i].parent.Some? {
        AncestrySameShape(old(nodes), nodes, nodes[i].parent.value);
        AddToTotal(nodes[i].parent.value, v);
      }
    }

    /** addVisit: add one visit to node i and to every ancestor. */
    method AddVisit(i: nat)
      requires Linked(nodes) && i < |nodes|
      modifies this
      decreases i
      ensures nodes == Credit(old(nodes), i, 0, 1)
    {
      assert ParentLinked(nodes, i);
      nodes := nodes[i := nodes[i].(visits := nodes[i].visits + 1)];
      assert nodes == old(nodes)[i := Bumped(old(nodes[i]), 0, 1)];
      LinkedSameShape(old(nodes), nodes);
      if nodes[i].parent.Some? {
        AncestrySameShape(old(nodes), nodes, nodes[i].parent.value);
        AddVisit(nodes[i].parent.value);
      }
    }

    /** getChildrenUCBIs: the UCB score of each child of node i, in order. */
    method GetChildrenUCBIs(i: nat, explore: (int, int) -> real) returns (childScores: seq<Score>)
      requires Linked(nodes) && i < |nodes|
      ensures childScores == ChildScores(nodes, i, user, explore)
    {
      assert ChildrenLinked(nodes, i);
      var children := nodes[i].children;
      childScores := [];
      for k := 0 to |children|
        invariant |childScores| == k
        invariant forall j :: 0 <= j < k ==> childScores[j] == Ucb(nodes, children[j], user, explore)
      {
        childScores := childScores + [Ucb(nodes, children[k], user, explore)];
      }
    }

    /** expand: one new child per board getNextMoves returns for this node's
        board and player, each holding its own copy of that board and linked
        by setParent. */
    method Expand(i: nat)
      requires Valid() && i < |nodes| && (i == 0 || !nodes[i].leaf)
      modifies this
      ensures Valid()
      ensures Expansion(old(nodes), nodes, i, user)
    {
      ghost var before := nodes;
      ghost var moves := NextGrids(nodes[i].board, nodes[i].player);
      NextGridsWellFormed(nodes[i].board, nodes[i].player);
      var nextMoves := GetNextMoves(nodes[i].board, nodes[i].player);
      for m := 0 to |nextMoves|
        invariant Rooted(nodes)
        invariant ExpandedWith(before, nodes, i, moves[..m], user)
        invariant forall k :: m <= k < |nextMoves| ==> Cells(nextMoves[k]) == moves[k]
      {
        ghost var mid := nodes;
        assert ChildrenLinked(nodes, i);
        // GameState(getBoardCopy(nextState)): the node keeps its own copy
        var id := AddState(Cells(nextMoves[m]), nodes[i].player);
        SetParent(id, i);
        AdoptedIsChild(moves[m], i, before[i].player, user);
        ExpandStep(before, mid, nodes, i, moves, m, user);
      }
      assert moves[..|nextMoves|] == moves;
    }

    /** findHighestUCBILeaf from node i: stop at an unvisited node with a
        parent; expand a childless node and return its first child (or the
        node when no child was made); otherwise descend into the first child
        with the best UCB score, the maximum when the node's player is not
        the user and the minimum when it is. */
    method FindHighestUCBILeaf(i: nat, explore: (int, int) -> real) returns (leaf: nat)
      requires Valid() && i < |nodes|
      modifies this
      decreases |nodes| - i
      ensures Valid() && leaf < |nodes|
      ensures Descent(old(nodes), nodes, i, leaf, user, explore)
    {
      if nodes[i].visits == 0 && nodes[i].parent.Some? {
        return i;
      }
      if nodes[i].children == [] {
        Expand(i);
        if |nodes[i].children| > 0 {
          leaf := nodes[i].children[0];
        } else {
          leaf := i;
        }
        return;
      }
      var scores := GetChildrenUCBIs(i, explore);
      var favorite := ArgBest(scores, nodes[i].player != user);
      assert ChildrenLinked(nodes, i);
      leaf := FindHighestUCBILeaf(nodes[i].children[favorite], explore);
      DescentFromChild(old(nodes), nodes, i, favorite, leaf, user, explore);
    }

    /** iterate: select a node, roll it, and back the score up to the root. */
    method Iterate(explore: (int, int) -> real) returns (ghost sel: nat, ghost mid: seq<Node>, ghost score: int)
      requires Valid()
      modifies this
      ensures Valid() && Rooted(mid) && sel < |mid|
      ensures Descent(old(nodes), mid, 0, sel, user, explore)
      ensures mid[sel].leaf ==> score == mid[sel].total
      ensures !mid[sel].leaf ==> score == -50 || score == 0 || score == 50
      ensures nodes == Backup(mid, sel, score)
      ensures |old(nodes)| <= |nodes|
      ensures forall j :: 0 <= j < |old(nodes)| && old(nodes)[j].children != [] ==>
        nodes[j].children == old(nodes)[j].children
    {
      var leafToUpdate := FindHighestUCBILeaf(0, explore);
      sel, mid := leafToUpdate, nodes;
      DescentKeepsChildren(old(nodes), mid, 0, sel, user, explore);
      score := RollAndBackUp(leafToUpdate);
    }

    /** The rest of iterate: roll the selected node, then addToTotal and
        addVisit from it up to the root. */
    method RollAndBackUp(sel: nat) returns (score: int)
      requires Rooted(nodes) && sel < |nodes|
      modifies this
      ensures Rooted(nodes)
      ensures old(nodes[sel]).leaf ==> score == old(nodes[sel]).total
      ensures !old(nodes[sel]).leaf ==> score == -50 || score == 0 || score == 50
      ensures nodes == Backup(old(nodes), sel, score)
    {
      score := Roll(sel);
      assert nodes == Rolled(old(nodes), sel);
      Backpropagate(sel, score);
      BackupKeepsRooted(old(nodes), sel, score);
    }

    /** addToTotal(v) then addVisit() from node i: v and one visit added to
        node i and each of its ancestors. */
    method Backpropagate(i: nat, v: int)
      requires Linked(nodes) && i < |nodes|
      modifies this
      ensures nodes == Credit(old(nodes), i, v, 1)
    {
      AddToTotal(i, v);
      AddVisit(i);
      CreditCompose(old(nodes), i, v, 0, 0, 1);
    }

    /** makeChoice's first loop: call iterate `iterations` times. The trace
        holds the arena before the loop and after each call. */
    method RunIterations(iterations: nat, explore: (int, int) -> real) returns (ghost trace: seq<seq<Node>>)
      requires Valid() && nodes[0].children != []
      modifies this
      ensures |trace| == iterations + 1 && trace[0] == old(nodes) && trace[iterations] == nodes
      ensures Steps(trace, user, explore)
      ensures Valid() && nodes[0].children == old(nodes[0].children)
    {
      trace := [nodes];
      for iteration := 0 to iterations
        invariant Valid() && nodes[0].children == old(nodes[0].children)
        invariant |trace| == iteration + 1 && trace[0] == old(nodes) && trace[iteration] == nodes
        invariant Steps(trace, user, explore)
      {
        ghost var before := nodes;
        ghost var sel, mid, rolled := Iterate(explore);
        IterationStepOf(before, nodes, sel, mid, rolled, user, explore);
        StepsExtended(trace, nodes, user, explore);
        trace := trace + [nodes];
      }
    }

    /** makeChoice: run the iterations, then return the board of the first
        root child with the largest average score, and that average. */
    method MakeChoice(iterations: nat, explore: (int, int) -> real) returns (board: Grid, score: real, ghost trace: seq<seq<Node>>)
      requires Valid() && nodes[0].children != []
      modifies this
      ensures |trace| == iterations + 1 && trace[0] == old(nodes) && trace[iterations] == nodes
      ensures Steps(trace, user, explore)
      ensures Valid() && nodes[0].children == old(nodes[0].children)
      ensures ChildrenLinked(nodes, 0)
      ensures var ch := nodes[0].children;
        var k := FirstBest(RootAverages(nodes), true);
        board == nodes[ch[k]].board && score == Average(nodes[ch[k]])
      ensures forall k :: 0 <= k < |nodes[0].children| ==> Average(nodes[nodes[0].children[k]]) <= score
    {
      trace := RunIterations(iterations, explore);
      assert ChildrenLinked(nodes, 0);
      var children := nodes[0].children;
      var childScores := [];
      for k := 0 to |children|
        invariant |childScores| == k
        invariant forall j :: 0 <= j < k ==> childScores[j] == Finite(Average(nodes[children[j]]))
      {
        childScores := childScores + [Finite(Average(nodes[children[k]]))];
      }
      assert childScores == RootAverages(nodes);
      var approved := ArgBest(childScores, true);
      board, score := nodes[children[approved]].board, childScores[approved].x;
    }
  }
}
