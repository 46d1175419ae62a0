/** The search tree of GameState nodes as values: an arena in which a node's
    parent and children are indices. The root is node 0, and a child always
    sits at a larger index than its parent, so every upward walk ends. */
module Tree {
  import opened Board
  import opened Scores

  datatype Option<T> = None | Some(value: T)

  /** A GameState: its board, the player to move, the running total of
      rollout scores, the visit count, the parent link, the children in the
      order they were attached, and whether the board was already won. A
      node's board is its own copy and is never written after the node is
      made, so it is held as a value. */
  datatype Node = Node(board: Grid, player: char, total: int, visits: int,
                       parent: Option<nat>, children: seq<nat>, leaf: bool)

  // ---------------------------------------------------------------------
  // Terminal scoring

  /** The check shared by GameState's constructor and setParent: a board won
      by `user` scores -50, a board won by the other player +50, and either
      makes the node a leaf with no visits; otherwise the node is unchanged. */
  function ApplyTerminalRule(n: Node, user: char): (r: Node)
    requires WellFormed(n.board)
    ensures r.board == n.board && r.player == n.player && r.parent == n.parent && r.children == n.children
    ensures HasWon(n.board, user) ==> r.total == -50 && r.visits == 0 && r.leaf
    ensures !HasWon(n.board, user) && HasWon(n.board, GetNextPlayer(user)) ==> r.total == 50 && r.visits == 0 && r.leaf
    ensures !HasWon(n.board, user) && !HasWon(n.board, GetNextPlayer(user)) ==> r == n
  {
    if HasWon(n.board, user) then n.(total := -50, visits := 0, leaf := true)
    else if HasWon(n.board, GetNextPlayer(user)) then n.(total := 50, visits := 0, leaf := true)
    else n
  }

  /** GameState(board, player): a parentless, childless node with a zero
      total and no visits, then the terminal rule. */
  function NewState(board: Grid, player: char, user: char): (n: Node)
    requires WellFormed(board)
    ensures n.board == board && n.player == player && n.parent == None && n.children == []
    ensures n.visits == 0
    ensures n.total == -50 <==> HasWon(board, user)
    ensures n.total == 50 <==> !HasWon(board, user) && HasWon(board, GetNextPlayer(user))
    ensures n.total == 0 <==> !n.leaf
    ensures n.leaf <==> HasWon(board, user) || HasWon(board, GetNextPlayer(user))
  {
    ApplyTerminalRule(Node(board, player, 0, 0, None, [], false), user)
  }

  /** Applying the terminal rule a second time, as setParent does after the
      constructor, changes nothing, whatever the parent link and player. */
  lemma TerminalRuleIdempotent(n: Node, user: char, parent: Option<nat>, player: char)
    requires WellFormed(n.board)
    ensures ApplyTerminalRule(ApplyTerminalRule(n, user).(parent := parent, player := player), user)
         == ApplyTerminalRule(n, user).(parent := parent, player := player)
  {
  }

  // ---------------------------------------------------------------------
  // Links

  /** Node i's parent, if any, lies below i and lists i among its children. */
  predicate ParentLinked(nodes: seq<Node>, i: nat)
    requires i < |nodes|
  {
    match nodes[i].parent
    case None => true
    case Some(p) => p < i && i in nodes[p].children
  }

  /** Node i's children lie above i, point back to i, and are in increasing
      order (the order they were attached). */
  predicate ChildrenLinked(nodes: seq<Node>, i: nat)
    requires i < |nodes|
  {
    var ch := nodes[i].children;
    (forall k :: 0 <= k < |ch| ==> i < ch[k] < |nodes| && nodes[ch[k]].parent == Some(i)) &&
    (forall j, k :: 0 <= j < k < |ch| ==> ch[j] < ch[k])
  }

  /** parent.children contains a node iff that node's parent is parent. */
  predicate Linked(nodes: seq<Node>) {
    forall i :: 0 <= i < |nodes| ==> ParentLinked(nodes, i) && ChildrenLinked(nodes, i)
  }

  /** Two arenas with the same links; counters may differ. */
  predicate SameShape(a: seq<Node>, b: seq<Node>) {
    |a| == |b| &&
    forall i :: 0 <= i < |a| ==> a[i].parent == b[i].parent && a[i].children == b[i].children
  }

  lemma LinkedSameShape(a: seq<Node>, b: seq<Node>)
    requires Linked(a) && SameShape(a, b)
    ensures Linked(b)
  {
    forall i | 0 <= i < |b|
      ensures ParentLinked(b, i) && ChildrenLinked(b, i)
    {
      assert ParentLinked(a, i) && ChildrenLinked(a, i);
      var ch := b[i].children;
      forall k | 0 <= k < |ch| ensures b[ch[k]].parent == Some(i) {
        assert a[ch[k]].parent == Some(i);
      }
      match b[i].parent
      case None =>
      case Some(p) => assert b[p].children == a[p].children;
    }
  }

  /** The shape of a whole search tree between two operations: a root at
      index 0 and every other node attached below it, 6x7 boards, the player
      alternating from parent to child, and terminal nodes other than the root
      never expanded and left with no visits. */
  predicate Rooted(nodes: seq<Node>) {
    |nodes| > 0 && Linked(nodes) && nodes[0].parent == None &&
    (forall i :: 0 < i < |nodes| ==> nodes[i].parent.Some?) &&
    (forall i :: 0 <= i < |nodes| ==> WellFormed(nodes[i].board)) &&
    Alternating(nodes) && TerminalsSettled(nodes)
  }

  predicate Alternating(nodes: seq<Node>) {
    forall i, k :: 0 <= i < |nodes| && 0 <= k < |nodes[i].children| && nodes[i].children[k] < |nodes| ==>
      nodes[nodes[i].children[k]].player == GetNextPlayer(nodes[i].player)
  }

  predicate TerminalsSettled(nodes: seq<Node>) {
    forall i :: 0 < i < |nodes| && nodes[i].leaf ==> nodes[i].visits == 0 && nodes[i].children == []
  }

  // ---------------------------------------------------------------------
  // Ancestry and backpropagation

  /** The chain from node i up to the first node without a parent, i first. */
  function Ancestry(nodes: seq<Node>, i: nat): (path: seq<nat>)
    requires Linked(nodes) && i < |nodes|
    decreases i
    ensures |path| > 0 && path[0] == i
    ensures forall k :: 0 <= k < |path| ==> path[k] <= i
    ensures forall k :: 0 <= k < |path| - 1 ==> nodes[path[k]].parent == Some(path[k + 1])
    ensures nodes[path[|path| - 1]].parent == None
    ensures forall j, k :: 0 <= j < k < |path| ==> path[j] > path[k]
  {
    assert ParentLinked(nodes, i);
    match nodes[i].parent
    case None => [i]
    case Some(p) => [i] + Ancestry(nodes, p)
  }

  /** In a rooted tree every ancestry ends at the root. */
  lemma AncestryReachesRoot(nodes: seq<Node>, i: nat)
    requires Rooted(nodes) && i < |nodes|
    ensures var path := Ancestry(nodes, i); path[|path| - 1] == 0 && 0 in path
  {
    var path := Ancestry(nodes, i);
    assert path[|path| - 1] < |nodes|;
  }

  /** Ancestry depends on the links only. */
  lemma {:induction false} AncestrySameShape(a: seq<Node>, b: seq<Node>, i: nat)
    requires Linked(a) && SameShape(a, b) && i < |a|
    ensures Linked(b) && Ancestry(a, i) == Ancestry(b, i)
    decreases i
  {
    LinkedSameShape(a, b);
    assert ParentLinked(a, i);
    match a[i].parent
    case None =>
    case Some(p) => AncestrySameShape(a, b, p);
  }

  /** A node with `dt` added to its total and `dv` to its visit count. */
  function Bumped(n: Node, dt: int, dv: int): Node {
    n.(total := n.total + dt, visits := n.visits + dv)
  }

  /** Add `dt` to the total and `dv` to the visit count of node i and of each
      of its ancestors: the walk addToTotal and addVisit make. */
  function Credit(nodes: seq<Node>, i: nat, dt: int, dv: int): (r: seq<Node>)
    requires Linked(nodes) && i < |nodes|
    decreases i
    ensures SameShape(nodes, r) && Linked(r)
    ensures forall j :: 0 <= j < |nodes| ==>
      r[j] == if j in Ancestry(nodes, i) then Bumped(nodes[j], dt, dv) else nodes[j]
  {
    var updated := nodes[i := Bumped(nodes[i], dt, dv)];
    assert SameShape(nodes, updated);
    LinkedSameShape(nodes, updated);
    assert ParentLinked(nodes, i);
    match nodes[i].parent
    case None => updated
    case Some(p) =>
      AncestrySameShape(nodes, updated, p);
      AncestryStep(nodes, i, p);
      var r := Credit(updated, p, dt, dv);
      assert forall j :: 0 <= j < |nodes| && j != i ==> updated[j] == nodes[j];
      assert forall j :: 0 <= j < |nodes| ==> (j in Ancestry(nodes, i) <==> j == i || j in Ancestry(nodes, p));
      r
  }

  lemma BumpedTwice(n: Node, dt: int, dv: int, dt': int, dv': int)
    ensures Bumped(Bumped(n, dt, dv), dt', dv') == Bumped(n, dt + dt', dv + dv')
  {
  }

  /** Two walks up the same ancestry add up: addToTotal followed by addVisit
      is one walk adding both. */
  lemma CreditCompose(nodes: seq<Node>, i: nat, dt: int, dv: int, dt': int, dv': int)
    requires Linked(nodes) && i < |nodes|
    ensures Linked(Credit(nodes, i, dt, dv))
    ensures Credit(Credit(nodes, i, dt, dv), i, dt', dv') == Credit(nodes, i, dt + dt', dv + dv')
  {
    var once := Credit(nodes, i, dt, dv);
    AncestrySameShape(nodes, once, i);
    var twice := Credit(once, i, dt', dv');
    var both := Credit(nodes, i, dt + dt', dv + dv');
    forall j | 0 <= j < |nodes| ensures twice[j] == both[j] {
      BumpedTwice(nodes[j], dt, dv, dt', dv');
    }
  }

  /** One step up the ancestry: node i followed by its parent's ancestry. */
  lemma AncestryStep(nodes: seq<Node>, i: nat, p: nat)
    requires Linked(nodes) && i < |nodes| && nodes[i].parent == Some(p)
    ensures p < i
    ensures Ancestry(nodes, i) == [i] + Ancestry(nodes, p)
    ensures i !in Ancestry(nodes, p)
  {
    assert ParentLinked(nodes, i);
  }

  // ---------------------------------------------------------------------
  // UCB scores and the descent

  /** makeChoice's value of a child: total / visits, or the raw total when
      the division by zero fails. */
  function Average(n: Node): (avg: real)
    ensures n.visits != 0 ==> avg * n.visits as real == n.total as real
    ensures n.visits == 0 ==> avg == n.total as real
  {
    if n.visits == 0 then n.total as real else n.total as real / n.visits as real
  }

  /** calculateUCBI of a node with a parent. An unvisited node scores +inf
      when its player is the user and -inf otherwise. A visited node scores
      its average plus an exploration bonus whose size `explore` gives from
      the parent's and the node's visit counts; the bonus is subtracted when
      the node's player is not the user. */
  function Ucb(nodes: seq<Node>, i: nat, user: char, explore: (int, int) -> real): (score: Score)
    requires i < |nodes| && nodes[i].parent.Some? && nodes[i].parent.value < |nodes|
    ensures nodes[i].visits == 0 ==> !score.Finite? && (score == PosInf <==> nodes[i].player == user)
    ensures nodes[i].visits != 0 ==> score.Finite?
  {
    var n := nodes[i];
    if n.visits == 0 then
      if n.player != user then NegInf else PosInf
    else
      var exploration := explore(nodes[n.parent.value].visits, n.visits);
      Finite(Average(n) + if n.player != user then -exploration else exploration)
  }

  /** getChildrenUCBIs: the scores of node i's children, in order. */
  function ChildScores(nodes: seq<Node>, i: nat, user: char, explore: (int, int) -> real): (scores: seq<Score>)
    requires Linked(nodes) && i < |nodes|
    ensures |scores| == |nodes[i].children|
  {
    assert ChildrenLinked(nodes, i);
    var ch := nodes[i].children;
    seq(|ch|, k requires 0 <= k < |ch| => Ucb(nodes, ch[k], user, explore))
  }

  /** Whose choice it is at node i: the maximum is taken when the node's
      player is not the user, the minimum otherwise. */
  predicate Maximizes(n: Node, user: char) {
    n.player != user
  }

  /** Where findHighestUCBILeaf's descent from node i stops before it expands
      anything: at an unvisited node with a parent, or at a childless node.
      In between it follows the first best child. */
  function Stop(nodes: seq<Node>, i: nat, user: char, explore: (int, int) -> real): (s: nat)
    requires Linked(nodes) && i < |nodes|
    decreases |nodes| - i
    ensures s < |nodes| && i <= s
    ensures (nodes[s].visits == 0 && nodes[s].parent.Some?) || nodes[s].children == []
    ensures i in Ancestry(nodes, s)
    ensures s == i || nodes[i].children != []
    ensures (nodes[i].children != [] && !(nodes[i].visits == 0 && nodes[i].parent.Some?)) ==> i < s
  {
    if nodes[i].visits == 0 && nodes[i].parent.Some? then i
    else if nodes[i].children == [] then i
    else
      assert ChildrenLinked(nodes, i);
      var k := FirstBest(ChildScores(nodes, i, user, explore), Maximizes(nodes[i], user));
      var c := nodes[i].children[k];
      var s := Stop(nodes, c, user, explore);
      AncestryThrough(nodes, s, c);
      s
  }

  /** If c is on the ancestry of s, so is c's parent. */
  lemma {:induction false} AncestryThrough(nodes: seq<Node>, s: nat, c: nat)
    requires Linked(nodes) && s < |nodes| && c < |nodes| && c in Ancestry(nodes, s)
    ensures nodes[c].parent.Some? ==> nodes[c].parent.value in Ancestry(nodes, s)
    decreases s
  {
    var path := Ancestry(nodes, s);
    var k :| 0 <= k < |path| && path[k] == c;
    if nodes[c].parent.Some? && k < |path| - 1 {
      assert path[k + 1] == nodes[c].parent.value;
    }
  }

  /** Selection prefers an unvisited child: when the players alternate and
      node i has an unvisited child, the first best score is that of its
      first unvisited child, whichever of the maximum or the minimum is taken. */
  lemma UnvisitedChildChosen(nodes: seq<Node>, i: nat, user: char, explore: (int, int) -> real)
    requires Linked(nodes) && Alternating(nodes) && i < |nodes| && ChildrenLinked(nodes, i)
    requires user == 'R' || user == 'Y'
    requires nodes[i].player == 'R' || nodes[i].player == 'Y'
    requires exists k :: 0 <= k < |nodes[i].children| && nodes[nodes[i].children[k]].visits == 0
    ensures var ch := nodes[i].children;
      var k := FirstBest(ChildScores(nodes, i, user, explore), Maximizes(nodes[i], user));
      nodes[ch[k]].visits == 0 && forall j :: 0 <= j < k ==> nodes[ch[j]].visits != 0
  {
    assert ChildrenLinked(nodes, i);
    var ch := nodes[i].children;
    var scores := ChildScores(nodes, i, user, explore);
    var maximize := Maximizes(nodes[i], user);
    var k := FirstBest(scores, maximize);
    var u :| 0 <= u < |ch| && nodes[ch[u]].visits == 0;
    // The score every unvisited child gets is the extreme in the chooser's favour.
    var extreme := if maximize then PosInf else NegInf;
    forall j | 0 <= j < |ch|
      ensures nodes[ch[j]].visits == 0 <==> scores[j] == extreme
    {
      assert nodes[ch[j]].player == GetNextPlayer(nodes[i].player);
    }
    assert scores[u] == extreme;
    assert !Beats(scores[u], scores[k], maximize);
    assert scores[k] == extreme;
  }
}
