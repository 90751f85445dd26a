/**
 * Group search: the flood fill the game runs from the clicked ball. It
 * follows the four orthogonal neighbours that lie on the grid and hold a
 * ball of the start's colour, marks every cell it enters in a `visited`
 * matrix and appends it to the group.
 */
module GroupFinder {
  import opened Grid

  /** The four steps the search tries, in its order: +x, -x, +y, -y. */
  const Directions: seq<(int, int)> := [(1, 0), (-1, 0), (0, 1), (0, -1)]

  /** p and q are orthogonal neighbours. */
  predicate Adjacent(p: Pos, q: Pos)
  {
    (p.x == q.x && (p.y - q.y == 1 || q.y - p.y == 1)) ||
    (p.y == q.y && (p.x - q.x == 1 || q.x - p.x == 1))
  }

  predicate Distinct(s: seq<Pos>)
  {
    forall i, j :: 0 <= i < j < |s| ==> s[i] != s[j]
  }

  /** A non-empty walk of orthogonal steps over cells that all hold c. */
  ghost predicate SameColourPath(b: Board, c: Cell, path: seq<Pos>)
  {
    |path| > 0 &&
    (forall i :: 0 <= i < |path| ==> InBoard(b, path[i]) && At(b, path[i]) == c) &&
    (forall i :: 0 <= i < |path| - 1 ==> Adjacent(path[i], path[i + 1]))
  }

  /** t can be reached from the ball at s through balls of the same colour. */
  ghost predicate Reachable(b: Board, s: Pos, t: Pos)
  {
    InBoard(b, s) && At(b, s).Occupied? &&
    exists path :: SameColourPath(b, At(b, s), path) && path[0] == s && path[|path| - 1] == t
  }

  /** The group of s: every cell reachable from it (none when s is empty). */
  ghost function Group(b: Board, s: Pos): set<Pos>
  {
    set x, y | 0 <= x < |b| && 0 <= y < |b[x]| && Reachable(b, s, Pos(x, y)) :: Pos(x, y)
  }

  lemma GroupMember(b: Board, s: Pos, t: Pos)
    ensures t in Group(b, s) <==> Reachable(b, s, t)
  {
  }

  /** Soundness of a group: its cells lie on the board and share the start's colour. */
  lemma GroupSound(b: Board, s: Pos, t: Pos)
    requires t in Group(b, s)
    ensures InBoard(b, s) && InBoard(b, t) && At(b, s).Occupied? && At(b, t) == At(b, s)
  {
  }

  lemma ReachableFromItself(b: Board, s: Pos)
    requires InBoard(b, s) && At(b, s).Occupied?
    ensures Reachable(b, s, s)
  {
    assert SameColourPath(b, At(b, s), [s]);
  }

  /** A step to a same-coloured neighbour n extends every walk that starts at n. */
  lemma ReachableStep(b: Board, s: Pos, n: Pos, t: Pos)
    requires InBoard(b, s) && InBoard(b, n) && Adjacent(s, n) && At(b, n) == At(b, s)
    requires Reachable(b, n, t)
    ensures Reachable(b, s, t)
  {
    var path :| SameColourPath(b, At(b, n), path) && path[0] == n && path[|path| - 1] == t;
    var walk := [s] + path;
    forall i | 0 <= i < |walk| - 1
      ensures Adjacent(walk[i], walk[i + 1])
    {
      if i > 0 {
        assert walk[i] == path[i - 1] && walk[i + 1] == path[i];
      }
    }
    assert SameColourPath(b, At(b, s), walk);
  }

  function Reversed(path: seq<Pos>): seq<Pos>
  {
    seq(|path|, i requires 0 <= i < |path| => path[|path| - 1 - i])
  }

  /** Same-colour reachability is symmetric. */
  lemma ReachableSymmetric(b: Board, s: Pos, t: Pos)
    requires Reachable(b, s, t)
    ensures Reachable(b, t, s) && At(b, t) == At(b, s)
  {
    var path :| SameColourPath(b, At(b, s), path) && path[0] == s && path[|path| - 1] == t;
    var back := Reversed(path);
    assert InBoard(b, path[|path| - 1]);
    forall i | 0 <= i < |back| - 1
      ensures Adjacent(back[i], back[i + 1])
    {
      assert Adjacent(path[|path| - 2 - i], path[|path| - 1 - i]);
    }
    assert SameColourPath(b, At(b, t), back);
  }

  /** Same-colour reachability is transitive. */
  lemma ReachableTransitive(b: Board, s: Pos, t: Pos, u: Pos)
    requires Reachable(b, s, t) && Reachable(b, t, u)
    ensures Reachable(b, s, u)
  {
    var p :| SameColourPath(b, At(b, s), p) && p[0] == s && p[|p| - 1] == t;
    var q :| SameColourPath(b, At(b, t), q) && q[0] == t && q[|q| - 1] == u;
    assert InBoard(b, p[|p| - 1]);
    var walk := p + q[1..];
    forall i | 0 <= i < |walk| - 1
      ensures Adjacent(walk[i], walk[i + 1])
    {
      if i < |p| - 1 {
        assert walk[i] == p[i] && walk[i + 1] == p[i + 1];
      } else {
        assert walk[i] == q[i - |p| + 1] && walk[i + 1] == q[i - |p| + 2];
      }
    }
    assert SameColourPath(b, At(b, s), walk);
  }

  /**
   * The group does not depend on which of its balls was clicked: starting
   * from any member gives back the same set.
   */
  lemma GroupOfMember(b: Board, s: Pos, t: Pos)
    requires t in Group(b, s)
    ensures Group(b, t) == Group(b, s)
  {
    GroupMember(b, s, t);
    ReachableSymmetric(b, s, t);
    forall u | u in Group(b, t)
      ensures u in Group(b, s)
    {
      GroupMember(b, t, u);
      ReachableTransitive(b, s, t, u);
      GroupMember(b, s, u);
    }
    forall u | u in Group(b, s)
      ensures u in Group(b, t)
    {
      GroupMember(b, s, u);
      ReachableTransitive(b, t, s, u);
      GroupMember(b, t, u);
    }
  }

  /** S contains every same-coloured on-board neighbour of each of its cells. */
  ghost predicate Closed(b: Board, S: set<Pos>)
  {
    (forall p :: p in S ==> InBoard(b, p)) &&
    forall p, q :: p in S && Adjacent(p, q) && InBoard(b, q) && InBoard(b, p) && At(b, q) == At(b, p) ==> q in S
  }

  /** A closed set that holds the start of a same-colour walk holds all of it. */
  lemma {:induction false} ClosedContainsWalk(b: Board, S: set<Pos>, c: Cell, path: seq<Pos>)
    requires Closed(b, S)
    requires SameColourPath(b, c, path) && path[0] in S
    ensures forall i :: 0 <= i < |path| ==> path[i] in S
  {
    if |path| > 1 {
      var init := path[..|path| - 1];
      assert SameColourPath(b, c, init);
      ClosedContainsWalk(b, S, c, init);
      var n := |path| - 1;
      assert init[n - 1] == path[n - 1] && path[n - 1] in S;
      assert Adjacent(path[n - 1], path[n]);
    }
  }

  function Elems(s: seq<Pos>): set<Pos>
  {
    set p | p in s
  }

  /** Every coordinate of a w x h grid. */
  function AllCells(w: int, h: int): set<Pos>
  {
    set i, j | 0 <= i < w && 0 <= j < h :: Pos(i, j)
  }

  /** The cells the search has marked in `visited`. */
  ghost function Marked(visited: array2<bool>): (m: set<Pos>)
    reads visited
    ensures m <= AllCells(visited.Length0, visited.Length1)
    ensures forall p :: p in m <==> 0 <= p.x < visited.Length0 && 0 <= p.y < visited.Length1 && visited[p.x, p.y]
  {
    set i, j | 0 <= i < visited.Length0 && 0 <= j < visited.Length1 && visited[i, j] :: Pos(i, j)
  }

  /** Every same-coloured on-board neighbour of p lies in m. */
  ghost predicate NeighboursIn(b: Board, p: Pos, m: set<Pos>)
    requires InBoard(b, p)
  {
    forall q :: Adjacent(p, q) && InBoard(b, q) && At(b, q) == At(b, p) ==> q in m
  }

  /** Which of the four Directions leads from p to its neighbour q. */
  function StepIndex(p: Pos, q: Pos): int
  {
    if q.x == p.x + 1 then 0
    else if q.x == p.x - 1 then 1
    else if q.y == p.y + 1 then 2
    else 3
  }

  /**
   * The recursive search from (x, y); b is the grid's contents, which the
   * search only reads. It appends to `group` exactly the cells it marks in
   * `visited`: each was unmarked before and is reachable from (x, y) through
   * balls of its colour, none is appended twice, and every same-coloured
   * neighbour of such a cell ends up marked. An empty or already marked
   * start changes nothing.
   */
  method FindGroup(grid: array2<Cell>, ghost b: Board, x: int, y: int, visited: array2<bool>, group: seq<Pos>)
    returns (group': seq<Pos>)
    requires b == Cells(grid)
    requires 0 <= x < grid.Length0 && 0 <= y < grid.Length1
    requires visited.Length0 == grid.Length0 && visited.Length1 == grid.Length1
    modifies visited
    decreases AllCells(visited.Length0, visited.Length1) - Marked(visited), 0
    ensures |group| <= |group'| && group'[..|group|] == group
    ensures grid[x, y].Empty? || Pos(x, y) in old(Marked(visited)) ==> group' == group
    ensures grid[x, y].Occupied? && Pos(x, y) !in old(Marked(visited)) ==>
              |group| < |group'| && group'[|group|] == Pos(x, y)
    ensures Distinct(group'[|group|..])
    ensures Marked(visited) == old(Marked(visited)) + Elems(group'[|group|..])
    ensures forall p :: p in group'[|group|..] ==> p !in old(Marked(visited)) && Reachable(b, Pos(x, y), p)
    ensures forall p :: p in group'[|group|..] ==> InBoard(b, p) && NeighboursIn(b, p, Marked(visited))
  {
    var colour := grid[x, y];
    if colour.Empty? || visited[x, y] {
      return group;
    }
    ghost var s := Pos(x, y);
    visited[x, y] := true;
    assert Marked(visited) == old(Marked(visited)) + {s};
    group' := group + [Pos(x, y)];
    ghost var added := [s];
    ReachableFromItself(b, s);
    for d := 0 to |Directions|
      invariant |added| > 0 && added[0] == s && group' == group + added
      invariant Distinct(added)
      invariant Marked(visited) == old(Marked(visited)) + Elems(added)
      invariant forall p :: p in added ==> p !in old(Marked(visited)) && Reachable(b, s, p)
      invariant forall p :: p in added[1..] ==> InBoard(b, p) && NeighboursIn(b, p, Marked(visited))
      invariant forall q :: Adjacent(s, q) && InBoard(b, q) && StepIndex(s, q) < d && At(b, q) == At(b, s) ==>
                  q in Marked(visited)
    {
      ghost var before := Marked(visited);
      ghost var mid := group';
      assert s in before && s !in old(Marked(visited));
      group' := Visit(grid, b, x, y, d, visited, group');
      ghost var more := group'[|mid|..];
      Appended(group, added, group');
      Extended(old(Marked(visited)), before, Marked(visited), added, more);
      forall p | p in added[1..]
        ensures NeighboursIn(b, p, Marked(visited))
      {
        NeighboursInGrows(b, p, before, Marked(visited));
      }
      added := added + more;
    }
    assert group'[|group|..] == added;
  }

  /**
   * One pass of the search's loop over Directions from the ball at (x, y):
   * the neighbour d steps away is searched when it lies on the grid and
   * holds the same colour. Afterwards that neighbour is marked, and what
   * was appended obeys the search's contract with (x, y) as its origin.
   */
  method Visit(grid: array2<Cell>, ghost b: Board, x: int, y: int, d: int, visited: array2<bool>, group: seq<Pos>)
    returns (group': seq<Pos>)
    requires b == Cells(grid)
    requires 0 <= x < grid.Length0 && 0 <= y < grid.Length1 && 0 <= d < |Directions|
    requires visited.Length0 == grid.Length0 && visited.Length1 == grid.Length1
    requires grid[x, y].Occupied?
    modifies visited
    decreases AllCells(visited.Length0, visited.Length1) - Marked(visited), 1
    ensures |group| <= |group'| && group'[..|group|] == group
    ensures Distinct(group'[|group|..])
    ensures Marked(visited) == old(Marked(visited)) + Elems(group'[|group|..])
    ensures forall p :: p in group'[|group|..] ==> p !in old(Marked(visited)) && Reachable(b, Pos(x, y), p)
    ensures forall p :: p in group'[|group|..] ==> InBoard(b, p) && NeighboursIn(b, p, Marked(visited))
    ensures forall q ::
              Adjacent(Pos(x, y), q) && InBoard(b, q) && StepIndex(Pos(x, y), q) == d && At(b, q) == At(b, Pos(x, y))
              ==> q in Marked(visited)
  {
    var (dx, dy) := Directions[d];
    var nx, ny := x + dx, y + dy;
    if 0 <= nx < grid.Length0 && 0 <= ny < grid.Length1 && grid[nx, ny] == grid[x, y] {
      ghost var n := Pos(nx, ny);
      assert InBoard(b, n) && At(b, n) == At(b, Pos(x, y)) && Adjacent(Pos(x, y), n);
      group' := FindGroup(grid, b, nx, ny, visited, group);
      forall p | p in group'[|group|..]
        ensures Reachable(b, Pos(x, y), p)
      {
        ReachableStep(b, Pos(x, y), n, p);
      }
      assert n in Marked(visited);
    } else {
      group' := group;
      assert group'[|group|..] == [];
    }
  }

  /** Bookkeeping for the loop: g' extends g + a by what follows it. */
  lemma Appended(g: seq<Pos>, a: seq<Pos>, g': seq<Pos>)
    requires |a| > 0 && |g + a| <= |g'| && g'[..|g + a|] == g + a
    ensures g' == g + (a + g'[|g + a|..])
    ensures (a + g'[|g + a|..])[1..] == a[1..] + g'[|g + a|..]
  {
  }

  /** Bookkeeping for the loop: appending fresh marks keeps the marks and the list in step. */
  lemma Extended(m0: set<Pos>, before: set<Pos>, after: set<Pos>, added: seq<Pos>, more: seq<Pos>)
    requires Distinct(added) && Distinct(more)
    requires before == m0 + Elems(added) && after == before + Elems(more)
    requires forall p :: p in more ==> p !in before
    ensures Distinct(added + more) && after == m0 + Elems(added + more)
    ensures forall p :: p in more ==> p !in m0
  {
    forall i, j | 0 <= i < j < |added + more|
      ensures (added + more)[i] != (added + more)[j]
    {
      if i < |added| && j >= |added| {
        assert (added + more)[j] in more;
      }
    }
  }

  lemma NeighboursInGrows(b: Board, p: Pos, m: set<Pos>, m': set<Pos>)
    requires InBoard(b, p) && m <= m' && NeighboursIn(b, p, m)
    ensures NeighboursIn(b, p, m')
  {
  }

  /**
   * The click handler's use of the search: a fresh all-false `visited`
   * matrix and an empty group. The result lists every cell of the clicked
   * ball's group exactly once and nothing else.
   */
  method CollectGroup(grid: array2<Cell>, x: int, y: int) returns (group: seq<Pos>)
    requires 0 <= x < grid.Length0 && 0 <= y < grid.Length1
    ensures Distinct(group)
    ensures forall p :: p in group <==> p in Group(Cells(grid), Pos(x, y))
  {
    var visited := new bool[grid.Length0, grid.Length1]((i, j) => false);
    ghost var b := Cells(grid);
    ghost var s := Pos(x, y);
    assert Marked(visited) == {};
    group := FindGroup(grid, b, x, y, visited, []);
    assert group[0..] == group;
    ghost var S := Elems(group);
    assert S == Marked(visited);
    forall p | p in group
      ensures p in Group(b, s)
    {
      GroupMember(b, s, p);
    }
    assert Closed(b, S) by {
      forall p, q | p in S && Adjacent(p, q) && InBoard(b, q) && InBoard(b, p) && At(b, q) == At(b, p)
        ensures q in S
      {
        assert NeighboursIn(b, p, S);
      }
    }
    forall t | t in Group(b, s)
      ensures t in group
    {
      GroupMember(b, s, t);
      var path :| SameColourPath(b, At(b, s), path) && path[0] == s && path[|path| - 1] == t;
      ClosedContainsWalk(b, S, At(b, s), path);
    }
  }

  /** On a rectangular board of one colour every cell is reachable from every other. */
  lemma {:induction false} OneColourReachable(b: Board, h: int, c: Cell, s: Pos, t: Pos)
    requires c.Occupied?
    requires forall x :: 0 <= x < |b| ==> |b[x]| == h
    requires forall x, y :: 0 <= x < |b| && 0 <= y < h ==> b[x][y] == c
    requires InBoard(b, s) && InBoard(b, t)
    ensures Reachable(b, s, t)
    decreases (if s.x < t.x then t.x - s.x else s.x - t.x) + (if s.y < t.y then t.y - s.y else s.y - t.y)
  {
    if s == t {
      ReachableFromItself(b, s);
    } else {
      var n := if s.x < t.x then Pos(s.x + 1, s.y)
               else if s.x > t.x then Pos(s.x - 1, s.y)
               else if s.y < t.y then Pos(s.x, s.y + 1)
               else Pos(s.x, s.y - 1);
      OneColourReachable(b, h, c, n, t);
      ReachableStep(b, s, n, t);
    }
  }

  /** Clicking anywhere on a rectangular board of one colour selects the whole board. */
  lemma OneColourIsOneGroup(b: Board, h: int, c: Cell, s: Pos)
    requires c.Occupied?
    requires forall x :: 0 <= x < |b| ==> |b[x]| == h
    requires forall x, y :: 0 <= x < |b| && 0 <= y < h ==> b[x][y] == c
    requires InBoard(b, s)
    ensures Group(b, s) == AllCells(|b|, h)
  {
    forall t | t in AllCells(|b|, h)
      ensures t in Group(b, s)
    {
      OneColourReachable(b, h, c, s, t);
      GroupMember(b, s, t);
    }
    forall t | t in Group(b, s)
      ensures t in AllCells(|b|, h)
    {
      GroupSound(b, s, t);
    }
  }

  /** A list without repetitions has as many members as entries. */
  lemma {:induction false} DistinctCard(s: seq<Pos>)
    requires Distinct(s)
    ensures |Elems(s)| == |s|
  {
    if s != [] {
      var init := s[..|s| - 1];
      assert Distinct(init);
      DistinctCard(init);
      assert Elems(s) == Elems(init) + {s[|s| - 1]};
      assert s[|s| - 1] !in init;
    }
  }
}
