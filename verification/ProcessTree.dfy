/**
The benchmark's process-tree sample: a worklist over whatever parent relation `ps` reported, which may be
cyclic, finds exactly the processes reachable from the root and adds up their memory.
*/
module ProcessTree {
  import opened IntSets

  /** One line of the snapshot: pid, parent pid, resident KiB; lines of any other shape are skipped. */
  type Line = seq<int>

  ghost predicate Edge(lines: seq<Line>, parent: int, child: int) {
    exists i :: 0 <= i < |lines| && |lines[i]| == 3 && lines[i][1] == parent && lines[i][0] == child
  }

  ghost predicate Path(lines: seq<Line>, p: seq<int>, from: int, to: int) {
    p != [] && p[0] == from && p[|p| - 1] == to && forall i | 0 <= i < |p| - 1 :: Edge(lines, p[i], p[i + 1])
  }

  ghost predicate Reachable(lines: seq<Line>, from: int, to: int) { exists p :: Path(lines, p, from, to) }

  lemma ReachesItself(lines: seq<Line>, root: int)
    ensures Reachable(lines, root, root)
  {
    assert Path(lines, [root], root, root);
  }

  lemma ReachesFurther(lines: seq<Line>, root: int, a: int, b: int)
    requires Reachable(lines, root, a) && Edge(lines, a, b)
    ensures Reachable(lines, root, b)
  {
    var p :| Path(lines, p, root, a);
    var q := p + [b];
    forall i | 0 <= i < |q| - 1 ensures Edge(lines, q[i], q[i + 1]) {
      assert i < |p| - 1 ==> Edge(lines, p[i], p[i + 1]);
    }
    assert Path(lines, q, root, b);
  }

  ghost predicate Closed(lines: seq<Line>, s: set<int>) { forall a, b | a in s && Edge(lines, a, b) :: b in s }

  /** A closed set that holds the root holds everything reachable from it. */
  lemma {:induction false} ClosedHoldsPath(lines: seq<Line>, s: set<int>, p: seq<int>, from: int, to: int)
    requires Closed(lines, s) && from in s && Path(lines, p, from, to)
    ensures to in s
    decreases |p|
  {
    if |p| > 1 {
      assert Edge(lines, p[0], p[1]);
      var rest := p[1..];
      forall i | 0 <= i < |rest| - 1 ensures Edge(lines, rest[i], rest[i + 1]) {
        assert Edge(lines, p[i + 1], p[i + 2]);
      }
      ClosedHoldsPath(lines, s, rest, p[1], to);
    }
  }

  lemma ClosedHoldsReachable(lines: seq<Line>, s: set<int>, root: int)
    requires Closed(lines, s) && root in s
    ensures forall q | Reachable(lines, root, q) :: q in s
  {
    forall q | Reachable(lines, root, q) ensures q in s {
      var p :| Path(lines, p, root, q);
      ClosedHoldsPath(lines, s, p, root, q);
    }
  }

  /******* Reading the snapshot *******/

  /** A process's resident KiB: its last line's, or nothing when it has none. */
  ghost function Resident(lines: seq<Line>, pid: int): int {
    if lines == [] then 0 else
      var l := lines[|lines| - 1];
      if |l| == 3 && l[0] == pid then l[2] else Resident(lines[..|lines| - 1], pid)
  }

  ghost predicate ChildrenOf(lines: seq<Line>, children: map<int, seq<int>>) {
    forall a, b :: Edge(lines, a, b) <==> a in children && b in children[a]
  }

  lemma EdgeStep(lines: seq<Line>, l: Line, a: int, b: int)
    ensures Edge(lines + [l], a, b) <==> Edge(lines, a, b) || (|l| == 3 && l[1] == a && l[0] == b)
  {
    var more := lines + [l];
    if Edge(lines, a, b) {
      var i :| 0 <= i < |lines| && |lines[i]| == 3 && lines[i][1] == a && lines[i][0] == b;
      assert more[i] == lines[i];
    }
    if |l| == 3 && l[1] == a && l[0] == b {
      assert more[|lines|] == l;
    }
  }

  function WithChild(children: map<int, seq<int>>, l: Line): map<int, seq<int>> {
    if |l| != 3 then children else children[l[1] := (if l[1] in children then children[l[1]] else []) + [l[0]]]
  }

  lemma ChildrenStep(lines: seq<Line>, l: Line, children: map<int, seq<int>>)
    requires ChildrenOf(lines, children)
    ensures ChildrenOf(lines + [l], WithChild(children, l))
  {
    var next := WithChild(children, l);
    forall a, b ensures Edge(lines + [l], a, b) <==> a in next && b in next[a] {
      EdgeStep(lines, l, a, b);
      if |l| == 3 && a == l[1] {
        assert next[a] == (if a in children then children[a] else []) + [l[0]];
        assert l[0] in next[a];
      }
    }
  }

  method ReadSnapshot(lines: seq<Line>) returns (children: map<int, seq<int>>, rss: map<int, int>)
    ensures ChildrenOf(lines, children)
    ensures forall pid :: Resident(lines, pid) == if pid in rss then rss[pid] else 0
  {
    children, rss := map[], map[];
    for i := 0 to |lines|
      invariant ChildrenOf(lines[..i], children)
      invariant forall pid :: Resident(lines[..i], pid) == if pid in rss then rss[pid] else 0
    {
      var line := lines[i];
      assert lines[..i + 1] == lines[..i] + [line] && lines[..i + 1][..i] == lines[..i];
      ChildrenStep(lines[..i], line, children);
      if |line| != 3 {
        continue;
      }
      var pid, ppid, kib := line[0], line[1], line[2];
      children := children[ppid := (if ppid in children then children[ppid] else []) + [pid]];
      rss := rss[pid := kib];
    }
    assert lines[..|lines|] == lines;
  }

  /******* The worklist *******/

  ghost function Everyone(lines: seq<Line>, root: int): set<int> {
    {root} + set i | 0 <= i < |lines| && |lines[i]| == 3 :: lines[i][0]
  }

  /** What the loop keeps: only reachable processes, and every child of a visited one visited or pending. */
  ghost predicate Exploring(lines: seq<Line>, root: int, tree: set<int>, pending: seq<int>) {
    && (root in tree || root in pending)
    && (forall q | q in tree || q in pending :: Reachable(lines, root, q) && q in Everyone(lines, root))
    && forall a, b | a in tree && Edge(lines, a, b) :: b in tree || b in pending
  }

  lemma Visit(lines: seq<Line>, root: int, tree: set<int>, pending: seq<int>, pid: int, below: seq<int>)
    requires Exploring(lines, root, tree, pending + [pid])
    requires forall b :: Edge(lines, pid, b) <==> b in below
    ensures Exploring(lines, root, tree + {pid}, pending + below)
  {
    var next, was := pending + below, pending + [pid];
    assert pid in was;
    forall q | q in tree + {pid} || q in next ensures Reachable(lines, root, q) && q in Everyone(lines, root) {
      if q in below {
        ReachesFurther(lines, root, pid, q);
        var i :| 0 <= i < |lines| && |lines[i]| == 3 && lines[i][1] == pid && lines[i][0] == q;
      } else {
        assert q in tree || q in was;
      }
    }
    forall a, b | a in tree + {pid} && Edge(lines, a, b) ensures b in tree + {pid} || b in next {
      if a == pid {
        assert b in below;
      } else {
        assert b in tree || b in was;
      }
    }
  }

  lemma Revisit(lines: seq<Line>, root: int, tree: set<int>, pending: seq<int>, pid: int)
    requires Exploring(lines, root, tree, pending + [pid]) && pid in tree
    ensures Exploring(lines, root, tree, pending)
  {
    var was := pending + [pid];
    forall q | q in tree || q in pending ensures Reachable(lines, root, q) && q in Everyone(lines, root) {
      assert q in tree || q in was;
    }
    forall a, b | a in tree && Edge(lines, a, b) ensures b in tree || b in pending {
      assert b in tree || b in was;
    }
  }

  /** The loop ends on any relation, cycles included, having visited exactly the reachable processes. */
  method Explore(lines: seq<Line>, children: map<int, seq<int>>, root: int) returns (tree: set<int>)
    requires ChildrenOf(lines, children)
    ensures forall q :: q in tree <==> Reachable(lines, root, q)
  {
    var pending := [root];
    tree := {};
    ReachesItself(lines, root);
    while pending != []
      invariant Exploring(lines, root, tree, pending)
      decreases Everyone(lines, root) - tree, |pending|
    {
      var pid := pending[|pending| - 1];
      ghost var was := pending;
      pending := pending[..|pending| - 1];
      assert was == pending + [pid] && pid in was;
      if pid in tree {
        Revisit(lines, root, tree, pending, pid);
        continue;
      }
      var below := if pid in children then children[pid] else [];
      Visit(lines, root, tree, pending, pid, below);
      assert pid in Everyone(lines, root) - tree;
      tree := tree + {pid};
      pending := pending + below;
    }
    assert Closed(lines, tree);
    ClosedHoldsReachable(lines, tree, root);
  }

  /******* The sample *******/

  ghost function Total(lines: seq<Line>, s: set<int>): int {
    if s == {} then 0 else
      HasLeast(s);
      var x :| x in s && forall e | e in s :: x <= e;
      Resident(lines, x) + Total(lines, s - {x})
  }

  /** The total does not depend on the order of adding up. */
  lemma {:induction false} TotalWithout(lines: seq<Line>, s: set<int>, y: int)
    requires y in s
    ensures Total(lines, s) == Resident(lines, y) + Total(lines, s - {y})
    decreases s
  {
    HasLeast(s);
    var x :| x in s && forall e | e in s :: x <= e;
    if x != y {
      TotalWithout(lines, s - {x}, y);
      TotalWithout(lines, s - {y}, x);
      assert s - {x} - {y} == s - {y} - {x};
    }
  }

  /** The processes reachable from the root. */
  ghost predicate IsTree(lines: seq<Line>, root: int, tree: set<int>) {
    forall q :: q in tree <==> Reachable(lines, root, q)
  }

  lemma OneTree(lines: seq<Line>, root: int, a: set<int>, b: set<int>)
    requires IsTree(lines, root, a) && IsTree(lines, root, b)
    ensures a == b
  {
    assert forall q :: q in a <==> q in b;
  }

  method SumTree(lines: seq<Line>, rss: map<int, int>, tree: set<int>) returns (kib: int)
    requires forall pid :: Resident(lines, pid) == if pid in rss then rss[pid] else 0
    ensures kib == Total(lines, tree)
  {
    var todo := tree;
    kib := 0;
    while todo != {}
      invariant todo <= tree && kib + Total(lines, todo) == Total(lines, tree)
      decreases todo
    {
      Inhabited(todo);
      var pid :| pid in todo;
      TotalWithout(lines, todo, pid);
      kib := kib + if pid in rss then rss[pid] else 0;
      todo := todo - {pid};
    }
  }

  /** Resident bytes of the root and its descendants, and how many descendants there are. */
  method ProcessTreeSample(lines: seq<Line>, root: int) returns (bytes: int, descendants: int)
    ensures exists tree :: IsTree(lines, root, tree)
    ensures forall tree | IsTree(lines, root, tree) :: bytes == Total(lines, tree) * 1024 && descendants == |tree| - 1
    ensures descendants >= 0
  {
    var children, rss := ReadSnapshot(lines);
    var tree := Explore(lines, children, root);
    var kib := SumTree(lines, rss, tree);
    bytes := kib * 1024;
    ReachesItself(lines, root);
    assert root in tree;
    descendants := if |tree| - 1 > 0 then |tree| - 1 else 0;
    assert IsTree(lines, root, tree);
    forall other | IsTree(lines, root, other) ensures other == tree {
      OneTree(lines, root, other, tree);
    }
  }
}
