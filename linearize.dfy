/** Conversation linearisation (archive_tool.py lines 88-162): the active
    path from `current_node`, the latest-branch path from the root, their
    conversion into normalised messages, and the "longer wins, ties go to the
    active path" reconciliation. */
module Linearize {
  import opened Values
  import opened Messages
  import opened Graph
  import opened Subtree

  /** A conversation record: its mapping (empty when missing or falsy) and
      `current_node` (None when missing, null or not a string). */
  datatype Conversation = Conversation(mapping: Mapping, currentNode: Option<Id>)

  // ---------------------------------------------------------------------
  // The active path (collect_path_from_current_node)

  /** The parent walk halts at `p`: no parent, a parent that is not a node,
      or a parent already visited. */
  predicate WalkStops(m: Mapping, p: Option<Id>, walk: seq<Id>) {
    p.None? || !IsNode(m, p.value) || p.value in walk
  }

  /** A walk up parent links from `start` so far: a duplicate-free sequence
      of nodes starting at `start` in which each id is followed by its parent. */
  predicate WalkPrefix(m: Mapping, start: Id, walk: seq<Id>) {
    walk != [] ==>
      walk[0] == start && Distinct(walk) &&
      (forall i :: 0 <= i < |walk| ==> IsNode(m, walk[i])) &&
      (forall i :: 0 <= i < |walk| - 1 ==> m.nodes[walk[i]].parent == Some(walk[i + 1]))
  }

  /** The walk up parent links that `collect_path_from_current_node` performs
      before reversing: empty unless `current` is a node; otherwise a walk
      from `current` that ends where the next parent halts it. */
  predicate IsParentWalk(m: Mapping, current: Option<Id>, walk: seq<Id>) {
    if current.None? || !IsNode(m, current.value) then walk == []
    else
      walk != [] && WalkPrefix(m, current.value, walk) &&
      WalkStops(m, m.nodes[walk[|walk| - 1]].parent, walk)
  }

  /** The active path: the parent walk read root-first. */
  predicate IsActivePath(m: Mapping, current: Option<Id>, path: seq<Id>) {
    IsParentWalk(m, current, Reverse(path))
  }

  /** One more step up keeps the prefix property. */
  lemma WalkPrefixExtend(m: Mapping, start: Id, walk: seq<Id>, x: Id)
    requires WalkPrefix(m, start, walk)
    requires IsNode(m, x) && x !in walk
    requires walk == [] ==> x == start
    requires walk != [] ==> m.nodes[walk[|walk| - 1]].parent == Some(x)
    ensures WalkPrefix(m, start, walk + [x])
  {
    var w := walk + [x];
    assert forall i :: 0 <= i < |walk| ==> w[i] == walk[i];
    assert Distinct(w) by {
      forall i, j | 0 <= i < j < |w| ensures w[i] != w[j] {
        if j == |walk| {
          assert walk[i] in walk;
        }
      }
    }
  }

  /** Marking one more unseen id leaves fewer ids unseen: the walks below
      terminate. */
  lemma Shrinks(all: set<Id>, seen: set<Id>, x: Id)
    requires x in all && x !in seen
    ensures |all - (seen + {x})| < |all - seen|
  {
    var rest := all - (seen + {x});
    assert all - seen == rest + {x} && x !in rest;
  }

  /** The loop of `collect_path_from_current_node`, from a node `start`. */
  method WalkUp(m: Mapping, start: Id) returns (ids: seq<Id>)
    requires IsNode(m, start)
    ensures IsParentWalk(m, Some(start), ids)
  {
    var nodeId: Option<Id> := Some(start);
    ids := [];
    var seen: set<Id> := {};
    while nodeId.Some? && nodeId.value != "" && nodeId.value !in seen && nodeId.value in m.nodes
      invariant forall x :: x in seen <==> x in ids
      invariant seen <= m.nodes.Keys
      invariant WalkPrefix(m, start, ids)
      invariant ids == [] ==> nodeId == Some(start)
      invariant ids != [] ==> nodeId == m.nodes[ids[|ids| - 1]].parent
      decreases |m.nodes.Keys - seen|
    {
      var x := nodeId.value;
      Shrinks(m.nodes.Keys, seen, x);
      WalkPrefixExtend(m, start, ids, x);
      seen := seen + {x};
      ids := ids + [x];
      nodeId := m.nodes[x].parent;
    }
    assert nodeId.Some? && nodeId.value in seen ==> nodeId.value in ids;
  }

  /** `collect_path_from_current_node()`: walk parent pointers from
      `current_node`, halting on a revisited id, then reverse. */
  method ActivePath(m: Mapping, current: Option<Id>) returns (path: seq<Id>)
    ensures IsActivePath(m, current, path)
  {
    if current.None? || current.value == "" || current.value !in m.nodes {
      return [];
    }
    var ids := WalkUp(m, current.value);
    path := Reverse(ids);
    ReverseReverse(ids);
  }

  /** Two walks from the same id agree wherever both are defined, and the
      shorter one's last parent is the longer one's next id. */
  lemma {:induction false} WalkPrefixAgree(m: Mapping, start: Id, p: seq<Id>, q: seq<Id>, n: nat)
    requires WalkPrefix(m, start, p) && WalkPrefix(m, start, q)
    requires p != [] && q != [] && n <= |p| && n <= |q|
    ensures forall i :: 0 <= i < n ==> p[i] == q[i]
  {
    if n > 1 {
      WalkPrefixAgree(m, start, p, q, n - 1);
      assert p[n - 2] == q[n - 2];
    }
  }

  /** Where a walk is shorter than another from the same id, its last
      parent is a node that it has not visited. */
  lemma WalkGoesOn(m: Mapping, start: Id, p: seq<Id>, q: seq<Id>)
    requires WalkPrefix(m, start, p) && WalkPrefix(m, start, q)
    requires p != [] && |p| < |q|
    ensures !WalkStops(m, m.nodes[p[|p| - 1]].parent, p)
  {
    var n := |p|;
    WalkPrefixAgree(m, start, p, q, n);
    assert m.nodes[p[n - 1]].parent == Some(q[n]);
  }

  /** Two parent walks from the same `current_node` are equal. */
  lemma ParentWalkUnique(m: Mapping, current: Option<Id>, p: seq<Id>, q: seq<Id>)
    requires IsParentWalk(m, current, p) && IsParentWalk(m, current, q)
    ensures p == q
  {
    if p != [] {
      var start := current.value;
      if |p| < |q| {
        WalkGoesOn(m, start, p, q);
      } else if |q| < |p| {
        WalkGoesOn(m, start, q, p);
      } else {
        WalkPrefixAgree(m, start, p, q, |p|);
      }
    }
  }

  /** The active path is determined by the mapping and `current_node`: the
      predicate above leaves no freedom. */
  lemma ActivePathUnique(m: Mapping, current: Option<Id>, p: seq<Id>, q: seq<Id>)
    requires IsActivePath(m, current, p) && IsActivePath(m, current, q)
    ensures p == q
  {
    ParentWalkUnique(m, current, Reverse(p), Reverse(q));
    ReverseReverse(p);
    ReverseReverse(q);
  }

  // ---------------------------------------------------------------------
  // The root of the latest-branch path

  /** A key whose parent is missing or not a key of the mapping. */
  predicate IsRootCandidate(m: Mapping, id: Id) {
    var p := if id in m.nodes then m.nodes[id].parent else None;
    p.None? || p.value !in m.nodes
  }

  /** Index of the first root candidate at or after position `i` of the key
      order. */
  function FirstRootFrom(m: Mapping, i: nat): (r: Option<nat>)
    ensures r.Some? ==> i <= r.value < |m.order| && IsRootCandidate(m, m.order[r.value])
    ensures r.Some? ==> forall j :: i <= j < r.value ==> !IsRootCandidate(m, m.order[j])
    ensures r.None? ==> forall j :: i <= j < |m.order| ==> !IsRootCandidate(m, m.order[j])
    decreases |m.order| - i
  {
    if i >= |m.order| then None
    else if IsRootCandidate(m, m.order[i]) then Some(i)
    else FirstRootFrom(m, i + 1)
  }

  /** The root: the first key that is a root candidate, else the first key. */
  function RootOf(m: Mapping): Id
    requires |m.order| > 0
  {
    match FirstRootFrom(m, 0)
    case Some(k) => m.order[k]
    case None => m.order[0]
  }

  // ---------------------------------------------------------------------
  // Choosing the child to descend into

  /** The memoised subtree timestamp of a child, 0 when not memoised (the
      empty id is never memoised and scores 0, as `get_latest_subtree_timestamp`
      returns for it). */
  function Score(cache: map<Id, int>, c: Id): int {
    if c in cache then cache[c] else 0
  }

  /** Position of the child chosen among `cs` by the selection loop of
      `collect_latest_branch_path`: children absent from the mapping are
      skipped, and a later child replaces the choice only with a strictly
      greater score. */
  function PickIndex(m: Mapping, cache: map<Id, int>, cs: seq<Id>): (r: Option<nat>)
    ensures r.Some? ==> r.value < |cs| && cs[r.value] in m.nodes
    decreases |cs|
  {
    if cs == [] then None
    else
      var prev := PickIndex(m, cache, cs[..|cs| - 1]);
      var c := cs[|cs| - 1];
      if c !in m.nodes then prev
      else if prev.None? || Score(cache, c) > Score(cache, cs[prev.value]) then Some(|cs| - 1)
      else prev
  }

  /** The chosen child id, if any. */
  function Pick(m: Mapping, cache: map<Id, int>, cs: seq<Id>): (r: Option<Id>)
    ensures r.Some? ==> r.value in m.nodes && r.value in cs
  {
    match PickIndex(m, cache, cs)
    case Some(k) => Some(cs[k])
    case None => None
  }

  /** The selection is the earliest child in the mapping with the greatest
      score: nothing is chosen only when no child is in the mapping; the
      chosen child's score is at least every other candidate's and strictly
      above every earlier candidate's. */
  lemma {:induction false} PickIndexSpec(m: Mapping, cache: map<Id, int>, cs: seq<Id>)
    ensures PickIndex(m, cache, cs).None? <==> forall j :: 0 <= j < |cs| ==> cs[j] !in m.nodes
    ensures PickIndex(m, cache, cs).Some? ==>
              var k := PickIndex(m, cache, cs).value;
              (forall j :: 0 <= j < |cs| && cs[j] in m.nodes ==> Score(cache, cs[j]) <= Score(cache, cs[k])) &&
              (forall j :: 0 <= j < k && cs[j] in m.nodes ==> Score(cache, cs[j]) < Score(cache, cs[k]))
    decreases |cs|
  {
    if cs != [] {
      var init := cs[..|cs| - 1];
      PickIndexSpec(m, cache, init);
      assert forall j :: 0 <= j < |init| ==> init[j] == cs[j];
    }
  }

  /** The selection among one more child. */
  lemma PickIndexSnoc(m: Mapping, cache: map<Id, int>, cs: seq<Id>, i: nat)
    requires i < |cs|
    ensures var prev := PickIndex(m, cache, cs[..i]);
            PickIndex(m, cache, cs[..i + 1]) ==
              if cs[i] !in m.nodes then prev
              else if prev.None? || Score(cache, cs[i]) > Score(cache, cs[prev.value]) then Some(i)
              else prev
  {
    TakeSnoc(cs, i);
  }

  /** The selection depends only on the scores of the children in the mapping. */
  lemma {:induction false} PickIndexStable(m: Mapping, c1: map<Id, int>, c2: map<Id, int>, cs: seq<Id>)
    requires forall j :: 0 <= j < |cs| && cs[j] in m.nodes ==> Score(c1, cs[j]) == Score(c2, cs[j])
    ensures PickIndex(m, c1, cs) == PickIndex(m, c2, cs)
    decreases |cs|
  {
    if cs != [] {
      var init := cs[..|cs| - 1];
      assert forall j :: 0 <= j < |init| ==> init[j] == cs[j];
      PickIndexStable(m, c1, c2, init);
    }
  }

  /** Every truthy child of `id` that is a node has been memoised. */
  ghost predicate ChildrenScored(m: Mapping, cache: map<Id, int>, id: Id)
    requires id in m.nodes
  {
    forall k :: 0 <= k < |m.nodes[id].children| && IsNode(m, m.nodes[id].children[k]) ==>
      m.nodes[id].children[k] in cache
  }

  /** `get_latest_subtree_timestamp(c)` for one candidate child, with the
      scanner shared by the whole descent. */
  method ScoreChild(scan: SubtreeScan, c: Id) returns (ct: int)
    requires scan.Valid() && scan.stack == {}
    modifies scan
    ensures scan.Valid() && scan.stack == {}
    ensures forall x :: x in old(scan.cache) ==> x in scan.cache && scan.cache[x] == old(scan.cache)[x]
    ensures IsNode(scan.mapping, c) ==> c in scan.cache
    ensures ct == Score(scan.cache, c)
  {
    ghost var p;
    ct, p := scan.Latest(c);
  }

  /** The selection loop: computes each candidate's subtree timestamp with
      the shared scanner and keeps the earliest greatest. */
  method PickChild(scan: SubtreeScan, children: seq<Id>) returns (next: Option<Id>)
    requires scan.Valid() && scan.stack == {}
    modifies scan
    ensures scan.Valid() && scan.stack == {}
    ensures forall x :: x in old(scan.cache) ==> x in scan.cache && scan.cache[x] == old(scan.cache)[x]
    ensures forall k :: 0 <= k < |children| && IsNode(scan.mapping, children[k]) ==> children[k] in scan.cache
    ensures next == Pick(scan.mapping, scan.cache, children)
  {
    var m := scan.mapping;
    next := None;
    var best := -1;
    ghost var idx: Option<nat> := None;
    var i := 0;
    while i < |children|
      invariant 0 <= i <= |children|
      invariant scan.Valid() && scan.stack == {}
      invariant forall x :: x in old(scan.cache) ==> x in scan.cache && scan.cache[x] == old(scan.cache)[x]
      invariant Chosen(m, scan.cache, children, i, next, best, idx)
    {
      next, best, idx := Consider(scan, children, i, next, best, idx);
      i := i + 1;
    }
    assert children[..i] == children;
  }

  /** The state of the selection loop after the first `i` children: those
      that are nodes are memoised, and `next` is the child `PickIndex`
      chooses among them, with its score in `best`. */
  ghost predicate Chosen(m: Mapping, cache: map<Id, int>, children: seq<Id>, i: nat,
                         next: Option<Id>, best: int, idx: Option<nat>) {
    i <= |children| &&
    (forall k :: 0 <= k < i && IsNode(m, children[k]) ==> children[k] in cache) &&
    idx == PickIndex(m, cache, children[..i]) &&
    next == (if idx.None? then None else Some(children[idx.value])) &&
    (idx.Some? ==> idx.value < i && best == Score(cache, children[idx.value]))
  }

  /** One iteration of the selection loop: child `i` is scored, and replaces
      the choice when nothing is chosen yet or its score is strictly greater. */
  method Consider(scan: SubtreeScan, children: seq<Id>, i: nat, next: Option<Id>, best: int,
                  ghost idx: Option<nat>)
    returns (next': Option<Id>, best': int, ghost idx': Option<nat>)
    requires i < |children|
    requires scan.Valid() && scan.stack == {}
    requires Chosen(scan.mapping, scan.cache, children, i, next, best, idx)
    modifies scan
    ensures scan.Valid() && scan.stack == {}
    ensures forall x :: x in old(scan.cache) ==> x in scan.cache && scan.cache[x] == old(scan.cache)[x]
    ensures Chosen(scan.mapping, scan.cache, children, i + 1, next', best', idx')
  {
    var m := scan.mapping;
    next', best', idx' := next, best, idx;
    var c := children[i];
    ghost var before := scan.cache;
    if c in m.nodes {
      var ct := ScoreChild(scan, c);
      if next.None? || ct > best {
        next' := Some(c);
        best' := ct;
        idx' := Some(i);
      }
    }
    ChosenStep(m, before, scan.cache, children, i, next, best, idx, next', best', idx');
  }

  /** The same iteration on the memo tables before and after child `i` is
      scored: memo entries only accumulate, so the choice among the earlier
      children is unchanged. */
  lemma ChosenStep(m: Mapping, before: map<Id, int>, after: map<Id, int>, children: seq<Id>, i: nat,
                   next: Option<Id>, best: int, idx: Option<nat>,
                   next': Option<Id>, best': int, idx': Option<nat>)
    requires i < |children| && Chosen(m, before, children, i, next, best, idx)
    requires forall x :: x in before ==> x in after && after[x] == before[x]
    requires "" !in after
    requires IsNode(m, children[i]) ==> children[i] in after
    requires var c := children[i];
             if c in m.nodes && (next.None? || Score(after, c) > best)
             then next' == Some(c) && best' == Score(after, c) && idx' == Some(i)
             else next' == next && best' == best && idx' == idx
    ensures Chosen(m, after, children, i + 1, next', best', idx')
  {
    forall k | 0 <= k < i && children[k] in m.nodes
      ensures Score(before, children[k]) == Score(after, children[k])
    {
    }
    PickIndexStable(m, before, after, children[..i]);
    PickIndexSnoc(m, after, children, i);
    forall k | 0 <= k < i + 1 && IsNode(m, children[k]) ensures children[k] in after {
      if k < i {
        assert children[k] in before;
      }
    }
  }

  // ---------------------------------------------------------------------
  // The latest-branch path (collect_latest_branch_path)

  /** Why the descent stopped after `path`: its last node has no child in the
      mapping, or the chosen child is falsy or already on the path. */
  predicate BranchEnds(m: Mapping, cache: map<Id, int>, path: seq<Id>)
    requires path != [] && path[|path| - 1] in m.nodes
  {
    var next := Pick(m, cache, m.nodes[path[|path| - 1]].children);
    next.None? || !IsNode(m, next.value) || next.value in path
  }

  /** A descent from `root` so far: a duplicate-free sequence of nodes
      starting at `root` in which each next id is the child `Pick` chooses. */
  predicate Descent(m: Mapping, cache: map<Id, int>, root: Id, path: seq<Id>) {
    path != [] ==>
      path[0] == root && Distinct(path) &&
      (forall i :: 0 <= i < |path| ==> IsNode(m, path[i])) &&
      (forall i :: 0 <= i < |path| - 1 ==> Pick(m, cache, m.nodes[path[i]].children) == Some(path[i + 1]))
  }

  /** What the latest-branch path is, given the memoised subtree timestamps:
      empty when there is no root node; otherwise a descent from the root
      that ends where the choice halts it. */
  predicate IsLatestBranch(m: Mapping, cache: map<Id, int>, path: seq<Id>) {
    if |m.order| == 0 || !IsNode(m, RootOf(m)) then path == []
    else path != [] && Descent(m, cache, RootOf(m), path) && BranchEnds(m, cache, path)
  }

  /** The part of `IsLatestBranch` that a path under construction meets: a
      descent whose nodes have all their candidate children memoised. */
  ghost predicate BranchPrefix(m: Mapping, cache: map<Id, int>, root: Id, path: seq<Id>) {
    Descent(m, cache, root, path) &&
    (forall i :: 0 <= i < |path| ==> IsNode(m, path[i]) && ChildrenScored(m, cache, path[i]))
  }

  /** Memoising more subtree timestamps does not change the choices made along
      a path whose candidate children were already memoised. */
  lemma BranchPrefixStable(m: Mapping, c1: map<Id, int>, c2: map<Id, int>, root: Id, path: seq<Id>)
    requires BranchPrefix(m, c1, root, path)
    requires "" !in c1 && "" !in c2
    requires forall x :: x in c1 ==> x in c2 && c2[x] == c1[x]
    ensures BranchPrefix(m, c2, root, path)
    ensures path != [] ==>
              Pick(m, c2, m.nodes[path[|path| - 1]].children) == Pick(m, c1, m.nodes[path[|path| - 1]].children)
  {
    forall i | 0 <= i < |path|
      ensures ChildrenScored(m, c2, path[i])
      ensures Pick(m, c2, m.nodes[path[i]].children) == Pick(m, c1, m.nodes[path[i]].children)
    {
      var cs := m.nodes[path[i]].children;
      assert ChildrenScored(m, c1, path[i]);
      forall j | 0 <= j < |cs| && cs[j] in m.nodes
        ensures Score(c1, cs[j]) == Score(c2, cs[j])
      {
      }
      PickIndexStable(m, c1, c2, cs);
    }
  }

  /** One more step of the descent keeps the prefix property. */
  lemma BranchPrefixExtend(m: Mapping, cache: map<Id, int>, root: Id, path: seq<Id>, x: Id)
    requires BranchPrefix(m, cache, root, path)
    requires IsNode(m, x) && x !in path && ChildrenScored(m, cache, x)
    requires path == [] ==> x == root
    requires path != [] ==> Pick(m, cache, m.nodes[path[|path| - 1]].children) == Some(x)
    ensures BranchPrefix(m, cache, root, path + [x])
  {
    var p := path + [x];
    assert forall i :: 0 <= i < |path| ==> p[i] == path[i];
    assert Distinct(p) by {
      forall i, j | 0 <= i < j < |p| ensures p[i] != p[j] {
        if j == |path| {
          assert path[i] in path;
        }
      }
    }
  }

  /** The root search of `collect_latest_branch_path`: the first key whose
      parent is missing or not a key, else the first key. */
  method FindRoot(m: Mapping) returns (root: Id)
    requires |m.order| > 0
    ensures root == RootOf(m)
  {
    var k := 0;
    while k < |m.order| && !IsRootCandidate(m, m.order[k])
      invariant 0 <= k <= |m.order|
      invariant FirstRootFrom(m, k) == FirstRootFrom(m, 0)
    {
      k := k + 1;
    }
    root := if k < |m.order| then m.order[k] else m.order[0];
  }

  /** The descent loop of `collect_latest_branch_path` from `root`, sharing
      the scanner's memo table across all choices. */
  method Descend(sc: SubtreeScan, root: Id) returns (path: seq<Id>)
    requires sc.Valid() && sc.stack == {}
    modifies sc
    ensures sc.Valid() && sc.stack == {}
    ensures BranchPrefix(sc.mapping, sc.cache, root, path)
    ensures !IsNode(sc.mapping, root) ==> path == []
    ensures IsNode(sc.mapping, root) ==> path != [] && BranchEnds(sc.mapping, sc.cache, path)
  {
    var m := sc.mapping;
    var nodeId := root;
    var visited: set<Id> := {};
    path := [];
    while nodeId != "" && nodeId !in visited && nodeId in m.nodes
      invariant sc.Valid() && sc.stack == {}
      invariant Descending(m, sc.cache, root, visited, path, nodeId)
      decreases |m.nodes.Keys - visited|
    {
      Shrinks(m.nodes.Keys, visited, nodeId);
      var next;
      path, next := Visit(sc, root, path, nodeId);
      visited := visited + {nodeId};
      if next.None? || next.value == "" {
        return;
      }
      nodeId := next.value;
    }
  }

  /** The state of the descent loop: `visited` holds exactly the nodes on
      the path so far, and `nodeId` is the child the last of them picks. */
  ghost predicate Descending(m: Mapping, cache: map<Id, int>, root: Id, visited: set<Id>, path: seq<Id>, nodeId: Id)
  {
    (forall x :: x in visited <==> x in path)
    && visited <= m.nodes.Keys
    && BranchPrefix(m, cache, root, path)
    && (path == [] ==> nodeId == root)
    && (path != [] ==> Pick(m, cache, m.nodes[path[|path| - 1]].children) == Some(nodeId))
  }

  /** One step of the descent: `node_id` joins the path and the next child
      is chosen (none when it has no children). */
  method Visit(sc: SubtreeScan, root: Id, path: seq<Id>, nodeId: Id)
    returns (path': seq<Id>, next: Option<Id>)
    requires sc.Valid() && sc.stack == {}
    requires BranchPrefix(sc.mapping, sc.cache, root, path)
    requires IsNode(sc.mapping, nodeId) && nodeId !in path
    requires path == [] ==> nodeId == root
    requires path != [] ==> Pick(sc.mapping, sc.cache, sc.mapping.nodes[path[|path| - 1]].children) == Some(nodeId)
    modifies sc
    ensures sc.Valid() && sc.stack == {}
    ensures path' == path + [nodeId]
    ensures BranchPrefix(sc.mapping, sc.cache, root, path')
    ensures next == Pick(sc.mapping, sc.cache, sc.mapping.nodes[nodeId].children)
  {
    var m := sc.mapping;
    path' := path + [nodeId];
    var children := m.nodes[nodeId].children;
    if children == [] {
      BranchPrefixExtend(m, sc.cache, root, path, nodeId);
      assert PickIndex(m, sc.cache, children) == None;
      return path', None;
    }
    ghost var before := sc.cache;
    next := PickChild(sc, children);
    BranchPrefixStable(m, before, sc.cache, root, path);
    assert ChildrenScored(m, sc.cache, nodeId);
    BranchPrefixExtend(m, sc.cache, root, path, nodeId);
  }

  /** `collect_latest_branch_path()`. The scanner it creates is returned as a
      ghost so that callers can read the memoised values the choice used. On
      a mapping whose children links have no cycle those values are the
      subtree maxima, and the path is the latest branch for them. */
  method LatestBranchPath(m: Mapping) returns (path: seq<Id>, ghost scan: SubtreeScan)
    requires WellFormed(m)
    ensures scan.Valid() && scan.mapping == m && scan.stamp == NodeTs && scan.stack == {}
    ensures IsLatestBranch(m, scan.cache, path)
    ensures forall rank :: Ranked(m, rank) ==> IsLatestBranch(m, SubtreeMaxima(m, NodeTs, rank), path)
  {
    ghost var rank: Id -> nat := if Acyclic(m) then SomeRank(m) else (x: Id) => 0;
    var sc := new SubtreeScan(m, NodeTs, rank);
    scan := sc;
    if |m.order| == 0 {
      path := [];
    } else {
      var root := FindRoot(m);
      path := Descend(sc, root);
      forall r | Ranked(m, r)
        ensures IsLatestBranch(m, SubtreeMaxima(m, NodeTs, r), path)
      {
        IdealBranch(m, sc.cache, r, path);
      }
    }
  }

  /** On a ranked mapping an exact memo table scores every child the
      descent compared by its subtree maximum, so the descent is also the
      latest branch for the subtree maxima. */
  lemma IdealBranch(m: Mapping, cache: map<Id, int>, rank: Id -> nat, path: seq<Id>)
    requires Exact(m, NodeTs, cache) && Ranked(m, rank) && "" !in cache
    requires |m.order| > 0 && IsLatestBranch(m, cache, path)
    requires BranchPrefix(m, cache, RootOf(m), path)
    ensures IsLatestBranch(m, SubtreeMaxima(m, NodeTs, rank), path)
  {
    var ideal := SubtreeMaxima(m, NodeTs, rank);
    forall i | 0 <= i < |path|
      ensures Pick(m, ideal, m.nodes[path[i]].children) == Pick(m, cache, m.nodes[path[i]].children)
    {
      var cs := m.nodes[path[i]].children;
      assert ChildrenScored(m, cache, path[i]);
      forall j | 0 <= j < |cs| && cs[j] in m.nodes
        ensures Score(cache, cs[j]) == Score(ideal, cs[j])
      {
        if cs[j] != "" {
          ExactIsMax(m, NodeTs, cache, rank, cs[j]);
        }
      }
      PickIndexStable(m, cache, ideal, cs);
    }
  }

  /** Two descents from the same root agree wherever both are defined. */
  lemma {:induction false} DescentAgree(m: Mapping, cache: map<Id, int>, root: Id, p: seq<Id>, q: seq<Id>, n: nat)
    requires Descent(m, cache, root, p) && Descent(m, cache, root, q)
    requires p != [] && q != [] && n <= |p| && n <= |q|
    ensures forall i :: 0 <= i < n ==> p[i] == q[i]
  {
    if n > 1 {
      DescentAgree(m, cache, root, p, q, n - 1);
      assert p[n - 2] == q[n - 2];
    }
  }

  /** Where a descent is shorter than another, its last choice is a node it
      has not visited: the descent does not halt there. */
  lemma DescentGoesOn(m: Mapping, cache: map<Id, int>, root: Id, p: seq<Id>, q: seq<Id>)
    requires Descent(m, cache, root, p) && Descent(m, cache, root, q)
    requires p != [] && |p| < |q|
    ensures !BranchEnds(m, cache, p)
  {
    var n := |p|;
    DescentAgree(m, cache, root, p, q, n);
    assert Pick(m, cache, m.nodes[p[n - 1]].children) == Some(q[n]);
  }

  /** The latest-branch path is determined by the mapping and the memoised
      values. */
  lemma LatestBranchUnique(m: Mapping, cache: map<Id, int>, p: seq<Id>, q: seq<Id>)
    requires IsLatestBranch(m, cache, p) && IsLatestBranch(m, cache, q)
    ensures p == q
  {
    if p != [] {
      var root := RootOf(m);
      if |p| < |q| {
        DescentGoesOn(m, cache, root, p, q);
      } else if |q| < |p| {
        DescentGoesOn(m, cache, root, q, p);
      } else {
        DescentAgree(m, cache, root, p, q, |p|);
      }
    }
  }

  // ---------------------------------------------------------------------
  // Messages along a path and the reconciliation

  /** What `path_to_messages` keeps of one node: its normalised message
      when the node has a truthy message whose content is non-empty. */
  function Kept(m: Mapping, pid: Id): (r: seq<Message>)
    ensures |r| <= 1
    ensures forall k :: 0 <= k < |r| ==> r[k].content != []
  {
    var msg := if pid in m.nodes then m.nodes[pid].message else map[];
    if |msg| == 0 then []
    else
      var nm := NormalizeMessage(msg);
      if nm.content != [] then [nm] else []
  }

  /** The messages `path_to_messages` keeps, in path order. */
  function MessagesOf(m: Mapping, path: seq<Id>): (r: seq<Message>)
    ensures |r| <= |path|
    ensures forall k :: 0 <= k < |r| ==> r[k].content != []
  {
    var keep := (id: Id) => Kept(m, id);
    CollectBounds(path, keep);
    Collect(path, keep)
  }

  /** `f(id)` for every id of `path`, joined in path order. */
  function Collect(path: seq<Id>, f: Id -> seq<Message>): seq<Message> {
    if path == [] then [] else Collect(path[..|path| - 1], f) + f(path[|path| - 1])
  }

  /** Collecting at most one message with content per id gives at most one
      message per id, all with content. */
  lemma {:induction false} CollectBounds(path: seq<Id>, f: Id -> seq<Message>)
    requires forall id :: |f(id)| <= 1 && forall k :: 0 <= k < |f(id)| ==> f(id)[k].content != []
    ensures |Collect(path, f)| <= |path|
    ensures forall k :: 0 <= k < |Collect(path, f)| ==> Collect(path, f)[k].content != []
  {
    if path != [] {
      var init, x := path[..|path| - 1], path[|path| - 1];
      CollectBounds(init, f);
      var a, b := Collect(init, f), f(x);
      assert forall k :: |a| <= k < |a + b| ==> (a + b)[k] == b[k - |a|];
    }
  }

  lemma {:induction false} CollectAppend(p: seq<Id>, q: seq<Id>, f: Id -> seq<Message>)
    ensures Collect(p + q, f) == Collect(p, f) + Collect(q, f)
    decreases |q|
  {
    if q == [] {
      assert p + q == p;
    } else {
      var init := q[..|q| - 1];
      CollectAppend(p, init, f);
      assert (p + q)[..|p + q| - 1] == p + init;
    }
  }

  /** The messages of a joined path are those of its parts, joined. */
  lemma MessagesOfAppend(m: Mapping, p: seq<Id>, q: seq<Id>)
    ensures MessagesOf(m, p + q) == MessagesOf(m, p) + MessagesOf(m, q)
  {
    CollectAppend(p, q, (id: Id) => Kept(m, id));
  }

  lemma MessagesOfStep(m: Mapping, path: seq<Id>, i: nat)
    requires i < |path|
    ensures MessagesOf(m, path[..i + 1]) == MessagesOf(m, path[..i]) + Kept(m, path[i])
  {
    assert path[..i + 1][..i] == path[..i];
  }

  /** The body of the loop of `path_to_messages` for one id. */
  method KeepNode(m: Mapping, pid: Id) returns (kept: seq<Message>)
    ensures kept == Kept(m, pid)
  {
    var msg := if pid in m.nodes then m.nodes[pid].message else map[];
    if |msg| == 0 {
      return [];
    }
    var nm := NormalizeMessage(msg);
    kept := if nm.content != [] then [nm] else [];
  }

  /** `path_to_messages(path_ids)`. */
  method PathToMessages(m: Mapping, path: seq<Id>) returns (out: seq<Message>)
    ensures out == MessagesOf(m, path)
  {
    out := [];
    var i := 0;
    while i < |path|
      invariant 0 <= i <= |path|
      invariant out == MessagesOf(m, path[..i])
    {
      MessagesOfStep(m, path, i);
      var kept := KeepNode(m, path[i]);
      out := out + kept;
      i := i + 1;
    }
    assert path[..i] == path;
  }

  /** The reconciliation: an empty primary yields the fallback; otherwise the
      primary wins unless it is strictly shorter. */
  function Reconcile(primary: seq<Message>, fallback: seq<Message>): (r: seq<Message>)
    ensures r == primary || r == fallback
    ensures primary != [] ==> |r| >= |primary| && |r| >= |fallback|
    ensures primary != [] && |primary| >= |fallback| ==> r == primary
    ensures primary == [] ==> r == fallback
  {
    if primary == [] then fallback
    else if |primary| < |fallback| then fallback
    else primary
  }

  /** `linearize_conversation(conv)`. */
  method LinearizeConversation(conv: Conversation)
    returns (msgs: seq<Message>, ghost active: seq<Id>, ghost branch: seq<Id>, ghost scan: SubtreeScan?)
    requires WellFormed(conv.mapping)
    ensures |conv.mapping.nodes| == 0 ==> msgs == []
    ensures |conv.mapping.nodes| != 0 ==>
              scan != null && scan.Valid() && scan.mapping == conv.mapping && scan.stamp == NodeTs &&
              IsActivePath(conv.mapping, conv.currentNode, active) &&
              IsLatestBranch(conv.mapping, scan.cache, branch) &&
              (forall rank :: Ranked(conv.mapping, rank) ==>
                 IsLatestBranch(conv.mapping, SubtreeMaxima(conv.mapping, NodeTs, rank), branch)) &&
              msgs == Reconcile(MessagesOf(conv.mapping, active), MessagesOf(conv.mapping, branch))
    ensures forall k :: 0 <= k < |msgs| ==> msgs[k].content != []
  {
    var m := conv.mapping;
    if |m.nodes| == 0 {
      return [], [], [], null;
    }
    var activeIds := ActivePath(m, conv.currentNode);
    active := activeIds;
    var primary := PathToMessages(m, activeIds);
    var branchIds;
    branchIds, scan := LatestBranchPath(m);
    branch := branchIds;
    var fallback := PathToMessages(m, branchIds);
    msgs := Reconcile(primary, fallback);
  }
}
