/** `get_latest_subtree_timestamp` (archive_tool.py lines 69-85): the latest
    message timestamp below a node, memoised in `cache`, with the ids being
    computed kept in `stack` so that a cycle stops at the node's own
    timestamp instead of recursing forever. The dictionary and the set that
    the source threads through the recursion are the fields of a scanner
    object; `get_node_message_timestamp` is the scanner's `stamp`, which the
    linearizer sets to `Graph.NodeTs`. */
module Subtree {
  import opened Values
  import opened Graph

  // ---------------------------------------------------------------------
  // The value one call computes, given the memo table

  /** What child `c` contributes to its parent's value: its memoised value;
      otherwise its own timestamp (the result for a node in progress, the
      only uncached node a finished loop leaves behind); 0 for an id that is
      not a node. */
  function Worth(m: Mapping, stamp: Node -> int, cache: map<Id, int>, c: Id): int {
    if c in cache then cache[c] else if IsNode(m, c) then stamp(m.nodes[c]) else 0
  }

  /** The children loop's result: the greatest of `own` and the worths of the
      children `cs`; it bounds them all and is one of them. */
  function Best(m: Mapping, stamp: Node -> int, cache: map<Id, int>, own: int, cs: seq<Id>): (r: int)
    ensures r >= own && forall k :: 0 <= k < |cs| ==> r >= Worth(m, stamp, cache, cs[k])
    ensures r == own || exists k :: 0 <= k < |cs| && r == Worth(m, stamp, cache, cs[k])
    decreases |cs|
  {
    if cs == [] then own
    else
      var init := cs[..|cs| - 1];
      var b := Best(m, stamp, cache, own, init);
      var w := Worth(m, stamp, cache, cs[|cs| - 1]);
      assert forall k :: 0 <= k < |init| ==> init[k] == cs[k];
      if w > b then w else b
  }

  /** The loop's result depends only on the worths of the children. */
  lemma {:induction false} BestStable(m: Mapping, stamp: Node -> int, c1: map<Id, int>, c2: map<Id, int>,
                                      own: int, cs: seq<Id>)
    requires forall k :: 0 <= k < |cs| ==> Worth(m, stamp, c1, cs[k]) == Worth(m, stamp, c2, cs[k])
    ensures Best(m, stamp, c1, own, cs) == Best(m, stamp, c2, own, cs)
    decreases |cs|
  {
    if cs != [] {
      var init := cs[..|cs| - 1];
      assert forall k :: 0 <= k < |init| ==> init[k] == cs[k];
      BestStable(m, stamp, c1, c2, own, init);
    }
  }

  /** One more iteration of the loop, across a change of the memo table that
      keeps the worths of the children already seen. */
  lemma BestStep(m: Mapping, stamp: Node -> int, c1: map<Id, int>, c2: map<Id, int>,
                 own: int, cs: seq<Id>, i: nat)
    requires i < |cs|
    requires forall k :: 0 <= k < i ==> Worth(m, stamp, c1, cs[k]) == Worth(m, stamp, c2, cs[k])
    ensures var b := Best(m, stamp, c1, own, cs[..i]);
            var w := Worth(m, stamp, c2, cs[i]);
            Best(m, stamp, c2, own, cs[..i + 1]) == if w > b then w else b
  {
    BestStable(m, stamp, c1, c2, own, cs[..i]);
    TakeSnoc(cs, i);
  }

  // ---------------------------------------------------------------------
  // The subtree maximum on a mapping without cycles

  /** `rank` strictly decreases from every node to each of its children that
      is a node: the children links of the mapping have no cycle. */
  ghost predicate Ranked(m: Mapping, rank: Id -> nat) {
    forall x, c {:trigger rank(c), rank(x)} ::
      IsNode(m, x) && c in m.nodes[x].children && IsNode(m, c) ==> rank(c) < rank(x)
  }

  /** The children links have no cycle. */
  ghost predicate Acyclic(m: Mapping) {
    exists rank: Id -> nat :: Ranked(m, rank)
  }

  /** A ranking of an acyclic mapping. */
  ghost function SomeRank(m: Mapping): (r: Id -> nat)
    requires Acyclic(m)
    ensures Ranked(m, r)
  {
    var r :| Ranked(m, r); r
  }

  /** The latest timestamp in the subtree of `x`: the greatest of the node's
      own timestamp and the subtree maxima of its children, 0 for a child id
      that is not a node. */
  ghost function SubtreeMax(m: Mapping, stamp: Node -> int, rank: Id -> nat, x: Id): int
    decreases rank(x), 1
  {
    if IsNode(m, x) then ChildrenMax(m, stamp, rank, x, m.nodes[x].children) else 0
  }

  /** The greatest of the own timestamp of node `x` and the subtree maxima of
      the children `cs` (a child that does not rank below `x` is not followed;
      on a ranked mapping there is none). */
  ghost function ChildrenMax(m: Mapping, stamp: Node -> int, rank: Id -> nat, x: Id, cs: seq<Id>): int
    requires IsNode(m, x)
    decreases rank(x), 0, |cs|
  {
    if cs == [] then stamp(m.nodes[x])
    else
      var b := ChildrenMax(m, stamp, rank, x, cs[..|cs| - 1]);
      var c := cs[|cs| - 1];
      var w := if IsNode(m, c) && rank(c) < rank(x) then SubtreeMax(m, stamp, rank, c) else 0;
      if w > b then w else b
  }

  /** The subtree maxima of every node, as a memo table. */
  ghost function SubtreeMaxima(m: Mapping, stamp: Node -> int, rank: Id -> nat): map<Id, int> {
    map x | x in m.nodes.Keys && x != "" :: SubtreeMax(m, stamp, rank, x)
  }

  /** The memo entry of `x` is what the loop computes for it: every child of
      `x` that is a node is memoised, and the entry is the greatest of the
      node's own timestamp and their values. */
  ghost predicate ExactAt(m: Mapping, stamp: Node -> int, cache: map<Id, int>, x: Id)
    requires x in cache
  {
    IsNode(m, x) &&
    (forall c :: c in m.nodes[x].children && IsNode(m, c) ==> c in cache) &&
    cache[x] == Best(m, stamp, cache, stamp(m.nodes[x]), m.nodes[x].children)
  }

  /** Every memo entry is exact. */
  ghost predicate Exact(m: Mapping, stamp: Node -> int, cache: map<Id, int>) {
    (forall x :: x in cache ==> IsNode(m, x)) &&
    (forall x {:trigger ExactAt(m, stamp, cache, x)} :: x in cache ==> ExactAt(m, stamp, cache, x))
  }

  /** Memoising a node whose children are all memoised, with the value the
      loop computes for it, keeps every entry exact. */
  lemma ExactExtend(m: Mapping, stamp: Node -> int, cache: map<Id, int>, id: Id, best: int)
    requires Exact(m, stamp, cache) && IsNode(m, id) && id !in cache
    requires forall c :: c in m.nodes[id].children && IsNode(m, c) ==> c in cache
    requires best == Best(m, stamp, cache, stamp(m.nodes[id]), m.nodes[id].children)
    ensures Exact(m, stamp, cache[id := best])
  {
    var cache' := cache[id := best];
    forall x | x in cache'
      ensures ExactAt(m, stamp, cache', x)
    {
      if x != id {
        assert ExactAt(m, stamp, cache, x);
      }
      var cs := m.nodes[x].children;
      forall k | 0 <= k < |cs|
        ensures Worth(m, stamp, cache, cs[k]) == Worth(m, stamp, cache', cs[k])
      {
        assert cs[k] in cs;
      }
      BestStable(m, stamp, cache, cache', stamp(m.nodes[x]), cs);
    }
  }

  /** On a ranked mapping an exact memo holds the subtree maximum of each
      memoised node. */
  lemma {:induction false} ExactIsMax(m: Mapping, stamp: Node -> int, cache: map<Id, int>, rank: Id -> nat, x: Id)
    requires Exact(m, stamp, cache) && Ranked(m, rank) && x in cache
    ensures cache[x] == SubtreeMax(m, stamp, rank, x)
    decreases rank(x), 1
  {
    assert ExactAt(m, stamp, cache, x);
    BestIsChildrenMax(m, stamp, cache, rank, x, m.nodes[x].children);
  }

  /** The loop over some of the children of a memoised node agrees with
      `ChildrenMax` over them. */
  lemma {:induction false} BestIsChildrenMax(m: Mapping, stamp: Node -> int, cache: map<Id, int>,
                                             rank: Id -> nat, x: Id, cs: seq<Id>)
    requires Exact(m, stamp, cache) && Ranked(m, rank) && x in cache && ExactAt(m, stamp, cache, x)
    requires forall k :: 0 <= k < |cs| ==> cs[k] in m.nodes[x].children
    ensures Best(m, stamp, cache, stamp(m.nodes[x]), cs) == ChildrenMax(m, stamp, rank, x, cs)
    decreases rank(x), 0, |cs|
  {
    if cs != [] {
      var init := cs[..|cs| - 1];
      BestIsChildrenMax(m, stamp, cache, rank, x, init);
      var c := cs[|cs| - 1];
      if IsNode(m, c) {
        assert c in m.nodes[x].children;
        ExactIsMax(m, stamp, cache, rank, c);
      }
    }
  }

  /** Removing a key just added to a map gives the map back. */
  lemma DropAdded<K, V>(c: map<K, V>, k: K, v: V)
    requires k !in c
    ensures c[k := v] - {k} == c
  {
  }

  // ---------------------------------------------------------------------
  // The scanner

  class SubtreeScan {
    const mapping: Mapping
    const stamp: Node -> int
    /** A ranking of the ids, for the proof only: when it ranks the mapping,
        no child of a node being computed is in progress, and the memo is
        exact. */
    ghost const rank: Id -> nat
    var cache: map<Id, int>
    var stack: set<Id>
    /** For every memoised id, the walk down children links that reaches the
        node whose timestamp was memoised. */
    ghost var trail: map<Id, seq<Id>>

    /** The node's own message timestamp; 0 for an id that is not a node. */
    function Own(id: Id): int {
      if IsNode(mapping, id) then stamp(mapping.nodes[id]) else 0
    }

    /** `t` is the timestamp at the end of the child walk `p` from `x`. */
    ghost predicate Explains(x: Id, p: seq<Id>, t: int) {
      ChildPath(mapping, p) && p[0] == x && t == Own(p[|p| - 1])
    }

    /** Memoised ids are truthy nodes, never in progress, and each memoised
        value is at least the node's own timestamp and is the timestamp of a
        node reachable from it (or 0 from a dangling child id); on a ranked
        mapping every memo entry is exact. */
    ghost predicate Valid()
      reads this
    {
      cache.Keys <= mapping.nodes.Keys && "" !in cache &&
      stack <= mapping.nodes.Keys && cache.Keys !! stack &&
      cache.Keys <= trail.Keys &&
      (forall x :: x in cache ==> Explains(x, trail[x], cache[x]) && cache[x] >= Own(x)) &&
      (Ranked(mapping, rank) ==> Exact(mapping, stamp, cache))
    }

    /** Child `c` has been visited by a loop whose best value is `best`:
        it is memoised, in progress or not a node, and `best` covers it. */
    ghost predicate Settled(c: Id, best: int)
      reads this
    {
      (c in cache || c in stack || !IsNode(mapping, c)) &&
      best >= Own(c) && (c in cache ==> best >= cache[c])
    }

    /** A fresh `cache = {}` and `stack = set()`. */
    constructor (m: Mapping, stamp: Node -> int, ghost rank: Id -> nat)
      ensures Valid() && mapping == m && this.stamp == stamp && this.rank == rank
      ensures cache == map[] && stack == {}
    {
      mapping := m;
      this.stamp := stamp;
      this.rank := rank;
      cache := map[];
      stack := {};
      trail := map[];
    }

    /** `get_latest_subtree_timestamp(id, mapping, cache, stack)`. */
    method Latest(id: Id) returns (t: int, ghost p: seq<Id>)
      requires Valid()
      requires Ranked(mapping, rank) && IsNode(mapping, id) ==> forall s :: s in stack ==> rank(id) < rank(s)
      modifies this
      decreases |mapping.nodes.Keys - stack|, 1
      ensures Valid()
      ensures stack == old(stack)
      ensures forall x :: x in old(cache) ==> x in cache && cache[x] == old(cache)[x]
      ensures t == Worth(mapping, stamp, cache, id)
      ensures Explains(id, p, t)
      ensures !IsNode(mapping, id) ==> t == 0 && cache == old(cache)
      ensures IsNode(mapping, id) ==> t >= Own(id)
      ensures id in old(cache) ==> t == old(cache)[id] && cache == old(cache)
      ensures IsNode(mapping, id) && id !in old(cache) && id in old(stack) ==>
                t == Own(id) && cache == old(cache)
      ensures IsNode(mapping, id) && id !in old(stack) ==> id in cache && cache[id] == t
      ensures IsNode(mapping, id) && id !in old(cache) && id !in old(stack) ==>
                t == Best(mapping, stamp, cache - {id}, Own(id), mapping.nodes[id].children)
    {
      if id == "" || id !in mapping.nodes {
        return 0, [id];
      }
      if id in cache {
        return cache[id], trail[id];
      }
      if id in stack {
        return Own(id), [id];
      }
      t, p := Compute(id);
    }

    /** The uncached, not-in-progress case: mark the node in progress, scan
        its children, memoise the greatest value and unmark it. The result is
        the loop's value over the children, where the node itself counts as
        in progress. */
    method Compute(id: Id) returns (t: int, ghost p: seq<Id>)
      requires Valid() && IsNode(mapping, id) && id !in cache && id !in stack
      requires Ranked(mapping, rank) ==> forall s :: s in stack ==> rank(id) < rank(s)
      modifies this
      decreases |mapping.nodes.Keys - stack|, 0
      ensures Valid()
      ensures stack == old(stack)
      ensures forall x :: x in old(cache) ==> x in cache && cache[x] == old(cache)[x]
      ensures Explains(id, p, t) && t >= Own(id)
      ensures id in cache && cache[id] == t
      ensures t == Best(mapping, stamp, cache - {id}, Own(id), mapping.nodes[id].children)
    {
      assert mapping.nodes.Keys - (stack + {id}) < mapping.nodes.Keys - stack;
      stack := stack + {id};
      ghost var bestPath;
      t, bestPath := ScanChildren(id);
      Memoise(id, t, bestPath);
      p := bestPath;
    }

    /** After the children of `id` are scanned: unmark `id` and memoise `best`. */
    method Memoise(id: Id, best: int, ghost bestPath: seq<Id>)
      requires Valid() && IsNode(mapping, id) && id in stack
      requires Explains(id, bestPath, best)
      requires best == Best(mapping, stamp, cache, Own(id), mapping.nodes[id].children)
      requires Ranked(mapping, rank) ==>
                 forall c :: c in mapping.nodes[id].children && IsNode(mapping, c) ==> c in cache
      modifies this
      ensures Valid()
      ensures stack == old(stack) - {id} && cache == old(cache)[id := best]
      ensures cache - {id} == old(cache)
    {
      if Ranked(mapping, rank) {
        ExactExtend(mapping, stamp, cache, id, best);
      }
      DropAdded(cache, id, best);
      stack := stack - {id};
      cache := cache[id := best];
      trail := trail[id := bestPath];
    }

    /** The `for child_id in children` loop of one node that is in progress:
        the greatest of the node's own timestamp and its children's results. */
    method ScanChildren(id: Id) returns (best: int, ghost bestPath: seq<Id>)
      requires Valid() && IsNode(mapping, id) && id in stack
      requires Ranked(mapping, rank) ==> forall s :: s in stack ==> rank(id) <= rank(s)
      modifies this
      decreases |mapping.nodes.Keys - stack|, 4
      ensures Valid()
      ensures stack == old(stack)
      ensures forall x :: x in old(cache) ==> x in cache && cache[x] == old(cache)[x]
      ensures Explains(id, bestPath, best)
      ensures best == Best(mapping, stamp, cache, Own(id), mapping.nodes[id].children)
      ensures Ranked(mapping, rank) ==>
                forall c :: c in mapping.nodes[id].children && IsNode(mapping, c) ==> c in cache
    {
      var children := mapping.nodes[id].children;
      best := Own(id);
      bestPath := [id];
      var i := 0;
      while i < |children|
        invariant 0 <= i <= |children|
        invariant stack == old(stack)
        invariant Valid()
        invariant forall x :: x in old(cache) ==> x in cache && cache[x] == old(cache)[x]
        invariant Explains(id, bestPath, best)
        invariant best == Best(mapping, stamp, cache, Own(id), children[..i])
        invariant forall k :: 0 <= k < i ==> Settled(children[k], best)
        invariant Ranked(mapping, rank) ==>
                    forall k :: 0 <= k < i && IsNode(mapping, children[k]) ==> children[k] in cache
      {
        best, bestPath := ScanStep(id, i, best, bestPath);
        i := i + 1;
      }
      assert children[..i] == children;
    }

    /** Iteration `i` of that loop, with what it keeps: the children seen
        before keep their worth, so the best value stays the loop's value
        over the children seen so far. */
    method ScanStep(id: Id, i: nat, best: int, ghost bestPath: seq<Id>)
      returns (best': int, ghost bestPath': seq<Id>)
      requires Valid() && IsNode(mapping, id) && id in stack
      requires Ranked(mapping, rank) ==> forall s :: s in stack ==> rank(id) <= rank(s)
      requires i < |mapping.nodes[id].children|
      requires Explains(id, bestPath, best)
      requires best == Best(mapping, stamp, cache, Own(id), mapping.nodes[id].children[..i])
      requires forall k :: 0 <= k < i ==> Settled(mapping.nodes[id].children[k], best)
      requires Ranked(mapping, rank) ==>
                 forall k :: 0 <= k < i && IsNode(mapping, mapping.nodes[id].children[k]) ==>
                   mapping.nodes[id].children[k] in cache
      modifies this
      decreases |mapping.nodes.Keys - stack|, 3
      ensures Valid()
      ensures stack == old(stack)
      ensures forall x :: x in old(cache) ==> x in cache && cache[x] == old(cache)[x]
      ensures Explains(id, bestPath', best')
      ensures best' == Best(mapping, stamp, cache, Own(id), mapping.nodes[id].children[..i + 1])
      ensures forall k :: 0 <= k < i + 1 ==> Settled(mapping.nodes[id].children[k], best')
      ensures Ranked(mapping, rank) ==>
                forall k :: 0 <= k < i + 1 && IsNode(mapping, mapping.nodes[id].children[k]) ==>
                  mapping.nodes[id].children[k] in cache
    {
      var cs := mapping.nodes[id].children;
      ghost var before := cache;
      best', bestPath' := AbsorbChild(id, cs[i], best, bestPath);
      forall k | 0 <= k < i
        ensures Settled(cs[k], best')
        ensures Worth(mapping, stamp, before, cs[k]) == Worth(mapping, stamp, cache, cs[k])
      {
        assert Settled(cs[k], best);
        if cs[k] in cache {
          assert cs[k] !in stack;
          assert cs[k] in before && cache[cs[k]] == before[cs[k]];
        }
      }
      BestStep(mapping, stamp, before, cache, Own(id), cs, i);
    }

    /** One iteration of that loop: recurse into child `c` and keep the
        greater of the best value so far and the child's result. */
    method AbsorbChild(id: Id, c: Id, best: int, ghost bestPath: seq<Id>)
      returns (best': int, ghost bestPath': seq<Id>)
      requires Valid() && IsNode(mapping, id) && id in stack
      requires Ranked(mapping, rank) ==> forall s :: s in stack ==> rank(id) <= rank(s)
      requires c in mapping.nodes[id].children
      requires Explains(id, bestPath, best)
      modifies this
      decreases |mapping.nodes.Keys - stack|, 2
      ensures Valid()
      ensures stack == old(stack)
      ensures forall x :: x in old(cache) ==> x in cache && cache[x] == old(cache)[x]
      ensures Explains(id, bestPath', best')
      ensures var w := Worth(mapping, stamp, cache, c); best' == if w > best then w else best
      ensures Settled(c, best')
      ensures Ranked(mapping, rank) && IsNode(mapping, c) ==> c in cache
    {
      var ct;
      ghost var cp;
      ct, cp := Latest(c);
      best', bestPath' := best, bestPath;
      if ct > best {
        best' := ct;
        bestPath' := [id] + cp;
        ChildPathCons(mapping, id, cp);
      }
    }
  }
}
