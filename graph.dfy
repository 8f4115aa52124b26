/** The conversation mapping of archive_tool.py: an arena from node id to
    node record, with parent and children stored as ids (so cycles are
    possible), and `get_node_message_timestamp` (lines 58-66). */
module Graph {
  import opened Values
  import opened Messages

  type Id = string

  /** One entry of the mapping. An empty `message` stands for a missing or
      falsy message; `parent` is None when it is missing, null or not a
      string (none of which can name a node). */
  datatype Node = Node(message: RawMessage, parent: Option<Id>, children: seq<Id>)

  /** The mapping, with the insertion order of its keys (Python dictionaries
      keep it, and the root search depends on it). */
  datatype Mapping = Mapping(order: seq<Id>, nodes: map<Id, Node>)

  predicate Distinct<T(==)>(s: seq<T>) {
    forall i, j :: 0 <= i < j < |s| ==> s[i] != s[j]
  }

  /** The key order lists every key exactly once. */
  predicate WellFormed(m: Mapping) {
    Distinct(m.order) &&
    (forall i :: 0 <= i < |m.order| ==> m.order[i] in m.nodes) &&
    (forall k :: k in m.nodes ==> k in m.order)
  }

  /** An id the walks accept: truthy and present in the mapping. */
  predicate IsNode(m: Mapping, id: Id) {
    id != "" && id in m.nodes
  }

  /** `get_node_message_timestamp(node)`: 0 without a message, otherwise the
      same timestamp `normalize_message` gives the message. */
  function NodeTs(n: Node): int {
    if |n.message| == 0 then 0 else NormalizeTimestamp(RawTimestamp(n.message))
  }

  /** The node timestamp agrees with the timestamp of the normalised message. */
  lemma NodeTsAgrees(n: Node)
    ensures |n.message| != 0 ==> NodeTs(n) == NormalizeMessage(n.message).ts
    ensures |n.message| == 0 ==> NodeTs(n) == 0
  {
  }

  /** The own timestamp of an id, 0 for an id that is not a node. */
  function Ts(m: Mapping, id: Id): int {
    if IsNode(m, id) then NodeTs(m.nodes[id]) else 0
  }

  /** A walk down children links: every step but the last is at a node, and
      each next id is listed among the children of the one before. The last
      id may dangle. */
  ghost predicate ChildPath(m: Mapping, p: seq<Id>) {
    |p| >= 1 &&
    (forall i :: 0 <= i < |p| - 1 ==> IsNode(m, p[i]) && p[i + 1] in m.nodes[p[i]].children)
  }

  lemma ChildPathCons(m: Mapping, id: Id, p: seq<Id>)
    requires IsNode(m, id) && ChildPath(m, p) && p[0] in m.nodes[id].children
    ensures ChildPath(m, [id] + p)
  {
    var q := [id] + p;
    forall i | 0 <= i < |q| - 1
      ensures IsNode(m, q[i]) && q[i + 1] in m.nodes[q[i]].children
    {
      if i > 0 {
        assert q[i] == p[i - 1] && q[i + 1] == p[i];
      }
    }
  }

  /** Python's `list.reverse()`, as a value. */
  function Reverse<T>(s: seq<T>): (r: seq<T>)
    ensures |r| == |s|
    ensures forall i :: 0 <= i < |s| ==> r[i] == s[|s| - 1 - i]
  {
    if s == [] then [] else Reverse(s[1..]) + [s[0]]
  }

  /** Reversing twice gives the sequence back. */
  lemma ReverseReverse<T>(s: seq<T>)
    ensures Reverse(Reverse(s)) == s
  {
    var r := Reverse(Reverse(s));
    assert forall i :: 0 <= i < |s| ==> r[i] == s[i];
  }
}
