/** The Kademlia routing table (BEP 5, "Routing Table") and its dual-stack form (BEP 32). */
module Dht {
  import opened Prelude
  import opened StableSort
  import opened Distance

  const K: nat := 8

  datatype Node = Node(id: Id, addr: SocketAddr)

  // ---------------------------------------------------------------- buckets

  predicate Knows(nodes: seq<Node>, id: Id) {
    exists i :: 0 <= i < |nodes| && nodes[i].id == id
  }

  /** All nodes but the first one with the id. */
  function Without(nodes: seq<Node>, id: Id): (r: seq<Node>)
    ensures Knows(nodes, id) ==> |r| == |nodes| - 1
    ensures !Knows(nodes, id) ==> r == nodes
  {
    if nodes == [] then []
    else if nodes[0].id == id then
      assert Knows(nodes, id);
      nodes[1..]
    else
      assert Knows(nodes, id) <==> Knows(nodes[1..], id) by {
        if Knows(nodes[1..], id) {
          var i :| 0 <= i < |nodes| - 1 && nodes[1..][i].id == id;
          assert nodes[i + 1].id == id;
        }
        if Knows(nodes, id) {
          var i :| 0 <= i < |nodes| && nodes[i].id == id;
          assert nodes[1..][i - 1].id == id;
        }
      }
      [nodes[0]] + Without(nodes[1..], id)
  }

  function BucketInsert(nodes: seq<Node>, node: Node): seq<Node> {
    if Knows(nodes, node.id) then Without(nodes, node.id) + [node]
    else if |nodes| >= K then nodes[1..] + [node]
    else nodes + [node]
  }

  class KBucket {
    var nodes: seq<Node>

    constructor ()
      ensures nodes == []
    {
      nodes := [];
    }

    method Insert(node: Node) returns (added: bool)
      modifies this
      ensures nodes == BucketInsert(old(nodes), node)
      ensures added == !Knows(old(nodes), node.id)
    {
      var pos := 0;
      while pos < |nodes| && nodes[pos].id != node.id
        invariant pos <= |nodes| && nodes == old(nodes)
        invariant forall i :: 0 <= i < pos ==> nodes[i].id != node.id
      {
        pos := pos + 1;
      }
      if pos < |nodes| {
        WithoutAt(nodes, pos);
        nodes := nodes[..pos] + nodes[pos + 1..];
        nodes := nodes + [node];
        return false;
      }
      if |nodes| >= K {
        nodes := nodes[1..];
      }
      nodes := nodes + [node];
      return true;
    }
  }

  lemma {:induction false} WithoutAt(nodes: seq<Node>, pos: nat)
    requires pos < |nodes| && forall i :: 0 <= i < pos ==> nodes[i].id != nodes[pos].id
    ensures Knows(nodes, nodes[pos].id)
    ensures Without(nodes, nodes[pos].id) == nodes[..pos] + nodes[pos + 1..]
  {
    if pos > 0 {
      WithoutAt(nodes[1..], pos - 1);
      assert nodes[..pos] == [nodes[0]] + nodes[1..][..pos - 1];
    }
  }

  // ---------------------------------------------------------------- tables

  type Buckets = b: seq<seq<Node>> | |b| == NUM_BUCKETS witness seq(NUM_BUCKETS, _ => [])

  function EmptyBuckets(): Buckets {
    seq(NUM_BUCKETS, _ => [])
  }

  function TableInsert(buckets: Buckets, our: Id, node: Node): Buckets {
    var i := BucketIndex(our, node.id);
    buckets[i := BucketInsert(buckets[i], node)]
  }

  function AllNodes(buckets: seq<seq<Node>>): seq<Node> {
    if buckets == [] then [] else AllNodes(buckets[..|buckets| - 1]) + buckets[|buckets| - 1]
  }

  /** The sort key of the closest-node search. */
  function Closer(target: Id): (Node, Node) -> bool {
    (a: Node, b: Node) => LexLeq(Xor(a.id, target), Xor(b.id, target))
  }

  function FindClosest(buckets: seq<seq<Node>>, target: Id, count: nat): seq<Node> {
    Take(count, SortBy(AllNodes(buckets), Closer(target)))
  }

  function FindClosestDual(v4: Buckets, v6: Buckets, target: Id, count: nat): seq<Node> {
    Take(count, SortBy(FindClosest(v4, target, count) + FindClosest(v6, target, count), Closer(target)))
  }

  ghost predicate Distinct(buckets: seq<KBucket>) {
    |buckets| == NUM_BUCKETS && forall i, j :: 0 <= i < j < |buckets| ==> buckets[i] != buckets[j]
  }

  ghost function Contents(buckets: seq<KBucket>): (c: seq<seq<Node>>)
    reads buckets
    ensures |c| == |buckets| && forall i :: 0 <= i < |buckets| ==> c[i] == buckets[i].nodes
  {
    if buckets == [] then [] else Contents(buckets[..|buckets| - 1]) + [buckets[|buckets| - 1].nodes]
  }

  method NewBuckets() returns (buckets: seq<KBucket>)
    ensures Distinct(buckets) && fresh(buckets)
    ensures Contents(buckets) == EmptyBuckets()
  {
    buckets := [];
    for n := 0 to NUM_BUCKETS
      invariant |buckets| == n && fresh(buckets)
      invariant forall i, j :: 0 <= i < j < n ==> buckets[i] != buckets[j]
      invariant forall i :: 0 <= i < n ==> buckets[i].nodes == []
    {
      var b := new KBucket();
      buckets := buckets + [b];
    }
  }

  method InsertIntoBuckets(buckets: seq<KBucket>, our: Id, node: Node) returns (added: bool)
    requires Distinct(buckets)
    modifies buckets
    ensures Contents(buckets) == TableInsert(old(Contents(buckets)), our, node)
    ensures added == !Knows(old(Contents(buckets))[BucketIndex(our, node.id)], node.id)
  {
    var index := FindBucket(our, node.id);
    added := buckets[index].Insert(node);
  }

  method FindClosestInBuckets(buckets: seq<KBucket>, target: Id, count: nat) returns (r: seq<Node>)
    ensures r == FindClosest(Contents(buckets), target, count)
  {
    var all: seq<Node> := [];
    ghost var c := Contents(buckets);
    for i := 0 to |buckets|
      invariant all == AllNodes(c[..i])
    {
      assert c[..i + 1][..i] == c[..i];
      all := all + buckets[i].nodes;
    }
    assert c[..|buckets|] == c;
    all := SortBy(all, Closer(target));
    r := Take(count, all);
  }

  method CountNodes(buckets: seq<KBucket>) returns (n: nat)
    ensures n == |AllNodes(Contents(buckets))|
  {
    n := 0;
    ghost var c := Contents(buckets);
    for i := 0 to |buckets|
      invariant n == |AllNodes(c[..i])|
    {
      assert c[..i + 1][..i] == c[..i];
      n := n + |buckets[i].nodes|;
    }
    assert c[..|buckets|] == c;
  }

  class RoutingTable {
    const nodeId: Id
    const buckets: seq<KBucket>

    ghost predicate Valid() {
      Distinct(buckets)
    }

    ghost function State(): Buckets
      requires Valid()
      reads buckets
    {
      Contents(buckets)
    }

    constructor WithId(id: Id)
      ensures Valid() && fresh(buckets) && nodeId == id && State() == EmptyBuckets()
    {
      nodeId := id;
      var b := NewBuckets();
      buckets := b;
    }

    method Insert(node: Node) returns (added: bool)
      requires Valid()
      modifies buckets
      ensures State() == TableInsert(old(State()), nodeId, node)
      ensures added == !Knows(old(State())[BucketIndex(nodeId, node.id)], node.id)
    {
      added := InsertIntoBuckets(buckets, nodeId, node);
    }

    method Closest(target: Id, count: nat) returns (r: seq<Node>)
      requires Valid()
      ensures r == FindClosest(State(), target, count)
    {
      r := FindClosestInBuckets(buckets, target, count);
    }

    method NumNodes() returns (n: nat)
      requires Valid()
      ensures n == |AllNodes(State())|
    {
      n := CountNodes(buckets);
    }
  }

  class DualRoutingTable {
    const nodeId: Id
    const v4: seq<KBucket>
    const v6: seq<KBucket>

    ghost predicate Valid() {
      Distinct(v4) && Distinct(v6) && forall i, j :: 0 <= i < |v4| && 0 <= j < |v6| ==> v4[i] != v6[j]
    }

    constructor WithId(id: Id)
      ensures Valid() && fresh(v4) && fresh(v6) && nodeId == id
      ensures Contents(v4) == EmptyBuckets() && Contents(v6) == EmptyBuckets()
    {
      hide EmptyBuckets;
      nodeId := id;
      var b4 := NewBuckets();
      var b6 := NewBuckets();
      v4, v6 := b4, b6;
    }

    method Insert(node: Node) returns (added: bool)
      requires Valid()
      modifies v4, v6
      ensures Contents(v4) == if node.addr.V4? then TableInsert(old(Contents(v4)), nodeId, node) else old(Contents(v4))
      ensures Contents(v6) == if node.addr.V4? then old(Contents(v6)) else TableInsert(old(Contents(v6)), nodeId, node)
    {
      if node.addr.V4? {
        added := InsertIntoBuckets(v4, nodeId, node);
      } else {
        added := InsertIntoBuckets(v6, nodeId, node);
      }
    }

    method Closest(target: Id, count: nat) returns (all: seq<Node>)
      requires Valid()
      ensures all == FindClosestDual(Contents(v4), Contents(v6), target, count)
    {
      var near4 := FindClosestInBuckets(v4, target, count);
      var near6 := FindClosestInBuckets(v6, target, count);
      all := near4;
      all := all + near6;
      all := SortBy(all, Closer(target));
      all := Take(count, all);
    }
  }
}
