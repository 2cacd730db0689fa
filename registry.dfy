/** The node registry: a list of `{ nodeId, pubKey }` entries that relays
    register themselves in (an upsert keyed by nodeId) and that senders read
    whole before building a circuit. */
module Registry {
  import opened Common

  datatype Node = Node(nodeId: int, pubKey: string)

  /** The ids of a node list, in list order. */
  function Ids(nodes: seq<Node>): (ids: seq<int>)
    ensures |ids| == |nodes|
    ensures forall j :: 0 <= j < |nodes| ==> ids[j] == nodes[j].nodeId
  {
    seq(|nodes|, j requires 0 <= j < |nodes| => nodes[j].nodeId)
  }

  /** No two entries share a nodeId. */
  ghost predicate DistinctIds(nodes: seq<Node>) {
    forall j, k :: 0 <= j < k < |nodes| ==> nodes[j].nodeId != nodes[k].nodeId
  }

  /** `nodes.findIndex(node => node.nodeId === id)`: the first index holding
      `id`, or -1 when there is none. */
  function IndexOf(nodes: seq<Node>, id: int): (i: int)
    ensures -1 <= i < |nodes|
    ensures 0 <= i ==> nodes[i].nodeId == id
    ensures forall j :: 0 <= j < |nodes| && (i < 0 || j < i) ==> nodes[j].nodeId != id
    decreases |nodes|
  {
    if nodes == [] then -1
    else if nodes[0].nodeId == id then 0
    else
      var k := IndexOf(nodes[1..], id);
      if k < 0 then -1 else k + 1
  }

  /** The effect of a valid registration on the list: the pubKey of the
      first entry with that id is overwritten, or a new entry is appended. */
  function Upsert(nodes: seq<Node>, id: int, key: string): (r: seq<Node>)
    ensures |nodes| <= |r| <= |nodes| + 1
    ensures Node(id, key) in r
  {
    var i := IndexOf(nodes, id);
    if i >= 0 then
      var r := nodes[i := nodes[i].(pubKey := key)];
      assert r[i] == Node(id, key);
      r
    else
      var r := nodes + [Node(id, key)];
      assert r[|nodes|] == Node(id, key);
      r
  }

  /** A registered id keeps its position: only its pubKey changes. */
  lemma UpsertExisting(nodes: seq<Node>, id: int, key: string)
    requires IndexOf(nodes, id) >= 0
    ensures var r, i := Upsert(nodes, id, key), IndexOf(nodes, id);
      && |r| == |nodes|
      && r[i] == Node(id, key)
      && (forall j :: 0 <= j < |nodes| && j != i ==> r[j] == nodes[j])
  {
  }

  /** A new id goes to the end; the earlier entries stay as they were. */
  lemma UpsertNew(nodes: seq<Node>, id: int, key: string)
    requires IndexOf(nodes, id) < 0
    ensures var r := Upsert(nodes, id, key);
      && |r| == |nodes| + 1
      && r[..|nodes|] == nodes
      && r[|nodes|] == Node(id, key)
  {
  }

  /** Upserting keeps the ids pairwise distinct. */
  lemma UpsertKeepsDistinct(nodes: seq<Node>, id: int, key: string)
    requires DistinctIds(nodes)
    ensures DistinctIds(Upsert(nodes, id, key))
  {
    var r := Upsert(nodes, id, key);
    var i := IndexOf(nodes, id);
    if i >= 0 {
      assert Ids(r) == Ids(nodes);
      forall j, k | 0 <= j < k < |r| ensures r[j].nodeId != r[k].nodeId {
        assert Ids(r)[j] == Ids(nodes)[j] && Ids(r)[k] == Ids(nodes)[k];
      }
    }
  }

  /** After a registration exactly one entry carries the id, and it carries
      the new key. */
  lemma UpsertLookup(nodes: seq<Node>, id: int, key: string)
    requires DistinctIds(nodes)
    ensures var r := Upsert(nodes, id, key);
      && 0 <= IndexOf(r, id)
      && r[IndexOf(r, id)].pubKey == key
      && (forall j :: 0 <= j < |r| && r[j].nodeId == id ==> j == IndexOf(r, id))
  {
    var r := Upsert(nodes, id, key);
    UpsertKeepsDistinct(nodes, id, key);
    var i := IndexOf(nodes, id);
    var at := if i >= 0 then i else |nodes|;
    assert r[at].nodeId == id;
    IndexOfDistinct(r, id, at);
  }

  /** In a list with distinct ids, the entry holding an id is the one
      findIndex finds. */
  lemma IndexOfDistinct(nodes: seq<Node>, id: int, at: int)
    requires DistinctIds(nodes)
    requires 0 <= at < |nodes| && nodes[at].nodeId == id
    ensures IndexOf(nodes, id) == at
  {
  }

  /** Registering the same node twice leaves the list as the first call did. */
  lemma UpsertIdempotent(nodes: seq<Node>, id: int, key: string)
    ensures Upsert(Upsert(nodes, id, key), id, key) == Upsert(nodes, id, key)
  {
    var r := Upsert(nodes, id, key);
    var i := IndexOf(nodes, id);
    var at := if i >= 0 then i else |nodes|;
    assert r[at].nodeId == id;
    assert IndexOf(r, id) == at by {
      forall j | 0 <= j < at ensures r[j].nodeId != id {
        assert r[j] == nodes[j];
      }
      IndexOfFirst(r, id, at);
    }
  }

  /** The first entry holding an id is the one findIndex finds. */
  lemma {:induction false} IndexOfFirst(nodes: seq<Node>, id: int, at: int)
    requires 0 <= at < |nodes| && nodes[at].nodeId == id
    requires forall j :: 0 <= j < at ==> nodes[j].nodeId != id
    ensures IndexOf(nodes, id) == at
    decreases at
  {
    if at > 0 {
      IndexOfFirst(nodes[1..], id, at - 1);
    }
  }

  /** The ids stay in registration order: a known id keeps its place and a
      new one is added last. */
  lemma UpsertIds(nodes: seq<Node>, id: int, key: string)
    ensures Ids(Upsert(nodes, id, key)) ==
      if id in Ids(nodes) then Ids(nodes) else Ids(nodes) + [id]
  {
    var r := Upsert(nodes, id, key);
    var i := IndexOf(nodes, id);
    if i >= 0 {
      assert Ids(nodes)[i] == id;
    } else {
      assert id !in Ids(nodes);
      assert Ids(r) == Ids(nodes) + [id];
    }
  }

  /** The registry process: its list of registered nodes. */
  class NodeRegistry {
    var nodeRegistry: seq<Node>

    ghost predicate Valid()
      reads this
    {
      DistinctIds(nodeRegistry)
    }

    constructor ()
      ensures Valid() && nodeRegistry == []
    {
      nodeRegistry := [];
    }

    /** The findIndex search over the stored list. */
    method FindIndex(nodeId: int) returns (index: int)
      ensures index == IndexOf(nodeRegistry, nodeId)
    {
      var nodes := nodeRegistry;
      index := 0;
      while index < |nodes|
        invariant 0 <= index <= |nodes|
        invariant forall j :: 0 <= j < index ==> nodes[j].nodeId != nodeId
      {
        if nodes[index].nodeId == nodeId {
          IndexOfFirst(nodes, nodeId, index);
          return;
        }
        index := index + 1;
      }
      index := -1;
    }

    /** POST /registerNode. A missing nodeId, or a missing or empty pubKey,
        is answered with 400 and changes nothing; otherwise the node is
        upserted and the answer is `{ success: true }`. */
    method RegisterNode(nodeId: Option<int>, pubKey: Option<string>) returns (reply: Reply)
      modifies this
      ensures old(Valid()) ==> Valid()
      ensures nodeId.None? || pubKey.None? || pubKey.value == "" ==>
        reply == BadRequest && nodeRegistry == old(nodeRegistry)
      ensures nodeId.Some? && pubKey.Some? && pubKey.value != "" ==>
        reply == Ok && nodeRegistry == Upsert(old(nodeRegistry), nodeId.value, pubKey.value)
    {
      if nodeId.None? || pubKey.None? || pubKey.value == "" {
        return BadRequest;
      }
      var id, key := nodeId.value, pubKey.value;
      var existingIndex := FindIndex(id);
      if existingIndex >= 0 {
        nodeRegistry := nodeRegistry[existingIndex := nodeRegistry[existingIndex].(pubKey := key)];
      } else {
        nodeRegistry := nodeRegistry + [Node(id, key)];
      }
      reply := Ok;
      if old(Valid()) {
        UpsertKeepsDistinct(old(nodeRegistry), id, key);
      }
    }

    /** GET /getNodeRegistry: the list as stored, in registration order. */
    method GetNodeRegistry() returns (nodes: seq<Node>)
      ensures nodes == nodeRegistry
    {
      nodes := nodeRegistry;
    }
  }
}
