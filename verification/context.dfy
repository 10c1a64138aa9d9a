/** context/main.go: the registry of peer replicas, a list of
    (address, port) pairs that AddNewNode extends without repeating one. */
module AppContext {

  datatype Node = Node(address: string, port: string)

  /** No pair is registered twice. */
  predicate NoDuplicates(nodes: seq<Node>)
  {
    forall i, j :: 0 <= i < j < |nodes| ==> nodes[i] != nodes[j]
  }

  /** The linear scan of AddNewNode: is the pair already there? */
  function Registered(nodes: seq<Node>, address: string, port: string): (b: bool)
    ensures b <==> Node(address, port) in nodes
  {
    if nodes == [] then false
    else (nodes[0].address == address && nodes[0].port == port) || Registered(nodes[1..], address, port)
  }

  /** AddNewNode: keep the list when the pair is present, otherwise append
      it at the end. */
  function AddNewNode(nodes: seq<Node>, address: string, port: string): (r: seq<Node>)
    ensures Node(address, port) in nodes ==> r == nodes
    ensures Node(address, port) !in nodes ==> r == nodes + [Node(address, port)]
  {
    if Registered(nodes, address, port) then nodes else nodes + [Node(address, port)]
  }

  /** Registering twice is registering once. */
  lemma AddNewNodeIdempotent(nodes: seq<Node>, address: string, port: string)
    ensures AddNewNode(AddNewNode(nodes, address, port), address, port) == AddNewNode(nodes, address, port)
  {
    var once := AddNewNode(nodes, address, port);
    assert Node(address, port) in once by {
      if Node(address, port) !in nodes {
        assert once[|nodes|] == Node(address, port);
      }
    }
  }

  /** The registry never holds a pair twice, and it contains exactly the
      old pairs and the new one. */
  lemma AddNewNodeKeepsNoDuplicates(nodes: seq<Node>, address: string, port: string)
    requires NoDuplicates(nodes)
    ensures NoDuplicates(AddNewNode(nodes, address, port))
    ensures forall n :: n in AddNewNode(nodes, address, port) <==> n in nodes || n == Node(address, port)
  {
    var r := AddNewNode(nodes, address, port);
    if Node(address, port) !in nodes {
      forall i, j | 0 <= i < j < |r|
        ensures r[i] != r[j]
      {
        if j == |nodes| {
          assert r[i] == nodes[i];
        } else {
          assert r[i] == nodes[i] && r[j] == nodes[j];
        }
      }
      assert forall n :: n in r <==> n in nodes || n == Node(address, port) by {
        assert r == nodes + [Node(address, port)];
      }
    }
  }
}
