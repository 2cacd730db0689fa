/** A user: it sends a message through a circuit of three relays taken from
    the registry (POST /sendMessage) and records messages delivered to it
    (POST /message). */
module User {
  import opened Common
  import opened Wire
  import opened Crypto
  import opened Registry

  /** Number of relays in a circuit. */
  const CircuitLength: nat := 3

  /** `order` lists every index below n exactly once. */
  predicate IsPermutation(order: seq<nat>, n: nat) {
    && |order| == n
    && (forall j :: 0 <= j < n ==> order[j] < n)
    && (forall j, k :: 0 <= j < k < n ==> order[j] != order[k])
  }

  /** The registry list rearranged by a permutation: the result of
      `nodes.sort(() => 0.5 - Math.random())`, whatever order the random
      comparator produced. */
  function Shuffle(nodes: seq<Node>, order: seq<nat>): (shuffled: seq<Node>)
    requires IsPermutation(order, |nodes|)
    ensures |shuffled| == |nodes|
    ensures forall j :: 0 <= j < |shuffled| ==> shuffled[j] in nodes
  {
    seq(|nodes|, j requires 0 <= j < |nodes| => nodes[order[j]])
  }

  /** `shuffled.slice(0, 3)`. */
  function Circuit(nodes: seq<Node>, order: seq<nat>): (circuit: seq<Node>)
    requires IsPermutation(order, |nodes|) && |nodes| >= CircuitLength
    ensures |circuit| == CircuitLength
  {
    Shuffle(nodes, order)[..CircuitLength]
  }

  /** The circuit is three registry entries at three distinct positions;
      when the registry ids are distinct, so are the circuit's. */
  lemma CircuitFromRegistry(nodes: seq<Node>, order: seq<nat>)
    requires IsPermutation(order, |nodes|) && |nodes| >= CircuitLength
    ensures var circuit := Circuit(nodes, order);
      && |circuit| == CircuitLength
      && (forall j :: 0 <= j < CircuitLength ==> circuit[j] == nodes[order[j]])
      && (forall j, k :: 0 <= j < k < CircuitLength ==> order[j] != order[k])
      && (DistinctIds(nodes) ==> DistinctIds(circuit))
  {
    var circuit := Circuit(nodes, order);
    if DistinctIds(nodes) {
      forall j, k | 0 <= j < k < CircuitLength
        ensures circuit[j].nodeId != circuit[k].nodeId
      {
        var a, b := order[j], order[k];
        assert a != b;
        if a < b {
          assert nodes[a].nodeId != nodes[b].nodeId;
        } else {
          assert nodes[b].nodeId != nodes[a].nodeId;
        }
      }
    }
  }

  /** The address layer i of the envelope carries: the destination user's
      port in the exit layer, the next relay's port in every other. */
  function NextHop(ports: Ports, circuit: seq<Node>, destinationUserId: int, i: nat): (port: int)
    requires i < |circuit|
  {
    if i == |circuit| - 1 then ports.baseUserPort + destinationUserId
    else ports.baseOnionRouterPort + circuit[i + 1].nodeId
  }

  /** The payload after the layers for circuit[from..] have been added,
      innermost first: the message itself when none has, otherwise
      `encKey || symEncrypt(key, address + inner payload)` for hop `from`,
      or None when encryption under that hop's public key throws. */
  function Onion(suite: Suite, ports: Ports, circuit: seq<Node>, destinationUserId: int,
                 message: string, symKeys: seq<string>, from: nat): (r: Option<string>)
    requires from <= |circuit| <= |symKeys|
    ensures from < |circuit| && r.Some? ==> r.value != ""
    decreases |circuit| - from
  {
    if from == |circuit| then Some(message)
    else
      match Onion(suite, ports, circuit, destinationUserId, message, symKeys, from + 1)
      case None => None
      case Some(inner) =>
        match suite.rsaEncrypt(symKeys[from], circuit[from].pubKey)
        case None => None
        case Some(encKey) =>
          var layer := EncodeAddress(NextHop(ports, circuit, destinationUserId, from)) + inner;
          Some(encKey + Delimiter + suite.symEncrypt(symKeys[from], layer))
  }

  /** One pass of the sender's loop: given the payload built so far, hop
      `i`'s layer wraps it, or the build fails when RSA under hop `i`'s key
      throws. */
  lemma OnionStep(suite: Suite, ports: Ports, circuit: seq<Node>, destinationUserId: int,
                  message: string, symKeys: seq<string>, i: nat, payload: string)
    requires i < |circuit| <= |symKeys|
    requires Onion(suite, ports, circuit, destinationUserId, message, symKeys, i + 1) == Some(payload)
    ensures var encKey := suite.rsaEncrypt(symKeys[i], circuit[i].pubKey);
      var layer := EncodeAddress(NextHop(ports, circuit, destinationUserId, i)) + payload;
      Onion(suite, ports, circuit, destinationUserId, message, symKeys, i) ==
        if encKey.None? then None
        else Some(encKey.value + Delimiter + suite.symEncrypt(symKeys[i], layer))
  {
  }

  /** A failure while adding an inner layer leaves no envelope at all. */
  lemma {:induction false} OnionFailsOutward(suite: Suite, ports: Ports, circuit: seq<Node>,
                                             destinationUserId: int, message: string,
                                             symKeys: seq<string>, from: nat, i: nat)
    requires from <= i <= |circuit| <= |symKeys|
    requires Onion(suite, ports, circuit, destinationUserId, message, symKeys, i).None?
    ensures Onion(suite, ports, circuit, destinationUserId, message, symKeys, from).None?
    decreases i - from
  {
    if from < i {
      OnionFailsOutward(suite, ports, circuit, destinationUserId, message, symKeys, from + 1, i);
    }
  }

  /** With keys the suite can encrypt under, every layer is built, and every
      layer below the message is an envelope `encKey || encLayer` for the
      hop it belongs to. */
  lemma {:induction false} OnionBuilt(suite: Suite, ports: Ports, circuit: seq<Node>,
                                      privateKeys: seq<string>, destinationUserId: int,
                                      message: string, symKeys: seq<string>, from: nat)
    requires Sound(suite)
    requires |privateKeys| == |circuit| <= |symKeys|
    requires forall j :: 0 <= j < |circuit| ==> circuit[j].pubKey == suite.publicKeyOf(privateKeys[j])
    requires from <= |circuit|
    ensures Onion(suite, ports, circuit, destinationUserId, message, symKeys, from).Some?
    decreases |circuit| - from
  {
    if from < |circuit| {
      OnionBuilt(suite, ports, circuit, privateKeys, destinationUserId, message, symKeys, from + 1);
      RsaAt(suite, symKeys[from], privateKeys[from]);
    }
  }

  /** The sender's layering loop: from the exit hop back to the entry hop,
      each pass prefixes the payload with the ten-digit next-hop address,
      encrypts it under a fresh symmetric key, encrypts that key under the
      hop's public key and makes `encKey || encPayload` the new payload.
      None when encryption under a hop's public key throws. */
  method WrapLayers(ports: Ports, suite: Suite, circuitNodes: seq<Node>, destinationUserId: int,
                    message: string, symKeys: seq<string>)
    returns (onion: Option<string>)
    requires |circuitNodes| <= |symKeys|
    ensures onion == Onion(suite, ports, circuitNodes, destinationUserId, message, symKeys, 0)
  {
    var payload := message;
    var i: int := |circuitNodes| - 1;
    while i >= 0
      invariant -1 <= i < |circuitNodes|
      invariant Onion(suite, ports, circuitNodes, destinationUserId, message, symKeys, i + 1)
                == Some(payload)
      decreases i
    {
      var nextHop: int;
      if i == |circuitNodes| - 1 {
        nextHop := ports.baseUserPort + destinationUserId;
      } else {
        nextHop := ports.baseOnionRouterPort + circuitNodes[i + 1].nodeId;
      }
      assert nextHop == NextHop(ports, circuitNodes, destinationUserId, i);
      OnionStep(suite, ports, circuitNodes, destinationUserId, message, symKeys, i, payload);
      var nextHopEncoded := EncodeAddress(nextHop);
      var dataToEncrypt := nextHopEncoded + payload;

      var symmetricKey := symKeys[i];
      var encryptedPayload := suite.symEncrypt(symmetricKey, dataToEncrypt);
      var encryptedKey := suite.rsaEncrypt(symmetricKey, circuitNodes[i].pubKey);
      if encryptedKey.None? {
        OnionFailsOutward(suite, ports, circuitNodes, destinationUserId, message, symKeys, 0, i);
        return None;
      }
      payload := encryptedKey.value + Delimiter + encryptedPayload;
      i := i - 1;
    }

    onion := Some(payload);
  }

  /** The user process: the three slots it keeps for inspection. */
  class User {
    const userId: int
    var lastReceivedMessage: Option<string>
    var lastSentMessage: Option<string>
    var lastCircuit: Option<seq<int>>

    constructor (userId: int)
      ensures this.userId == userId
      ensures lastReceivedMessage.None? && lastSentMessage.None? && lastCircuit.None?
    {
      this.userId := userId;
      lastReceivedMessage := None;
      lastSentMessage := None;
      lastCircuit := None;
    }

    /** POST /message: a message delivered to this user is recorded. */
    method ReceiveMessage(message: string) returns (reply: Reply)
      modifies this
      ensures reply == Ok && lastReceivedMessage == Some(message)
      ensures lastSentMessage == old(lastSentMessage) && lastCircuit == old(lastCircuit)
    {
      lastReceivedMessage := Some(message);
      reply := Ok;
    }

    /** POST /sendMessage. The registry snapshot is None when fetching it
        fails; `order` is the permutation the shuffle produced, `symKeys[i]`
        the fresh symmetric key of pass i, and `postSucceeds` the fate of
        the call to the entry relay. */
    method SendMessage(ports: Ports, suite: Suite, message: string, destinationUserId: int,
                       registry: Option<seq<Node>>, order: seq<nat>, symKeys: seq<string>,
                       postSucceeds: bool)
      returns (outcome: Outcome)
      requires registry.Some? ==> IsPermutation(order, |registry.value|)
      requires |symKeys| >= CircuitLength
      modifies this
      ensures lastSentMessage == Some(message)
      ensures lastReceivedMessage == old(lastReceivedMessage)
      ensures registry.None? || |registry.value| < CircuitLength ==>
        outcome == Outcome(ServerError, None) && lastCircuit == old(lastCircuit)
      ensures registry.Some? && |registry.value| >= CircuitLength ==>
        var circuit := Circuit(registry.value, order);
        && lastCircuit == Some(Ids(circuit))
        && outcome ==
          match Onion(suite, ports, circuit, destinationUserId, message, symKeys, 0)
          case None => Outcome(ServerError, None)
          case Some(onion) =>
            Outcome(if postSucceeds then Ok else ServerError,
                    Some(Post(Int(ports.baseOnionRouterPort + circuit[0].nodeId), onion)))
    {
      lastSentMessage := Some(message);

      if registry.None? {
        return Outcome(ServerError, None);
      }
      var nodes := registry.value;
      if |nodes| < CircuitLength {
        return Outcome(ServerError, None);
      }

      var circuitNodes := Circuit(nodes, order);
      lastCircuit := Some(Ids(circuitNodes));

      var onion := WrapLayers(ports, suite, circuitNodes, destinationUserId, message, symKeys);
      if onion.None? {
        return Outcome(ServerError, None);
      }
      var entryNodePort := ports.baseOnionRouterPort + circuitNodes[0].nodeId;
      var post := Post(Int(entryNodePort), onion.value);
      if !postSucceeds {
        return Outcome(ServerError, Some(post));
      }
      outcome := Outcome(Ok, Some(post));
    }
  }
}
