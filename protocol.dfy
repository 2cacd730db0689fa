/** The onion protocol end to end: the envelope the sender builds is peeled
    by the relays of the circuit in circuit order, each recovering the
    address of the next hop, and the exit relay recovers the original
    message addressed to the destination user. */
module Protocol {
  import opened Common
  import opened Wire
  import opened Crypto
  import opened Registry
  import opened Router
  import opened User

  /** Each circuit entry publishes the public key of the matching private key. */
  predicate KeysMatch(suite: Suite, circuit: seq<Node>, privateKeys: seq<string>) {
    && |privateKeys| == |circuit|
    && forall j :: 0 <= j < |circuit| ==> circuit[j].pubKey == suite.publicKeyOf(privateKeys[j])
  }

  /** Every address the sender encodes for this circuit fits in ten digits. */
  predicate AddressesFit(ports: Ports, circuit: seq<Node>, destinationUserId: int) {
    forall i :: 0 <= i < |circuit| ==>
      0 <= NextHop(ports, circuit, destinationUserId, i) < Pow10(AddressWidth)
  }

  /** What the relay at position i sees: the envelope for position i and the
      payload under it are both built, a relay before the exit has a
      non-empty payload to forward, and peeling with the relay's own key
      gives the ten-digit address of the next hop followed by that payload. */
  predicate LayerPeels(suite: Suite, ports: Ports, circuit: seq<Node>, privateKeys: seq<string>,
                       destinationUserId: int, message: string, symKeys: seq<string>, i: nat)
    requires i < |circuit| <= |symKeys| && |privateKeys| == |circuit|
  {
    var onion := Onion(suite, ports, circuit, destinationUserId, message, symKeys, i);
    var inner := Onion(suite, ports, circuit, destinationUserId, message, symKeys, i + 1);
    var hop := NextHop(ports, circuit, destinationUserId, i);
    && onion.Some? && inner.Some?
    && (i + 1 < |circuit| ==> inner.value != "")
    && Peel(suite, privateKeys[i], onion.value) == Layer(EncodeAddress(hop) + inner.value, Int(hop), inner.value)
  }

  /** Every relay of the circuit can peel its own layer. */
  predicate AllLayersPeel(suite: Suite, ports: Ports, circuit: seq<Node>, privateKeys: seq<string>,
                          destinationUserId: int, message: string, symKeys: seq<string>)
  {
    && |privateKeys| == |circuit| <= |symKeys|
    && forall i: nat :: i < |circuit| ==>
         LayerPeels(suite, ports, circuit, privateKeys, destinationUserId, message, symKeys, i)
  }

  /** Layer isolation: the relay at position i, peeling the layer built for
      it with its own key, reads exactly the address the sender chose for
      that layer and recovers exactly the payload of the previous pass. */
  lemma LayerIsolation(suite: Suite, ports: Ports, circuit: seq<Node>, privateKeys: seq<string>,
                       destinationUserId: int, message: string, symKeys: seq<string>, i: nat)
    requires Sound(suite) && KeysMatch(suite, circuit, privateKeys)
    requires AddressesFit(ports, circuit, destinationUserId)
    requires i < |circuit| <= |symKeys|
    ensures LayerPeels(suite, ports, circuit, privateKeys, destinationUserId, message, symKeys, i)
  {
    OnionBuilt(suite, ports, circuit, privateKeys, destinationUserId, message, symKeys, i + 1);
    var inner := Onion(suite, ports, circuit, destinationUserId, message, symKeys, i + 1).value;
    var hop := NextHop(ports, circuit, destinationUserId, i);
    OnionStep(suite, ports, circuit, destinationUserId, message, symKeys, i, inner);
    PeelWrapped(suite, privateKeys[i], symKeys[i], hop, inner);
    assert circuit[i].pubKey == suite.publicKeyOf(privateKeys[i]);
  }

  /** With matching keys and addresses that fit, every layer peels. */
  lemma EveryLayerPeels(suite: Suite, ports: Ports, circuit: seq<Node>, privateKeys: seq<string>,
                        destinationUserId: int, message: string, symKeys: seq<string>)
    requires Sound(suite) && KeysMatch(suite, circuit, privateKeys)
    requires AddressesFit(ports, circuit, destinationUserId)
    requires |circuit| <= |symKeys|
    ensures AllLayersPeel(suite, ports, circuit, privateKeys, destinationUserId, message, symKeys)
  {
    forall i: nat | i < |circuit|
      ensures LayerPeels(suite, ports, circuit, privateKeys, destinationUserId, message, symKeys, i)
    {
      LayerIsolation(suite, ports, circuit, privateKeys, destinationUserId, message, symKeys, i);
    }
  }

  /** The exit relay, peeling the innermost envelope, reads the destination
      user's port and recovers the original message. */
  lemma ExitDelivers(suite: Suite, ports: Ports, circuit: seq<Node>, privateKeys: seq<string>,
                     destinationUserId: int, message: string, symKeys: seq<string>)
    requires Sound(suite) && KeysMatch(suite, circuit, privateKeys)
    requires AddressesFit(ports, circuit, destinationUserId)
    requires 0 < |circuit| <= |symKeys|
    ensures var exit := |circuit| - 1;
      var userPort := ports.baseUserPort + destinationUserId;
      && Onion(suite, ports, circuit, destinationUserId, message, symKeys, exit).Some?
      && Peel(suite, privateKeys[exit], Onion(suite, ports, circuit, destinationUserId, message, symKeys, exit).value)
         == Layer(EncodeAddress(userPort) + message, Int(userPort), message)
  {
    var exit := |circuit| - 1;
    LayerIsolation(suite, ports, circuit, privateKeys, destinationUserId, message, symKeys, exit);
    assert Onion(suite, ports, circuit, destinationUserId, message, symKeys, exit + 1) == Some(message);
    assert NextHop(ports, circuit, destinationUserId, exit) == ports.baseUserPort + destinationUserId;
  }

  /** A relay before the exit peels its envelope into the port of the next
      relay of the circuit and the non-empty envelope built for that relay. */
  lemma InnerHopForwards(suite: Suite, ports: Ports, circuit: seq<Node>, privateKeys: seq<string>,
                         destinationUserId: int, message: string, symKeys: seq<string>, i: nat)
    requires Sound(suite) && KeysMatch(suite, circuit, privateKeys)
    requires AddressesFit(ports, circuit, destinationUserId)
    requires i + 1 < |circuit| <= |symKeys|
    ensures var onion := Onion(suite, ports, circuit, destinationUserId, message, symKeys, i);
      var inner := Onion(suite, ports, circuit, destinationUserId, message, symKeys, i + 1);
      var port := ports.baseOnionRouterPort + circuit[i + 1].nodeId;
      && onion.Some? && inner.Some? && inner.value != ""
      && Peel(suite, privateKeys[i], onion.value) == Layer(EncodeAddress(port) + inner.value, Int(port), inner.value)
  {
    LayerIsolation(suite, ports, circuit, privateKeys, destinationUserId, message, symKeys, i);
    assert NextHop(ports, circuit, destinationUserId, i) == ports.baseOnionRouterPort + circuit[i + 1].nodeId;
  }

  /** The whole protocol: for a circuit of relays whose published keys match
      their private keys, the sender's envelope is built and every relay of
      the circuit peels its own layer (so, by InnerHopForwards, each relay
      before the exit forwards a non-empty envelope to the next relay's
      port), and the exit relay peels its envelope into the destination
      user's port and the original message. */
  lemma OnionDelivered(suite: Suite, ports: Ports, circuit: seq<Node>, privateKeys: seq<string>,
                       destinationUserId: int, message: string, symKeys: seq<string>)
    requires Sound(suite) && KeysMatch(suite, circuit, privateKeys)
    requires AddressesFit(ports, circuit, destinationUserId)
    requires 0 < |circuit| <= |symKeys|
    ensures Onion(suite, ports, circuit, destinationUserId, message, symKeys, 0).Some?
    ensures AllLayersPeel(suite, ports, circuit, privateKeys, destinationUserId, message, symKeys)
    ensures var exit := |circuit| - 1;
      var userPort := ports.baseUserPort + destinationUserId;
      && Onion(suite, ports, circuit, destinationUserId, message, symKeys, exit).Some?
      && Peel(suite, privateKeys[exit], Onion(suite, ports, circuit, destinationUserId, message, symKeys, exit).value)
         == Layer(EncodeAddress(userPort) + message, Int(userPort), message)
  {
    EveryLayerPeels(suite, ports, circuit, privateKeys, destinationUserId, message, symKeys);
    assert LayerPeels(suite, ports, circuit, privateKeys, destinationUserId, message, symKeys, 0);
    ExitDelivers(suite, ports, circuit, privateKeys, destinationUserId, message, symKeys);
  }
}
