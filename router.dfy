/** An onion router (relay): it receives an envelope on POST /message,
    removes one layer with its private key, reads the next hop from the first
    ten characters of the layer and forwards the rest there. */
module Router {
  import opened Common
  import opened Wire
  import opened Crypto

  /** What peeling one envelope yields. */
  datatype Peeled =
    | BadFormat                      // the split did not give exactly 2 parts
    | CryptoFailure                  // rsaDecrypt or symDecrypt threw
    | Layer(decrypted: string, destination: Num, inner: string)

  /** The peel step as a function of the wire string and the relay's key. */
  function Peel(suite: Suite, privateKey: string, message: string): (p: Peeled)
    ensures p.Layer? ==>
      |p.inner| == if |p.decrypted| <= AddressWidth then 0 else |p.decrypted| - AddressWidth
  {
    var parts := Split(message);
    if |parts| != 2 then BadFormat
    else
      match suite.rsaDecrypt(parts[0], privateKey)
      case None => CryptoFailure
      case Some(symmetricKey) =>
        match suite.symDecrypt(symmetricKey, parts[1])
        case None => CryptoFailure
        case Some(decrypted) =>
          Layer(decrypted, ParseInt(Substring(decrypted, 0, AddressWidth)),
                SubstringFrom(decrypted, AddressWidth))
  }

  /** A wire string in which the delimiter does not occur is rejected as
      malformed before any decryption. */
  lemma PeelRejectsUndelimited(suite: Suite, privateKey: string, message: string)
    ensures NoDelimiter(message) ==> Peel(suite, privateKey, message) == BadFormat
  {
    SplitSingle(message);
  }

  /** A wire string with two non-overlapping occurrences of the delimiter
      is rejected as malformed too. (Overlapping occurrences, as in
      `k|||p`, count once: see Wire.SplitTripleBar.) */
  lemma PeelRejectsExtraDelimiter(suite: Suite, privateKey: string, a: string, b: string, c: string)
    ensures Peel(suite, privateKey, a + Delimiter + b + Delimiter + c) == BadFormat
  {
    SplitTwoDelimiters(a, b, c);
  }

  /** A decrypted layer is cut in two without loss: the destination is read
      from its first min(10, |layer|) characters and the rest is the inner
      message; a layer of at most ten characters leaves nothing to forward. */
  lemma PeelCutsLayer(suite: Suite, privateKey: string, message: string)
    requires Peel(suite, privateKey, message).Layer?
    ensures var p := Peel(suite, privateKey, message);
      var head := Substring(p.decrypted, 0, AddressWidth);
      && |head| == (if |p.decrypted| < AddressWidth then |p.decrypted| else AddressWidth)
      && head + p.inner == p.decrypted
      && p.destination == ParseInt(head)
      && (p.inner == "" <==> |p.decrypted| <= AddressWidth)
  {
    var p := Peel(suite, privateKey, message);
    SubstringCut(p.decrypted, AddressWidth);
  }

  /** Peeling an envelope built for this relay recovers the layer the
      sender encrypted, with its address and remainder. */
  lemma PeelWrapped(suite: Suite, privateKey: string, symmetricKey: string,
                    address: int, payload: string)
    requires Sound(suite)
    requires 0 <= address < Pow10(AddressWidth)
    ensures var encKey := suite.rsaEncrypt(symmetricKey, suite.publicKeyOf(privateKey));
      var layer := EncodeAddress(address) + payload;
      && encKey.Some?
      && Peel(suite, privateKey, encKey.value + Delimiter + suite.symEncrypt(symmetricKey, layer))
         == Layer(layer, Int(address), payload)
  {
    RsaAt(suite, symmetricKey, privateKey);
    var encKeyOpt := suite.rsaEncrypt(symmetricKey, suite.publicKeyOf(privateKey));
    var layer := EncodeAddress(address) + payload;
    var encLayer := suite.symEncrypt(symmetricKey, layer);
    SymAt(suite, symmetricKey, layer);
    assert encKeyOpt.Some?;
    var encKey := encKeyOpt.value;
    assert NoBar(encKey) && NoBar(encLayer);
    assert suite.rsaDecrypt(encKey, privateKey) == Some(symmetricKey);
    assert suite.symDecrypt(symmetricKey, encLayer) == Some(layer);
    var message := encKey + Delimiter + encLayer;
    SplitEnvelope(encKey, encLayer);
    var parts := Split(message);
    assert parts[0] == encKey && parts[1] == encLayer;
    EncodeAddressDigits(address);
    ParseEncodedAddress(address);
    assert layer[..AddressWidth] == EncodeAddress(address);
    assert layer[AddressWidth..] == payload;
    assert Substring(layer, 0, AddressWidth) == EncodeAddress(address);
    assert SubstringFrom(layer, AddressWidth) == payload;
  }

  /** The relay process: its key and the three slots it keeps for
      inspection. */
  class OnionRouter {
    const nodeId: int
    const privateKey: string
    var lastReceivedEncryptedMessage: Option<string>
    var lastReceivedDecryptedMessage: Option<string>
    var lastMessageDestination: Option<Num>

    /** A relay starts with empty slots; its key pair is generated outside
        the model and handed in. */
    constructor (nodeId: int, privateKey: string)
      ensures this.nodeId == nodeId && this.privateKey == privateKey
      ensures lastReceivedEncryptedMessage.None?
      ensures lastReceivedDecryptedMessage.None? && lastMessageDestination.None?
    {
      this.nodeId := nodeId;
      this.privateKey := privateKey;
      lastReceivedEncryptedMessage := None;
      lastReceivedDecryptedMessage := None;
      lastMessageDestination := None;
    }

    /** POST /message. `postSucceeds` is the fate of the forward call, which
        the network decides. */
    method HandleMessage(suite: Suite, message: string, postSucceeds: bool)
      returns (outcome: Outcome)
      modifies this
      ensures lastReceivedEncryptedMessage == Some(message)
      ensures match Peel(suite, privateKey, message)
        case BadFormat =>
          && outcome == Outcome(BadRequest, None)
          && lastReceivedDecryptedMessage == old(lastReceivedDecryptedMessage)
          && lastMessageDestination == old(lastMessageDestination)
        case CryptoFailure =>
          && outcome == Outcome(ServerError, None)
          && lastReceivedDecryptedMessage == old(lastReceivedDecryptedMessage)
          && lastMessageDestination == old(lastMessageDestination)
        case Layer(decrypted, destination, inner) =>
          && lastReceivedDecryptedMessage == Some(decrypted)
          && lastMessageDestination == Some(destination)
          && outcome.post == (if inner != "" then Some(Post(destination, inner)) else None)
          && outcome.reply == (if inner != "" && !postSucceeds then ServerError else Ok)
    {
      lastReceivedEncryptedMessage := Some(message);

      var parts := Split(message);
      if |parts| != 2 {
        return Outcome(BadRequest, None);
      }
      var encryptedKey, encryptedPayload := parts[0], parts[1];

      var symmetricKey := suite.rsaDecrypt(encryptedKey, privateKey);
      if symmetricKey.None? {
        return Outcome(ServerError, None);
      }
      var decryptedPayload := suite.symDecrypt(symmetricKey.value, encryptedPayload);
      if decryptedPayload.None? {
        return Outcome(ServerError, None);
      }
      lastReceivedDecryptedMessage := decryptedPayload;

      var destStr := Substring(decryptedPayload.value, 0, AddressWidth);
      var nextDestination := ParseInt(destStr);
      lastMessageDestination := Some(nextDestination);

      var innerMessage := SubstringFrom(decryptedPayload.value, AddressWidth);
      if innerMessage != "" {
        var post := Post(nextDestination, innerMessage);
        if !postSucceeds {
          return Outcome(ServerError, Some(post));
        }
        return Outcome(Ok, Some(post));
      }
      outcome := Outcome(Ok, None);
    }
  }
}
