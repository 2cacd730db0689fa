# Onion routing: envelope construction, peeling and the node registry

This project models the message path of a small onion-routing network with
three kinds of processes:

- the **registry** keeps a list of `{ nodeId, pubKey }` entries that relays
  register themselves in;
- a **user** sends a message by fetching that list and picking three relays
  at random (the circuit). It then wraps the message in three layers, from the
  exit relay back to the entry relay. Each layer is
  `encryptedKey || symEncrypt(key, address + payload)`, where `address` is
  the ten-digit, zero-padded port of the next hop;
- an **onion router** (relay) receives an envelope, splits it on `"||"`,
  decrypts the symmetric key with its private key and then the layer. It
  reads the next port from the first ten characters and forwards the rest
  there when the rest is not empty.

The model is in Dafny, one module per concern:

| module | file | contents |
|---|---|---|
| `Common` | common.dfy | `Option`, the `NaN`-or-integer result of `parseInt`, the configured base ports, handler outcomes |
| `Wire` | wire.dfy | `split("||")` and join, `toString`/`padStart`, `parseInt(s, 10)`, `substring`, and their laws |
| `Crypto` | crypto.dfy | the cryptographic primitives as function values of a `Suite`, and the assumption `Sound` the protocol relies on |
| `Registry` | registry.dfy | the `findIndex` search, the upsert, and the class `NodeRegistry` with its two handlers |
| `Router` | router.dfy | the peel step `Peel`, and the class `OnionRouter` with its `/message` handler |
| `User` | user.dfy | circuit selection, the envelope `Onion`, the layering loop, and the class `User` with its two handlers |
| `Protocol` | protocol.dfy | layer isolation and the end-to-end delivery theorem |

Each handler is a method of a class whose fields are the handler's state,
such as the registry list and the `last*` slots a relay or user keeps. Each
method is proved against a specification function:

- `RegisterNode` against `Upsert`;
- `FindIndex` against `IndexOf`;
- `HandleMessage` against `Peel`;
- `WrapLayers` and `SendMessage` against `Onion`.

The properties are then proved about those functions.

Everything outside the handlers' own code becomes a parameter:

- the registry snapshot the user fetched, or `None` when the fetch failed;
- the permutation the shuffle produced;
- the fresh symmetric key of each layering pass;
- whether a forwarding call succeeded;
- the base ports from the configuration.

The cryptography (`../crypto`) is not part of this model. A `Suite` holds
`symEncrypt`, `symDecrypt`, `rsaEncrypt`, `rsaDecrypt` and the map from a
private key to its exported public key. `Sound(suite)` states the facts
the protocol relies on:

- decryption undoes encryption under matching keys;
- RSA encryption under the published key of a key pair never fails, for
  data of any length. Real RSA-OAEP limits the plaintext to less than the
  modulus size; the sender only ever RSA-encrypts the base64 text of a
  symmetric key, which is short, but the model does not state that bound,
  and `User.OnionBuilt` ("every layer is built") rests on this assumption;
- ciphertexts are base64 text and so hold no `'|'`.

`Crypto.EscapeSuite` is a concrete suite and `Crypto.EscapeSuiteSound`
proves that it is `Sound`. So the assumptions under which the protocol
lemmas are proved can all hold at once.

The code has no overflow check on addresses, no length check on the
decrypted layer and no non-empty-parts check after the split; the model
follows it:

- `padStart` never truncates, so there is no address-overflow error.
  `Wire.EncodeAddressOverflow` shows that an address of 10^10 or more
  produces more than ten characters.
- The relay does not check that the decrypted layer is at least ten
  characters long. A shorter layer is parsed and simply forwards nothing.
- After the split, the relay checks only that there are two parts, not that
  they are non-empty.
- The split cuts at the leftmost `"||"` and resumes after it, so an
  overlapping `"|||"` counts as one delimiter: `"k|||p"` is accepted as the
  key `"k"` and the payload `"|p"` (`Wire.SplitTripleBar`).

One consequence of the code as written is that an empty message is never
delivered. By `Protocol.ExitDelivers`, the exit relay's remainder is the
user's message itself. By `Router.OnionRouter.HandleMessage`, an empty
remainder is not forwarded, and the relay still answers with success.

## Model

| member | source | states |
|---|---|---|
| Wire.Split | src/onionRouters/simpleOnionRouter.ts:54 | `message.split("||")` always yields at least one part |
| Wire.Join | src/users/user.ts:93 | joining parts puts one two-character delimiter between each pair, so the result is at least as long as the first part plus two characters per further part |
| Wire.SplitJoin | src/onionRouters/simpleOnionRouter.ts:54 | `split("||")` loses nothing: joining the parts with the delimiter gives the wire string back |
| Wire.SplitNoDelimiter | src/onionRouters/simpleOnionRouter.ts:54 | a string in which `"||"` does not occur splits into itself alone |
| Wire.SplitConsCount | src/onionRouters/simpleOnionRouter.ts:54 | putting one character in front of a string keeps its number of parts or adds one |
| Wire.SplitPrefixCount | src/onionRouters/simpleOnionRouter.ts:54 | putting any text in front of a string never lowers its number of parts |
| Wire.SplitDelimiterCount | src/onionRouters/simpleOnionRouter.ts:54 | an occurrence of `"||"` followed by `t` gives at least one part more than `t` alone, whatever precedes it |
| Wire.SplitSingle | src/onionRouters/simpleOnionRouter.ts:54-57 | a string splits into exactly one part if and only if `"||"` does not occur in it, and that part is the string |
| Wire.SplitTwoDelimiters | src/onionRouters/simpleOnionRouter.ts:54-57 | a string of the shape `a + "||" + b + "||" + c` (two non-overlapping occurrences) splits into at least three parts |
| Wire.SplitTripleBar | src/onionRouters/simpleOnionRouter.ts:54 | overlapping occurrences count once: for `k`, `p` without `'|'`, `(k + "|||" + p).split("||")` is `[k, "|" + p]` |
| Wire.SplitAfterNoBar | src/onionRouters/simpleOnionRouter.ts:54 | a `'|'`-free prefix joins the first part of what follows it |
| Wire.SplitEnvelope | src/onionRouters/simpleOnionRouter.ts:54-59 | the envelope parse law: for `k`, `p` without `'|'`, `(k + "||" + p).split("||")` is exactly `[k, p]` |
| Wire.NatToString | src/users/user.ts:69 | `toString` of a non-negative number is non-empty, starts with a digit, and starts with `'0'` only for zero (no leading zeros) |
| Wire.IntToString | src/users/user.ts:69 | `toString` of an integer is non-empty and starts with `'-'` exactly when the number is negative |
| Wire.PadStart | src/users/user.ts:69 | `padStart(width, fill)` has exactly `width` characters when the string is shorter, and the string's own length otherwise |
| Wire.NatToStringValue | src/users/user.ts:69 | `toString` of a non-negative number is all digits, and their decimal value is the number |
| Wire.NatToStringShort | src/users/user.ts:69 | a number below 10^k has at most k digits |
| Wire.NatToStringLong | src/users/user.ts:69 | a number of at least 10^k has more than k digits |
| Wire.PadStartShape | src/users/user.ts:69 | `padStart` keeps the string as a suffix, fills only in front of it, reaches the width and never truncates |
| Wire.EncodeAddress | src/users/user.ts:69 | the encoded next hop is never shorter than ten characters |
| Wire.ValueLeadingZeros | src/users/user.ts:69 | leading `'0'` padding does not change the decimal value |
| Wire.EncodeAddressDigits | src/users/user.ts:69 | for 0 ≤ n < 10^10, `n.toString().padStart(10, "0")` has exactly ten characters, all digits, with decimal value n |
| Wire.EncodeAddressOverflow | src/users/user.ts:69 | for n ≥ 10^10 the encoded address is longer than ten characters (no overflow check, no truncation) |
| Wire.TrimStart | src/onionRouters/simpleOnionRouter.ts:69 | the white space `parseInt` skips is removed from the front only: the rest is no longer and does not start with white space |
| Wire.TrimStartSuffix | src/onionRouters/simpleOnionRouter.ts:69 | `parseInt` skips a prefix of white space and stops at the first other character |
| Wire.DigitPrefix | src/onionRouters/simpleOnionRouter.ts:69 | the digit run `parseInt` reads is made of decimal digits |
| Wire.DigitPrefixShape | src/onionRouters/simpleOnionRouter.ts:69 | that digit run is a prefix and ends at the first non-digit |
| Wire.ParseInt | src/onionRouters/simpleOnionRouter.ts:69 | `parseInt("", 10)` is `NaN`, and a string that starts with a digit parses to a non-negative integer |
| Wire.ParseIntDigits | src/onionRouters/simpleOnionRouter.ts:69 | `parseInt` of a non-empty digit string is its decimal value |
| Wire.ParseEncodedAddress | src/onionRouters/simpleOnionRouter.ts:68-69 | `parseInt` of the sender's encoding of n, for 0 ≤ n < 10^10, is n |
| Wire.Substring | src/onionRouters/simpleOnionRouter.ts:68 | `substring(start, end)` is never longer than the string |
| Wire.SubstringFrom | src/onionRouters/simpleOnionRouter.ts:73 | `substring(start)` has as many characters as follow the clamped start |
| Wire.SubstringCut | src/onionRouters/simpleOnionRouter.ts:68-73 | `substring(0, 10)` has min(10, length) characters, and followed by `substring(10)` it gives back the whole layer |
| Registry.IndexOf | src/registry/registry.ts:32 | `findIndex` returns -1 or an index holding the id, and no earlier index holds it |
| Registry.IndexOfFirst | src/registry/registry.ts:32 | the first index holding the id is the one `findIndex` returns |
| Registry.IndexOfDistinct | src/registry/registry.ts:32 | in a list with distinct ids, the index holding an id is the one `findIndex` returns |
| Registry.NodeRegistry.FindIndex | src/registry/registry.ts:32 | the search loop over the stored list returns exactly `IndexOf` |
| Registry.Upsert | src/registry/registry.ts:32-38 | a valid registration grows the list by at most one entry, and afterwards the list holds `{nodeId, pubKey}` |
| Registry.UpsertExisting | src/registry/registry.ts:32-35 | registering a known id replaces the pubKey at its index only; the length and every other entry stay the same |
| Registry.UpsertNew | src/registry/registry.ts:36-37 | registering a new id appends `{nodeId, pubKey}`; the earlier entries stay the same |
| Registry.UpsertKeepsDistinct | src/registry/registry.ts:32-38 | registering keeps the ids pairwise distinct |
| Registry.UpsertLookup | src/registry/registry.ts:32-38 | after registering, exactly one entry has the id, and it carries the new key |
| Registry.UpsertIdempotent | src/registry/registry.ts:32-38 | repeating the same registration leaves the list as the first one did |
| Registry.UpsertIds | src/registry/registry.ts:32-38 | the ids keep their order: a known id keeps its place and a new one goes last |
| Registry.NodeRegistry.constructor | src/registry/registry.ts:21 | the registry starts empty, with distinct ids |
| Registry.NodeRegistry.RegisterNode | src/registry/registry.ts:27-40 | a missing nodeId or a missing or empty pubKey gives 400 and changes nothing; otherwise the list becomes `Upsert` of the old list and the ids stay distinct |
| Registry.NodeRegistry.GetNodeRegistry | src/registry/registry.ts:42-44 | returns the stored list as it is, in registration order, without changing it |
| Router.Peel | src/onionRouters/simpleOnionRouter.ts:54-73 | when a layer is decrypted, the inner message has the layer's length minus ten characters, or none when the layer has at most ten |
| Router.PeelRejectsUndelimited | src/onionRouters/simpleOnionRouter.ts:54-57 | a wire string without `"||"` is answered as malformed |
| Router.PeelRejectsExtraDelimiter | src/onionRouters/simpleOnionRouter.ts:54-57 | a wire string of the shape `a + "||" + b + "||" + c` (two non-overlapping occurrences of `"||"`) is answered as malformed |
| Router.PeelCutsLayer | src/onionRouters/simpleOnionRouter.ts:68-74 | the destination is `parseInt` of the first min(10, length) characters; that head followed by the inner message is the decrypted layer; the inner message is empty exactly when the layer has at most ten characters |
| Router.PeelWrapped | src/onionRouters/simpleOnionRouter.ts:54-73 | an envelope built for a relay's public key peels, under that relay's private key, into the sender's layer, its address and its remainder |
| Router.OnionRouter.constructor | src/onionRouters/simpleOnionRouter.ts:19-21 | a relay starts with its three slots empty |
| Router.OnionRouter.HandleMessage | src/onionRouters/simpleOnionRouter.ts:48-82 | the raw message is always recorded. A bad split gives 400 and a crypto failure gives 500, both leaving the other slots unchanged. Otherwise the decrypted layer and destination are recorded, a post to the destination is issued exactly when the remainder is non-empty, and the answer is 500 only when that post fails |
| User.Shuffle | src/users/user.ts:55 | the shuffled list has as many entries as the registry list, each of them an entry of the registry list |
| User.Circuit | src/users/user.ts:55-56 | `shuffled.slice(0, 3)` has three entries |
| User.CircuitFromRegistry | src/users/user.ts:55-57 | the circuit is three registry entries at three distinct positions; distinct registry ids give distinct circuit ids |
| User.NextHop | src/users/user.ts:63-68 | the address of layer i: the destination user's port for the exit hop, the next relay's port otherwise (used by `Protocol.ExitDelivers` and `Protocol.InnerHopForwards`) |
| User.Onion | src/users/user.ts:59-93 | every layer the loop adds above the message is a non-empty string `encKey || encPayload` |
| User.OnionFailsOutward | src/users/user.ts:84-93 | a failure at an inner layer leaves no envelope at all |
| User.OnionBuilt | src/users/user.ts:62-94 | when the circuit's keys are published keys of real key pairs, every layer is built |
| User.WrapLayers | src/users/user.ts:59-94 | the loop from the exit hop back to the entry hop computes exactly `Onion` for the whole circuit |
| User.User.constructor | src/users/user.ts:13-15 | a user starts with its three slots empty |
| User.User.ReceiveMessage | src/users/user.ts:34-38 | a delivered message is recorded and answered with success |
| User.User.SendMessage | src/users/user.ts:41-105 | `lastSentMessage` is set even on failure. No registry, or fewer than 3 nodes, gives 500 with no circuit recorded and nothing posted. Otherwise `lastCircuit` is the ids of the first three shuffled nodes, and the envelope goes to the entry relay's port; the answer is 500 when building or posting fails |
| Protocol.LayerIsolation | src/onionRouters/simpleOnionRouter.ts:61-75 | the relay at position i, peeling its own layer, reads exactly the next-hop address the sender chose at user.ts:64-68 and recovers exactly the payload of the previous pass (non-empty before the exit) |
| Protocol.EveryLayerPeels | src/onionRouters/simpleOnionRouter.ts:61-75 | with matching keys and addresses that fit in ten digits, every relay of the circuit peels its own layer |
| Protocol.InnerHopForwards | src/users/user.ts:66-68 | with matching keys and addresses that fit, a relay before the exit peels its envelope into the port of the next relay of the circuit and a non-empty envelope, which it therefore forwards |
| Protocol.ExitDelivers | src/users/user.ts:64-65 | with matching keys and addresses that fit, the exit relay peels its envelope into the destination user's port and the original message |
| Protocol.OnionDelivered | src/users/user.ts:59-98 | end to end: the envelope is built, every relay peels its layer in circuit order, and the exit relay ends with the original message addressed to the destination user's port |

## Left out

- HTTP and Express: routes, `listen`, body parsing, JSON replies and `console` logging are not modelled. Each handler is a method that returns an `Outcome`: the status (400, 500 or success) and the post it issues.
- Network calls (`axios`): the registry fetch is a parameter (`None` when it fails), and the result of each post is a boolean parameter. What the receiving process then does is a separate handler call.
- Cryptography (`../crypto`) is not part of this model: key generation, `exportKey`/`importKey`, RSA-OAEP and the symmetric cipher are abstract functions, constrained only by `Sound`. A symmetric key is modelled by its base64 text, and `rsaDecrypt` includes the relay's re-encoding of the key to base64. An `importKey` failure at user.ts:84-90 is folded into `rsaEncrypt` returning `None`.
- User.WrapLayers: `symEncrypt` is modelled as total, so a failure of it (or of `createRandomSymmetricKey`) is not a separate error path. Every crypto failure on the sending side ends in the same 500.
- The shuffle `nodes.sort(() => 0.5 - Math.random())` is an arbitrary permutation given as a parameter. The model does not capture that the sort reorders the fetched array in place, which is not observable after the handler.
- The configuration values come from `../config`, which is not part of this model. `BASE_USER_PORT` and `BASE_ONION_ROUTER_PORT` are non-negative parameters; `REGISTRY_PORT` plays no part, since the registry fetch is itself a parameter.
- JavaScript numbers are unbounded integers here: no floating point, no exponent form in `toString`, and no precision loss for large ids. `parseInt` yields `NaN` or an integer, and a negative zero reads as 0.
- Registration bodies: `nodeId` and `pubKey` are present-or-absent values of the right type. Only `undefined` `nodeId` is absent, as in the code; a `null` `nodeId` is not modelled.
- Message bodies: `message` is always a present string and `destinationUserId` always a present integer. The effects of an absent or mistyped value are not modelled:
  - an absent `message` at `/sendMessage` sets `lastSentMessage` to `undefined` and makes the sender wrap the text `"undefined"`, which the exit relay then delivers (user.ts:44, 59, 70);
  - an absent `message` at a user's `/message` records `undefined` (user.ts:35-36);
  - an absent `destinationUserId` makes the exit address `"0000000NaN"`, which the exit relay's `parseInt` reads as port 0 (user.ts:65, 69);
  - a non-string `message` at a relay makes its split throw, which answers 500.
- A post to the port `NaN` (an unparsable address) is just a post whose success the network parameter decides.
- The relay's start-up: generating its key pair, exporting keys, the `/getPrivateKey` endpoint and its registration with the registry (simpleOnionRouter.ts:34-45, 90-99). The end-to-end lemmas take the relays' private keys and published keys as parameters related by `KeysMatch`.
- The debug getters (`/getLast…`) are plain reads of the modelled fields.
- Concurrency between handlers is not modelled. Each handler runs to completion, which also matches last-write-wins on the debug slots.
- Strings are sequences of Unicode scalar values, while JavaScript's `length`, `substring` and the ten-character address cut count UTF-16 code units. A character outside the Basic Multilingual Plane counts once here and twice in JavaScript, so for a decrypted layer holding such characters `Wire.Substring`, `Wire.SubstringFrom` and `Router.Peel` can cut at a different place than the relay does (for example, six U+1F600 characters: JavaScript forwards one, the model forwards nothing). The layers the sender builds start with ten ASCII digits, so the protocol lemmas are not affected.
- The listening ports `BASE_ONION_ROUTER_PORT + nodeId` and `BASE_USER_PORT + userId` (simpleOnionRouter.ts:84, user.ts:107) appear only where the sender computes a hop's port (`User.NextHop`, the entry port in `User.User.SendMessage`); `listen` itself is HTTP and not modelled.
- User.Shuffle: states that every shuffled entry comes from the registry list, not that the shuffled list is a multiset permutation of it, because only `slice(0, 3)` of it is used and `User.CircuitFromRegistry` pins those three entries to three distinct positions of the registry list, given by the permutation.
