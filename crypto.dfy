/** The cryptographic primitives the sender and the relays call. Their
    implementation (`../crypto`) is not part of this model: a Suite holds
    them as function values, and Sound states the only facts the protocol
    relies on, namely that decryption undoes encryption under matching keys
    and that every ciphertext is base64 text, hence free of '|'.

    Keys travel as base64 strings: a symmetric key is the base64 text of its
    raw bytes (what the sender encrypts with RSA and what the relay passes to
    symDecrypt), a public key the base64 SPKI text published in the
    registry, a private key the relay's own key. symDecrypt, rsaEncrypt and
    rsaDecrypt return None where the call throws; symEncrypt is total. */
module Crypto {
  import opened Common
  import opened Wire

  datatype Suite = Suite(
    /** symEncrypt(key, data): base64 ciphertext of data. */
    symEncrypt: (string, string) -> string,
    /** symDecrypt(key, ciphertext): the plaintext, or None when it throws. */
    symDecrypt: (string, string) -> Option<string>,
    /** rsaEncrypt(data, publicKey): None when the key cannot be imported. */
    rsaEncrypt: (string, string) -> Option<string>,
    /** rsaDecrypt(ciphertext, privateKey), re-encoded as base64. */
    rsaDecrypt: (string, string) -> Option<string>,
    /** The exported public key that belongs to a private key. */
    publicKeyOf: string -> string)

  /** Symmetric decryption under `key` undoes symmetric encryption under
      `key`, and the ciphertext is base64 text. */
  ghost predicate SymRoundTrip(c: Suite, key: string, data: string) {
    && c.symDecrypt(key, c.symEncrypt(key, data)) == Some(data)
    && NoBar(c.symEncrypt(key, data))
  }

  /** RSA under the public key of `priv` succeeds on `data`, and decrypting
      the result with `priv` gives `data` back. */
  ghost predicate RsaRoundTrip(c: Suite, data: string, priv: string) {
    var encrypted := c.rsaEncrypt(data, c.publicKeyOf(priv));
    encrypted.Some? && c.rsaDecrypt(encrypted.value, priv) == Some(data)
  }

  /** An RSA ciphertext, when there is one, is base64 text. */
  ghost predicate RsaBase64(c: Suite, data: string, pub: string) {
    c.rsaEncrypt(data, pub).Some? ==> NoBar(c.rsaEncrypt(data, pub).value)
  }

  /** What the protocol assumes of the primitives. */
  ghost predicate Sound(c: Suite) {
    && (forall key, data :: SymRoundTrip(c, key, data))
    && (forall data, priv :: RsaRoundTrip(c, data, priv))
    && (forall data, pub :: RsaBase64(c, data, pub))
  }

  /** The symmetric facts Sound gives for one key and one payload. */
  lemma SymAt(c: Suite, key: string, data: string)
    requires Sound(c)
    ensures c.symDecrypt(key, c.symEncrypt(key, data)) == Some(data)
    ensures NoBar(c.symEncrypt(key, data))
  {
    assert SymRoundTrip(c, key, data);
  }

  /** The RSA facts Sound gives for one key and one payload. */
  lemma RsaAt(c: Suite, data: string, priv: string)
    requires Sound(c)
    ensures c.rsaEncrypt(data, c.publicKeyOf(priv)).Some?
    ensures c.rsaDecrypt(c.rsaEncrypt(data, c.publicKeyOf(priv)).value, priv) == Some(data)
    ensures NoBar(c.rsaEncrypt(data, c.publicKeyOf(priv)).value)
  {
    assert RsaRoundTrip(c, data, priv);
    assert RsaBase64(c, data, c.publicKeyOf(priv));
  }

  /** A stand-in encoding without '|': '|' becomes `\b`, the escape
      character `\` is doubled, every other character is kept. */
  function Escape(data: string): (r: string)
    ensures NoBar(r)
    decreases |data|
  {
    if data == [] then []
    else
      var head := if data[0] == '|' then "\\b" else if data[0] == '\\' then "\\\\" else [data[0]];
      head + Escape(data[1..])
  }

  /** The inverse of Escape; None on a dangling or unknown escape. */
  function Unescape(text: string): Option<string>
    decreases |text|
  {
    if text == [] then Some([])
    else if text[0] != '\\' then
      match Unescape(text[1..])
      case None => None
      case Some(rest) => Some([text[0]] + rest)
    else if |text| < 2 then None
    else if text[1] == 'b' || text[1] == '\\' then
      match Unescape(text[2..])
      case None => None
      case Some(rest) => Some([if text[1] == 'b' then '|' else '\\'] + rest)
    else None
  }

  /** Unescape undoes Escape. */
  lemma {:induction false} EscapeRoundTrip(data: string)
    ensures Unescape(Escape(data)) == Some(data)
    decreases |data|
  {
    if data != [] {
      EscapeRoundTrip(data[1..]);
      var tail := Escape(data[1..]);
      var text := Escape(data);
      if data[0] == '|' || data[0] == '\\' {
        assert text[2..] == tail;
      } else {
        assert text[1..] == tail;
      }
      assert data == [data[0]] + data[1..];
    }
  }

  /** A suite in which every key is its own public key and every cipher is
      Escape. It keeps none of the secrecy of the real primitives, but it
      meets Sound, so the assumptions the protocol lemmas rest on can all
      hold at once. */
  function EscapeSuite(): Suite {
    Suite((key: string, data: string) => Escape(data),
          (key: string, text: string) => Unescape(text),
          (data: string, pub: string) => Some(Escape(data)),
          (text: string, priv: string) => Unescape(text),
          (priv: string) => priv)
  }

  lemma EscapeSuiteSound()
    ensures Sound(EscapeSuite())
  {
    var c := EscapeSuite();
    forall key: string, data: string ensures SymRoundTrip(c, key, data) {
      EscapeRoundTrip(data);
    }
    forall data: string, priv: string ensures RsaRoundTrip(c, data, priv) {
      EscapeRoundTrip(data);
    }
  }
}
