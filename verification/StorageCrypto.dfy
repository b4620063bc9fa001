// The envelope around stored files (pkg/clients/crypto.go): AES-GCM under a
// key of 32 bytes, written as base64, with files that are not base64 read as
// plain text. AES-GCM itself is a parameter; nonces are arguments.
module StorageCrypto {
  import opened Common
  import opened ByteStrings
  import Base64

  const NONCE_SIZE: nat := 12
  const TAG_SIZE: nat := 16

  // cipher.AEAD under a key: Seal without the nonce prefix, and Open.
  datatype Aead = Aead(seal: (Bytes, Bytes, Bytes) -> Bytes, open: (Bytes, Bytes, Bytes) -> Option<Bytes>) {
    // Open undoes Seal, and a sealed text is one tag longer than its content.
    ghost predicate Lawful() {
      && (forall k: Bytes, n: Bytes, p: Bytes :: |k| == 32 && |n| == NONCE_SIZE ==> open(k, n, seal(k, n, p)) == Some(p))
      && (forall k: Bytes, n: Bytes, c: Bytes :: open(k, n, c).Some? ==> |open(k, n, c).value| + TAG_SIZE == |c|)
    }
  }

  type Key = k: Bytes | |k| == 32 witness seq(32, _ => 0)

  // NewStorageCrypto: no encryption for the empty string, an error for a
  // short one, otherwise the bytes cut or zero-padded to 32.
  function NewStorageCrypto(keyString: Bytes): Result<Option<Key>> {
    if keyString == [] then Ok(None)
    else if |keyString| < 16 then Err("encryption key must be at least 16 characters long")
    else Ok(Some(Padded(keyString)))
  }

  function Padded(key: Bytes): (k: Key) {
    if |key| > 32 then key[..32] else key + seq(32 - |key|, _ => 0)
  }

  function Encrypt(aead: Aead, crypto: Option<Key>, nonce: Bytes, data: Bytes): Bytes
    requires |nonce| == NONCE_SIZE
  {
    match crypto
    case None => data
    case Some(key) => TextBytes(Base64.Encode(Base64.Std, nonce + aead.seal(key, nonce, data)))
  }

  // []byte of a base64 text, whose characters are all of one byte.
  function TextBytes(s: string): Bytes {
    seq(|s|, i requires 0 <= i < |s| => s[i] as int % 256)
  }

  function Decrypt(aead: Aead, crypto: Option<Key>, data: Bytes): Result<Bytes> {
    match crypto
    case None => Ok(data)
    case Some(key) =>
      match Base64.Decode(Base64.Std, FromBytes(data))
      case None => Ok(data)
      case Some(decoded) =>
        if |decoded| < NONCE_SIZE then Err("ciphertext too short")
        else
          match aead.open(key, decoded[..NONCE_SIZE], decoded[NONCE_SIZE..])
          case None => Err("message authentication failed")
          case Some(plain) => Ok(plain)
  }

  lemma {:induction false} EncodedTextBytes(b: Bytes)
    ensures FromBytes(TextBytes(Base64.Encode(Base64.Std, b))) == Base64.Encode(Base64.Std, b)
  {
    var s := Base64.Encode(Base64.Std, b);
    Base64.EncodedCharacters(Base64.Std, b);
    forall i | 0 <= i < |s|
      ensures s[i] as int < 256
    {
      DigitIsByte(s[i]);
    }
  }

  lemma {:induction false} DigitIsByte(c: char)
    ensures Base64.IsDigit(Base64.Std, c) || c == '=' ==> c as int < 256
  {
  }

  // The text is the base64 of the nonce and something that opens, under the
  // key and that nonce, to the data.
  ghost predicate Seals(aead: Aead, key: Bytes, nonce: Bytes, data: Bytes, text: Bytes) {
    exists c :: Base64.Decode(Base64.Std, FromBytes(text)) == Some(nonce + c) && aead.open(key, nonce, c) == Some(data)
  }

  // What is written under a key string of at least 16 bytes is sealed with
  // its first 32 bytes, missing ones being zero, and with the nonce given.
  // Without a key string it is the data.
  lemma {:induction false} EncryptWrites(aead: Aead, keyString: Bytes, key: Bytes, nonce: Bytes, data: Bytes)
    requires aead.Lawful() && |nonce| == NONCE_SIZE
    requires |key| == 32 && forall i :: 0 <= i < 32 ==> key[i] == if i < |keyString| then keyString[i] else 0
    ensures keyString == [] || |keyString| >= 16 <==> NewStorageCrypto(keyString).Ok?
    ensures |keyString| >= 16 ==> Seals(aead, key, nonce, data, Encrypt(aead, NewStorageCrypto(keyString).value, nonce, data))
    ensures keyString == [] ==> Encrypt(aead, NewStorageCrypto(keyString).value, nonce, data) == data
  {
    if |keyString| >= 16 {
      assert Padded(keyString) == key;
      EncryptSeals(aead, key, nonce, data);
    }
  }

  lemma {:induction false} EncryptSeals(aead: Aead, key: Key, nonce: Bytes, data: Bytes)
    requires aead.Lawful() && |nonce| == NONCE_SIZE
    ensures Seals(aead, key, nonce, data, Encrypt(aead, Some(key), nonce, data))
  {
    var c := aead.seal(key, nonce, data);
    EncodedTextBytes(nonce + c);
    Base64.RoundTrip(Base64.Std, nonce + c);
  }

  // What is read under a key is the text itself if it is not base64, and
  // otherwise what its bytes after the first 12 open to under those.
  lemma {:induction false} DecryptIff(aead: Aead, key: Key, text: Bytes, data: Bytes)
    ensures Decrypt(aead, Some(key), text) == Ok(data) <==>
            || (Base64.Decode(Base64.Std, FromBytes(text)) == None && data == text)
            || exists nonce :: |nonce| == 12 && Seals(aead, key, nonce, data, text)
  {
    var decoded := Base64.Decode(Base64.Std, FromBytes(text));
    if decoded.Some? && |decoded.value| >= NONCE_SIZE {
      var nonce, c := decoded.value[..NONCE_SIZE], decoded.value[NONCE_SIZE..];
      assert decoded.value == nonce + c;
      forall n: Bytes, d: Bytes | |n| == 12 && decoded.value == n + d
        ensures n == nonce && d == c
      {
      }
    }
  }

  // Whatever two accepted key strings were given, one to write and one to
  // read, equal padded keys suffice to get the data back, for every nonce.
  lemma {:induction false} DecryptUndoesEncrypt(aead: Aead, writeKey: Bytes, readKey: Bytes, nonce: Bytes, data: Bytes)
    requires aead.Lawful() && |nonce| == NONCE_SIZE
    requires |writeKey| >= 16 && |readKey| >= 16 && Padded(writeKey) == Padded(readKey)
    ensures NewStorageCrypto(writeKey).Ok? && NewStorageCrypto(readKey).Ok?
    ensures Decrypt(aead, NewStorageCrypto(readKey).value,
                    Encrypt(aead, NewStorageCrypto(writeKey).value, nonce, data)) == Ok(data)
  {
    EnvelopeRoundTrip(aead, Padded(writeKey), nonce, data);
  }

  // Exactly the empty key string and those of 16 bytes or more are accepted,
  // and under every accepted one what is written can be read.
  lemma {:induction false} AcceptedKeysRoundTrip(aead: Aead, keyString: Bytes, nonce: Bytes, data: Bytes)
    requires aead.Lawful() && |nonce| == NONCE_SIZE
    ensures NewStorageCrypto(keyString).Ok? <==> keyString == [] || |keyString| >= 16
    ensures NewStorageCrypto(keyString).Ok? ==>
              var crypto := NewStorageCrypto(keyString).value;
              Decrypt(aead, crypto, Encrypt(aead, crypto, nonce, data)) == Ok(data)
  {
    EnvelopeRoundTrip(aead, Padded(keyString), nonce, data);
  }

  lemma {:induction false} EnvelopeRoundTrip(aead: Aead, key: Key, nonce: Bytes, data: Bytes)
    requires aead.Lawful() && |nonce| == NONCE_SIZE
    ensures Decrypt(aead, Some(key), Encrypt(aead, Some(key), nonce, data)) == Ok(data)
  {
    var sealed := aead.seal(key, nonce, data);
    EncodedTextBytes(nonce + sealed);
    Base64.RoundTrip(Base64.Std, nonce + sealed);
    assert (nonce + sealed)[..NONCE_SIZE] == nonce && (nonce + sealed)[NONCE_SIZE..] == sealed;
  }

  // Two key strings of at least 16 bytes act as one exactly when they agree
  // on the first 32 bytes, a missing byte counting as zero.
  lemma {:induction false} PaddedKeysAgreeIff(k1: Bytes, k2: Bytes)
    ensures Padded(k1) == Padded(k2) <==>
            forall i :: 0 <= i < 32 ==> (if i < |k1| then k1[i] else 0) == (if i < |k2| then k2[i] else 0)
  {
    var p1, p2 := Padded(k1), Padded(k2);
    assert forall i :: 0 <= i < 32 ==> p1[i] == if i < |k1| then k1[i] else 0;
    assert forall i :: 0 <= i < 32 ==> p2[i] == if i < |k2| then k2[i] else 0;
    if p1 != p2 {
      var i :| 0 <= i < 32 && p1[i] != p2[i];
    }
  }

  // The migration path: a file is handed back as it is exactly when it is
  // not base64. Plain text that happens to be base64 is not recovered.
  lemma {:induction false} PlainTextKeptIff(aead: Aead, key: Key, data: Bytes)
    requires aead.Lawful()
    ensures Decrypt(aead, Some(key), data) == Ok(data) <==> Base64.Decode(Base64.Std, FromBytes(data)) == None
  {
    Base64.DecodeShrinks(Base64.Std, FromBytes(data));
  }

  // A plain JSON list, beginning with '[', is always read as it stands.
  lemma {:induction false} PlainListKept(aead: Aead, crypto: Option<Key>, data: Bytes)
    requires data != [] && data[0] == '[' as int
    ensures Decrypt(aead, crypto, data) == Ok(data)
  {
    Base64.RejectsForeignFirst(Base64.Std, FromBytes(data));
  }
}
