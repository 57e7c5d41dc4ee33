/** Compact JWE framing (section 7.1 of RFC 7516) around an abstract cipher and key wrapping. */
module Jwe {
  import opened Text
  import Base64Url

  /** The two header members that are looked at, when present as strings. */
  datatype Header = Header(alg: Option<string>, enc: Option<string>)

  /** The libraries: AES-256-GCM with the tag at the end, RSA-OAEP-256 (none for an unusable key or a failure),
      JSON writing and parsing of headers, and the check for UTF-8. */
  datatype Crypto = Crypto(
    seal: (Bytes, Bytes, Bytes) -> Bytes,
    unseal: (Bytes, Bytes, Bytes) -> Option<Bytes>,
    wrap: (string, Bytes, Bytes) -> Option<Bytes>,
    unwrap: (string, Bytes) -> Option<Bytes>,
    writeHeader: string -> Bytes,
    parseHeader: Bytes -> Option<Header>,
    isUtf8: Bytes -> bool)

  const KEY_LENGTH: nat := 32
  const IV_LENGTH: nat := 12
  const TAG_LENGTH: nat := 16

  datatype JweError =
    | BadKeyLength
    | NotFiveParts
    | BadBase64
    | BadHeader
    | AlgorithmMismatch
    | EncodingMismatch
    | UnexpectedEncryptedKey
    | BadIvLength
    | BadTagLength
    | UnwrapFailed
    | CipherFailed
    | NotUtf8
    | MissingKey
    | Unsupported

  /** The five parts, each encoded, with dots between them; an empty part is the empty text. */
  function Frame(header: Bytes, key: Bytes, iv: Bytes, ciphertext: Bytes, tag: Bytes): string {
    Base64Url.Encode(header) + ['.'] + (Base64Url.Encode(key) + ['.'] + (Base64Url.Encode(iv) + ['.'] +
    (Base64Url.Encode(ciphertext) + ['.'] + Base64Url.Encode(tag))))
  }

  function SealFrame(c: Crypto, header: Bytes, encryptedKey: Bytes, key: Bytes, iv: Bytes, payload: Bytes): string
    requires |c.seal(key, iv, payload)| >= TAG_LENGTH
  {
    var sealed := c.seal(key, iv, payload);
    var cut := |sealed| - TAG_LENGTH;
    Frame(header, encryptedKey, iv, sealed[..cut], sealed[cut..])
  }

  ghost predicate SealsWithTag(c: Crypto) {
    forall key, iv, payload :: |c.seal(key, iv, payload)| == |payload| + TAG_LENGTH
  }

  function EncryptDir(c: Crypto, payload: Bytes, key: Bytes, iv: Bytes): Result<string, JweError>
    requires SealsWithTag(c)
  {
    if |key| != KEY_LENGTH then Err(BadKeyLength)
    else Ok(SealFrame(c, c.writeHeader("dir"), [], key, iv, payload))
  }

  function EncryptRsa(c: Crypto, payload: Bytes, pem: string, cek: Bytes, seed: Bytes, iv: Bytes):
    Result<string, JweError>
    requires SealsWithTag(c)
  {
    var wrapped := c.wrap(pem, cek, seed);
    if wrapped.None? then Err(UnwrapFailed)
    else Ok(SealFrame(c, c.writeHeader("RSA-OAEP-256"), wrapped.value, cek, iv, payload))
  }

  /** What is drawn at random for one encryption. */
  datatype Randomness = Randomness(iv: Bytes, cek: Bytes, seed: Bytes)

  function EncryptIfConfigured(
    c: Crypto, token: Bytes, alg: Option<string>, enc: Option<string>, key: Option<Bytes>, pem: Option<string>,
    random: Randomness): Result<Option<string>, JweError>
    requires SealsWithTag(c)
  {
    if alg.None? then Ok(None)
    else if enc.Some? && enc.value != "A256GCM" then Err(Unsupported)
    else
      var sealed :=
        if alg.value == "dir" then
          if key.None? then Err(MissingKey) else EncryptDir(c, token, key.value, random.iv)
        else if alg.value == "RSA-OAEP-256" then
          if pem.None? then Err(MissingKey)
          else EncryptRsa(c, token, pem.value, random.cek, random.seed, random.iv)
        else Err(Unsupported);
      if sealed.Err? then Err(sealed.error) else Ok(Some(sealed.value))
  }

  /** Header checks shared by both decrypters. */
  function CheckHeader(c: Crypto, part: string, alg: string): Result<(), JweError> {
    var bytes := Base64Url.Decode(part);
    if bytes.None? then Err(BadBase64)
    else
      var header := c.parseHeader(bytes.value);
      if header.None? then Err(BadHeader)
      else if header.value.alg != Some(alg) then Err(AlgorithmMismatch)
      else if header.value.enc != Some("A256GCM") then Err(EncodingMismatch)
      else Ok(())
  }

  /** From the initialization vector on the decrypters do the same. */
  function OpenContent(c: Crypto, key: Bytes, ivPart: string, ctPart: string, tagPart: string):
    Result<Bytes, JweError>
  {
    var iv := Base64Url.Decode(ivPart);
    if iv.None? then Err(BadBase64)
    else if |iv.value| != IV_LENGTH then Err(BadIvLength)
    else
      var ct := Base64Url.Decode(ctPart);
      if ct.None? then Err(BadBase64)
      else
        var tag := Base64Url.Decode(tagPart);
        if tag.None? then Err(BadBase64)
        else if |tag.value| != TAG_LENGTH then Err(BadTagLength)
        else if |key| != KEY_LENGTH then Err(BadKeyLength)
        else
          var plain := c.unseal(key, iv.value, ct.value + tag.value);
          if plain.None? then Err(CipherFailed)
          else if !c.isUtf8(plain.value) then Err(NotUtf8)
          else Ok(plain.value)
  }

  function DecryptDir(c: Crypto, jwe: string, key: Bytes): Result<Bytes, JweError> {
    var parts := Split(jwe, '.');
    if |key| != KEY_LENGTH then Err(BadKeyLength)
    else if |parts| != 5 then Err(NotFiveParts)
    else
      var header := CheckHeader(c, parts[0], "dir");
      if header.Err? then Err(header.error)
      else if parts[1] != "" then Err(UnexpectedEncryptedKey)
      else OpenContent(c, key, parts[2], parts[3], parts[4])
  }

  function DecryptRsa(c: Crypto, jwe: string, pem: string): Result<Bytes, JweError> {
    var parts := Split(jwe, '.');
    if |parts| != 5 then Err(NotFiveParts)
    else
      var header := CheckHeader(c, parts[0], "RSA-OAEP-256");
      if header.Err? then Err(header.error)
      else
        var wrapped := Base64Url.Decode(parts[1]);
        if wrapped.None? then Err(BadBase64)
        else
          var cek := c.unwrap(pem, wrapped.value);
          if cek.None? then Err(UnwrapFailed)
          else OpenContent(c, cek.value, parts[2], parts[3], parts[4])
  }

  function Decrypt(c: Crypto, jwe: string, key: Option<Bytes>, pem: Option<string>): Result<Bytes, JweError> {
    var parts := Split(jwe, '.');
    if |parts| != 5 then Err(NotFiveParts)
    else
      var bytes := Base64Url.Decode(parts[0]);
      if bytes.None? then Err(BadBase64)
      else
        var header := c.parseHeader(bytes.value);
        if header.None? || header.value.alg.None? then Err(BadHeader)
        else if header.value.alg.value == "dir" then
          if key.None? then Err(MissingKey) else DecryptDir(c, jwe, key.value)
        else if header.value.alg.value == "RSA-OAEP-256" then
          if pem.None? then Err(MissingKey) else DecryptRsa(c, jwe, pem.value)
        else Err(Unsupported)
  }

  // ----- Framing -----

  lemma SplitFive(a: string, b: string, c: string, d: string, e: string)
    requires '.' !in a && '.' !in b && '.' !in c && '.' !in d && '.' !in e
    ensures Split(a + ['.'] + (b + ['.'] + (c + ['.'] + (d + ['.'] + e))), '.') == [a, b, c, d, e]
  {
    SplitOne(e, '.');
    SplitFirst(d, '.', e);
    SplitFirst(c, '.', d + ['.'] + e);
    SplitFirst(b, '.', c + ['.'] + (d + ['.'] + e));
    SplitFirst(a, '.', b + ['.'] + (c + ['.'] + (d + ['.'] + e)));
  }

  /** The five parts of a frame are recovered by splitting at the dots, empty parts included. */
  lemma SplitFrame(header: Bytes, key: Bytes, iv: Bytes, ciphertext: Bytes, tag: Bytes)
    ensures Split(Frame(header, key, iv, ciphertext, tag), '.')
         == [Base64Url.Encode(header), Base64Url.Encode(key), Base64Url.Encode(iv), Base64Url.Encode(ciphertext),
             Base64Url.Encode(tag)]
  {
    Base64Url.DecodeEncode(header);
    Base64Url.DecodeEncode(key);
    Base64Url.DecodeEncode(iv);
    Base64Url.DecodeEncode(ciphertext);
    Base64Url.DecodeEncode(tag);
    SplitFive(Base64Url.Encode(header), Base64Url.Encode(key), Base64Url.Encode(iv), Base64Url.Encode(ciphertext),
              Base64Url.Encode(tag));
  }

  function Join(parts: seq<string>): string
    requires parts != []
  {
    if |parts| == 1 then parts[0] else parts[0] + ['.'] + Join(parts[1..])
  }

  lemma {:induction false} JoinSplit(s: string)
    ensures Join(Split(s, '.')) == s
  {
    if s != "" {
      var tail := Split(s[1..], '.');
      JoinSplit(s[1..]);
      assert s == [s[0]] + s[1..];
      if s[0] == '.' {
        assert ([[]] + tail)[1..] == tail;
      } else {
        assert ([[s[0]] + tail[0]] + tail[1..])[1..] == tail[1..];
      }
    }
  }

  lemma JoinFive(a: string, b: string, c: string, d: string, e: string)
    ensures Join([a, b, c, d, e]) == a + ['.'] + (b + ['.'] + (c + ['.'] + (d + ['.'] + e)))
  {
    assert [a, b, c, d, e][1..] == [b, c, d, e] && [b, c, d, e][1..] == [c, d, e];
    assert [c, d, e][1..] == [d, e] && [d, e][1..] == [e];
    assert Join([e]) == e;
    assert Join([d, e]) == d + ['.'] + e;
    assert Join([c, d, e]) == c + ['.'] + (d + ['.'] + e);
  }

  /** A text falls into five decodable parts exactly when it is the frame of what they decode to. */
  lemma FrameOf(jwe: string, header: Bytes, key: Bytes, iv: Bytes, ciphertext: Bytes, tag: Bytes)
    requires var parts := Split(jwe, '.');
             && |parts| == 5
             && Base64Url.Decode(parts[0]) == Some(header) && Base64Url.Decode(parts[1]) == Some(key)
             && Base64Url.Decode(parts[2]) == Some(iv) && Base64Url.Decode(parts[3]) == Some(ciphertext)
             && Base64Url.Decode(parts[4]) == Some(tag)
    ensures jwe == Frame(header, key, iv, ciphertext, tag)
  {
    var parts := Split(jwe, '.');
    Base64Url.DecodesExactly(parts[0], header);
    Base64Url.DecodesExactly(parts[1], key);
    Base64Url.DecodesExactly(parts[2], iv);
    Base64Url.DecodesExactly(parts[3], ciphertext);
    Base64Url.DecodesExactly(parts[4], tag);
    JoinSplit(jwe);
    assert parts == [parts[0], parts[1], parts[2], parts[3], parts[4]];
    JoinFive(parts[0], parts[1], parts[2], parts[3], parts[4]);
  }

  // ----- What is accepted -----

  ghost predicate HeaderOk(c: Crypto, header: Bytes, alg: string) {
    c.parseHeader(header) == Some(Header(Some(alg), Some("A256GCM")))
  }

  /** The content opens under `key` to `payload`. */
  ghost predicate ContentOk(c: Crypto, key: Bytes, iv: Bytes, ciphertext: Bytes, tag: Bytes, payload: Bytes) {
    && |key| == 32 && |iv| == 12 && |tag| == 16
    && c.unseal(key, iv, ciphertext + tag) == Some(payload) && c.isUtf8(payload)
  }

  lemma OpenContentExact(c: Crypto, key: Bytes, iv: Bytes, ciphertext: Bytes, tag: Bytes, payload: Bytes)
    ensures OpenContent(c, key, Base64Url.Encode(iv), Base64Url.Encode(ciphertext), Base64Url.Encode(tag)) == Ok(payload)
       <==> ContentOk(c, key, iv, ciphertext, tag, payload)
  {
    Base64Url.DecodeEncode(iv);
    Base64Url.DecodeEncode(ciphertext);
    Base64Url.DecodeEncode(tag);
  }

  lemma DirFrameAccepted(
    c: Crypto, key: Bytes, header: Bytes, iv: Bytes, ciphertext: Bytes, tag: Bytes, payload: Bytes)
    requires HeaderOk(c, header, "dir") && ContentOk(c, key, iv, ciphertext, tag, payload)
    ensures DecryptDir(c, Frame(header, [], iv, ciphertext, tag), key) == Ok(payload)
  {
    SplitFrame(header, [], iv, ciphertext, tag);
    Base64Url.DecodeEncode(header);
    OpenContentExact(c, key, iv, ciphertext, tag, payload);
  }

  /** The direct decrypter accepts exactly the frames with an empty key part whose content opens. */
  lemma DecryptDirExact(c: Crypto, jwe: string, key: Bytes, payload: Bytes)
    ensures DecryptDir(c, jwe, key) == Ok(payload)
       <==> exists header, iv, ciphertext, tag ::
              && jwe == Frame(header, [], iv, ciphertext, tag)
              && HeaderOk(c, header, "dir") && ContentOk(c, key, iv, ciphertext, tag, payload)
  {
    if DecryptDir(c, jwe, key) == Ok(payload) {
      var parts := Split(jwe, '.');
      var header, iv := Base64Url.Decode(parts[0]).value, Base64Url.Decode(parts[2]).value;
      var ciphertext, tag := Base64Url.Decode(parts[3]).value, Base64Url.Decode(parts[4]).value;
      FrameOf(jwe, header, [], iv, ciphertext, tag);
      assert HeaderOk(c, header, "dir") && ContentOk(c, key, iv, ciphertext, tag, payload);
    }
    if header, iv, ciphertext, tag :|
      && jwe == Frame(header, [], iv, ciphertext, tag)
      && HeaderOk(c, header, "dir") && ContentOk(c, key, iv, ciphertext, tag, payload) {
      DirFrameAccepted(c, key, header, iv, ciphertext, tag, payload);
    }
  }

  lemma RsaFrameAccepted(
    c: Crypto, pem: string, header: Bytes, wrapped: Bytes, iv: Bytes, ciphertext: Bytes, tag: Bytes, payload: Bytes)
    requires HeaderOk(c, header, "RSA-OAEP-256") && c.unwrap(pem, wrapped).Some?
    requires ContentOk(c, c.unwrap(pem, wrapped).value, iv, ciphertext, tag, payload)
    ensures DecryptRsa(c, Frame(header, wrapped, iv, ciphertext, tag), pem) == Ok(payload)
  {
    SplitFrame(header, wrapped, iv, ciphertext, tag);
    Base64Url.DecodeEncode(header);
    Base64Url.DecodeEncode(wrapped);
    OpenContentExact(c, c.unwrap(pem, wrapped).value, iv, ciphertext, tag, payload);
  }

  /** The RSA decrypter accepts exactly the frames whose key part unwraps to a key that opens the content. */
  lemma DecryptRsaExact(c: Crypto, jwe: string, pem: string, payload: Bytes)
    ensures DecryptRsa(c, jwe, pem) == Ok(payload)
       <==> exists header, wrapped, iv, ciphertext, tag ::
              && jwe == Frame(header, wrapped, iv, ciphertext, tag)
              && HeaderOk(c, header, "RSA-OAEP-256") && c.unwrap(pem, wrapped).Some?
              && ContentOk(c, c.unwrap(pem, wrapped).value, iv, ciphertext, tag, payload)
  {
    if DecryptRsa(c, jwe, pem) == Ok(payload) {
      var parts := Split(jwe, '.');
      var header, wrapped := Base64Url.Decode(parts[0]).value, Base64Url.Decode(parts[1]).value;
      var iv := Base64Url.Decode(parts[2]).value;
      var ciphertext, tag := Base64Url.Decode(parts[3]).value, Base64Url.Decode(parts[4]).value;
      FrameOf(jwe, header, wrapped, iv, ciphertext, tag);
      assert HeaderOk(c, header, "RSA-OAEP-256");
      assert ContentOk(c, c.unwrap(pem, wrapped).value, iv, ciphertext, tag, payload);
    }
    if header, wrapped, iv, ciphertext, tag :|
      && jwe == Frame(header, wrapped, iv, ciphertext, tag)
      && HeaderOk(c, header, "RSA-OAEP-256") && c.unwrap(pem, wrapped).Some?
      && ContentOk(c, c.unwrap(pem, wrapped).value, iv, ciphertext, tag, payload) {
      RsaFrameAccepted(c, pem, header, wrapped, iv, ciphertext, tag, payload);
    }
  }

  // ----- The round trip -----

  /** The libraries undo themselves: the cipher, the key wrapping under this pair of keys, and the headers. */
  ghost predicate Lawful(c: Crypto, publicPem: string, privatePem: string) {
    && SealsWithTag(c)
    && (forall key, iv, payload :: c.unseal(key, iv, c.seal(key, iv, payload)) == Some(payload))
    && (forall cek, seed :: c.wrap(publicPem, cek, seed).Some? ==>
          c.unwrap(privatePem, c.wrap(publicPem, cek, seed).value) == Some(cek))
    && HeaderOk(c, c.writeHeader("dir"), "dir")
    && HeaderOk(c, c.writeHeader("RSA-OAEP-256"), "RSA-OAEP-256")
  }

  lemma SealedContentOk(c: Crypto, key: Bytes, iv: Bytes, payload: Bytes)
    requires SealsWithTag(c) && c.unseal(key, iv, c.seal(key, iv, payload)) == Some(payload)
    requires |key| == KEY_LENGTH && |iv| == IV_LENGTH && c.isUtf8(payload)
    ensures var sealed := c.seal(key, iv, payload);
            ContentOk(c, key, iv, sealed[..|sealed| - TAG_LENGTH], sealed[|sealed| - TAG_LENGTH..], payload)
  {
    var sealed := c.seal(key, iv, payload);
    var cut := |sealed| - TAG_LENGTH;
    assert sealed[..cut] + sealed[cut..] == sealed;
  }

  lemma DecryptDispatches(
    c: Crypto, header: Bytes, key: Bytes, iv: Bytes, ciphertext: Bytes, tag: Bytes, alg: string,
    symmetric: Option<Bytes>, pem: Option<string>)
    requires HeaderOk(c, header, alg)
    ensures var jwe := Frame(header, key, iv, ciphertext, tag);
            && (alg == "dir" && symmetric.Some? ==>
                  Decrypt(c, jwe, symmetric, pem) == DecryptDir(c, jwe, symmetric.value))
            && (alg == "RSA-OAEP-256" && pem.Some? ==>
                  Decrypt(c, jwe, symmetric, pem) == DecryptRsa(c, jwe, pem.value))
  {
    SplitFrame(header, key, iv, ciphertext, tag);
    Base64Url.DecodeEncode(header);
  }

  lemma DirRoundTrip(c: Crypto, token: Bytes, key: Bytes, iv: Bytes, pem: Option<string>)
    requires SealsWithTag(c) && c.unseal(key, iv, c.seal(key, iv, token)) == Some(token) && c.isUtf8(token)
    requires HeaderOk(c, c.writeHeader("dir"), "dir") && |key| == KEY_LENGTH && |iv| == IV_LENGTH
    ensures Decrypt(c, EncryptDir(c, token, key, iv).value, Some(key), pem) == Ok(token)
  {
    var sealed := c.seal(key, iv, token);
    var ciphertext, tag := sealed[..|sealed| - TAG_LENGTH], sealed[|sealed| - TAG_LENGTH..];
    var header := c.writeHeader("dir");
    SealedContentOk(c, key, iv, token);
    DecryptDispatches(c, header, [], iv, ciphertext, tag, "dir", Some(key), pem);
    DirFrameAccepted(c, key, header, iv, ciphertext, tag, token);
  }

  lemma RsaRoundTrip(
    c: Crypto, token: Bytes, publicPem: string, privatePem: string, random: Randomness, key: Option<Bytes>)
    requires Lawful(c, publicPem, privatePem) && c.isUtf8(token)
    requires |random.iv| == IV_LENGTH && |random.cek| == KEY_LENGTH
    requires c.wrap(publicPem, random.cek, random.seed).Some?
    ensures Decrypt(c, EncryptRsa(c, token, publicPem, random.cek, random.seed, random.iv).value, key,
                    Some(privatePem)) == Ok(token)
  {
    var sealed := c.seal(random.cek, random.iv, token);
    var ciphertext, tag := sealed[..|sealed| - TAG_LENGTH], sealed[|sealed| - TAG_LENGTH..];
    var header, wrapped := c.writeHeader("RSA-OAEP-256"), c.wrap(publicPem, random.cek, random.seed).value;
    SealedContentOk(c, random.cek, random.iv, token);
    DecryptDispatches(c, header, wrapped, random.iv, ciphertext, tag, "RSA-OAEP-256", key, Some(privatePem));
    RsaFrameAccepted(c, privatePem, header, wrapped, random.iv, ciphertext, tag, token);
  }

  /** What a client's settings encrypt, decryption with the matching key gives back: for every payload,
      for either algorithm, whatever is drawn at random and whatever other key material is passed along. */
  lemma DecryptUndoesEncrypt(
    c: Crypto, token: Bytes, alg: Option<string>, enc: Option<string>, key: Option<Bytes>, publicPem: string,
    privatePem: string, random: Randomness)
    requires Lawful(c, publicPem, privatePem) && c.isUtf8(token)
    requires |random.iv| == IV_LENGTH && |random.cek| == KEY_LENGTH
    ensures var sealed := EncryptIfConfigured(c, token, alg, enc, key, Some(publicPem), random);
            sealed.Ok? && sealed.value.Some? ==> Decrypt(c, sealed.value.value, key, Some(privatePem)) == Ok(token)
  {
    var sealed := EncryptIfConfigured(c, token, alg, enc, key, Some(publicPem), random);
    if sealed.Ok? && sealed.value.Some? {
      if alg.value == "dir" {
        DirRoundTrip(c, token, key.value, random.iv, Some(privatePem));
      } else {
        RsaRoundTrip(c, token, publicPem, privatePem, random, key);
      }
    }
  }

  /** When a token is encrypted, left alone or refused, by the settings alone. */
  lemma EncryptsExactly(
    c: Crypto, token: Bytes, alg: Option<string>, enc: Option<string>, key: Option<Bytes>, pem: Option<string>,
    random: Randomness)
    requires SealsWithTag(c)
    ensures var r := EncryptIfConfigured(c, token, alg, enc, key, pem, random);
            && (r == Ok(None) <==> alg.None?)
            && (r.Ok? && r.value.Some? <==>
                  && (enc == None || enc == Some("A256GCM"))
                  && ((alg == Some("dir") && key.Some? && |key.value| == 32)
                      || (alg == Some("RSA-OAEP-256") && pem.Some?
                          && c.wrap(pem.value, random.cek, random.seed).Some?)))
  {
  }
}
