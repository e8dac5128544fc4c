/** The credential hasher: salted SHA-256 of a password, rendered as hex. */
module Hasher {
  import opened Bytes
  import opened Wrappers
  import Hex
  import Utf8

  /** A SHA-256 digest: 32 octets. */
  type Digest = d: seq<byte> | |d| == 32 witness seq(32, _ => 0)

  /** SHA-256 (FIPS 180-4) is left uninterpreted: it is a parameter, so what
      is proved here holds for every function of this shape. */
  type Sha256 = seq<byte> -> Digest

  /** The 16 octets `secrets.token_bytes(16)` returns. */
  type SaltBytes = b: seq<byte> | |b| == 16 witness seq(16, _ => 0)

  /** The pair `(digest, salt.hex())` that hashing returns. */
  datatype Hashed = Hashed(digest: string, salt: string)

  /** Python's truth test on an optional salt: None and "" are false. */
  predicate IsFalsy(saltHex: Option<string>) {
    saltHex == None || saltHex == Some("")
  }

  /** `hash_password(password, salt_hex)`. A falsy salt is replaced by the
      fresh random salt `newSalt`; any other salt text is parsed with
      `bytes.fromhex`, whose ValueError on malformed text is None here. */
  function HashPassword(H: Sha256, password: string, saltHex: Option<string>, newSalt: SaltBytes): (r: Option<Hashed>)
    ensures IsFalsy(saltHex) ==> r.Some? && |r.value.salt| == 32 && Hex.Decode(r.value.salt) == Some(newSalt)
    ensures !IsFalsy(saltHex) ==> (r.Some? <==> Hex.Decode(saltHex.value).Some?)
    ensures !IsFalsy(saltHex) && r.Some? ==> Hex.Decode(r.value.salt) == Hex.Decode(saltHex.value)
    ensures r.Some? ==> Hex.IsLowerHex(r.value.salt) && Hex.IsLowerHex(r.value.digest) && |r.value.digest| == 64
    // the digest is SHA-256 over the returned salt's octets followed by the password's UTF-8 octets
    ensures r.Some? ==>
              Hex.Decode(r.value.salt).Some? &&
              r.value.digest == Hex.Encode(H(Hex.Decode(r.value.salt).value + Utf8.Encode(password)))
  {
    var salt :- if IsFalsy(saltHex) then Some(newSalt) else Hex.Decode(saltHex.value);
    Hex.DecodeEncode(salt);
    Some(Hashed(Hex.Encode(H(salt + Utf8.Encode(password))), Hex.Encode(salt)))
  }

  /** With a salt supplied, hashing does not depend on the randomness. */
  lemma HashPasswordDeterministic(H: Sha256, password: string, saltHex: Option<string>, f1: SaltBytes, f2: SaltBytes)
    requires !IsFalsy(saltHex)
    ensures HashPassword(H, password, saltHex, f1) == HashPassword(H, password, saltHex, f2)
  {
  }

  /** A supplied salt comes back re-encoded, which for lower-case hex of even
      length is the text that was supplied. */
  lemma HashPasswordEchoesSalt(H: Sha256, password: string, saltHex: string, newSalt: SaltBytes)
    requires saltHex != "" && Hex.IsLowerHex(saltHex) && |saltHex| % 2 == 0
    ensures HashPassword(H, password, Some(saltHex), newSalt).Some?
    ensures HashPassword(H, password, Some(saltHex), newSalt).value.salt == saltHex
  {
    Hex.EncodeDecode(saltHex);
  }

  /** Hashing again with the salt that hashing returned reproduces the same
      digest and salt: what login relies on. The salt must be non-empty, since
      "" is falsy and would draw a newSalt salt. */
  lemma RehashReproduces(H: Sha256, password: string, saltHex: Option<string>, newSalt: SaltBytes, newSalt': SaltBytes)
    requires HashPassword(H, password, saltHex, newSalt).Some?
    requires HashPassword(H, password, saltHex, newSalt).value.salt != ""
    ensures HashPassword(H, password, Some(HashPassword(H, password, saltHex, newSalt).value.salt), newSalt')
         == HashPassword(H, password, saltHex, newSalt)
  {
    var r := HashPassword(H, password, saltHex, newSalt).value;
    Hex.EncodeDecode(r.salt);
  }

  /** A salt of whitespace only is truthy, yet `fromhex` turns it into no
      octets at all, so the returned salt is "" and a later re-hash would draw
      a newSalt salt instead. */
  lemma BlankSaltIsEmpty(H: Sha256, password: string, newSalt: SaltBytes)
    ensures HashPassword(H, password, Some(" "), newSalt).Some?
    ensures HashPassword(H, password, Some(" "), newSalt).value.salt == ""
  {
    assert Hex.Decode(" ") == Some([]);
  }
}
