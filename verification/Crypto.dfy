/**
 The cryptographic primitives of a circuit, taken symbolically.

 X25519 (sections 5 and 6.1 of RFC 7748) is modelled by the unordered pair of the two private
 scalars: both ends of an exchange obtain the same key, and different pairs give different keys.
 ChaCha20-Poly1305 (section 2.8 of RFC 8439) is modelled by a constructor that only the right key
 takes apart. Random values are inputs; `None` is a failed read of the random source.
 */
module Crypto {
  import opened Basics

  type CircuitId = nat

  /** A relay is known by its 32-byte public key. */
  type RelayId = seq<byte>

  /** What arrives as a public key: a genuine one, a low-order point, or bytes of the wrong length. */
  datatype PublicKey = Pub(scalar: nat) | LowOrder | Malformed

  /** SHA-256 of the X25519 secret of two scalars, smaller scalar first. */
  datatype Key = Key(lo: nat, hi: nat)

  /** Byte strings. A serialized message carries its wire size, which the TL library decides. */
  datatype Bytes =
    | Plain(data: seq<byte>)
    | Sealed(key: Key, nonce: nat, body: Bytes)
    | ExtendPayload(addrLen: nat, addr: string, clientKey: PublicKey)
    | Serialized(msg: Message, size: nat)

  datatype Message =
    | CircuitCreate(circuitId: CircuitId, clientKey: PublicKey)
    | CircuitCreated(circuitId: CircuitId, relayKey: PublicKey)
    | CircuitExtend(circuitId: CircuitId, nextRelay: RelayId, encrypted: Bytes)
    | CircuitExtended(circuitId: CircuitId, relayKey: PublicKey)
    | CircuitRelay(circuitId: CircuitId, encrypted: Bytes)
    | CircuitRelayResponse(circuitId: CircuitId, encrypted: Bytes)
    | CircuitDestroy(circuitId: CircuitId)

  datatype CryptoError = InvalidKeyLength | RandomFailed | TooShort | AuthFailed

  /** Nonce (12 bytes) and Poly1305 tag (16 bytes). */
  const SEAL_OVERHEAD := 28

  function Length(b: Bytes): nat {
    match b
    case Plain(data) => |data|
    case Sealed(_, _, body) => SEAL_OVERHEAD + Length(body)
    case ExtendPayload(_, addr, _) => 2 + |addr| + 32
    case Serialized(_, size) => size
  }

  /** The key both ends derive; the all-zero secret of a low-order point is refused. */
  function ComputeSharedKey(priv: nat, peer: PublicKey): (k: Option<Key>)
    ensures k.Some? <==> peer.Pub?
  {
    match peer
    case Pub(scalar) => Some(if priv <= scalar then Key(priv, scalar) else Key(scalar, priv))
    case LowOrder => None
    case Malformed => None
  }

  /** A key slot that was never negotiated is nil, hence of the wrong length. */
  function EncryptPayload(data: Bytes, key: Option<Key>, nonce: Option<nat>): Result<Bytes, CryptoError> {
    if key.None? then Err(InvalidKeyLength)
    else if nonce.None? then Err(RandomFailed)
    else Ok(Sealed(key.value, nonce.value, data))
  }

  function DecryptPayload(data: Bytes, key: Option<Key>): (r: Result<Bytes, CryptoError>)
    ensures r.Ok? <==> key.Some? && data.Sealed? && data.key == key.value
    ensures r.Ok? ==> r.value == data.body && r.value < data
    ensures r == Err(InvalidKeyLength) <==> key.None?
    ensures r == Err(TooShort) <==> key.Some? && Length(data) < 28
  {
    if key.None? then Err(InvalidKeyLength)
    else if Length(data) < SEAL_OVERHEAD then Err(TooShort)
    else if data.Sealed? && data.key == key.value then Ok(data.body)
    else Err(AuthFailed)
  }

  /** Both ends of a key exchange derive the same key, and only that pair of scalars derives it. */
  lemma KeyExchangeAgrees(a: nat, b: nat, c: nat, d: nat)
    ensures ComputeSharedKey(a, Pub(b)) == ComputeSharedKey(b, Pub(a))
    ensures ComputeSharedKey(a, Pub(b)) == ComputeSharedKey(c, Pub(d)) <==> multiset{a, b} == multiset{c, d}
  {
    if multiset{a, b} == multiset{c, d} {
      assert a in multiset{c, d};
      assert b in multiset{c, d};
      assert c in multiset{a, b};
      assert d in multiset{a, b};
    }
  }
}
