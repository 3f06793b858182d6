/** Garlic encryption: one layer per hop, exit innermost. */
module Layers {
  import opened Basics
  import opened Crypto

  /** The layered message: hop 0's layer outermost. */
  ghost function Onion(keys: seq<Key>, nonces: seq<nat>, data: Bytes): Bytes
    requires |keys| == |nonces|
  {
    if keys == [] then data
    else Sealed(keys[0], nonces[0], Onion(keys[1..], nonces[1..], data))
  }

  /** Relays decrypting in turn, the first key first. */
  function Peel(keys: seq<Key>, m: Bytes): Result<Bytes, CryptoError> {
    if keys == [] then Ok(m)
    else
      match DecryptPayload(m, Some(keys[0]))
      case Ok(inner) => Peel(keys[1..], inner)
      case Err(e) => Err(e)
  }

  /** The furthest the holder of a set of keys can see into a message. */
  function Exposed(held: set<Key>, m: Bytes): Bytes {
    if m.Sealed? && m.key in held then Exposed(held, m.body) else m
  }

  datatype LayerError = LayerError(layer: nat, cause: CryptoError)

  /** The key slots and random reads that make every layer succeed. */
  ghost predicate CanSeal(keys: seq<Option<Key>>, random: nat -> Option<nat>, from: nat)
  {
    forall i :: from <= i < |keys| ==> keys[i].Some? && random(i).Some?
  }

  ghost function Values(keys: seq<Option<Key>>, from: nat): (ks: seq<Key>)
    requires from <= |keys|
    requires forall i :: from <= i < |keys| ==> keys[i].Some?
    ensures |ks| == |keys| - from
  {
    seq(|keys| - from, i requires 0 <= i < |keys| - from => keys[from + i].value)
  }

  ghost function Nonces(n: nat, random: nat -> Option<nat>, from: nat): (ns: seq<nat>)
    requires from <= n
    requires forall i :: from <= i < n ==> random(i).Some?
    ensures |ns| == n - from
  {
    seq(n - from, i requires 0 <= i < n - from => random(from + i).value)
  }

  /** Seals from the exit inwards; `random(i)` is the nonce read for layer i. */
  method EncryptLayers(keys: seq<Option<Key>>, data: Bytes, random: nat -> Option<nat>)
    returns (r: Result<Bytes, LayerError>)
    ensures r.Ok? <==> CanSeal(keys, random, 0)
    ensures r.Ok? ==> r.value == Onion(Values(keys, 0), Nonces(|keys|, random, 0), data)
    ensures r.Err? ==> var i := r.error.layer;
      && i < |keys| && CanSeal(keys, random, i + 1) && (keys[i].None? || random(i).None?)
      && r.error.cause == if keys[i].None? then InvalidKeyLength else RandomFailed
  {
    var encrypted := data;
    var i := |keys|;
    while i > 0
      invariant 0 <= i <= |keys|
      invariant CanSeal(keys, random, i)
      invariant encrypted == Onion(Values(keys, i), Nonces(|keys|, random, i), data)
    {
      i := i - 1;
      match EncryptPayload(encrypted, keys[i], random(i)) {
        case Err(e) => return Err(LayerError(i, e));
        case Ok(layered) =>
          assert Values(keys, i)[1..] == Values(keys, i + 1);
          assert Nonces(|keys|, random, i)[1..] == Nonces(|keys|, random, i + 1);
          encrypted := layered;
      }
    }
    return Ok(encrypted);
  }

  /**
   After k of the n hops have peeled, what is left is the onion of the remaining hops: the payload
   itself after all n, and before that a message sealed under hop k's key.
   */
  lemma {:induction false} PeelingFollowsThePath(keys: seq<Key>, nonces: seq<nat>, data: Bytes, k: nat)
    requires |keys| == |nonces| && k <= |keys|
    ensures Peel(keys[..k], Onion(keys, nonces, data)) == Ok(Onion(keys[k..], nonces[k..], data))
    ensures k < |keys| ==> Onion(keys[k..], nonces[k..], data).Sealed? &&
                           Onion(keys[k..], nonces[k..], data).key == keys[k]
    ensures k == |keys| ==> Onion(keys[k..], nonces[k..], data) == data
  {
    if k == 0 {
      assert keys[..0] == [] && keys[0..] == keys && nonces[0..] == nonces;
    } else {
      PeelingFollowsThePath(keys[1..], nonces[1..], data, k - 1);
      assert keys[..k][1..] == keys[1..][..k - 1];
      assert keys[1..][k - 1..] == keys[k..] && nonces[1..][k - 1..] == nonces[k..];
    }
  }

  /** Exactly one sequence of n keys opens an n-hop onion around unsealed data: the path's own. */
  lemma {:induction false} OnlyThePathOrderOpens(keys: seq<Key>, nonces: seq<nat>, data: Bytes, tried: seq<Key>)
    requires |keys| == |nonces| && !data.Sealed?
    ensures Peel(tried, Onion(keys, nonces, data)).Ok? <==> tried <= keys
    ensures Peel(tried, Onion(keys, nonces, data)) == Ok(data) <==> tried == keys
  {
    if tried == [] {
    } else if keys == [] {
    } else if tried[0] == keys[0] {
      OnlyThePathOrderOpens(keys[1..], nonces[1..], data, tried[1..]);
      assert tried == [tried[0]] + tried[1..] && keys == [keys[0]] + keys[1..];
    }
  }

  /**
   A coalition of relays sees exactly as far as the first hop whose key it lacks; it reaches the
   payload if and only if it holds every hop's key.
   */
  lemma {:induction false} CoalitionStopsAtFirstMissingKey(
      keys: seq<Key>, nonces: seq<nat>, data: Bytes, held: set<Key>, k: nat)
    requires |keys| == |nonces| && !data.Sealed?
    requires k <= |keys| && (forall i :: 0 <= i < k ==> keys[i] in held) && (k < |keys| ==> keys[k] !in held)
    ensures Exposed(held, Onion(keys, nonces, data)) == Onion(keys[k..], nonces[k..], data)
    ensures Exposed(held, Onion(keys, nonces, data)) == data <==> forall key :: key in keys ==> key in held
  {
    if k == 0 {
      assert keys[0..] == keys && nonces[0..] == nonces;
      if keys != [] {
        assert keys[0] in keys;
      }
    } else {
      CoalitionStopsAtFirstMissingKey(keys[1..], nonces[1..], data, held, k - 1);
      assert keys[1..][k - 1..] == keys[k..] && nonces[1..][k - 1..] == nonces[k..];
      assert keys == [keys[0]] + keys[1..];
      assert (forall key :: key in keys ==> key in held) <==> (forall key :: key in keys[1..] ==> key in held);
    }
  }

  /** Each hop costs one nonce and one tag. */
  lemma {:induction false} OnionLength(keys: seq<Key>, nonces: seq<nat>, data: Bytes)
    requires |keys| == |nonces|
    ensures Length(Onion(keys, nonces, data)) == Length(data) + 28 * |keys|
  {
    if keys != [] {
      OnionLength(keys[1..], nonces[1..], data);
    }
  }
}
