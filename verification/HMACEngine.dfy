/** Poco/HMACEngine.h over an abstract digest engine. */
module HMACEngines {

  type Bytes = seq<bv8>

  /** A digest algorithm, known only by its function and its sizes. */
  datatype Digest = Digest(hash: Bytes -> Bytes, blockSize: nat, digestSize: nat) {
    ghost predicate Sound() {
      digestSize <= blockSize && forall m :: |hash(m)| == digestSize
    }
  }

  /** The underlying engine: what it has been fed since its last reset. */
  class Engine {
    const algorithm: Digest
    ghost var fed: Bytes
    /** Stands for the engine's running state; its digest is a function of what was fed. */
    var state: Bytes

    ghost predicate Valid()
      reads this
    {
      state == fed
    }

    constructor (algorithm: Digest)
      ensures Valid() && this.algorithm == algorithm && fed == []
    {
      this.algorithm := algorithm;
      state, fed := [], [];
    }

    method Reset()
      modifies this
      ensures Valid() && fed == []
    {
      state, fed := [], [];
    }

    method Update(data: Bytes)
      requires Valid()
      modifies this
      ensures Valid() && fed == old(fed) + data
    {
      state, fed := state + data, fed + data;
    }

    /** Finishes the digest and resets the engine. */
    method TakeDigest() returns (d: Bytes)
      requires Valid()
      modifies this
      ensures Valid() && d == algorithm.hash(old(fed)) && fed == []
    {
      d := algorithm.hash(state);
      state, fed := [], [];
    }
  }

  // ---------------------------------------------------------------- section 2 of RFC 2104

  function Zeros(n: nat): (z: Bytes)
    ensures |z| == n && forall i :: 0 <= i < n ==> z[i] == 0
  {
    seq(n, _ => 0)
  }

  /** The key filled up with zeros to a whole block, after hashing if it is longer than one. */
  function BlockKey(a: Digest, key: Bytes): (k: Bytes)
    requires |a.hash(key)| <= a.blockSize
    ensures |k| == a.blockSize
  {
    var short := if |key| > a.blockSize then a.hash(key) else key;
    short + Zeros(a.blockSize - |short|)
  }

  function XorAll(k: Bytes, b: bv8): (r: Bytes)
    ensures |r| == |k| && forall i :: 0 <= i < |k| ==> r[i] == k[i] ^ b
  {
    seq(|k|, i requires 0 <= i < |k| => k[i] ^ b)
  }

  function HMAC(a: Digest, key: Bytes, message: Bytes): Bytes
    requires |a.hash(key)| <= a.blockSize
  {
    var k := BlockKey(a, key);
    a.hash(XorAll(k, 0x5c) + a.hash(XorAll(k, 0x36) + message))
  }

  /** A short key may be extended by a zero, and a long key may be replaced by its hash. */
  lemma {:induction false} EquivalentKeys(a: Digest, key: Bytes, message: Bytes)
    requires a.Sound()
    ensures |key| < a.blockSize ==> HMAC(a, key + [0], message) == HMAC(a, key, message)
    ensures |key| > a.blockSize ==> HMAC(a, a.hash(key), message) == HMAC(a, key, message)
  {
    if |key| < a.blockSize {
      assert Zeros(a.blockSize - |key|) == [0] + Zeros(a.blockSize - |key| - 1);
      assert BlockKey(a, key + [0]) == BlockKey(a, key);
    } else {
      assert |key| > a.blockSize ==> BlockKey(a, a.hash(key)) == BlockKey(a, key);
    }
  }

  /** The pad has a block of bytes: those of the key, or of the hash of a key longer than a block, and
      zeros behind them, each xored with b. */
  ghost predicate PaddedWith(a: Digest, key: Bytes, pad: Bytes, b: bv8) {
    var short := if |key| > a.blockSize then a.hash(key) else key;
    |pad| == a.blockSize && forall i :: 0 <= i < |pad| ==> pad[i] == (if i < |short| then short[i] else 0) ^ b
  }

  lemma {:induction false} PadBytes(a: Digest, key: Bytes, b: bv8)
    requires |a.hash(key)| <= a.blockSize
    ensures PaddedWith(a, key, XorAll(BlockKey(a, key), b), b)
  {
  }

  // ---------------------------------------------------------------- the engine

  class HMACEngine {
    const engine: Engine
    const ipad: array<bv8>
    const opad: array<bv8>
    ghost const key: Bytes
    /** What was fed since init or the last digest. */
    ghost var message: Bytes

    ghost predicate Padded()
      reads this, engine, ipad, opad
    {
      var a := engine.algorithm;
      && a.Sound() && engine.Valid() && ipad != opad
      && ipad[..] == XorAll(BlockKey(a, key), 0x36)
      && opad[..] == XorAll(BlockKey(a, key), 0x5c)
    }

    ghost predicate Valid()
      reads this, engine, ipad, opad
    {
      Padded() && engine.fed == ipad[..] + message
    }

    constructor (engine: Engine, passphrase: Bytes)
      requires engine.Valid() && engine.algorithm.Sound()
      modifies engine
      ensures Valid() && this.engine == engine && key == passphrase && message == []
      ensures fresh(ipad) && fresh(opad)
      ensures PaddedWith(engine.algorithm, passphrase, ipad[..], 0x36) && PaddedWith(engine.algorithm, passphrase, opad[..], 0x5c)
    {
      this.engine := engine;
      ipad := new bv8[engine.algorithm.blockSize](_ => 0);
      opad := new bv8[engine.algorithm.blockSize](_ => 0);
      key, message := passphrase, [];
      new;
      FillPads(passphrase);
      XorPads();
      PadBytes(engine.algorithm, passphrase, 0x36);
      PadBytes(engine.algorithm, passphrase, 0x5c);
      Reset();
    }

    /** The first half of init: both pads hold the zero-padded block key. */
    method FillPads(passphrase: Bytes)
      requires engine.Valid() && engine.algorithm.Sound() && ipad != opad
      requires ipad[..] == opad[..] == Zeros(engine.algorithm.blockSize)
      modifies engine, ipad, opad
      ensures engine.Valid()
      ensures ipad[..] == opad[..] == BlockKey(engine.algorithm, passphrase)
    {
      ghost var a := engine.algorithm;
      var blockSize := ipad.Length;
      if |passphrase| > blockSize {
        engine.Reset();
        engine.Update(passphrase);
        assert [] + passphrase == passphrase;
        var d := engine.TakeDigest();
        CopyBoth(d);
      } else {
        CopyBoth(passphrase);
      }
    }

    /** Copies the bytes to the beginning of both pads, as far as they fit. */
    method CopyBoth(data: Bytes)
      requires ipad != opad && ipad.Length == opad.Length
      requires ipad[..] == opad[..] == Zeros(ipad.Length)
      modifies ipad, opad
      ensures ipad[..] == opad[..] == if |data| <= ipad.Length then data + Zeros(ipad.Length - |data|) else data[..ipad.Length]
    {
      var i := 0;
      while i != |data| && i < ipad.Length
        invariant i <= |data| && i <= ipad.Length
        invariant forall j :: 0 <= j < i ==> ipad[j] == opad[j] == data[j]
        invariant forall j :: i <= j < ipad.Length ==> ipad[j] == opad[j] == 0
      {
        ipad[i], opad[i] := data[i], data[i];
        i := i + 1;
      }
    }

    method XorPads()
      requires ipad != opad && ipad.Length == opad.Length
      modifies ipad, opad
      ensures ipad[..] == XorAll(old(ipad[..]), 0x36)
      ensures opad[..] == XorAll(old(opad[..]), 0x5c)
    {
      ghost var k, k' := ipad[..], opad[..];
      for i := 0 to ipad.Length
        invariant forall j :: 0 <= j < i ==> ipad[j] == XorAll(k, 0x36)[j] && opad[j] == XorAll(k', 0x5c)[j]
        invariant forall j :: i <= j < ipad.Length ==> ipad[j] == k[j] && opad[j] == k'[j]
      {
        ipad[i], opad[i] := ipad[i] ^ 0x36, opad[i] ^ 0x5c;
      }
    }

    method Reset()
      requires Padded()
      modifies this`message, engine
      ensures Valid() && message == []
    {
      engine.Reset();
      engine.Update(ipad[..]);
      message := [];
      assert [] + ipad[..] == ipad[..] + message;
    }

    /** However a message is cut into pieces, what counts is their concatenation. */
    method Update(data: Bytes)
      requires Valid()
      modifies this`message, engine
      ensures Valid() && message == old(message) + data
    {
      engine.Update(data);
      message := message + data;
      assert ipad[..] + message == ipad[..] + old(message) + data;
    }

    /** The code of the whole message; the engine is then as init left it, ready for the next one. */
    method TakeDigest() returns (d: Bytes)
      requires Valid()
      modifies this`message, engine
      ensures Valid() && message == []
      ensures d == HMAC(engine.algorithm, key, old(message))
      ensures ipad[..] == old(ipad[..]) && opad[..] == old(opad[..])
      ensures var hash := engine.algorithm.hash; d == hash(opad[..] + hash(ipad[..] + old(message)))
    {
      var inner := engine.TakeDigest();
      var db := new bv8[engine.algorithm.digestSize](_ => 0);
      for i := 0 to |inner|
        invariant db[..i] == inner[..i]
      {
        db[i] := inner[i];
      }
      assert db[..] == inner;
      engine.Reset();
      engine.Update(opad[..]);
      engine.Update(db[..]);
      assert [] + opad[..] + inner == opad[..] + inner;
      d := engine.TakeDigest();
      Reset();
    }
  }
}
