/**
 AES-256 in counter mode (section 6.5 of NIST SP 800-38A) with a 128-bit
 big-endian counter. The block function itself is a parameter: nothing below
 depends on what AES computes.
 */
module Ctr {
  import opened Bytes
  import opened Modular

  const BLOCK: nat := 16
  type Block = s: seq<byte> | |s| == 16 witness [0, 0, 0, 0, 0, 0, 0, 0, 0, 0, 0, 0, 0, 0, 0, 0]
  // Encrypts one counter value under a key.
  type BlockCipher = (seq<byte>, nat) -> Block
  type Keystream = nat -> byte

  function CounterAt(iv: seq<byte>, block: nat): nat
  {
    (BeNat(iv) + block) % Pow256(16)
  }

  function KeystreamOf(aes: BlockCipher, key: seq<byte>, iv: seq<byte>): Keystream
  {
    (pos: nat) => aes(key, CounterAt(iv, pos / BLOCK))[pos % BLOCK]
  }

  // What running `data` through the keystream from position `pos` gives.
  function Crypt(ks: Keystream, pos: nat, data: seq<byte>): (out: seq<byte>)
    ensures |out| == |data|
  {
    seq(|data|, i requires 0 <= i < |data| => Xor(data[i], ks(pos + i)))
  }

  lemma CryptTwice(ks: Keystream, pos: nat, data: seq<byte>)
    ensures Crypt(ks, pos, Crypt(ks, pos, data)) == data
  {
    forall i | 0 <= i < |data|
      ensures Crypt(ks, pos, Crypt(ks, pos, data))[i] == data[i]
    {
      XorCancels(data[i], ks(pos + i));
    }
  }

  lemma CryptConcat(ks: Keystream, pos: nat, a: seq<byte>, b: seq<byte>)
    ensures Crypt(ks, pos, a + b) == Crypt(ks, pos, a) + Crypt(ks, pos + |a|, b)
  {
    forall i | 0 <= i < |a + b|
      ensures Crypt(ks, pos, a + b)[i] == (Crypt(ks, pos, a) + Crypt(ks, pos + |a|, b))[i]
    {
      if i >= |a| {
        assert pos + |a| + (i - |a|) == pos + i;
      }
    }
  }

  lemma CryptSlice(ks: Keystream, pos: nat, data: seq<byte>, lo: nat, hi: nat)
    requires lo <= hi <= |data|
    ensures Crypt(ks, pos, data)[lo..hi] == Crypt(ks, pos + lo, data[lo..hi])
  {
    forall i | 0 <= i < hi - lo
      ensures Crypt(ks, pos, data)[lo..hi][i] == Crypt(ks, pos + lo, data[lo..hi])[i]
    {
      assert pos + (lo + i) == (pos + lo) + i;
    }
  }

  /** A keystream with its current position, as the `ctr` crate keeps it. */
  class CtrStream {
    const aes: BlockCipher
    const key: seq<byte>
    const iv: seq<byte>
    var pos: nat

    constructor (aes: BlockCipher, key: seq<byte>, iv: seq<byte>)
      requires |key| == 32 && |iv| == 16
      ensures this.aes == aes && this.key == key && this.iv == iv && pos == 0
    {
      this.aes, this.key, this.iv, this.pos := aes, key, iv, 0;
    }

    ghost function Ks(): Keystream
    {
      KeystreamOf(aes, key, iv)
    }

    method ApplyKeystream(buf: array<byte>)
      modifies this`pos, buf
      ensures buf[..] == Crypt(Ks(), old(pos), old(buf[..]))
      ensures pos == old(pos) + buf.Length
    {
      ghost var was := buf[..];
      ghost var out := Crypt(Ks(), pos, was);
      var start := pos;
      for i := 0 to buf.Length
        modifies this`pos, buf
        invariant pos == start + i
        invariant forall j | 0 <= j < i :: buf[j] == out[j]
        invariant forall j | i <= j < buf.Length :: buf[j] == was[j]
      {
        assert out[i] == Xor(was[i], Ks()(start + i));
        buf[i] := Xor(buf[i], aes(key, CounterAt(iv, pos / BLOCK))[pos % BLOCK]);
        pos := pos + 1;
      }
      assert buf[..] == out;
    }
  }

  // ---- The counter ------------------------------------------------------------------------

  // The first block uses the initialization vector as a big-endian number, and every further
  // block the next number, modulo 2^128.
  lemma CountsBlocks(iv: seq<byte>, block: nat)
    requires |iv| == BLOCK
    ensures CounterAt(iv, 0) == BeNat(iv)
    ensures CounterAt(iv, block + 1) == (CounterAt(iv, block) + 1) % 0x1_0000_0000_0000_0000_0000_0000_0000_0000
  {
    Pow256Sixteen();
    var n := Pow256(16);
    SmallMod(BeNat(iv), n);
    ReduceFirst(BeNat(iv) + block, 1, n);
  }

  lemma Pow256Sixteen()
    ensures Pow256(16) == 0x1_0000_0000_0000_0000_0000_0000_0000_0000
  {
    assert Pow256(4) == 0x1_0000_0000;
    assert Pow256(8) == 0x1_0000_0000 * Pow256(4);
    assert Pow256(12) == 0x1_0000_0000 * Pow256(8);
    assert Pow256(16) == 0x1_0000_0000 * Pow256(12);
  }

  // The sixteen bytes of a block are the encryption of its counter value, in order.
  lemma KeystreamOfBlock(aes: BlockCipher, key: seq<byte>, iv: seq<byte>, block: nat, i: nat)
    requires i < 16
    ensures KeystreamOf(aes, key, iv)(16 * block + i) == aes(key, CounterAt(iv, block))[i]
  {
  }
}
