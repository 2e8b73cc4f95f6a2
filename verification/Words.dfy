/**
 Bytes and the words the driver builds from them. The EEPROM stores words
 most significant byte first: read_Prom, read_PromGPO and read_UID assemble
 4, 2 and 6 bytes that way, and write_Prom and write_PromGPO split a word
 into bytes in the same order. Words are mathematical integers in range.
 */
module Words {
  import opened I2CDefs

  /** 256 to the power k: the range of a k-byte word. */
  function Pow256(k: nat): (p: nat)
    ensures p >= 1
  {
    if k == 0 then 1 else 256 * Pow256(k - 1)
  }

  function AppendByte(h: nat, b: uint8, k: nat): (w: nat)
    requires h < Pow256(k)
    ensures w < Pow256(k + 1)
  {
    h * 256 + b
  }

  /** The word spelled by bytes most significant first. */
  function Assemble(b: seq<uint8>): (w: nat)
    ensures w < Pow256(|b|)
  {
    if b == [] then 0 else AppendByte(Assemble(b[..|b| - 1]), b[|b| - 1], |b| - 1)
  }

  /** `x & 0xFF`: the low byte. */
  function LowByte(x: nat): (b: uint8)
    ensures b == x % 256
  {
    x % 256
  }

  /** `(x >> 8i) & 0xFF`: byte i of `x` counting from the least significant; a shift by 8i is i shifts by 8. */
  function ByteOf(x: nat, i: nat): uint8 {
    if i == 0 then LowByte(x) else ByteOf(x / 256, i - 1)
  }

  /** The low `k` bytes of `x`, most significant first. */
  function Split(x: nat, k: nat): (b: seq<uint8>)
    ensures |b| == k
  {
    if k == 0 then [] else Split(x / 256, k - 1) + [LowByte(x)]
  }

  lemma DivMod256(x: nat, p: nat)
    requires x < 256 * p
    ensures x / 256 < p && x == (x / 256) * 256 + x % 256
  {
  }

  lemma DivMod256Exact(h: nat, d: nat)
    requires d < 256
    ensures (h * 256 + d) / 256 == h && (h * 256 + d) % 256 == d
  {
  }

  /** Splitting a k-byte word and assembling the bytes gives the word back. */
  lemma {:induction false} AssembleSplit(x: nat, k: nat)
    requires x < Pow256(k)
    ensures Assemble(Split(x, k)) == x
    decreases k
  {
    if k > 0 {
      DivMod256(x, Pow256(k - 1));
      AssembleSplit(x / 256, k - 1);
      assert Split(x, k)[..k - 1] == Split(x / 256, k - 1);
    }
  }

  /** Assembling bytes and splitting the word into as many bytes gives the bytes back. */
  lemma {:induction false} SplitAssemble(b: seq<uint8>)
    ensures Split(Assemble(b), |b|) == b
    decreases |b|
  {
    if b != [] {
      var h := Assemble(b[..|b| - 1]);
      DivMod256Exact(h, b[|b| - 1]);
      SplitAssemble(b[..|b| - 1]);
      assert b == b[..|b| - 1] + [b[|b| - 1]];
    }
  }

  /** The byte at position k-1-i of a k-byte split is byte i of the word: what the packing loops store. */
  lemma {:induction false} SplitAt(x: nat, k: nat, i: nat)
    requires i < k
    ensures Split(x, k)[k - 1 - i] == ByteOf(x, i)
    decreases k
  {
    if i > 0 {
      SplitAt(x / 256, k - 1, i - 1);
    }
  }

  /** read_Prom's expression `b[3] + (b[2]<<8) + (b[1]<<16) + (b[0]<<24)` assembles four bytes. */
  lemma Assemble4(b: seq<uint8>)
    requires |b| == 4
    ensures Assemble(b) == b[3] as nat + b[2] as nat * 0x100 + b[1] as nat * 0x1_0000 + b[0] as nat * 0x100_0000
  {
    assert b[..3][..2] == b[..2] && b[..2][..1] == b[..1] && b[..1][..0] == [];
    assert Assemble(b[..1]) == b[0] as nat;
    assert Assemble(b[..2]) == b[0] as nat * 256 + b[1] as nat;
    assert Assemble(b[..3]) == (b[0] as nat * 256 + b[1] as nat) * 256 + b[2] as nat;
  }

  /** read_PromGPO's expression `b[1] + (b[0]<<8)` assembles two bytes. */
  lemma Assemble2(b: seq<uint8>)
    requires |b| == 2
    ensures Assemble(b) == b[1] as nat + b[0] as nat * 0x100
  {
    assert b[..1][..0] == [];
  }

  /** read_UID's expression `b5 + (b4<<8) + ... + (b0<<40)` assembles six bytes. */
  lemma Assemble6(b: seq<uint8>)
    requires |b| == 6
    ensures Assemble(b) == Assemble(b[..4]) * 0x1_0000 + b[4] as nat * 0x100 + b[5] as nat
    ensures Assemble(b) == b[5] as nat + b[4] as nat * 0x100 + b[3] as nat * 0x1_0000
      + b[2] as nat * 0x100_0000 + b[1] as nat * 0x1_0000_0000 + b[0] as nat * 0x100_0000_0000
  {
    assert b[..5][..4] == b[..4];
    Assemble4(b[..4]);
  }

  /**
   The packing loops of write_Prom and write_PromGPO store byte j of the word
   at position k - j + nAddr - 1 for j < k: that places the k-byte split of
   the word, most significant byte first, right after the address bytes.
   */
  lemma PackWord(b: seq<uint8>, nAddr: nat, data: nat, k: nat)
    requires |b| >= nAddr + k
    requires forall j :: 0 <= j < k ==> b[k - j + nAddr - 1] == ByteOf(data, j)
    ensures b[nAddr..nAddr + k] == Split(data, k)
  {
    forall m | 0 <= m < k
      ensures b[nAddr..nAddr + k][m] == Split(data, k)[m]
    {
      var j := k - 1 - m;
      assert b[k - j + nAddr - 1] == ByteOf(data, j);
      SplitAt(data, k, j);
    }
  }

  /** Zero bytes spell the word zero. */
  lemma {:induction false} AssembleZeros(b: seq<uint8>)
    requires forall i :: 0 <= i < |b| ==> b[i] == 0
    ensures Assemble(b) == 0
    decreases |b|
  {
    if b != [] {
      AssembleZeros(b[..|b| - 1]);
    }
  }
}
