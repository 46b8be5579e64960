/** FNV-1a (64-bit) over ASCII-folded octets: the key of the compressor's index. */
module FoldedHashing {
  import opened Octets

  const FNV_OFFSET: nat := 0xcbf2_9ce4_8422_2325
  const FNV_PRIME: nat := 0x100_0000_01b3
  const TWO_64: nat := 0x1_0000_0000_0000_0000

  function XorOctet(x: byte, y: byte): byte {
    (x as bv8 ^ y as bv8) as int
  }

  /** One round: xor the octet into the low eight bits, then a wrapping multiply. */
  function Round(hash: nat, b: byte): nat {
    (hash - hash % 256 + XorOctet(hash % 256, b)) * FNV_PRIME % TWO_64
  }

  function Fnv(s: bytes): nat {
    if s == [] then FNV_OFFSET else Round(Fnv(s[..|s| - 1]), s[|s| - 1])
  }

  function FoldedHash(s: bytes): nat {
    Fnv(Fold(s))
  }

  /** The loop of `folded_hash`, which folds as it goes. */
  method ComputeFoldedHash(s: bytes) returns (hash: nat)
    ensures hash == FoldedHash(s)
  {
    hash := FNV_OFFSET;
    for i := 0 to |s|
      invariant hash == Fnv(Fold(s)[..i])
    {
      assert Fold(s)[..i + 1][..i] == Fold(s)[..i];
      hash := Round(hash, FoldByte(s[i]));
    }
    assert Fold(s)[..|s|] == Fold(s);
  }

  /** The published values for the empty string and for `a`. */
  lemma KnownHashes()
    ensures Fnv([]) == 0xcbf2_9ce4_8422_2325 && Fnv([97]) == 0xaf63_dc4c_8601_ec8c
  {
    hide XorOctet;
    XorKnown();
    var a: bytes := [97];
    assert a[..0] == [];
  }

  lemma XorKnown()
    ensures XorOctet(0x25, 97) == 0x44
  {
    assert (0x25 as bv8 ^ 0x61 as bv8) == 0x44;
  }

  /** Names that compare equal hash equal, so the index cannot separate them. */
  lemma FoldEqualHashEqual(a: bytes, b: bytes)
    requires Fold(a) == Fold(b)
    ensures FoldedHash(a) == FoldedHash(b)
  {
  }
}
