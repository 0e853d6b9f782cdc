/** SSZ basics (crates/ssz/src): little-endian integers and bit lists with a sentinel bit. */
module Ssz {
  import opened Common

  // ---------------------------------------------------------------------------------------------
  // Integers
  // ---------------------------------------------------------------------------------------------

  function Pow256(n: nat): (p: nat)
    ensures p >= 1
  {
    if n == 0 then 1 else 256 * Pow256(n - 1)
  }

  function LittleEndian(v: nat, n: nat): (s: seq<Byte>)
    ensures |s| == n
  {
    if n == 0 then [] else [v % 256] + LittleEndian(v / 256, n - 1)
  }

  function FromLittleEndian(s: seq<Byte>): (v: nat)
    ensures v < Pow256(|s|)
  {
    if s == [] then 0 else s[0] + 256 * FromLittleEndian(s[1..])
  }

  lemma {:induction false} ReadInteger(v: nat, n: nat)
    requires v < Pow256(n)
    ensures FromLittleEndian(LittleEndian(v, n)) == v
  {
    if n > 0 {
      ReadInteger(v / 256, n - 1);
      assert LittleEndian(v, n)[1..] == LittleEndian(v / 256, n - 1);
    }
  }

  lemma {:induction false} WriteInteger(s: seq<Byte>)
    ensures LittleEndian(FromLittleEndian(s), |s|) == s
  {
    if s != [] {
      WriteInteger(s[1..]);
      var high := FromLittleEndian(s[1..]);
      assert (s[0] + 256 * high) % 256 == s[0] && (s[0] + 256 * high) / 256 == high;
      assert s == [s[0]] + s[1..];
    }
  }

  lemma Widths()
    ensures Pow256(4) == 0x1_0000_0000 && Pow256(8) == 0x1_0000_0000_0000_0000
  {
    assert Pow256(2) == 0x1_0000;
    assert Pow256(4) == 0x1_0000 * Pow256(2);
    assert Pow256(6) == 0x1_0000 * Pow256(4);
    assert Pow256(8) == 0x1_0000 * Pow256(6);
  }

  /** The first four bytes of a 64-bit integer are its low 32 bits. */
  lemma LowHalf(v: nat)
    requires v <= U64_MAX
    ensures FromLittleEndian(LittleEndian(v, 8)[..4]) == v % 0x1_0000_0000
  {
    hide FromLittleEndian, LittleEndian, Pow256;
    Widths();
    ReadInteger(v, 8);
    FourBytes(LittleEndian(v, 8));
  }

  lemma FourBytes(s: seq<Byte>)
    requires |s| == 8
    ensures FromLittleEndian(s) == FromLittleEndian(s[..4]) + 0x1_0000_0000 * FromLittleEndian(s[4..])
    ensures FromLittleEndian(s[..4]) < 0x1_0000_0000
  {
    Widths();
    var t := s[..4];
    assert s[1..][1..] == s[2..] && s[2..][1..] == s[3..] && s[3..][1..] == s[4..];
    assert t[1..] == s[1..4] && t[1..][1..] == s[2..4] && s[2..4][1..] == s[3..4] && s[3..4][1..] == [];
    assert FromLittleEndian(s[3..]) == s[3] + 256 * FromLittleEndian(s[4..]);
    assert FromLittleEndian(s[2..]) == s[2] + 256 * FromLittleEndian(s[3..]);
    assert FromLittleEndian(s[1..]) == s[1] + 256 * FromLittleEndian(s[2..]);
    assert FromLittleEndian(s[3..4]) == s[3];
    assert FromLittleEndian(s[2..4]) == s[2] + 256 * FromLittleEndian(s[3..4]);
    assert FromLittleEndian(s[1..4]) == s[1] + 256 * FromLittleEndian(s[2..4]);
  }

  // ---------------------------------------------------------------------------------------------
  // Bit lists
  // ---------------------------------------------------------------------------------------------

  function Pow2(n: nat): (p: nat)
    ensures p >= 1
  {
    if n == 0 then 1 else 2 * Pow2(n - 1)
  }

  /** Bits of one byte, least significant first. */
  function Pack(bits: seq<bool>): (v: nat)
    ensures v < Pow2(|bits|)
  {
    if bits == [] then 0 else (if bits[0] then 1 else 0) + 2 * Pack(bits[1..])
  }

  function Unpack(v: nat, n: nat): (bits: seq<bool>)
    ensures |bits| == n
  {
    if n == 0 then [] else [v % 2 == 1] + Unpack(v / 2, n - 1)
  }

  lemma {:induction false} UnpackPack(bits: seq<bool>)
    ensures Unpack(Pack(bits), |bits|) == bits
  {
    if bits != [] {
      UnpackPack(bits[1..]);
      assert bits == [bits[0]] + bits[1..];
    }
  }

  lemma {:induction false} PackUnpack(v: nat, n: nat)
    requires v < Pow2(n)
    ensures Pack(Unpack(v, n)) == v
  {
    if n > 0 {
      PackUnpack(v / 2, n - 1);
      assert Unpack(v, n)[1..] == Unpack(v / 2, n - 1);
    }
  }

  /** Position of the highest set bit. */
  function TopBit(v: nat): nat
    requires v > 0
  {
    if v == 1 then 0 else 1 + TopBit(v / 2)
  }

  lemma {:induction false} TopBitBounds(v: nat)
    requires v > 0
    ensures Pow2(TopBit(v)) <= v < Pow2(TopBit(v) + 1)
  {
    if v > 1 { TopBitBounds(v / 2); }
  }

  /** A byte that ends in a sentinel: the bits below its top bit. */
  lemma {:induction false} Sentinel(bits: seq<bool>)
    ensures var v := Pack(bits + [true]);
            v > 0 && TopBit(v) == |bits| && Unpack(v, |bits|) == bits
  {
    if bits == [] {
      assert bits + [true] == [true] && [true][1..] == [];
      assert Pack([]) == 0;
    } else {
      assert (bits + [true])[1..] == bits[1..] + [true];
      Sentinel(bits[1..]);
      assert bits == [bits[0]] + bits[1..];
    }
  }

  lemma {:induction false} SentinelBack(v: nat)
    requires v > 0
    ensures Pack(Unpack(v, TopBit(v)) + [true]) == v
  {
    if v == 1 {
      assert [] + [true] == [true] && [true][1..] == [];
      assert Pack([]) == 0;
    } else {
      SentinelBack(v / 2);
      var bits := Unpack(v, TopBit(v));
      assert (bits + [true])[1..] == Unpack(v / 2, TopBit(v / 2)) + [true];
    }
  }

  lemma ByteWidth()
    ensures Pow2(8) == 256
  {
    assert Pow2(4) == 16;
    assert Pow2(8) == 16 * Pow2(4);
  }

  lemma {:induction false} Pow2Monotone(a: nat, b: nat)
    requires a <= b
    ensures Pow2(a) <= Pow2(b)
  {
    if a < b { Pow2Monotone(a, b - 1); }
  }

  /** Eight bits a byte, with a sentinel bit after the last one. */
  function EncodeBits(bits: seq<bool>): (s: seq<Byte>)
    ensures s != []
  {
    ByteWidth();
    if |bits| < 8 then
      Pow2Monotone(|bits| + 1, 8);
      [Pack(bits + [true])]
    else [Pack(bits[..8])] + EncodeBits(bits[8..])
  }

  function DecodeBits(s: seq<Byte>): Option<seq<bool>> {
    if s == [] then None
    else if |s| == 1 then if s[0] == 0 then None else Some(Unpack(s[0], TopBit(s[0])))
    else match DecodeBits(s[1..])
         case None => None
         case Some(rest) => Some(Unpack(s[0], 8) + rest)
  }

  lemma {:induction false} DecodeEncodedBits(bits: seq<bool>)
    ensures DecodeBits(EncodeBits(bits)) == Some(bits)
  {
    if |bits| < 8 {
      Sentinel(bits);
    } else {
      DecodeEncodedBits(bits[8..]);
      UnpackPack(bits[..8]);
      assert EncodeBits(bits)[1..] == EncodeBits(bits[8..]);
      assert bits == bits[..8] + bits[8..];
    }
  }

  /** Accepted bit lists have one encoding. */
  lemma {:induction false} EncodeDecodedBits(s: seq<Byte>)
    requires DecodeBits(s).Some?
    ensures EncodeBits(DecodeBits(s).value) == s
  {
    ByteWidth();
    if |s| == 1 {
      SentinelBack(s[0]);
      TopBitBounds(s[0]);
      if TopBit(s[0]) >= 8 { Pow2Monotone(8, TopBit(s[0])); }
    } else {
      EncodeDecodedBits(s[1..]);
      PackUnpack(s[0], 8);
      var rest := DecodeBits(s[1..]).value;
      assert (Unpack(s[0], 8) + rest)[..8] == Unpack(s[0], 8) && (Unpack(s[0], 8) + rest)[8..] == rest;
      assert s == [s[0]] + s[1..];
    }
  }
}
