/** Base32 decoding with the RFC 4648 alphabet and no padding (section 6 of
    RFC 4648), the `base32::decode(Rfc4648 { padding: false }, ..)` call of
    the main path, together with the matching encoder, which is its partner. */
module Base32 {
  import opened Bits

  datatype Option<T> = None | Some(value: T)

  /** A 5-bit group, the value one base32 character stands for. */
  type Symbol = v: nat | v < 32

  /** A character of the base32 alphabet (Table 3 of RFC 4648): A-Z stand
      for 0-25 and 2-7 for 26-31. */
  predicate IsAlphabetChar(c: char) {
    'A' <= c <= 'Z' || '2' <= c <= '7'
  }

  predicate InAlphabet(s: string) {
    forall i :: 0 <= i < |s| ==> IsAlphabetChar(s[i])
  }

  /** The character that encodes `v`. */
  function SymbolChar(v: Symbol): (c: char)
    ensures IsAlphabetChar(c)
  {
    if v < 26 then ('A' as int + v) as char else ('2' as int + v - 26) as char
  }

  /** The value an alphabet character encodes: the inverse of SymbolChar. */
  function SymbolValue(c: char): (v: Symbol)
    requires IsAlphabetChar(c)
    ensures SymbolChar(v) == c
  {
    if 'A' <= c <= 'Z' then c as int - 'A' as int else c as int - '2' as int + 26
  }

  /** The values of the characters of `s`, or None when some character lies
      outside the alphabet. */
  function Symbols(s: string): (r: Option<seq<Symbol>>)
    ensures r.Some? <==> InAlphabet(s)
    ensures r.Some? ==> |r.value| == |s|
  {
    if s == [] then Some([])
    else if !IsAlphabetChar(s[0]) then None
    else
      match Symbols(s[1..])
      case None => None
      case Some(vs) => Some([SymbolValue(s[0])] + vs)
  }

  /** The bit string that the symbols `vs` stand for, five bits each. */
  function SymbolsBits(vs: seq<Symbol>): (b: seq<bool>)
    ensures |b| == 5 * |vs|
  {
    if vs == [] then [] else ToBits(vs[0], 5) + SymbolsBits(vs[1..])
  }

  /** Unpadded base32 decoding: every character must belong to the alphabet;
      the 5-bit groups are concatenated and cut into bytes, and the fewer than
      eight bits left over at the end are dropped. */
  function Decode(s: string): (r: Option<seq<Byte>>)
    ensures r.Some? <==> InAlphabet(s)
    ensures r.Some? ==> |r.value| == 5 * |s| / 8
  {
    match Symbols(s)
    case None => None
    case Some(vs) => Some(PackBytes(SymbolsBits(vs)))
  }

  function Zeros(n: nat): (b: seq<bool>)
    ensures |b| == n
  {
    if n == 0 then [] else [false] + Zeros(n - 1)
  }

  /** The characters for the consecutive 5-bit groups of `b`. */
  function Groups(b: seq<bool>): (s: string)
    requires |b| % 5 == 0
    ensures |s| == |b| / 5
    ensures InAlphabet(s)
  {
    if b == [] then [] else [SymbolChar(FromBits(b[..5]))] + Groups(b[5..])
  }

  /** Unpadded base32 encoding: the bits of `k`, extended with zero bits to a
      multiple of five, one character per 5-bit group. */
  function Encode(k: seq<Byte>): (s: string)
    ensures |s| == (8 * |k| + 4) / 5
    ensures InAlphabet(s)
  {
    var bits := BytesBits(k);
    Groups(bits + Zeros((5 - |bits| % 5) % 5))
  }

  /** Decoding the characters of Groups(b) gives back the bits `b`. */
  lemma {:induction false} SymbolsGroups(b: seq<bool>)
    requires |b| % 5 == 0
    ensures Symbols(Groups(b)).Some?
    ensures SymbolsBits(Symbols(Groups(b)).value) == b
  {
    if b != [] {
      var v: Symbol := FromBits(b[..5]);
      var s := Groups(b);
      assert s[0] == SymbolChar(v);
      assert s[1..] == Groups(b[5..]);
      SymbolsGroups(b[5..]);
      ToBitsFromBits(b[..5]);
      var vs := Symbols(s).value;
      assert vs[0] == v;
      assert vs[1..] == Symbols(Groups(b[5..])).value;
      assert b == b[..5] + b[5..];
    }
  }

  /** Round trip: decoding the unpadded encoding of any key gives the key back. */
  lemma DecodeEncode(k: seq<Byte>)
    ensures Decode(Encode(k)) == Some(k)
  {
    var bits := BytesBits(k);
    var pad := Zeros((5 - |bits| % 5) % 5);
    var padded := bits + pad;
    assert |padded| % 5 == 0 && |pad| < 8 by {
      PadLength(|bits|);
    }
    assert Encode(k) == Groups(padded);
    SymbolsGroups(padded);
    DecodeSymbols(Encode(k), Symbols(Groups(padded)).value);
    PackBytesBits(k, pad);
  }

  lemma PadLength(n: nat)
    ensures (n + (5 - n % 5) % 5) % 5 == 0 && (5 - n % 5) % 5 < 5
  {
  }

  /** Only the unpadded encodings of 10-, 16- and 20-byte keys are 16, 26 and
      32 characters long. */
  lemma EncodedLengths(k: seq<Byte>)
    ensures |Encode(k)| == 16 <==> |k| == 10
    ensures |Encode(k)| == 26 <==> |k| == 16
    ensures |Encode(k)| == 32 <==> |k| == 20
  {
  }

  lemma {:induction false} SymbolsAppend(s1: string, s2: string)
    requires InAlphabet(s1) && InAlphabet(s2)
    ensures Symbols(s1 + s2) == Some(Symbols(s1).value + Symbols(s2).value)
  {
    if s1 != [] {
      assert (s1 + s2)[0] == s1[0];
      assert (s1 + s2)[1..] == s1[1..] + s2;
      assert InAlphabet(s1[1..]) by {
        forall i | 0 <= i < |s1[1..]| ensures IsAlphabetChar(s1[1..][i]) {
          assert s1[1..][i] == s1[i + 1];
        }
      }
      SymbolsAppend(s1[1..], s2);
      var v := SymbolValue(s1[0]);
      assert Symbols(s1) == Some([v] + Symbols(s1[1..]).value);
      assert Symbols(s1 + s2) == Some([v] + Symbols(s1[1..] + s2).value);
      assert [v] + (Symbols(s1[1..]).value + Symbols(s2).value)
          == ([v] + Symbols(s1[1..]).value) + Symbols(s2).value;
    } else {
      assert s1 + s2 == s2;
      assert Symbols(s1) == Some([]);
      assert [] + Symbols(s2).value == Symbols(s2).value;
    }
  }

  lemma {:induction false} SymbolsBitsAppend(vs1: seq<Symbol>, vs2: seq<Symbol>)
    ensures SymbolsBits(vs1 + vs2) == SymbolsBits(vs1) + SymbolsBits(vs2)
  {
    if vs1 != [] {
      assert (vs1 + vs2)[0] == vs1[0];
      assert (vs1 + vs2)[1..] == vs1[1..] + vs2;
      SymbolsBitsAppend(vs1[1..], vs2);
    } else {
      assert vs1 + vs2 == vs2;
    }
  }

  /** Base32 works in blocks of eight characters (40 bits, five bytes): a
      string that starts with whole blocks decodes block by block. */
  lemma DecodeAppend(s1: string, s2: string)
    requires |s1| % 8 == 0
    requires InAlphabet(s1) && InAlphabet(s2)
    ensures Decode(s1 + s2) == Some(Decode(s1).value + Decode(s2).value)
  {
    var v1, v2 := Symbols(s1).value, Symbols(s2).value;
    SymbolsAppend(s1, s2);
    DecodeSymbols(s1, v1);
    DecodeSymbols(s2, v2);
    DecodeSymbols(s1 + s2, v1 + v2);
    PackSymbolsAppend(v1, v2);
  }

  lemma PackSymbolsAppend(v1: seq<Symbol>, v2: seq<Symbol>)
    requires |v1| % 8 == 0
    ensures PackBytes(SymbolsBits(v1 + v2)) == PackBytes(SymbolsBits(v1)) + PackBytes(SymbolsBits(v2))
  {
    var b1, b2 := SymbolsBits(v1), SymbolsBits(v2);
    SymbolsBitsAppend(v1, v2);
    assert |b1| % 8 == 0 by {
      assert |b1| == 5 * |v1|;
      FiveTimesEight(|v1|);
    }
    PackBytesAppend(b1, b2);
  }

  lemma FiveTimesEight(n: nat)
    requires n % 8 == 0
    ensures (5 * n) % 8 == 0
  {
    var q := n / 8;
    assert n == 8 * q;
    assert 5 * n == 8 * (5 * q);
  }

  /** Decoding packs the bits of the character values. */
  lemma DecodeSymbols(s: string, v: seq<Symbol>)
    requires Symbols(s) == Some(v)
    ensures Decode(s) == Some(PackBytes(SymbolsBits(v)))
  {
  }

  /** The bits of a sequence of symbols start with the bits of its first symbol. */
  lemma SymbolsBitsAt(v: seq<Symbol>, k: nat)
    requires k < |v|
    ensures SymbolsBits(v[k..]) == ToBits(v[k], 5) + SymbolsBits(v[k + 1..])
  {
    assert v[k..][0] == v[k];
    assert v[k..][1..] == v[k + 1..];
  }

  /** The five bytes an 8-character block with symbol values v[0..8] stands
      for, computed with shifts and masks one block at a time, the way a
      base32 decoder usually works. */
  function BlockDecode(v: seq<Symbol>): (k: seq<Byte>)
    requires |v| == 8
  {
    var w: seq<int> := v;
    [ w[0] * 8 + w[1] / 4,
      w[1] % 4 * 64 + w[2] * 2 + w[3] / 16,
      w[3] % 16 * 16 + w[4] / 2,
      w[4] % 2 * 128 + w[5] * 4 + w[6] / 8,
      w[6] % 8 * 32 + w[7] ]
  }

  /** Decoding an 8-character block (40 bits, five bytes) by the bit layout
      of section 6 of RFC 4648 agrees with the per-block shift formulas. */
  lemma DecodeBlock(s: string)
    requires |s| == 8 && InAlphabet(s)
    ensures Decode(s) == Some(BlockDecode(Symbols(s).value))
  {
    var v := Symbols(s).value;
    forall i | 0 <= i < 5 ensures PackBytes(SymbolsBits(v))[i] == BlockDecode(v)[i] {
      BlockByteAt(v, i);
    }
    assert |PackBytes(SymbolsBits(v))| == 5;
    assert PackBytes(SymbolsBits(v)) == BlockDecode(v);
    assert Decode(s) == Some(PackBytes(SymbolsBits(v)));
  }

  lemma BlockByteAt(v: seq<Symbol>, i: nat)
    requires |v| == 8 && i < 5
    ensures PackBytes(SymbolsBits(v))[i] == BlockDecode(v)[i]
  {
    BlockPack(v);
    if i == 0 {
      BlockByte0(v[0], v[1]);
    } else if i == 1 {
      BlockByte1(v[1], v[2], v[3]);
    } else if i == 2 {
      BlockByte2(v[3], v[4]);
    } else if i == 3 {
      BlockByte3(v[4], v[5], v[6]);
    } else {
      BlockByte4(v[6], v[7]);
    }
  }

  /** The five bytes of a block, each made of the bits of the symbols (or
      parts of symbols) that fall into it. */
  lemma BlockPack(v: seq<Symbol>)
    requires |v| == 8
    ensures PackBytes(SymbolsBits(v)) == [
      FromBits(ToBits(v[0], 5) + ToBits(Shift(v[1], 2), 3)),
      FromBits(ToBits(v[1], 2) + ToBits(v[2], 5) + ToBits(Shift(v[3], 4), 1)),
      FromBits(ToBits(v[3], 4) + ToBits(Shift(v[4], 1), 4)),
      FromBits(ToBits(v[4], 1) + ToBits(v[5], 5) + ToBits(Shift(v[6], 3), 2)),
      FromBits(ToBits(v[6], 3) + ToBits(v[7], 5))]
  {
    var t0, t1, t2, t3 := ToBits(v[0], 5), ToBits(v[1], 5), ToBits(v[2], 5), ToBits(v[3], 5);
    var t4, t5, t6, t7 := ToBits(v[4], 5), ToBits(v[5], 5), ToBits(v[6], 5), ToBits(v[7], 5);
    var h1, l1 := ToBits(Shift(v[1], 2), 3), ToBits(v[1], 2);
    var h3, l3 := ToBits(Shift(v[3], 4), 1), ToBits(v[3], 4);
    var h4, l4 := ToBits(Shift(v[4], 1), 4), ToBits(v[4], 1);
    var h6, l6 := ToBits(Shift(v[6], 3), 2), ToBits(v[6], 3);
    BlockBits(v);
    // each symbol that straddles a byte boundary is split into high and low bits
    var r6 := t6 + t7;
    ToBitsSplitAppend(v[6], 2, 3, t7);
    var r5 := t5 + r6;
    var r4 := t4 + r5;
    ToBitsSplitAppend(v[4], 4, 1, r5);
    var r3 := t3 + r4;
    ToBitsSplitAppend(v[3], 1, 4, r4);
    var r2 := t2 + r3;
    var r1 := t1 + r2;
    ToBitsSplitAppend(v[1], 3, 2, r2);
    assert SymbolsBits(v) == t0 + (h1 + (l1 + (t2 + (h3 + (l3 + (h4 + (l4 + (t5 + (h6 + (l6 + t7))))))))));
    // and the bits are cut into bytes
    PackPieces(t0, h1, l1, t2, h3, l3, h4, l4, t5, h6, l6, t7);
  }

  /** Forty bits in twelve pieces, cut into the five bytes the pieces make up. */
  lemma PackPieces(t0: seq<bool>, h1: seq<bool>, l1: seq<bool>, t2: seq<bool>, h3: seq<bool>, l3: seq<bool>,
                   h4: seq<bool>, l4: seq<bool>, t5: seq<bool>, h6: seq<bool>, l6: seq<bool>, t7: seq<bool>)
    requires |t0| + |h1| == 8 && |l1| + |t2| + |h3| == 8 && |l3| + |h4| == 8
    requires |l4| + |t5| + |h6| == 8 && |l6| + |t7| == 8
    ensures PackBytes(t0 + (h1 + (l1 + (t2 + (h3 + (l3 + (h4 + (l4 + (t5 + (h6 + (l6 + t7)))))))))))
         == [FromBits(t0 + h1), FromBits(l1 + t2 + h3), FromBits(l3 + h4), FromBits(l4 + t5 + h6), FromBits(l6 + t7)]
  {
    var b0, b1, b2 := FromBits(t0 + h1), FromBits(l1 + t2 + h3), FromBits(l3 + h4);
    var b3, b4 := FromBits(l4 + t5 + h6), FromBits(l6 + t7);
    var r4 := l6 + t7;
    var r3 := l4 + (t5 + (h6 + r4));
    var r2 := l3 + (h4 + r3);
    var r1 := l1 + (t2 + (h3 + r2));
    assert PackBytes(r4) == [b4] by {
      PackBytesCons2(l6, t7, []);
      assert t7 + [] == t7;
    }
    assert PackBytes(r3) == [b3] + PackBytes(r4) by {
      PackBytesCons3(l4, t5, h6, r4);
    }
    assert PackBytes(r2) == [b2] + PackBytes(r3) by {
      PackBytesCons2(l3, h4, r3);
    }
    assert PackBytes(r1) == [b1] + PackBytes(r2) by {
      PackBytesCons3(l1, t2, h3, r2);
    }
    assert PackBytes(t0 + (h1 + r1)) == [b0] + PackBytes(r1) by {
      PackBytesCons2(t0, h1, r1);
    }
    assert [b0] + ([b1] + ([b2] + ([b3] + [b4]))) == [b0, b1, b2, b3, b4];
  }

  lemma BlockBits(v: seq<Symbol>)
    requires |v| == 8
    ensures SymbolsBits(v) == ToBits(v[0], 5) + (ToBits(v[1], 5) + (ToBits(v[2], 5) + (ToBits(v[3], 5)
                            + (ToBits(v[4], 5) + (ToBits(v[5], 5) + (ToBits(v[6], 5) + ToBits(v[7], 5)))))))
  {
    assert v[0..] == v;
    assert v[8..] == [];
    SymbolsBitsAt(v, 0);
    SymbolsBitsAt(v, 1);
    SymbolsBitsAt(v, 2);
    SymbolsBitsAt(v, 3);
    SymbolsBitsAt(v, 4);
    SymbolsBitsAt(v, 5);
    SymbolsBitsAt(v, 6);
    SymbolsBitsAt(v, 7);
    assert ToBits(v[7], 5) + [] == ToBits(v[7], 5);
  }

  lemma BlockByte0(a: Symbol, b: Symbol)
    ensures FromBits(ToBits(a, 5) + ToBits(Shift(b, 2), 3)) == a * 8 + b / 4
  {
    var y := FromBits(ToBits(Shift(b, 2), 3));
    assert FromBits(ToBits(a, 5)) == a by {
      assert Pow2(5) == 32;
      FromBitsToBits(a, 5);
    }
    assert y == b / 4 by {
      ShiftDiv(b);
      assert Pow2(3) == 8;
      FromBitsToBits(b / 4, 3);
    }
    assert FromBits(ToBits(a, 5) + ToBits(Shift(b, 2), 3)) == a * 8 + y by {
      FromBitsAppend(ToBits(a, 5), ToBits(Shift(b, 2), 3));
      assert Pow2(3) == 8;
    }
  }

  lemma BlockByte1(a: Symbol, b: Symbol, c: Symbol)
    ensures FromBits(ToBits(a, 2) + ToBits(b, 5) + ToBits(Shift(c, 4), 1)) == a % 4 * 64 + b * 2 + c / 16
  {
    var x := FromBits(ToBits(a, 2));
    var y := FromBits(ToBits(a, 2) + ToBits(b, 5));
    var z := FromBits(ToBits(Shift(c, 4), 1));
    assert x == a % 4 by {
      LowBits(a, 2);
      assert Pow2(2) == 4;
    }
    assert y == x * 32 + b by {
      FromBitsAppend(ToBits(a, 2), ToBits(b, 5));
      FromBitsToBits(b, 5);
      assert Pow2(5) == 32;
    }
    assert z == c / 16 by {
      ShiftDiv(c);
      FromBitsToBits(c / 16, 1);
    }
    assert FromBits(ToBits(a, 2) + ToBits(b, 5) + ToBits(Shift(c, 4), 1)) == y * 2 + z by {
      FromBitsAppend(ToBits(a, 2) + ToBits(b, 5), ToBits(Shift(c, 4), 1));
      assert Pow2(1) == 2;
    }
  }

  lemma BlockByte2(a: Symbol, b: Symbol)
    ensures FromBits(ToBits(a, 4) + ToBits(Shift(b, 1), 4)) == a % 16 * 16 + b / 2
  {
    var x := FromBits(ToBits(a, 4));
    var y := FromBits(ToBits(Shift(b, 1), 4));
    assert x == a % 16 by {
      LowBits(a, 4);
      assert Pow2(4) == 16;
    }
    assert y == b / 2 by {
      ShiftDiv(b);
      assert Pow2(4) == 16;
      FromBitsToBits(b / 2, 4);
    }
    assert FromBits(ToBits(a, 4) + ToBits(Shift(b, 1), 4)) == x * 16 + y by {
      FromBitsAppend(ToBits(a, 4), ToBits(Shift(b, 1), 4));
      assert Pow2(4) == 16;
    }
  }

  lemma BlockByte3(a: Symbol, b: Symbol, c: Symbol)
    ensures FromBits(ToBits(a, 1) + ToBits(b, 5) + ToBits(Shift(c, 3), 2)) == a % 2 * 128 + b * 4 + c / 8
  {
    var x := FromBits(ToBits(a, 1));
    var y := FromBits(ToBits(a, 1) + ToBits(b, 5));
    assert x == a % 2 by {
      LowBits(a, 1);
      assert Pow2(1) == 2;
    }
    assert y == x * 32 + b by {
      FromBitsAppend(ToBits(a, 1), ToBits(b, 5));
      FromBitsToBits(b, 5);
    }
    assert FromBits(ToBits(Shift(c, 3), 2)) == c / 8 by {
      ShiftDiv(c);
      FromBitsToBits(c / 8, 2);
    }
    FromBitsAppend(ToBits(a, 1) + ToBits(b, 5), ToBits(Shift(c, 3), 2));
    assert Pow2(2) == 4;
    assert (x * 32 + b) * 4 == x * 128 + b * 4;
  }

  lemma BlockByte4(a: Symbol, b: Symbol)
    ensures FromBits(ToBits(a, 3) + ToBits(b, 5)) == a % 8 * 32 + b
  {
    var x := FromBits(ToBits(a, 3));
    assert x == a % 8 by {
      LowBits(a, 3);
      assert Pow2(3) == 8;
    }
    assert FromBits(ToBits(b, 5)) == b by {
      assert Pow2(5) == 32;
      FromBitsToBits(b, 5);
    }
    assert FromBits(ToBits(a, 3) + ToBits(b, 5)) == x * 32 + b by {
      FromBitsAppend(ToBits(a, 3), ToBits(b, 5));
      assert Pow2(5) == 32;
    }
  }

  lemma ShiftDiv(x: nat)
    ensures Shift(x, 1) == x / 2
    ensures Shift(x, 2) == x / 4
    ensures Shift(x, 3) == x / 8
    ensures Shift(x, 4) == x / 16
  {
  }

  /** The value of each character of an alphabet-only string. */
  lemma {:induction false} SymbolsAt(s: string, i: nat)
    requires InAlphabet(s) && i < |s|
    ensures Symbols(s).value[i] == SymbolValue(s[i])
  {
    assert InAlphabet(s[1..]) by {
      forall j | 0 <= j < |s[1..]| ensures IsAlphabetChar(s[1..][j]) {
        assert s[1..][j] == s[j + 1];
      }
    }
    if i > 0 {
      SymbolsAt(s[1..], i - 1);
    }
  }

  /** The 16-character secret JBSWY3DPEHPK3PXP stands for the ten bytes
      "Hello!" followed by DE AD BE EF. */
  lemma DecodeExample(s: string)
    requires |s| == 16 && s[..8] == "JBSWY3DP" && s[8..] == "EHPK3PXP"
    ensures Decode(s) == Some([0x48, 0x65, 0x6C, 0x6C, 0x6F, 0x21, 0xDE, 0xAD, 0xBE, 0xEF])
  {
    ExampleFirstBlock(s[..8]);
    ExampleSecondBlock(s[8..]);
    var k1: seq<Byte> := [0x48, 0x65, 0x6C, 0x6C, 0x6F];
    var k2: seq<Byte> := [0x21, 0xDE, 0xAD, 0xBE, 0xEF];
    DecodeHalves(s, k1, k2);
    assert k1 + k2 == [0x48, 0x65, 0x6C, 0x6C, 0x6F, 0x21, 0xDE, 0xAD, 0xBE, 0xEF];
  }

  lemma ExampleFirstBlock(s: string)
    requires s == "JBSWY3DP"
    ensures InAlphabet(s) && Decode(s) == Some([0x48, 0x65, 0x6C, 0x6C, 0x6F])
  {
    ExampleBlock(s, [9, 1, 18, 22, 24, 27, 3, 15], [0x48, 0x65, 0x6C, 0x6C, 0x6F]);
  }

  lemma ExampleSecondBlock(s: string)
    requires s == "EHPK3PXP"
    ensures InAlphabet(s) && Decode(s) == Some([0x21, 0xDE, 0xAD, 0xBE, 0xEF])
  {
    ExampleBlock(s, [4, 7, 15, 10, 27, 15, 23, 15], [0x21, 0xDE, 0xAD, 0xBE, 0xEF]);
  }

  lemma DecodeHalves(s: string, k1: seq<Byte>, k2: seq<Byte>)
    requires |s| == 16
    requires InAlphabet(s[..8]) && Decode(s[..8]) == Some(k1)
    requires InAlphabet(s[8..]) && Decode(s[8..]) == Some(k2)
    ensures Decode(s) == Some(k1 + k2)
  {
    assert s[..8] + s[8..] == s;
    DecodeAppend(s[..8], s[8..]);
  }

  /** A block whose characters encode the symbols `v` decodes to `k`. */
  lemma ExampleBlock(s: string, v: seq<Symbol>, k: seq<Byte>)
    requires |s| == 8 && |v| == 8
    requires forall i :: 0 <= i < 8 ==> s[i] == SymbolChar(v[i])
    requires k == BlockDecode(v)
    ensures InAlphabet(s)
    ensures Decode(s) == Some(k)
  {
    assert InAlphabet(s);
    forall i | 0 <= i < 8 ensures Symbols(s).value[i] == v[i] {
      SymbolsAt(s, i);
      SymbolValueChar(v[i]);
    }
    assert Symbols(s).value == v;
    DecodeBlock(s);
  }

  /** SymbolValue undoes SymbolChar. */
  lemma SymbolValueChar(v: Symbol)
    ensures SymbolValue(SymbolChar(v)) == v
  {
  }
}
