/** Base64 as the RPC uses it (section 4 of RFC 4648): the two loops, and their round trip. */
module Base64 {
  import opened Bits

  const PAD: byte := 61

  // ---------------------------------------------------------------- the alphabet

  /** b64_chr: the character of a six-bit digit. */
  function Char(d: nat): (c: byte)
    requires d < 64
    ensures c != PAD && c > 0
  {
    if d < 26 then 65 + d else if d < 52 then 71 + d else if d < 62 then d - 4 else if d == 62 then 43 else 47
  }

  /** b64_int: 64 for the padding character, 0 for a character outside the alphabet. */
  function Int(ch: byte): (d: nat)
    ensures d <= 64 && (d == 64 <==> ch == PAD)
  {
    if ch == 43 then 62
    else if ch == 47 then 63
    else if ch == PAD then 64
    else if 47 < ch < 58 then ch + 4
    else if 64 < ch < 91 then ch - 65
    else if 96 < ch < 123 then ch - 97 + 26
    else 0
  }

  lemma IntOfChar(d: nat)
    requires d < 64
    ensures Int(Char(d)) == d
  {
  }

  /** The alphabet of section 4 of RFC 4648, written and read. */
  lemma Alphabet(d: nat)
    requires d < 64
    ensures Char(d) ==
      if d < 26 then 'A' as int + d else if d < 52 then 'a' as int + (d - 26) else if d < 62 then '0' as int + (d - 52)
      else if d == 62 then '+' as int else '/' as int
    ensures Int(Char(d)) == d && Int('=' as int) == 64
  {
  }

  /** A character reads as its digit; one outside the alphabet reads as the letter A. */
  lemma ReadsAs(ch: byte)
    requires ch != '=' as int
    ensures Int(ch) < 64
    ensures if exists d :: 0 <= d < 64 && Char(d) == ch then Char(Int(ch)) == ch else Int(ch) == Int('A' as int)
  {
    if d :| 0 <= d < 64 && Char(d) == ch { IntOfChar(d); }
  }

  /** Two of the test vectors of section 10 of RFC 4648: "f" and "foobar". */
  lemma TestVectors()
    ensures Encode([102]) == [90, 103, 61, 61]
    ensures Encode([102, 111, 111, 98, 97, 114]) == [90, 109, 57, 118, 89, 109, 70, 121]
  {
    DigitsByShifts(102, 0, 0);
    DigitsByShifts(102, 111, 111);
    DigitsByShifts(98, 97, 114);
    hide Digit, Group;
    assert [102, 111, 111, 98, 97, 114][3..] == [98, 97, 114] && [98, 97, 114][3..] == [];
  }

  // ---------------------------------------------------------------- encoding

  /** Digit `k` (from the most significant) of a 24-bit group. */
  function Digit(group: nat, k: nat): (d: nat)
    requires k < 4
    ensures d < 64
  {
    if k == 0 then group / 0x4_0000 % 64
    else if k == 1 then group / 0x1000 % 64
    else if k == 2 then group / 0x40 % 64
    else group % 64
  }

  /** Three bytes read as a big-endian 24-bit number. */
  function Group(b0: byte, b1: byte, b2: byte): (g: nat)
    ensures g < 0x100_0000
  {
    b0 * 0x1_0000 + b1 * 0x100 + b2
  }

  function FullGroup(b0: byte, b1: byte, b2: byte): (s: seq<byte>)
    ensures |s| == 4
  {
    var g := Group(b0, b1, b2);
    [Char(Digit(g, 0)), Char(Digit(g, 1)), Char(Digit(g, 2)), Char(Digit(g, 3))]
  }

  /** A last group of one or two bytes is filled up with zero bits; missing digits become padding. */
  function LastGroup(b0: byte, b1: byte, two: bool): (s: seq<byte>)
    ensures |s| == 4
  {
    var g := Group(b0, b1, 0);
    [Char(Digit(g, 0)), Char(Digit(g, 1)), if two then Char(Digit(g, 2)) else PAD, PAD]
  }

  /** RFC 4648: each 24-bit group becomes four digits. */
  function Encode(x: seq<byte>): (s: seq<byte>) {
    if x == [] then []
    else if |x| == 1 then LastGroup(x[0], 0, false)
    else if |x| == 2 then LastGroup(x[0], x[1], true)
    else FullGroup(x[0], x[1], x[2]) + Encode(x[3..])
  }

  lemma {:induction false} EncodeLength(x: seq<byte>)
    ensures |Encode(x)| == (|x| + 2) / 3 * 4
  {
    hide FullGroup, LastGroup;
    if |x| >= 3 { EncodeLength(x[3..]); }
  }

  /** The shifts and masks of the encoder pick the digits of the group. */
  lemma DigitsByShifts(b0: byte, b1: byte, b2: byte)
    ensures Digit(Group(b0, b1, b2), 0) == b0 / 4
    ensures Digit(Group(b0, b1, b2), 1) == b0 % 4 * 16 + b1 / 16
    ensures Digit(Group(b0, b1, b2), 2) == b1 % 16 * 4 + b2 / 64
    ensures Digit(Group(b0, b1, b2), 3) == b2 % 64
  {
    var g := Group(b0, b1, b2);
    DivUnique(g, 0x4_0000, b0 / 4, b0 % 4 * 0x1_0000 + b1 * 0x100 + b2);
    DivUnique(g, 0x1000, b0 * 16 + b1 / 16, b1 % 16 * 0x100 + b2);
    DivUnique(b0 * 16 + b1 / 16, 64, b0 / 4, b0 % 4 * 16 + b1 / 16);
    DivUnique(g, 0x40, b0 * 0x400 + b1 * 4 + b2 / 64, b2 % 64);
    DivUnique(b0 * 0x400 + b1 * 4 + b2 / 64, 64, b0 * 16 + b1 / 16, b1 % 16 * 4 + b2 / 64);
    DivUnique(b0 / 4, 64, 0, b0 / 4);
  }

  lemma {:induction false} EncodeStep(x: seq<byte>, i: nat)
    requires i % 3 == 0 && i + 3 <= |x|
    ensures Encode(x[..i + 3]) == Encode(x[..i]) + FullGroup(x[i], x[i + 1], x[i + 2])
    decreases i
  {
    if i == 0 {
      assert Encode(x[..3]) == FullGroup(x[0], x[1], x[2]) + Encode(x[..3][3..]);
    } else {
      EncodeStep(x[3..], i - 3);
      assert x[3..][..i] == x[..i + 3][3..] && x[3..][..i - 3] == x[..i][3..];
    }
  }

  lemma {:induction false} EncodeTail(x: seq<byte>, i: nat)
    requires i % 3 == 0 && i <= |x|
    ensures Encode(x) == Encode(x[..i]) + Encode(x[i..])
    decreases i
  {
    hide FullGroup, LastGroup;
    if i == 0 {
      assert x[0..] == x;
    } else {
      EncodeTail(x[3..], i - 3);
      assert x[3..][..i - 3] == x[..i][3..] && x[3..][i - 3..] == x[i..];
    }
  }

  /** Four stores through the output pointer. */
  method Store4(out: array<byte>, k: nat, c0: byte, c1: byte, c2: byte, c3: byte)
    requires k + 4 <= out.Length
    modifies out
    ensures out[..k] == old(out[..k]) && out[k + 4..] == old(out[k + 4..])
    ensures out[..k + 4] == old(out[..k]) + [c0, c1, c2, c3]
  {
    out[k], out[k + 1], out[k + 2], out[k + 3] := c0, c1, c2, c3;
  }

  /** The loop over full groups. */
  method EncodeGroups(src: seq<byte>, out: array<byte>) returns (i: nat, k: nat)
    requires |src| >= 2 && |Encode(src)| < out.Length
    modifies out
    ensures i % 3 == 0 && k == i / 3 * 4 && i <= |src| < i + 3
    ensures k <= out.Length && out[..k] == Encode(src[..i]) && out[k..] == old(out[k..])
  {
    hide Encode, Char, Digit, FullGroup, LastGroup, Group;
    EncodeLength(src);
    var bsz: nat := |src|;
    i, k := 0, 0;
    assert src[..0] == [] && Encode([]) == [] by { EncodeNothing(); }
    while i < bsz - 2
      invariant i <= bsz && i % 3 == 0 && k == i / 3 * 4
      invariant out[..k] == Encode(src[..i])
      invariant out[k..] == old(out[k..])
    {
      var s0, s1, s2 := src[i], src[i + 1], src[i + 2];
      FullByShifts(s0, s1, s2);
      EncodeStep(src, i);
      Store4(out, k, Char(s0 / 4), Char(s0 % 4 * 16 + s1 / 16), Char(s1 % 16 * 4 + s2 / 64), Char(s2 % 64));
      assert old(out[k..])[4..] == old(out[k + 4..]);
      i := i + 3;
      k := k + 4;
    }
  }

  /** base64_encode; `bsz - 2` must not wrap. */
  method EncodeInto(src: seq<byte>, out: array<byte>) returns (k: nat)
    requires |src| >= 2 && |Encode(src)| < out.Length
    modifies out
    ensures k == |Encode(src)| && out[..k] == Encode(src) && out[k] == 0
    ensures out[k + 1..] == old(out[k + 1..])
  {
    hide Encode, Char, Digit, FullGroup, LastGroup, Group;
    EncodeLength(src);
    var i;
    i, k := EncodeGroups(src, out);
    EncodeTail(src, i);
    if i < |src| {
      var rest := src[i..];
      var s0, s1 := rest[0], if |rest| == 1 then 0 else rest[1];
      LastByShifts(s0, s1, |rest| == 2);
      EncodeLast(rest);
      Store4(out, k, Char(s0 / 4), Char(s0 % 4 * 16 + s1 / 16), if |rest| == 2 then Char(s1 % 16 * 4) else PAD, PAD);
      assert old(out[k..])[4..] == old(out[k + 4..]);
      k := k + 4;
    } else {
      assert src[i..] == [] && src[..i] == src;
      EncodeNothing();
    }
    ghost var encoded, after := out[..k], out[k..];
    assert after[1..] == out[k + 1..] && old(out[k..])[1..] == old(out[k + 1..]);
    out[k] := 0;
    assert out[..k] == encoded && out[k + 1..] == after[1..];
  }

  lemma EncodeNothing()
    ensures Encode([]) == []
  {
  }

  lemma FullByShifts(b0: byte, b1: byte, b2: byte)
    ensures FullGroup(b0, b1, b2) ==
      [Char(b0 / 4), Char(b0 % 4 * 16 + b1 / 16), Char(b1 % 16 * 4 + b2 / 64), Char(b2 % 64)]
  {
    DigitsByShifts(b0, b1, b2);
  }

  lemma LastByShifts(b0: byte, b1: byte, two: bool)
    ensures LastGroup(b0, b1, two) ==
      [Char(b0 / 4), Char(b0 % 4 * 16 + b1 / 16), if two then Char(b1 % 16 * 4) else PAD, PAD]
  {
    DigitsByShifts(b0, b1, 0);
  }

  lemma EncodeLast(x: seq<byte>)
    requires 1 <= |x| <= 2
    ensures Encode(x) == LastGroup(x[0], if |x| == 1 then 0 else x[1], |x| == 2)
  {
  }

  // ---------------------------------------------------------------- decoding

  /** What one group of four characters decodes to, padding and foreign characters included. */
  function DecodeGroup(c0: byte, c1: byte, c2: byte, c3: byte): (r: seq<byte>)
    ensures 1 <= |r| <= 3
  {
    var s0, s1, s2, s3 := Int(c0), Int(c1), Int(c2), Int(c3);
    var first: byte := (s0 * 4 + s1 / 16 % 4) % 256;
    if s2 == 64 then [first]
    else
      var second: byte := s1 % 16 * 16 + s2 / 4 % 16;
      if s3 == 64 then [first, second] else [first, second, s2 % 4 * 64 + s3]
  }

  function Decode(s: seq<byte>): (x: seq<byte>)
    ensures |x| <= |s| / 4 * 3
  {
    if |s| < 4 then [] else DecodeGroup(s[0], s[1], s[2], s[3]) + Decode(s[4..])
  }

  lemma DecodeFull(b0: byte, b1: byte, b2: byte)
    ensures var s := FullGroup(b0, b1, b2); DecodeGroup(s[0], s[1], s[2], s[3]) == [b0, b1, b2]
  {
    hide Char, Int, FullGroup;
    FullByShifts(b0, b1, b2);
    Regroup(b0, b1, b2);
    IntOfChar(b0 / 4);
    IntOfChar(b0 % 4 * 16 + b1 / 16);
    IntOfChar(b1 % 16 * 4 + b2 / 64);
    IntOfChar(b2 % 64);
  }

  lemma DecodeLast(b0: byte, b1: byte, two: bool)
    requires !two ==> b1 == 0
    ensures var s := LastGroup(b0, b1, two);
      DecodeGroup(s[0], s[1], s[2], s[3]) == if two then [b0, b1] else [b0]
  {
    hide Char, Int, LastGroup;
    LastByShifts(b0, b1, two);
    Regroup(b0, b1, 0);
    IntOfChar(b0 / 4);
    IntOfChar(b0 % 4 * 16 + b1 / 16);
    IntOfChar(b1 % 16 * 4);
    assert Int(PAD) == 64;
  }

  lemma Regroup(b0: byte, b1: byte, b2: byte)
    ensures (b0 / 4 * 4 + (b0 % 4 * 16 + b1 / 16) / 16 % 4) % 256 == b0
    ensures (b0 % 4 * 16 + b1 / 16) % 16 * 16 + (b1 % 16 * 4 + b2 / 64) / 4 % 16 == b1
    ensures (b1 % 16 * 4 + b2 / 64) % 4 * 64 + b2 % 64 == b2
  {
    DivUnique(b0 % 4 * 16 + b1 / 16, 16, b0 % 4, b1 / 16);
    DivUnique(b1 % 16 * 4 + b2 / 64, 4, b1 % 16, b2 / 64);
  }

  /** Decoding an encoding gives the input back. */
  lemma {:induction false} RoundTrip(x: seq<byte>)
    ensures Decode(Encode(x)) == x
  {
    hide DecodeGroup, LastGroup, FullGroup;
    if x == [] {
    } else if |x| < 3 {
      DecodeLast(x[0], if |x| == 1 then 0 else x[1], |x| == 2);
      assert Encode(x)[4..] == [];
    } else {
      DecodeFull(x[0], x[1], x[2]);
      RoundTrip(x[3..]);
      assert Encode(x)[4..] == Encode(x[3..]);
      assert x == [x[0], x[1], x[2]] + x[3..];
    }
  }

  /** A 256-byte sector encodes to the 344 characters the RPC insists on, and they come back as that sector. */
  lemma SectorLength(x: seq<byte>)
    requires |x| == 256
    ensures |Encode(x)| == 344 && Decode(Encode(x)) == x
  {
    RoundTrip(x);
    EncodeLength(x);
  }

  function DecodeChars(c: seq<byte>): (r: seq<byte>)
    requires |c| == 4
    ensures 1 <= |r| <= 3
  {
    DecodeGroup(c[0], c[1], c[2], c[3])
  }

  lemma {:induction false} DecodeStep(s: seq<byte>, g: nat)
    requires 4 * g + 4 <= |s|
    ensures Decode(s[..4 * g + 4]) == Decode(s[..4 * g]) + DecodeChars(s[4 * g..4 * g + 4])
    decreases g
  {
    hide DecodeGroup;
    if g == 0 {
      assert s[..4][4..] == [];
    } else {
      DecodeStep(s[4..], g - 1);
      assert s[4..][..4 * g] == s[..4 * g + 4][4..] && s[4..][..4 * g - 4] == s[..4 * g][4..];
      assert s[4..][4 * g - 4..4 * g] == s[4 * g..4 * g + 4];
    }
  }

  lemma {:induction false} DecodeRest(s: seq<byte>, g: nat)
    requires 4 * g <= |s| < 4 * g + 4
    ensures Decode(s) == Decode(s[..4 * g])
    decreases g
  {
    hide DecodeGroup;
    if g > 0 {
      DecodeRest(s[4..], g - 1);
      assert s[4..][..4 * g - 4] == s[..4 * g][4..];
    }
  }

  function Ints(c: seq<byte>): (s: seq<nat>)
    ensures |s| == |c|
  {
    seq(|c|, p requires 0 <= p < |c| => Int(c[p]))
  }

  /** One group of the decoder: up to three stores through the output pointer. */
  method StoreGroup(out: array<byte>, k0: nat, s: seq<nat>, ghost c: seq<byte>) returns (k: nat)
    requires |c| == 4 && s == Ints(c) && k0 + 3 <= out.Length
    modifies out
    ensures k == k0 + |DecodeChars(c)| && out[..k] == old(out[..k0]) + DecodeChars(c)
  {
    hide Int;
    out[k0] := (s[0] * 4 + s[1] / 16 % 4) % 256;
    if s[2] != 64 {
      out[k0 + 1] := s[1] % 16 * 16 + s[2] / 4 % 16;
      if s[3] != 64 {
        out[k0 + 2] := s[2] % 4 * 64 + s[3];
        k := k0 + 3;
      } else {
        k := k0 + 2;
      }
    } else {
      k := k0 + 1;
    }
  }

  /** base64_decode. The output buffer needs three bytes for every four characters, whatever they are. */
  method DecodeInto(src: seq<byte>, out: array<byte>) returns (k: nat)
    requires |src| / 4 * 3 <= out.Length
    modifies out
    ensures k == |Decode(src)| && out[..k] == Decode(src)
  {
    hide Decode, DecodeChars, Ints;
    var i: nat, s: seq<nat> := 0, [];
    ghost var groups: nat, base: nat := 0, 0;
    ghost var n := WholeGroups(|src|);
    k := 0;
    assert src[..0] == [] && src[0..0] == [];
    DecodeNothing();
    while i < |src|
      invariant base == 4 * groups && base <= i <= |src| && i < base + 4
      invariant s == Ints(src[base..i])
      invariant groups <= n && k <= 3 * groups <= out.Length && out[..k] == Decode(src[..base])
    {
      IntsPush(src[base..i], src[i]);
      assert src[base..i + 1] == src[base..i] + [src[i]];
      s := s + [Int(src[i])];
      i := i + 1;
      if |s| == 4 {
        DecodeStep(src, groups);
        k := StoreGroup(out, k, s, src[base..i]);
        s, groups, base := [], groups + 1, base + 4;
        assert src[base..i] == [];
      }
    }
    DecodeRest(src, groups);
  }

  lemma IntsPush(c: seq<byte>, ch: byte)
    ensures Ints(c + [ch]) == Ints(c) + [Int(ch)]
  {
  }

  lemma WholeGroups(len: nat) returns (n: nat)
    ensures 4 * n <= len < 4 * n + 4 && 3 * n == len / 4 * 3
  {
    n := len / 4;
  }

  lemma DecodeNothing()
    ensures Decode([]) == [] && Ints([]) == []
  {
  }
}
