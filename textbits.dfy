/** Conversion between a message (its UTF-8 bytes) and the bitstream sent over the ports. */
module TextBitCodec {
  import opened Wire
  import opened SymbolCodec

  function Pow2(k: nat): (r: nat)
    ensures r >= 1
  {
    if k == 0 then 1 else 2 * Pow2(k - 1)
  }

  lemma {:induction false} Pow2Monotone(i: nat, j: nat)
    requires i <= j
    ensures Pow2(i) <= Pow2(j)
  {
    if i < j { Pow2Monotone(i, j - 1); }
  }

  function BitValue(c: char): nat {
    if c == '1' then 1 else 0
  }

  function Digit(odd: bool): char {
    if odd then '1' else '0'
  }

  /** int(s, 2) on a string of binary digits: its big-endian value. */
  function BitsValue(s: string): (v: nat)
    ensures v < Pow2(|s|)
  {
    if s == [] then 0 else 2 * BitsValue(s[..|s| - 1]) + BitValue(s[|s| - 1])
  }

  /** int.from_bytes(b, 'big'). */
  function BytesValue(b: seq<Byte>): nat {
    if b == [] then 0 else 256 * BytesValue(b[..|b| - 1]) + b[|b| - 1]
  }

  function Zeros(k: nat): (r: string)
    ensures |r| == k && IsBits(r)
  {
    seq(k, _ => '0')
  }

  /** bin(n)[2:]: the shortest binary numeral of n, "0" for zero. */
  function Bin(n: nat): (r: string)
    ensures IsBits(r) && |r| >= 1
    ensures BitsValue(r) == n
    ensures r[0] == '1' <==> n > 0
    ensures n == 0 ==> |r| == 1
  {
    if n < 2 then [Digit(n == 1)] else Bin(n / 2) + [Digit(n % 2 == 1)]
  }

  /** s.zfill(width) for a string of digits: zeros on the left up to the width. */
  function ZFill(s: string, width: int): (r: string)
    requires IsBits(s)
    ensures IsBits(r)
    ensures |r| == if width > |s| then width else |s|
    ensures s == r[|r| - |s|..] && r[..|r| - |s|] == Zeros(|r| - |s|)
    ensures BitsValue(r) == BitsValue(s)
  {
    var r := if width > |s| then Zeros(width - |s|) + s else s;
    ZerosValue(|r| - |s|);
    BitsValueConcat(Zeros(|r| - |s|), s);
    assert r == Zeros(|r| - |s|) + s;
    r
  }

  /** text_to_bits on the UTF-8 bytes of the text: the value of the bytes in binary,
      padded on the left to a whole number of octets. */
  function TextToBits(text: seq<Byte>): (r: string)
    ensures IsBits(r)
    ensures |r| % 8 == 0 && |r| % 2 == 0 && |r| >= 8
  {
    var bits := Bin(BytesValue(text));
    var r := ZFill(bits, OctetWidth(|bits|));
    OctetsEven(|r|);
    r
  }

  /** text_to_bits keeps the value: the bitstream denotes int.from_bytes of the text. */
  lemma TextToBitsValue(text: seq<Byte>)
    ensures BitsValue(TextToBits(text)) == BytesValue(text)
  {
  }

  /** 8 * ((n + 7) // 8): the smallest multiple of 8 that holds n digits. */
  function OctetWidth(n: nat): (w: nat)
    ensures n <= w < n + 8 && w % 8 == 0
  {
    var q := (n + 7) / 8;
    RoundUp(n, q);
    EightTimes(q);
    8 * q
  }

  lemma RoundUp(n: nat, q: nat)
    requires q == (n + 7) / 8
    ensures n <= 8 * q < n + 8
  {
  }

  lemma EightTimes(q: nat)
    ensures (8 * q) % 8 == 0
  {
  }

  /** A whole number of octets is an even number of bits. */
  lemma OctetsEven(w: nat)
    requires w % 8 == 0
    ensures w % 2 == 0
  {
    Twice(4 * (w / 8));
  }

  lemma Twice(k: nat)
    ensures (2 * k) % 2 == 0
  {
  }

  /** format(n, '0<w>b') for n below 2^w: exactly w binary digits. */
  function BitsOfWidth(n: nat, w: nat): (r: string)
    requires n < Pow2(w)
    ensures |r| == w && IsBits(r)
    ensures BitsValue(r) == n
  {
    if w == 0 then "" else BitsOfWidth(n / 2, w - 1) + [Digit(n % 2 == 1)]
  }

  /** The 8-bit big-endian form of one byte. */
  function ByteBits(x: Byte): (r: string)
    ensures |r| == 8 && IsBits(r)
    ensures BitsValue(r) == x
  {
    assert Pow2(8) == 256;
    BitsOfWidth(x, 8)
  }

  /** The concatenation of the 8-bit forms of the bytes, in order. */
  function BytesBits(b: seq<Byte>): (r: string)
    ensures |r| == 8 * |b| && IsBits(r)
  {
    if b == [] then "" else BytesBits(b[..|b| - 1]) + ByteBits(b[|b| - 1])
  }

  /** The concatenated 8-bit forms denote the big-endian value of the bytes. */
  lemma {:induction false} BytesBitsValue(b: seq<Byte>)
    ensures BitsValue(BytesBits(b)) == BytesValue(b)
    decreases |b|
  {
    if b != [] {
      var p := b[..|b| - 1];
      BytesBitsValue(p);
      AppendByteValue(BytesBits(p), b[|b| - 1]);
    }
  }

  /** Appending a byte's 8-bit form shifts the value left by 8 bits and adds the byte. */
  lemma AppendByteValue(s: string, x: Byte)
    ensures BitsValue(s + ByteBits(x)) == 256 * BitsValue(s) + x
  {
    var t := ByteBits(x);
    BitsValueConcat(s, t);
    assert Pow2(|t|) == 256;
    ScaleByOctet(BitsValue(s), Pow2(|t|));
  }

  lemma ScaleByOctet(a: nat, p: nat)
    requires p == 256
    ensures a * p == 256 * a
  {
  }

  /** The bytes left once leading zero bytes are removed. */
  function DropLeadingZeros(b: seq<Byte>): (r: seq<Byte>)
    ensures r == [] || r[0] != 0
    ensures |r| <= |b| && r == b[|b| - |r|..]
  {
    if b != [] && b[0] == 0 then DropLeadingZeros(b[1..]) else b
  }

  /** n.to_bytes((n.bit_length() + 7) // 8, 'big'): the shortest big-endian bytes of n. */
  function MinimalBytes(n: nat): (r: seq<Byte>)
    ensures n < 256 ==> r == if n == 0 then [] else [n]
  {
    if n == 0 then [] else MinimalBytes(n / 256) + [n % 256]
  }

  /** The bytes of n.to_bytes are the shortest big-endian form of n: they denote n, and
      they are empty exactly for zero and never start with a zero byte. */
  lemma {:induction false} MinimalBytesSpec(n: nat)
    ensures BytesValue(MinimalBytes(n)) == n
    ensures MinimalBytes(n) == [] <==> n == 0
    ensures MinimalBytes(n) != [] ==> MinimalBytes(n)[0] != 0
    decreases n
  {
    if n > 0 {
      var q := n / 256;
      MinimalBytesSpec(q);
      var r := MinimalBytes(n);
      assert r == MinimalBytes(q) + [n % 256];
      assert r[..|r| - 1] == MinimalBytes(q);
      assert n == 256 * q + n % 256;
    }
  }

  /** UTF-8 decoding of at most one byte: a lone byte is a valid sequence exactly when it
      is below 0x80, and then it is the code point of the same value. */
  function DecodeUtf8(bytes: seq<Byte>): (r: Option<string>)
    requires |bytes| <= 1
    ensures r.Some? <==> forall i :: 0 <= i < |bytes| ==> bytes[i] < 128
    ensures r.Some? ==> |r.value| == |bytes|
    ensures r.Some? ==> forall i :: 0 <= i < |bytes| ==> r.value[i] as int == bytes[i]
  {
    if bytes == [] then Some("")
    else if bytes[0] < 128 then Some([bytes[0] as char])
    else None
  }

  /** What the receiver makes of one byte: nothing for NUL, the character itself for ASCII,
      and the placeholder "?" for a byte that is not valid UTF-8 on its own. */
  function ByteText(x: Byte): string {
    if x == 0 then "" else if x < 128 then [x as char] else "?"
  }

  /** bits_to_text on a group of at most 8 binary digits; a failed parse or decode gives "?". */
  function BitsToText(bits: string): (r: string)
    requires IsBits(bits) && |bits| <= 8
    ensures bits == [] ==> r == "?"
    ensures bits != [] ==> BitsValue(bits) < 256 && r == ByteText(BitsValue(bits))
  {
    if bits == [] then "?"
    else
      var n := BitsValue(bits);
      Pow2Monotone(|bits|, 8);
      assert Pow2(8) == 256;
      match DecodeUtf8(MinimalBytes(n))
      case Some(t) => t
      case None => "?"
  }

  /** The receiver's decoding of a whole buffer: every complete 8-bit group in order, with a
      trailing group shorter than 8 bits ignored. */
  function DecodeGroups(bits: string): string
    requires IsBits(bits)
    decreases |bits|
  {
    if |bits| < 8 then "" else BitsToText(bits[..8]) + DecodeGroups(bits[8..])
  }

  /** DecodeGroups on 8 or more bits: the first group, then the rest. */
  lemma DecodeGroupsFront(bits: string)
    requires IsBits(bits) && |bits| >= 8
    ensures IsBits(bits[..8]) && IsBits(bits[8..])
    ensures DecodeGroups(bits) == BitsToText(bits[..8]) + DecodeGroups(bits[8..])
  {
  }

  /** Fewer than 8 bits decode to nothing. */
  lemma DecodeGroupsShort(text: string, bits: string)
    requires IsBits(bits) && |bits| < 8
    ensures text + DecodeGroups(bits) == text
  {
    assert DecodeGroups(bits) == "";
  }

  /** The receiver's view of a byte sequence, byte by byte. */
  function ByteTexts(b: seq<Byte>): string {
    if b == [] then "" else ByteText(b[0]) + ByteTexts(b[1..])
  }

  // ---------------------------------------------------------------------------
  // Lemmas about the binary values of strings

  lemma {:induction false} BitsValueConcat(s: string, t: string)
    ensures BitsValue(s + t) == BitsValue(s) * Pow2(|t|) + BitsValue(t)
    decreases |t|
  {
    if t == [] {
      assert s + t == s;
    } else {
      var t' := t[..|t| - 1];
      assert (s + t)[..|s + t| - 1] == s + t';
      BitsValueConcat(s, t');
      var a, p, q, d := BitsValue(s), Pow2(|t'|), BitsValue(t'), BitValue(t[|t| - 1]);
      assert BitsValue(s + t) == 2 * BitsValue(s + t') + d;
      assert BitsValue(t) == 2 * q + d;
      assert Pow2(|t|) == 2 * p;
      ShiftStep(a, p, q, d);
    }
  }

  lemma ShiftStep(a: int, p: int, q: int, d: int)
    ensures 2 * (a * p + q) + d == a * (2 * p) + (2 * q + d)
  {
  }

  lemma {:induction false} ZerosValue(k: nat)
    ensures BitsValue(Zeros(k)) == 0
  {
    if k > 0 {
      assert Zeros(k)[..k - 1] == Zeros(k - 1);
      ZerosValue(k - 1);
    }
  }

  /** A binary numeral that starts with '1' is what bin() prints for its value. */
  lemma {:induction false} BinOfLeadingOne(s: string)
    requires IsBits(s) && |s| > 0 && s[0] == '1'
    ensures Bin(BitsValue(s)) == s
    decreases |s|
  {
    if |s| == 1 {
      assert s == "1";
      assert BitsValue(s) == 2 * BitsValue("") + 1;
    } else {
      var p := s[..|s| - 1];
      BinOfLeadingOne(p);
      var v := BitsValue(s);
      assert v == 2 * BitsValue(p) + BitValue(s[|s| - 1]);
      assert BitsValue(p) > 0;
      assert v / 2 == BitsValue(p);
      assert Digit(v % 2 == 1) == s[|s| - 1];
      assert s == p + [s[|s| - 1]];
    }
  }

  /** A binary string of positive value is bin() of that value with zeros in front. */
  lemma {:induction false} LeadingZeros(t: string)
    requires IsBits(t) && BitsValue(t) > 0
    ensures |Bin(BitsValue(t))| <= |t|
    ensures t == Zeros(|t| - |Bin(BitsValue(t))|) + Bin(BitsValue(t))
    decreases |t|
  {
    if t[0] == '1' {
      BinOfLeadingOne(t);
      assert Zeros(0) + t == t;
    } else {
      var r := t[1..];
      LeadingZeroValue(t);
      LeadingZeros(r);
      var b := Bin(BitsValue(r));
      ZeroInFront(t, |r| - |b|, b);
    }
  }

  /** One more '0' in front of k zeros and b. */
  lemma ZeroInFront(t: string, k: nat, b: string)
    requires |t| > 0 && t[0] == '0' && t[1..] == Zeros(k) + b
    ensures t == Zeros(k + 1) + b
  {
    assert t == ['0'] + t[1..];
    ZerosCons(k);
    SeqAssoc(['0'], Zeros(k), b);
  }

  /** A leading '0' does not change the value. */
  lemma LeadingZeroValue(t: string)
    requires IsBits(t) && |t| > 0 && t[0] == '0'
    ensures BitsValue(t) == BitsValue(t[1..])
  {
    assert t == ['0'] + t[1..];
    PrependZeroValue(t[1..]);
  }

  lemma {:induction false} PrependZeroValue(s: string)
    ensures BitsValue(['0'] + s) == BitsValue(s)
    decreases |s|
  {
    var z := ['0'] + s;
    if s == [] {
      assert z[..0] == [];
    } else {
      var s' := s[..|s| - 1];
      assert z[..|z| - 1] == ['0'] + s';
      assert z[|z| - 1] == s[|s| - 1];
      PrependZeroValue(s');
    }
  }

  lemma SeqAssoc<T>(a: seq<T>, b: seq<T>, c: seq<T>)
    ensures a + (b + c) == (a + b) + c
  {
  }

  lemma ZerosCons(k: nat)
    ensures ['0'] + Zeros(k) == Zeros(k + 1)
  {
  }

  lemma {:induction false} BytesBitsConcat(a: seq<Byte>, c: seq<Byte>)
    ensures BytesBits(a + c) == BytesBits(a) + BytesBits(c)
    decreases |c|
  {
    if c == [] {
      assert a + c == a;
    } else {
      var c', x := c[..|c| - 1], c[|c| - 1];
      assert (a + c)[..|a + c| - 1] == a + c' && (a + c)[|a + c| - 1] == x;
      BytesBitsConcat(a, c');
      assert BytesBits(a + c) == BytesBits(a + c') + ByteBits(x);
      assert BytesBits(c) == BytesBits(c') + ByteBits(x);
      SeqAssoc(BytesBits(a), BytesBits(c'), ByteBits(x));
    }
  }

  /** BytesBits read from the front: the first byte's 8 bits, then the rest. */
  lemma BytesBitsFront(b: seq<Byte>)
    requires b != []
    ensures BytesBits(b) == ByteBits(b[0]) + BytesBits(b[1..])
  {
    assert b == [b[0]] + b[1..];
    BytesBitsConcat([b[0]], b[1..]);
    assert BytesBits([b[0]]) == BytesBits([]) + ByteBits(b[0]);
  }

  // ---------------------------------------------------------------------------
  // text_to_bits

  /** When the first byte is not zero, text_to_bits is the concatenation of the bytes'
      8-bit forms, and so carries every byte, in order. */
  lemma TextToBitsOfNonzeroLead(b: seq<Byte>)
    requires b != [] && b[0] != 0
    ensures TextToBits(b) == BytesBits(b)
  {
    var t := BytesBits(b);
    BytesBitsFront(b);
    assert t[..8] == ByteBits(b[0]);
    assert BitsValue(t[..8]) > 0;
    WholeOctets(|b|, 0);
    OctetAligned(t);
    BytesBitsValue(b);
    var s := Bin(BytesValue(b));
    assert s == Bin(BitsValue(t));
  }

  /** A whole number of octets whose first octet is not zero is exactly what bin()
      followed by zfill to whole octets prints for its value. */
  lemma OctetAligned(t: string)
    requires IsBits(t) && |t| >= 8 && |t| % 8 == 0 && BitsValue(t[..8]) > 0
    ensures var s := Bin(BitsValue(t)); OctetWidth(|s|) == |t| && ZFill(s, |t|) == t
  {
    FewLeadingZeros(t);
    var s := Bin(BitsValue(t));
    OctetWidthBelow(|t|, |t| - |s|);
    ZFillOfZeros(s, |t| - |s|);
  }

  /** Up to 7 digits short of a whole number of octets still rounds up to it. */
  lemma OctetWidthBelow(m: nat, k: nat)
    requires m % 8 == 0 && k < 8 && k < m
    ensures OctetWidth(m - k) == m
  {
    WholeOctets(m / 8, k);
  }

  /** zfill to k more digits puts exactly k zeros in front. */
  lemma ZFillOfZeros(s: string, k: nat)
    requires IsBits(s)
    ensures ZFill(s, |s| + k) == Zeros(k) + s
  {
    var r := ZFill(s, |s| + k);
    assert r[..k] == Zeros(k) && r[k..] == s;
    assert r == r[..k] + r[k..];
  }

  /** With a nonzero first octet, fewer than 8 zeros stand in front of bin() of the value. */
  lemma FewLeadingZeros(t: string)
    requires IsBits(t) && |t| >= 8 && BitsValue(t[..8]) > 0
    ensures var s := Bin(BitsValue(t)); |s| <= |t| < |s| + 8 && t == Zeros(|t| - |s|) + s
  {
    PositiveHead(t);
    LeadingZeros(t);
    var s := Bin(BitsValue(t));
    var k := |t| - |s|;
    if k >= 8 {
      ZerosPrefix(t, k, s);
      ZerosValue(8);
      assert false;
    }
  }

  /** A string whose first octet has a positive value has a positive value. */
  lemma PositiveHead(t: string)
    requires IsBits(t) && |t| >= 8 && BitsValue(t[..8]) > 0
    ensures BitsValue(t) > 0
  {
    var head, rest := t[..8], t[8..];
    assert t == head + rest;
    BitsValueConcat(head, rest);
    PositiveLead(BitsValue(head), Pow2(|rest|), BitsValue(rest));
  }

  lemma ZerosPrefix(t: string, k: nat, s: string)
    requires k >= 8 && t == Zeros(k) + s
    ensures t[..8] == Zeros(8)
  {
    assert t[..8] == Zeros(k)[..8];
  }

  lemma PositiveLead(x: nat, p: nat, y: nat)
    requires x >= 1 && p >= 1
    ensures x * p + y >= 1
  {
  }

  lemma WholeOctets(n: nat, k: nat)
    requires k < 8 && k <= 8 * n
    ensures (8 * n - k + 7) / 8 == n
    ensures (8 * n) % 8 == 0
  {
  }

  /** A leading zero byte changes nothing: int.from_bytes ignores it. */
  lemma {:induction false} BytesValueLeadingZero(b: seq<Byte>)
    ensures BytesValue([0] + b) == BytesValue(b)
    decreases |b|
  {
    if b != [] {
      assert ([0] + b)[..|b|] == [0] + b[..|b| - 1];
      BytesValueLeadingZero(b[..|b| - 1]);
    } else {
      assert BytesValue([0]) == 256 * BytesValue([]) + 0;
    }
  }

  /** text_to_bits in full: the 8-bit forms of the bytes that follow any leading zero
      bytes, or a single zero octet when no nonzero byte is left (the empty text included). */
  lemma {:induction false} TextToBitsSpec(b: seq<Byte>)
    ensures var d := DropLeadingZeros(b);
      TextToBits(b) == BytesBits(if d == [] then [0] else d)
    decreases |b|
  {
    if b == [] {
      var r := TextToBits(b);
      TextToBitsValue(b);
      assert |r| == 8 && BitsValue(r) == 0;
      assert BytesBits([0]) == BytesBits([]) + ByteBits(0);
      BinaryValueUnique(r, ByteBits(0));
    } else if b[0] == 0 {
      assert b == [0] + b[1..];
      BytesValueLeadingZero(b[1..]);
      TextToBitsSpec(b[1..]);
    } else {
      TextToBitsOfNonzeroLead(b);
    }
  }

  /** The empty text becomes one zero octet rather than an empty bitstream. */
  lemma TextToBitsEmpty()
    ensures TextToBits([]) == "00000000"
  {
    var r := TextToBits([]);
    TextToBitsValue([]);
    assert |r| == 8 && BitsValue(r) == 0;
    ZerosValue(8);
    BinaryValueUnique(r, Zeros(8));
  }

  // ---------------------------------------------------------------------------
  // bits_to_text and group-wise decoding

  /** Decoding a byte's 8-bit form gives that byte's text: "" for NUL, the ASCII character
      for 1..127 and "?" for 128..255. */
  lemma BitsToTextOfByte(x: Byte)
    ensures BitsToText(ByteBits(x)) == ByteText(x)
    ensures x == 0 ==> BitsToText(ByteBits(x)) == ""
    ensures 1 <= x < 128 ==> BitsToText(ByteBits(x)) == [x as char]
    ensures x >= 128 ==> BitsToText(ByteBits(x)) == "?"
  {
  }

  /** Decoding the bits of a byte sequence, followed by fewer than 8 stray bits, yields the
      texts of the bytes in order; the stray bits are dropped. */
  lemma {:induction false} DecodeBytesBits(b: seq<Byte>, tail: string)
    requires IsBits(tail) && |tail| < 8
    ensures DecodeGroups(BytesBits(b) + tail) == ByteTexts(b)
    decreases |b|
  {
    if b == [] {
      assert BytesBits(b) + tail == tail;
    } else {
      var s := BytesBits(b) + tail;
      SplitFirstByte(b, tail);
      DecodeGroupsFront(s);
      BitsToTextOfByte(b[0]);
      DecodeBytesBits(b[1..], tail);
    }
  }

  lemma SplitFirstByte(b: seq<Byte>, tail: string)
    requires b != []
    ensures (BytesBits(b) + tail)[..8] == ByteBits(b[0])
    ensures (BytesBits(b) + tail)[8..] == BytesBits(b[1..]) + tail
  {
    BytesBitsFront(b);
    SeqAssoc(ByteBits(b[0]), BytesBits(b[1..]), tail);
  }

  /** Zero bytes contribute nothing to the decoded text. */
  lemma {:induction false} ByteTextsDropLeadingZeros(b: seq<Byte>)
    ensures ByteTexts(DropLeadingZeros(b)) == ByteTexts(b)
    decreases |b|
  {
    if b != [] && b[0] == 0 {
      ByteTextsDropLeadingZeros(b[1..]);
    }
  }

  /** Group-wise decoding of text_to_bits: each byte on its own, in order. */
  lemma DecodeTextToBits(b: seq<Byte>)
    ensures DecodeGroups(TextToBits(b)) == ByteTexts(b)
  {
    TextToBitsSpec(b);
    ByteTextsDropLeadingZeros(b);
    var d := DropLeadingZeros(b);
    if d == [] {
      DecodeOneOctet(0);
    } else {
      DecodeBytesBits(d, "");
      assert BytesBits(d) + "" == BytesBits(d);
    }
  }

  lemma DecodeOneOctet(x: Byte)
    ensures DecodeGroups(BytesBits([x])) == ByteText(x)
  {
    assert BytesBits([x]) + "" == BytesBits([x]);
    DecodeBytesBits([x], "");
    assert ByteTexts([x]) == ByteText(x) + ByteTexts([]);
  }

  /** Two binary strings of the same length and value are equal. */
  lemma {:induction false} BinaryValueUnique(s: string, t: string)
    requires IsBits(s) && IsBits(t) && |s| == |t|
    requires BitsValue(s) == BitsValue(t)
    ensures s == t
    decreases |s|
  {
    if s != [] {
      var n := |s| - 1;
      assert BitValue(s[n]) == BitValue(t[n]);
      BinaryValueUnique(s[..n], t[..n]);
      assert s == s[..n] + [s[n]] && t == t[..n] + [t[n]];
    }
  }

  /** Every character lies in the 7-bit ASCII range. */
  predicate IsAscii(s: string) {
    forall i :: 0 <= i < |s| ==> s[i] as int < 128
  }

  /** Every character lies in the 7-bit ASCII range and none is NUL. */
  predicate IsAsciiNoNul(s: string) {
    forall i :: 0 <= i < |s| ==> 1 <= s[i] as int < 128
  }

  /** UTF-8 encoding of ASCII text: one byte per character, of the same value. */
  function AsciiEncode(s: string): (r: seq<Byte>)
    requires IsAscii(s)
    ensures |r| == |s| && forall i :: 0 <= i < |s| ==> r[i] == s[i] as int
  {
    seq(|s|, i requires 0 <= i < |s| => s[i] as int)
  }

  /** For ASCII text without NUL, the receiver's byte-by-byte view gives the text back. */
  lemma {:induction false} ByteTextsAscii(s: string)
    requires IsAsciiNoNul(s)
    ensures ByteTexts(AsciiEncode(s)) == s
    decreases |s|
  {
    if s != [] {
      var b := AsciiEncode(s);
      assert b[1..] == AsciiEncode(s[1..]);
      ByteTextsAscii(s[1..]);
      assert [s[0]] + s[1..] == s;
    }
  }

  /** The text with every NUL character removed. */
  function WithoutNul(s: string): string {
    if s == [] then "" else (if s[0] == '\0' then "" else [s[0]]) + WithoutNul(s[1..])
  }

  /** For any ASCII text, NUL included, the receiver's byte-by-byte view gives the text back
      with its NUL characters removed. */
  lemma {:induction false} ByteTextsOfAscii(s: string)
    requires IsAscii(s)
    ensures ByteTexts(AsciiEncode(s)) == WithoutNul(s)
    decreases |s|
  {
    if s != [] {
      var b := AsciiEncode(s);
      assert b[1..] == AsciiEncode(s[1..]);
      ByteTextsOfAscii(s[1..]);
    }
  }
}
