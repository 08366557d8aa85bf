/** The sending side: a chat line becomes one datagram per 2-bit symbol, addressed to the
    port that encodes the symbol, followed by three end-of-message markers. */
module Sender {
  import opened Wire
  import opened SymbolCodec
  import opened TextBitCodec

  /** Appends one '0' to an odd number of bits so that they split into pairs. */
  function PadToPairs(bits: string): (r: string)
    ensures |r| % 2 == 0 && |bits| <= |r| < |bits| + 2
    ensures r[..|bits|] == bits && r[|bits|..] == Zeros(|r| - |bits|)
    ensures IsBits(bits) ==> IsBits(r)
  {
    if |bits| % 2 != 0 then bits + "0" else bits
  }

  /** The strings of ss, one after another. */
  function Flatten(ss: seq<string>): string {
    if ss == [] then "" else ss[0] + Flatten(ss[1..])
  }

  /** [bits[i:i+2] for i in range(0, len(bits), 2)] on an even number of bits. */
  function Pairs(bits: string): (r: seq<string>)
    requires |bits| % 2 == 0
    ensures |r| == |bits| / 2
    ensures Flatten(r) == bits
    decreases |bits|
  {
    if bits == "" then []
    else
      var rest := Pairs(bits[2..]);
      assert Flatten([bits[..2]] + rest) == bits[..2] + Flatten(rest);
      assert bits == bits[..2] + bits[2..];
      [bits[..2]] + rest
  }

  /** The i-th pair is the slice of bits that starts at 2 * i. */
  lemma {:induction false} PairsAt(bits: string, i: nat)
    requires |bits| % 2 == 0 && i < |bits| / 2
    ensures Pairs(bits)[i] == bits[2 * i..2 * i + 2]
    decreases |bits|
  {
    if i > 0 {
      PairsAt(bits[2..], i - 1);
    }
  }

  lemma PairsAreSymbols(bits: string)
    requires |bits| % 2 == 0 && IsBits(bits)
    ensures forall i :: 0 <= i < |bits| / 2 ==> Pairs(bits)[i] in SymbolToOffset
  {
    SymbolBijection();
    forall i | 0 <= i < |bits| / 2 ensures IsSymbol(Pairs(bits)[i]) {
      PairsAt(bits, i);
    }
  }

  /** One datagram with the filler payload per symbol, to destBase plus the symbol's offset. */
  function SymbolDatagrams(pairs: seq<string>, destBase: int): seq<Datagram>
    requires forall i :: 0 <= i < |pairs| ==> pairs[i] in SymbolToOffset
  {
    seq(|pairs|, i requires 0 <= i < |pairs| => Datagram(destBase + SymbolToOffset[pairs[i]], Filler))
  }

  /** The end-of-message marker, three times over, to the destination base port. */
  function FinBurst(destBase: int): seq<Datagram> {
    var fin := Datagram(destBase, FinMarker);
    [fin, fin, fin]
  }

  /** The bits as they go on the wire: text_to_bits, padded to whole pairs. */
  function WireBits(text: seq<Byte>): (r: string)
    ensures IsBits(r) && |r| % 2 == 0
  {
    PadToPairs(TextToBits(text))
  }

  /** The datagrams for an even number of bits: one per pair, then the marker burst. */
  function Frame(bits: string, destBase: int): seq<Datagram>
    requires IsBits(bits) && |bits| % 2 == 0
  {
    PairsAreSymbols(bits);
    SymbolDatagrams(Pairs(bits), destBase) + FinBurst(destBase)
  }

  /** Everything the sender emits for one message, in order. */
  function Transmission(text: seq<Byte>, destBase: int): seq<Datagram> {
    Frame(WireBits(text), destBase)
  }

  /** A line that is neither empty nor a slash command is a chat message and is sent. */
  predicate IsChatLine(msg: seq<Byte>) {
    msg != [] && msg[0] != Slash
  }

  /** One pass of the sender loop for an input line: the datagrams it emits, in order. */
  method SendLine(msg: seq<Byte>, destBase: int) returns (events: seq<Datagram>)
    ensures events == if IsChatLine(msg) then Transmission(msg, destBase) else []
  {
    if msg == [] || msg[0] == Slash {
      return [];
    }
    var bits := TextToBits(msg);
    if |bits| % 2 != 0 {
      bits := bits + "0";
    }
    assert bits == WireBits(msg);
    events := EmitFrame(bits, destBase);
  }

  /** Steps 2 to 4 of sending: split into pairs, emit one datagram per pair to the port of its
      offset, then the end-of-message marker three times to the base port. */
  method EmitFrame(bits: string, destBase: int) returns (events: seq<Datagram>)
    requires IsBits(bits) && |bits| % 2 == 0
    ensures events == Frame(bits, destBase)
  {
    var pairs := Pairs(bits);
    PairsAreSymbols(bits);
    events := [];
    for i := 0 to |pairs|
      invariant |events| == i
      invariant forall j :: 0 <= j < i ==> events[j] == Datagram(destBase + SymbolToOffset[pairs[j]], Filler)
    {
      var offset := SymbolToOffset[pairs[i]];
      events := events + [Datagram(destBase + offset, Filler)];
    }
    var symbols := events;
    assert symbols == SymbolDatagrams(pairs, destBase);
    for k := 0 to 3
      invariant |events| == |pairs| + k && events[..|pairs|] == symbols
      invariant forall j :: |pairs| <= j < |events| ==> events[j] == Datagram(destBase, FinMarker)
    {
      events := events + [Datagram(destBase, FinMarker)];
    }
    assert events == symbols + FinBurst(destBase);
  }

  /** text_to_bits always yields whole octets, so the padding of an odd bit count never
      applies to it. */
  lemma PaddingNeverApplies(text: seq<Byte>)
    ensures WireBits(text) == TextToBits(text)
  {
    var bits := TextToBits(text);
    assert PadToPairs(bits) == bits;
  }

  /** A frame is exactly one datagram per pair of bits, left to right, each to destBase plus
      the pair's offset (a port of the block destBase..destBase+3), and then three markers
      to destBase. */
  lemma FrameShape(bits: string, destBase: int)
    requires IsBits(bits) && |bits| % 2 == 0
    ensures var ds := Frame(bits, destBase);
      var n := |bits| / 2;
      && |ds| == n + 3
      && (forall i :: 0 <= i < n ==>
            bits[2 * i..2 * i + 2] in SymbolToOffset &&
            ds[i] == Datagram(destBase + SymbolToOffset[bits[2 * i..2 * i + 2]], Filler) &&
            destBase <= ds[i].port < destBase + 4)
      && (forall i :: n <= i < n + 3 ==> ds[i] == Datagram(destBase, FinMarker))
  {
    PairsAreSymbols(bits);
    SymbolBijection();
    forall i | 0 <= i < |bits| / 2 ensures Pairs(bits)[i] == bits[2 * i..2 * i + 2] {
      PairsAt(bits, i);
    }
  }

  /** The transmission of a text is the frame of its text_to_bits, unpadded. */
  lemma TransmissionShape(text: seq<Byte>, destBase: int)
    ensures Transmission(text, destBase) == Frame(TextToBits(text), destBase)
    ensures |Transmission(text, destBase)| == |TextToBits(text)| / 2 + 3
  {
    PaddingNeverApplies(text);
    FrameShape(TextToBits(text), destBase);
  }
}
