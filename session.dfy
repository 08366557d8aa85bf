/** The two peers together: the crosswise choice of port blocks, and what a listener makes of
    everything a sender emits for one line. */
module Session {
  import opened Wire
  import opened SymbolCodec
  import opened TextBitCodec
  import opened Sender
  import opened Receiver

  /** The blocks a peer listens on and speaks to, and its default nickname. */
  datatype Roles = Roles(listenBase: int, speakBase: int, defaultNick: string)

  /** The four ports of the block that starts at base. */
  function Block(base: int): set<int> {
    {base, base + 1, base + 2, base + 3}
  }

  /** Channel A (choice "1") listens on 9000..9003 and speaks to 9004..9007; any other answer
      is channel B, the mirror image. */
  function AssignPorts(choice: string): (r: Roles)
    ensures r.listenBase == 9000 <==> choice == "1"
    ensures {r.listenBase, r.speakBase} == {9000, 9004}
    ensures Block(r.listenBase) !! Block(r.speakBase)
    ensures r.defaultNick == (if r.listenBase == 9000 then "A" else "B")
  {
    if choice == "1" then Roles(9000, 9004, "A") else Roles(9004, 9000, "B")
  }

  /** One peer's datagrams reach the other's listening block exactly when the two made
      different choices; with the same choice both listen on the same block and speak past
      each other. */
  lemma RolesCrosswise(a: string, b: string)
    ensures AssignPorts(a).speakBase == AssignPorts(b).listenBase <==> ((a == "1") != (b == "1"))
    ensures AssignPorts(b).speakBase == AssignPorts(a).listenBase <==> ((a == "1") != (b == "1"))
  {
  }

  // ---------------------------------------------------------------------------
  // From sender to listener

  /** The port offsets of a sequence of symbols. */
  function Offsets(pairs: seq<string>): (r: seq<int>)
    requires forall i :: 0 <= i < |pairs| ==> pairs[i] in SymbolToOffset
    ensures |r| == |pairs|
  {
    seq(|pairs|, i requires 0 <= i < |pairs| => SymbolToOffset[pairs[i]])
  }

  /** The listener reads back from the offsets exactly the symbols the sender started from. */
  lemma {:induction false} SymbolsOfOffsets(pairs: seq<string>)
    requires forall i :: 0 <= i < |pairs| ==> pairs[i] in SymbolToOffset
    ensures SymbolsOf(Offsets(pairs)) == Flatten(pairs)
    decreases |pairs|
  {
    if pairs != [] {
      var offsets := Offsets(pairs);
      assert offsets[1..] == Offsets(pairs[1..]);
      SymbolsOfOffsets(pairs[1..]);
      var p := pairs[0];
      var r := SymbolBits(SymbolToOffset[p]);
      assert Injective(SymbolToOffset);
      assert r == p;
    }
  }

  /** The symbol datagrams of a sender are the offset datagrams a listener decodes. */
  lemma SymbolDatagramsAsOffsets(pairs: seq<string>, base: int)
    requires forall i :: 0 <= i < |pairs| ==> pairs[i] in SymbolToOffset
    ensures SymbolDatagrams(pairs, base) == OffsetDatagrams(Offsets(pairs), base)
  {
  }

  /** A listener with an empty buffer turns a frame back into its bits and flushes them once:
      it delivers what a flush of exactly those bits delivers and ends with an empty buffer. */
  lemma FrameRun(bits: string, base: int)
    requires IsBits(bits) && |bits| % 2 == 0
    ensures Run("", Frame(bits, base), base) == ("", Emitted(Flushed(bits)))
  {
    PairsAreSymbols(bits);
    var pairs := Pairs(bits);
    var symbols := SymbolDatagrams(pairs, base);
    SymbolDatagramsAsOffsets(pairs, base);
    SymbolsOfOffsets(pairs);
    RunSymbols("", Offsets(pairs), base);
    assert "" + bits == bits;
    assert Run("", symbols, base) == (bits, []);
    RunConcat("", symbols, FinBurst(base), base);
    assert FinBurst(base) == Markers(3, base);
    MarkersFlushOnce(bits, 3, base, base);
    var out := Emitted(Flushed(bits));
    assert [] + out == out;
  }

  /** A listener on the destination block that starts with an empty buffer receives the
      transmission of a text as exactly one delivery: the text byte by byte, with NUL bytes
      dropped and every byte outside ASCII turned into "?", or nothing at all when that is
      empty. Its buffer is empty afterwards. */
  lemma EndToEnd(text: seq<Byte>, base: int)
    ensures Run("", Transmission(text, base), base) == ("", Emitted(Deliverable(ByteTexts(text))))
  {
    var bits := TextToBits(text);
    PaddingNeverApplies(text);
    FrameRun(bits, base);
    DecodeTextToBits(text);
    assert bits != "";
  }

  /** A non-empty line of ASCII text without NUL arrives unchanged, once. */
  lemma EndToEndAscii(s: string, base: int)
    requires s != "" && IsAsciiNoNul(s)
    ensures Run("", Transmission(AsciiEncode(s), base), base) == ("", [s])
  {
    EndToEnd(AsciiEncode(s), base);
    ByteTextsAscii(s);
  }

  /** A NUL byte inside a line is lost on the way: x, NUL, y arrives as the two characters
      x and y alone. */
  lemma NulIsDropped(x: Byte, y: Byte, base: int)
    requires 0 < x < 128 && 0 < y < 128
    ensures Run("", Transmission([x, 0, y], base), base) == ("", [[x as char, y as char]])
  {
    EndToEnd([x, 0, y], base);
    ByteTextsWithNul(x, y);
  }

  lemma ByteTextsWithNul(x: Byte, y: Byte)
    requires 0 < x < 128 && 0 < y < 128
    ensures ByteTexts([x, 0, y]) == [x as char, y as char]
  {
    assert [x, 0, y][1..] == [0, y] && [0, y][1..] == [y] && [y][1..] == [];
    assert ByteTexts([y]) == [y as char];
    assert ByteTexts([0, y]) == [y as char];
    assert ByteTexts([x, 0, y]) == [x as char] + [y as char];
  }

  /** A character outside ASCII does not survive: its two UTF-8 bytes, both 128 or above,
      arrive as two placeholders, "??" ("é", for one, is sent as 0xC3 0xA9). */
  lemma NonAsciiBecomesPlaceholders(x: Byte, y: Byte, base: int)
    requires x >= 128 && y >= 128
    ensures Run("", Transmission([x, y], base), base) == ("", ["??"])
  {
    EndToEnd([x, y], base);
    ByteTextsNonAscii(x, y);
  }

  lemma ByteTextsNonAscii(x: Byte, y: Byte)
    requires x >= 128 && y >= 128
    ensures ByteTexts([x, y]) == "??"
  {
    assert [x, y][1..] == [y] && [y][1..] == [];
    assert ByteTexts([y]) == "?";
    assert ByteTexts([x, y]) == "?" + "?";
  }

  /** A line made only of NUL bytes is transmitted but delivers nothing. */
  lemma NulLineDeliversNothing(line: seq<Byte>, base: int)
    requires forall i :: 0 <= i < |line| ==> line[i] == 0
    ensures Run("", Transmission(line, base), base) == ("", [])
  {
    EndToEnd(line, base);
    ByteTextsOfNuls(line);
  }

  lemma {:induction false} ByteTextsOfNuls(line: seq<Byte>)
    requires forall i :: 0 <= i < |line| ==> line[i] == 0
    ensures ByteTexts(line) == ""
    decreases |line|
  {
    if line != [] {
      ByteTextsOfNuls(line[1..]);
    }
  }

  /** Peer A types a line; peer B, which chose the other channel and has just started
      listening, receives what its listener delivers. A slash command or an empty line
      sends nothing, so nothing arrives. */
  method DeliverBetweenPeers(line: seq<Byte>) returns (received: seq<string>)
    ensures received == if IsChatLine(line) then Emitted(Deliverable(ByteTexts(line))) else []
  {
    var a := AssignPorts("1");
    var b := AssignPorts("2");
    var listener := new Listener(b.listenBase);
    var events := SendLine(line, a.speakBase);
    received := listener.Listen(events);
    if IsChatLine(line) {
      EndToEnd(line, b.listenBase);
    }
  }

  /** In particular a typed ASCII line reaches the other peer exactly as typed. */
  lemma AsciiLineArrives(s: string)
    requires s != "" && IsAsciiNoNul(s) && s[0] != '/'
    ensures IsChatLine(AsciiEncode(s))
    ensures Emitted(Deliverable(ByteTexts(AsciiEncode(s)))) == [s]
  {
    ByteTextsAscii(s);
  }
}
