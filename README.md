# Port-hopping chat: a Dafny model of its codec and listener

`fep_interstice.py` is a two-peer chat that carries no text in its packets. A line typed by
one peer becomes a bitstream. The bitstream is cut into 2-bit symbols, and each symbol is
sent as a datagram with the content-free payload `X` to one of four consecutive UDP ports
of the other peer: base + 0 for `00` through base + 3 for `11`. Three `FIN` datagrams to
the base port close the message. The listener rebuilds the bitstream from the ports the
datagrams arrive on. On `FIN` it decodes the buffer 8 bits at a time and shows the text.

The model covers:

- the symbol codec, `MAPA_BITS` and `MAPA_PORTAS` (module `SymbolCodec`);
- `text_to_bits` and `bits_to_text`, on the UTF-8 bytes of a line (module `TextBitCodec`);
- the sending half of `loop_sender`: the empty-line and slash-command guard, padding to
  pairs, one datagram per pair, and the three markers (module `Sender`, method
  `SendLine`);
- the buffer logic of `thread_listener`: the socket binding as a guard, the buffer that
  grows by one symbol per datagram, and the flush on `FIN` (module `Receiver`, class
  `Listener`);
- the choice of port blocks and default nickname for channel A or B, and what a listener
  makes of everything a sender emits for one line (module `Session`).

Module `Wire` holds the shared values: bytes, `Option`, datagrams and the payload
constants.

The main results:

- The two maps are inverse bijections between the four symbols and the offsets 0..3.
- `text_to_bits` always yields a whole number of octets that denotes the value of the
  bytes. The padding of an odd bit count therefore never applies.
- The listener's group-by-group decoding of `text_to_bits(b)` is exactly the text of `b`
  byte by byte. NUL bytes vanish and every byte of 128 or more becomes `?`. A line of
  ASCII without NUL therefore arrives unchanged, but a character outside ASCII does not.
- A listener with an empty buffer receives the whole transmission of a line as exactly
  one delivery, or none when the decoded text is empty, and ends with an empty buffer.
  The second and third markers change nothing.
- The class `Listener` steps its `buffer` field in place. Each of its methods is proved to
  agree with the functions `Step`, `Flushed` and `Run`.

## Model

| member | source | states |
|---|---|---|
| SymbolCodec.SymbolBijection | fep_interstice.py:35-37 | `MAPA_BITS` has exactly the four 2-bit symbols as keys and `MAPA_PORTAS` exactly the offsets 0..3; each map undoes the other in both directions |
| SymbolCodec.Invert | fep_interstice.py:37 | the dictionary inversion that builds `MAPA_PORTAS` has the values of the original as keys and undoes it in both directions, for an injective map |
| SymbolCodec.SymbolBits | fep_interstice.py:161-163 | `MAPA_PORTAS.get(offset, "")` gives, for an offset 0..3, the symbol that `MAPA_BITS` sends on that offset, and the empty string for any other offset |
| TextBitCodec.Bin | fep_interstice.py:100 | `bin(n)[2:]` is a binary numeral whose value is n: a single digit for zero (so exactly `0`), and otherwise one that starts with 1 |
| TextBitCodec.ZFill | fep_interstice.py:102 | `zfill` pads with zeros on the left to the width, keeps the digits as a suffix and keeps the value |
| TextBitCodec.OctetWidth | fep_interstice.py:102 | `8 * ((n + 7) // 8)` is a multiple of 8 that is at least n and less than n + 8 |
| TextBitCodec.TextToBits | fep_interstice.py:96-103 | the bitstream is binary digits only and a whole, non-zero number of octets (so also of pairs) |
| TextBitCodec.TextToBitsValue | fep_interstice.py:100-102 | the bitstream denotes `int.from_bytes` of the text's bytes |
| TextBitCodec.TextToBitsSpec | fep_interstice.py:96-103 | the bitstream is the 8-bit forms of the bytes with leading zero bytes dropped, or one zero octet when nothing is left |
| TextBitCodec.TextToBitsOfNonzeroLead | fep_interstice.py:96-103 | when the first byte is not zero, the bitstream is every byte's 8-bit form, in order |
| TextBitCodec.TextToBitsEmpty | fep_interstice.py:96-103 | the empty text becomes `00000000`, not an empty bitstream |
| TextBitCodec.BytesBitsValue | fep_interstice.py:100 | the concatenated 8-bit forms of bytes denote their big-endian value |
| TextBitCodec.MinimalBytesSpec | fep_interstice.py:110 | `n.to_bytes((n.bit_length() + 7) // 8, 'big')` denotes n, is empty exactly for 0 and never starts with a zero byte |
| TextBitCodec.MinimalBytes | fep_interstice.py:110 | below 256, those bytes are empty for 0 and the one byte n otherwise |
| TextBitCodec.DecodeUtf8 | fep_interstice.py:110 | UTF-8 decoding of at most one byte succeeds exactly when every byte is below 0x80 and then yields the code points of the same values |
| TextBitCodec.BitsToText | fep_interstice.py:105-111 | a group of at most 8 bits denotes a value below 256; the empty group gives `?` (parse failure), and otherwise the text is that of the byte: nothing for NUL, the character for ASCII, `?` above |
| TextBitCodec.BitsToTextOfByte | fep_interstice.py:105-111 | on the 8-bit form of a byte, `bits_to_text` gives "" for 0, the character for 1..127 and `?` for 128..255 |
| TextBitCodec.DecodeOneOctet | fep_interstice.py:151-154 | draining one byte's 8-bit form gives that byte's text |
| TextBitCodec.DecodeBytesBits | fep_interstice.py:151-154 | draining the 8-bit forms of bytes, followed by fewer than 8 stray bits, gives the texts of the bytes in order and ignores the stray bits |
| TextBitCodec.ByteTextsDropLeadingZeros | fep_interstice.py:96-111 | leading zero bytes, lost by `text_to_bits`, would have decoded to nothing anyway |
| TextBitCodec.DecodeTextToBits | fep_interstice.py:96-111 | group-by-group decoding of `text_to_bits(b)` is the texts of the bytes of b, in order |
| TextBitCodec.BinaryValueUnique | fep_interstice.py:100-102 | two bit strings of the same length and value are equal |
| TextBitCodec.ByteTextsOfAscii | fep_interstice.py:96-111 | any ASCII text, NUL included, comes back from encoding and byte-by-byte decoding with exactly its NUL characters removed |
| TextBitCodec.ByteTextsAscii | fep_interstice.py:96-111 | ASCII text without NUL survives encoding and byte-by-byte decoding unchanged |
| Sender.PadToPairs | fep_interstice.py:217 | the padded bits are even in number, keep the original bits as a prefix and add at most one zero |
| Sender.Pairs | fep_interstice.py:220 | the pairs are half as many as the bits and concatenate back to the bits |
| Sender.PairsAt | fep_interstice.py:220 | the i-th pair is `bits[2i:2i+2]` |
| Sender.PairsAreSymbols | fep_interstice.py:220-224 | every pair of binary digits is a key of `MAPA_BITS`, so the lookup never fails |
| Sender.WireBits | fep_interstice.py:216-217 | the bits put on the wire are binary digits and even in number |
| Sender.PaddingNeverApplies | fep_interstice.py:216-217 | the padding step never changes the output of `text_to_bits` |
| Sender.EmitFrame | fep_interstice.py:219-234 | the datagrams emitted for the bits are one `X` per pair, to destination base plus the pair's offset, in order, then three `FIN` to the base port |
| Sender.SendLine | fep_interstice.py:199-234 | an empty line or one starting with `/` emits nothing; any other line emits its whole transmission |
| Sender.FrameShape | fep_interstice.py:219-234 | the frame has n/2 + 3 datagrams; the i-th goes to base + `MAPA_BITS[bits[2i:2i+2]]`, inside the block base..base+3, then come three markers to base |
| Sender.TransmissionShape | fep_interstice.py:216-234 | the transmission of a text is the frame of its unpadded `text_to_bits`, with half as many symbol datagrams as bits plus three |
| Receiver.StepSpec | fep_interstice.py:146-163 | a symbol datagram appends exactly the two bits of its offset (nothing for a port outside the block) and delivers nothing; a marker empties the buffer and delivers only a non-empty text |
| Receiver.Listener.constructor | fep_interstice.py:134 | the listener starts on its base port with an empty buffer |
| Receiver.Listener.OnDatagram | fep_interstice.py:145-163 | handling one datagram changes the buffer and delivers as one step of the listener does |
| Receiver.Listener.Flush | fep_interstice.py:146-158 | the in-place drain delivers the decoded groups of the old buffer when that text is non-empty, nothing for an empty buffer, and leaves the buffer empty |
| Receiver.Listener.Listen | fep_interstice.py:136-163 | handling a sequence of datagrams, in the order the listener reads them, leaves the buffer and delivers the texts that a run of the listener does |
| Receiver.BindPorts | fep_interstice.py:118-132 | the listener gives up with the port range exactly when all four binds fail; otherwise it listens on exactly the ports whose bind succeeded, all inside the block |
| Receiver.RunConcat | fep_interstice.py:136-163 | running two sequences one after the other is running their concatenation: the buffer carries over and the deliveries concatenate |
| Receiver.RunSymbols | fep_interstice.py:160-163 | any number of symbol datagrams append their offsets' symbols, in order, and deliver nothing |
| Receiver.MarkersFlushOnce | fep_interstice.py:146-158 | a burst of one or more markers flushes the buffer exactly once: the first delivers, the rest find an empty buffer |
| Receiver.EmptyBufferIgnoresMarkers | fep_interstice.py:146-158 | markers on an empty buffer deliver nothing and leave it empty |
| Session.AssignPorts | fep_interstice.py:267-274 | channel A ("1") listens on 9000 and speaks to 9004, any other answer is the mirror image; the two blocks are disjoint and the default nickname follows the channel |
| Session.RolesCrosswise | fep_interstice.py:267-274 | one peer's datagrams reach the other's listening block, in either direction, exactly when the two chose different channels |
| Session.Offsets | fep_interstice.py:224 | one offset per symbol |
| Session.SymbolsOfOffsets | fep_interstice.py:35-37 | mapping the sender's symbols to offsets and the listener's offsets back to bits gives back the bits |
| Session.SymbolDatagramsAsOffsets | fep_interstice.py:223-226 | the sender's symbol datagrams are those of the symbols' offsets |
| Session.FrameRun | fep_interstice.py:142-163 | a listener with an empty buffer turns a frame back into its bits, flushes them exactly once and ends empty |
| Session.EndToEnd | fep_interstice.py:142-163 | the transmission of any text reaches an idle listener as exactly one delivery of its byte-by-byte text, or none when that is empty, and leaves the buffer empty |
| Session.EndToEndAscii | fep_interstice.py:96-111 | a non-empty ASCII line without NUL arrives unchanged, exactly once |
| Session.NulIsDropped | fep_interstice.py:105-111 | a NUL byte inside a line is lost: x, NUL, y arrives as the two characters x and y |
| Session.NonAsciiBecomesPlaceholders | fep_interstice.py:105-111 | a two-byte UTF-8 character (both bytes 128 or above) arrives as `??` |
| Session.NulLineDeliversNothing | fep_interstice.py:147-155 | a line of NUL bytes is sent but nothing is shown |
| Session.DeliverBetweenPeers | fep_interstice.py:197-234 | what peer B's listener delivers for a line typed by peer A is the line's byte-by-byte text once, and nothing for an empty line or a slash command |
| Session.AsciiLineArrives | fep_interstice.py:199-210 | a typed ASCII line is a chat line and is delivered exactly as typed |

## Left out

- Sockets, `setsockopt`, `select`, `recvfrom` and `sendto` are not modelled. A datagram is a value with a destination port and a payload, and sending is appending to a sequence. The port a datagram is read on is the port the sender addressed.
- The success of each `bind` is a parameter of `BindPorts`, not an operating-system call.
- The two threads, the `RUNNING` flag and shutdown are not modelled. `Listen` takes a finite sequence of datagrams in the order the listener reads them. With several sockets ready at once, `select` and the loop at fep_interstice.py:140-143 read one datagram per ready socket in socket-list order, so that order can differ from the order of arrival.
- Loss, duplication and reordering of UDP datagrams are not modelled. The end-to-end lemmas assume that the listener reads everything sent exactly once and in the order it was sent.
- The `time.sleep` pacing is not modelled.
- The terminal user interface is not modelled: prompts, colours, `print_msg_*`, and the nickname and IP questions.
- `processar_comando` is not modelled. A slash command only prevents sending.
- Text is modelled as its UTF-8 bytes. `encode('utf-8', 'surrogatepass')` on arbitrary text is not modelled.
- The `except` handlers are not modelled as such. Every modelled function is total, and the failures they would catch are modelled as their outcome. A failed parse of an empty group or a failed decode gives `?`. With at most 8 bits per group, nothing else can fail.
- BitsToText: modelled for groups of at most 8 bits, which are the only groups the listener passes it. On longer strings the source decodes multi-byte UTF-8, which is not modelled.
- DecodeUtf8: models UTF-8 decoding of zero or one byte only, the only lengths `bits_to_text` sees from the listener.
- TextToBits: the `except: return ""` at fep_interstice.py:103 is never reached and is not modelled. The empty text gives `bin(0)[2:]`, which is `0`, zero-filled to `00000000`. The empty line never reaches `text_to_bits` in the sender anyway.
- AsciiEncode: the UTF-8 encoding of ASCII text is defined as one byte per character of the same value, not derived from a UTF-8 encoder; the lemmas about ASCII lines rest on that definition.
- IsChatLine: tests the first byte of the UTF-8 encoding for `/`. For UTF-8 this is equivalent to testing the first character.
