/** The listening side: a bit buffer that grows by one symbol per datagram and is decoded
    and cleared when the end-of-message marker arrives. */
module Receiver {
  import opened Wire
  import opened SymbolCodec
  import opened TextBitCodec

  /** What a flush hands on: the decoded text, but only when it is not empty. */
  function Deliverable(text: string): Option<string> {
    if text == "" then None else Some(text)
  }

  /** The outcome of a flush of the given buffer; nothing at all for an empty buffer. */
  function Flushed(buffer: string): Option<string>
    requires IsBits(buffer)
  {
    if buffer == "" then None else Deliverable(DecodeGroups(buffer))
  }

  function Emitted(o: Option<string>): seq<string> {
    if o.Some? then [o.value] else []
  }

  /** One received datagram: the listener's new buffer and what it delivers, if anything.
      A marker is recognised by its payload before any port is looked at; any other
      datagram adds the bits of its port's offset, or nothing for a port outside the block. */
  function Step(buffer: string, d: Datagram, base: int): (r: (string, Option<string>))
    requires IsBits(buffer)
    ensures IsBits(r.0)
  {
    if d.payload == FinMarker then ("", Flushed(buffer))
    else (buffer + SymbolBits(d.port - base), None)
  }

  /** A symbol datagram never shrinks the buffer: it appends exactly the two bits of its
      offset when the port lies in the block, nothing otherwise, and delivers nothing. A
      marker never adds bits: it empties the buffer and delivers only a non-empty text. */
  lemma StepSpec(buffer: string, d: Datagram, base: int)
    requires IsBits(buffer)
    ensures var r := Step(buffer, d, base);
      && (d.payload != FinMarker ==>
            && r.1 == None
            && |r.0| == |buffer| + (if 0 <= d.port - base < 4 then 2 else 0)
            && r.0[..|buffer|] == buffer
            && (0 <= d.port - base < 4 ==> SymbolToOffset[r.0[|buffer|..]] == d.port - base))
      && (d.payload == FinMarker ==> r.0 == "" && r.1 == Flushed(buffer))
      && (r.1.Some? ==> r.1.value != "")
  {
    var r := Step(buffer, d, base);
    if d.payload != FinMarker {
      assert r.0[|buffer|..] == SymbolBits(d.port - base);
    }
  }

  /** A sequence of datagrams through the listener, in the order it reads them: the final
      buffer and the texts delivered, in order. */
  function Run(buffer: string, ds: seq<Datagram>, base: int): (r: (string, seq<string>))
    requires IsBits(buffer)
    ensures IsBits(r.0)
    decreases |ds|
  {
    if ds == [] then (buffer, [])
    else
      var step := Step(buffer, ds[0], base);
      var rest := Run(step.0, ds[1..], base);
      (rest.0, Emitted(step.1) + rest.1)
  }

  /** The buffer logic of the listener thread. */
  class Listener {
    const base: int
    var buffer: string

    ghost predicate Valid()
      reads this
    {
      IsBits(buffer)
    }

    constructor (base: int)
      ensures Valid() && this.base == base && buffer == ""
    {
      this.base := base;
      buffer := "";
    }

    /** Handles one received datagram. */
    method OnDatagram(d: Datagram) returns (delivered: Option<string>)
      requires Valid()
      modifies this
      ensures Valid()
      ensures (buffer, delivered) == Step(old(buffer), d, base)
    {
      if d.payload == FinMarker {
        delivered := Flush();
        return;
      }
      var offset := d.port - base;
      buffer := buffer + SymbolBits(offset);
      delivered := None;
    }

    /** The end-of-message step: decodes the buffer 8 bits at a time, drops a shorter
        remainder, clears the buffer and hands on a non-empty text. */
    method Flush() returns (delivered: Option<string>)
      requires Valid()
      modifies this
      ensures Valid() && buffer == ""
      ensures delivered == Flushed(old(buffer))
    {
      delivered := None;
      if buffer != "" {
        ghost var whole := buffer;
        var text := "";
        while |buffer| >= 8
          invariant IsBits(buffer)
          invariant text + DecodeGroups(buffer) == DecodeGroups(whole)
          decreases |buffer|
        {
          DecodeGroupsFront(buffer);
          SeqAssoc(text, BitsToText(buffer[..8]), DecodeGroups(buffer[8..]));
          var group := buffer[..8];
          buffer := buffer[8..];
          text := text + BitsToText(group);
        }
        DecodeGroupsShort(text, buffer);
        if text != "" {
          delivered := Some(text);
        }
        buffer := "";
      }
    }

    /** The receive loop over the datagrams in the order the listener reads them. */
    method Listen(incoming: seq<Datagram>) returns (delivered: seq<string>)
      requires Valid()
      modifies this
      ensures Valid()
      ensures (buffer, delivered) == Run(old(buffer), incoming, base)
    {
      delivered := [];
      ghost var total := Run(buffer, incoming, base);
      assert incoming[0..] == incoming;
      for i := 0 to |incoming|
        invariant Valid()
        invariant Run(buffer, incoming[i..], base).0 == total.0
        invariant delivered + Run(buffer, incoming[i..], base).1 == total.1
      {
        RunAt(buffer, incoming, i, base, delivered);
        var out := OnDatagram(incoming[i]);
        delivered := delivered + Emitted(out);
      }
      RunAtEnd(buffer, incoming, base, delivered);
    }
  }

  /** The receive loop's step: handling the datagram at index i moves its delivery, if any,
      from what the rest of the run delivers to what has been delivered. */
  lemma RunAt(buffer: string, ds: seq<Datagram>, i: nat, base: int, delivered: seq<string>)
    requires IsBits(buffer) && i < |ds|
    ensures var step := Step(buffer, ds[i], base);
      var rest := Run(step.0, ds[i + 1..], base);
      && rest.0 == Run(buffer, ds[i..], base).0
      && (delivered + Emitted(step.1)) + rest.1 == delivered + Run(buffer, ds[i..], base).1
  {
    assert ds[i..][0] == ds[i];
    assert ds[i..][1..] == ds[i + 1..];
    RunCons(buffer, ds[i..], base);
    var step := Step(buffer, ds[i], base);
    SeqAssoc(delivered, Emitted(step.1), Run(step.0, ds[i + 1..], base).1);
  }

  /** At the end of the receive loop nothing is left to run. */
  lemma RunAtEnd(buffer: string, ds: seq<Datagram>, base: int, delivered: seq<string>)
    requires IsBits(buffer)
    ensures Run(buffer, ds[|ds|..], base) == (buffer, [])
    ensures delivered + Run(buffer, ds[|ds|..], base).1 == delivered
  {
    assert ds[|ds|..] == [];
    assert delivered + [] == delivered;
  }

  /** How the listener thread starts: the ports among base..base+3 whose bind succeeded, in
      order, or the fatal report naming the block when none did. */
  datatype StartOutcome = Listening(ports: seq<int>) | PortsBusy(first: int, last: int)

  /** Binds the four ports of the block; bindOk[i] says whether the bind of base + i
      succeeded. */
  method BindPorts(base: int, bindOk: seq<bool>) returns (outcome: StartOutcome)
    requires |bindOk| == 4
    ensures outcome.PortsBusy? <==> forall i :: 0 <= i < 4 ==> !bindOk[i]
    ensures outcome.PortsBusy? ==> outcome == PortsBusy(base, base + 3)
    ensures outcome.Listening? ==> forall i :: 0 <= i < 4 ==> (base + i in outcome.ports <==> bindOk[i])
    ensures outcome.Listening? ==> forall j :: 0 <= j < |outcome.ports| ==>
      base <= outcome.ports[j] < base + 4
  {
    var sockets := [];
    for i := 0 to 4
      invariant forall j :: 0 <= j < i ==> (base + j in sockets <==> bindOk[j])
      invariant forall j :: 0 <= j < |sockets| ==> base <= sockets[j] < base + i && bindOk[sockets[j] - base]
    {
      if bindOk[i] {
        sockets := sockets + [base + i];
      }
    }
    if sockets == [] {
      return PortsBusy(base, base + 3);
    }
    assert bindOk[sockets[0] - base];
    return Listening(sockets);
  }

  // ---------------------------------------------------------------------------
  // Lemmas about sequences of datagrams

  /** Run on a non-empty sequence: the first datagram's step, then the rest. */
  lemma RunCons(buffer: string, ds: seq<Datagram>, base: int)
    requires IsBits(buffer) && ds != []
    ensures var step := Step(buffer, ds[0], base);
      var rest := Run(step.0, ds[1..], base);
      Run(buffer, ds, base) == (rest.0, Emitted(step.1) + rest.1)
  {
  }

  /** Running xs and then ys from buffer is running xs + ys from buffer. */
  predicate ConcatLaw(buffer: string, xs: seq<Datagram>, ys: seq<Datagram>, base: int)
    requires IsBits(buffer)
  {
    var first := Run(buffer, xs, base);
    var second := Run(first.0, ys, base);
    Run(buffer, xs + ys, base) == (second.0, first.1 + second.1)
  }

  /** Running two sequences one after the other is running their concatenation. */
  lemma {:induction false} RunConcat(buffer: string, xs: seq<Datagram>, ys: seq<Datagram>, base: int)
    requires IsBits(buffer)
    ensures ConcatLaw(buffer, xs, ys, base)
    decreases |xs|
  {
    if xs == [] {
      assert [] + ys == ys;
      var second := Run(buffer, ys, base);
      assert [] + second.1 == second.1;
    } else {
      var step := Step(buffer, xs[0], base);
      RunConcat(step.0, xs[1..], ys, base);
      RunConcatCons(buffer, xs, ys, base);
    }
  }

  /** The inductive step of RunConcat: the law for xs follows from the law for its tail. */
  lemma RunConcatCons(buffer: string, xs: seq<Datagram>, ys: seq<Datagram>, base: int)
    requires IsBits(buffer) && xs != []
    requires ConcatLaw(Step(buffer, xs[0], base).0, xs[1..], ys, base)
    ensures ConcatLaw(buffer, xs, ys, base)
  {
    var step := Step(buffer, xs[0], base);
    RunConsAppend(buffer, xs, ys, base);
    RunCons(buffer, xs, base);
    var first := Run(step.0, xs[1..], base);
    var second := Run(first.0, ys, base);
    SeqAssoc(Emitted(step.1), first.1, second.1);
  }

  /** Run on xs + ys, for a non-empty xs: the step on the first datagram of xs, then the
      rest of xs followed by ys. */
  lemma RunConsAppend(buffer: string, xs: seq<Datagram>, ys: seq<Datagram>, base: int)
    requires IsBits(buffer) && xs != []
    ensures var step := Step(buffer, xs[0], base);
      var rest := Run(step.0, xs[1..] + ys, base);
      Run(buffer, xs + ys, base) == (rest.0, Emitted(step.1) + rest.1)
  {
    assert (xs + ys)[0] == xs[0];
    assert (xs + ys)[1..] == xs[1..] + ys;
    RunCons(buffer, xs + ys, base);
  }

  /** The bits that a run of offsets stands for. */
  function SymbolsOf(offsets: seq<int>): string {
    if offsets == [] then "" else SymbolBits(offsets[0]) + SymbolsOf(offsets[1..])
  }

  /** One symbol datagram per offset, to the port of that offset. */
  function OffsetDatagrams(offsets: seq<int>, base: int): seq<Datagram> {
    seq(|offsets|, i requires 0 <= i < |offsets| => Datagram(base + offsets[i], Filler))
  }

  /** Datagrams on the ports of the block append their symbols and deliver nothing, however
      many arrive, until a marker comes. */
  lemma {:induction false} RunSymbols(buffer: string, offsets: seq<int>, base: int)
    requires IsBits(buffer)
    ensures Run(buffer, OffsetDatagrams(offsets, base), base) == (buffer + SymbolsOf(offsets), [])
    decreases |offsets|
  {
    if offsets == [] {
      assert buffer + "" == buffer;
    } else {
      var next := buffer + SymbolBits(offsets[0]);
      SymbolHead(buffer, offsets, base);
      RunSymbols(next, offsets[1..], base);
      SeqAssoc(buffer, SymbolBits(offsets[0]), SymbolsOf(offsets[1..]));
    }
  }

  /** The first of the offset datagrams appends its symbol and delivers nothing. */
  lemma SymbolHead(buffer: string, offsets: seq<int>, base: int)
    requires IsBits(buffer) && offsets != []
    ensures IsBits(buffer + SymbolBits(offsets[0]))
    ensures Run(buffer, OffsetDatagrams(offsets, base), base)
      == Run(buffer + SymbolBits(offsets[0]), OffsetDatagrams(offsets[1..], base), base)
  {
    var ds := OffsetDatagrams(offsets, base);
    assert ds[1..] == OffsetDatagrams(offsets[1..], base);
    assert ds[0].payload != FinMarker by {
      assert |Filler| != |FinMarker|;
    }
    var next := buffer + SymbolBits(offsets[0]);
    assert Step(buffer, ds[0], base) == (next, None);
    RunCons(buffer, ds, base);
    assert Emitted(None) + Run(next, ds[1..], base).1 == Run(next, ds[1..], base).1;
  }

  /** Any positive number k of marker copies flushes the buffer exactly once: the sender
      emits three, and whether some are lost on the way or not, the copies after the first
      find an empty buffer. */
  lemma MarkersFlushOnce(buffer: string, k: nat, port: int, base: int)
    requires IsBits(buffer) && k >= 1
    ensures Run(buffer, Markers(k, port), base) == ("", Emitted(Flushed(buffer)))
  {
    var fins := Markers(k, port);
    assert fins[0] == Datagram(port, FinMarker);
    assert fins[1..] == Markers(k - 1, port);
    assert Step(buffer, fins[0], base) == ("", Flushed(buffer));
    RunCons(buffer, fins, base);
    EmptyBufferIgnoresMarkers(k - 1, port, base);
    AppendEmpty(Emitted(Flushed(buffer)));
  }

  lemma AppendEmpty<T>(s: seq<T>)
    ensures s + [] == s
  {
  }

  /** k copies of the end-of-message marker, to one port. */
  function Markers(k: nat, port: int): seq<Datagram> {
    seq(k, _ => Datagram(port, FinMarker))
  }

  /** A marker on an empty buffer changes nothing and delivers nothing. */
  lemma {:induction false} EmptyBufferIgnoresMarkers(k: nat, port: int, base: int)
    ensures Run("", Markers(k, port), base) == ("", [])
  {
    if k > 0 {
      var fins := Markers(k, port);
      assert fins[1..] == Markers(k - 1, port);
      assert Step("", fins[0], base) == ("", None);
      RunCons("", fins, base);
      EmptyBufferIgnoresMarkers(k - 1, port, base);
      assert Emitted(None) + [] == [];
    }
  }
}
