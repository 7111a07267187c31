/**
 The bit-banged serial link of src/lcd.c: the trace of pin writes that each routine makes, and
 a receiver that shifts in MOSI on the rising edges of SCK while the chip is selected.
 */
module LcdLink {
  import opened Arith

  datatype Pin = ExtMode | Disp | ExtComIn | Cs | Mosi | Sck

  /** pin_set and pin_clr */
  datatype Write = Write(pin: Pin, level: bool)

  type Trace = seq<Write>

  // ---------------------------------------------------------------- the receiver

  /** The lines it sees, the bits of the open frame, and the frames that were closed. */
  datatype Receiver = Receiver(cs: bool, sck: bool, mosi: bool, bits: seq<bool>, frames: seq<seq<bool>>)

  function Observe(r: Receiver, w: Write): (r': Receiver) {
    match w.pin
    case Sck =>
      r.(sck := w.level, bits := if r.cs && w.level && !r.sck then r.bits + [r.mosi] else r.bits)
    case Mosi => r.(mosi := w.level)
    case Cs =>
      if w.level && !r.cs then r.(cs := true, bits := [])
      else if !w.level && r.cs then r.(cs := false, bits := [], frames := r.frames + [r.bits])
      else r
    case _ => r
  }

  function Receive(r: Receiver, t: Trace): (r': Receiver)
    decreases |t|
  {
    if t == [] then r else Receive(Observe(r, t[0]), t[1..])
  }

  lemma {:induction false} ReceiveAppend(r: Receiver, t: Trace, u: Trace)
    ensures Receive(r, t + u) == Receive(Receive(r, t), u)
    decreases |t|
  {
    if t == [] {
      assert t + u == u;
    } else {
      assert (t + u)[1..] == t[1..] + u;
      ReceiveAppend(Observe(r, t[0]), t[1..], u);
    }
  }

  /** Data and chip select are written only while the clock is low. */
  predicate Quiet(r: Receiver, t: Trace)
    decreases |t|
  {
    t == [] ||
    ((t[0].pin.Mosi? || t[0].pin.Cs? ==> !r.sck) && Quiet(Observe(r, t[0]), t[1..]))
  }

  lemma {:induction false} QuietAppend(r: Receiver, t: Trace, u: Trace)
    ensures Quiet(r, t + u) <==> Quiet(r, t) && Quiet(Receive(r, t), u)
    decreases |t|
  {
    if t == [] {
      assert t + u == u;
    } else {
      assert (t + u)[1..] == t[1..] + u;
      QuietAppend(Observe(r, t[0]), t[1..], u);
    }
  }

  lemma NoWrite(r: Receiver)
    ensures Receive(r, []) == r && Quiet(r, [])
  {
  }

  // ---------------------------------------------------------------- bits and bytes

  /** The top n bits of dh, shifted out one by one. */
  function BitsOut(dh: byte, n: nat): (bits: seq<bool>)
    ensures |bits| == n
    decreases n
  {
    if n == 0 then [] else [dh >= 128] + BitsOut((dh * 2) % 256, n - 1)
  }

  /** The number with these bits, most significant first. */
  function Value(bits: seq<bool>): (v: nat) {
    if bits == [] then 0 else (if bits[0] then Pow2(|bits| - 1) else 0) + Value(bits[1..])
  }

  lemma ShiftOnce(dh: byte, dh': byte, p: nat, v: nat, rest: nat)
    requires dh' == if dh >= 128 then 2 * dh - 256 else 2 * dh
    requires 256 * v + rest == dh' * p
    ensures 256 * ((if dh >= 128 then p else 0) + v) + rest == dh * (2 * p)
  {
    assert dh' * p == dh * (2 * p) - if dh >= 128 then 256 * p else 0;
  }

  /** The first bit of n, and the rest. */
  lemma FirstBitOut(dh: byte, n: nat, dh': byte)
    requires n > 0 && dh' == (dh * 2) % 256
    ensures dh' == if dh >= 128 then 2 * dh - 256 else 2 * dh
    ensures Value(BitsOut(dh, n)) == (if dh >= 128 then Pow2(n - 1) else 0) + Value(BitsOut(dh', n - 1))
    ensures Pow2(n) == 2 * Pow2(n - 1)
  {
    assert BitsOut(dh, n)[1..] == BitsOut(dh', n - 1);
  }

  /** Shifting out n bits of dh leaves less than one unit behind. */
  lemma {:induction false} ShiftedOut(dh: byte, n: nat) returns (rest: nat)
    ensures rest < 256 && 256 * Value(BitsOut(dh, n)) + rest == dh * Pow2(n)
    decreases n
  {
    if n == 0 {
      rest := dh;
    } else {
      hide BitsOut, Value, Pow2;
      var dh' := (dh * 2) % 256;
      rest := ShiftedOut(dh', n - 1);
      FirstBitOut(dh, n, dh');
      ShiftOnce(dh, dh', Pow2(n - 1), Value(BitsOut(dh', n - 1)), rest);
    }
  }

  lemma ByteRoundTrip(b: byte)
    ensures Value(BitsOut(b, 8)) == b
  {
    var rest := ShiftedOut(b, 8);
    assert Pow2(8) == 256;
  }

  /** Each further bit doubles what came before it: the first bit counts for most, the last for one. */
  lemma {:induction false} ValueGrows(bits: seq<bool>, bit: bool)
    ensures Value([]) == 0 && Value(bits + [bit]) == 2 * Value(bits) + if bit then 1 else 0
  {
    if bits == [] {
      assert [bit][1..] == [];
      assert Pow2(0) == 1;
    } else {
      var rest := bits[1..];
      ValueGrows(rest, bit);
      assert (bits + [bit])[1..] == rest + [bit];
      assert Pow2(|bits|) == 2 * Pow2(|bits| - 1);
    }
  }

  function BitsOfBytes(bytes: seq<byte>): (bits: seq<bool>)
    ensures |bits| == 8 * |bytes|
  {
    if bytes == [] then [] else BitsOut(bytes[0], 8) + BitsOfBytes(bytes[1..])
  }

  /** The receiver's reading of a frame: every eight bits make a byte. */
  function BytesOfBits(bits: seq<bool>): (bytes: seq<nat>)
    decreases |bits|
  {
    if |bits| < 8 then [] else [Value(bits[..8])] + BytesOfBits(bits[8..])
  }

  lemma {:induction false} BytesRoundTrip(bytes: seq<byte>)
    ensures BytesOfBits(BitsOfBytes(bytes)) == bytes
  {
    if bytes == [] {
    } else {
      var bits := BitsOfBytes(bytes);
      assert bits[..8] == BitsOut(bytes[0], 8) && bits[8..] == BitsOfBytes(bytes[1..]);
      ByteRoundTrip(bytes[0]);
      BytesRoundTrip(bytes[1..]);
    }
  }

  // ---------------------------------------------------------------- the writer

  function ShiftTrace(dh: byte, n: nat): (t: Trace)
    decreases n
  {
    if n == 0 then []
    else [Write(Sck, false), Write(Mosi, dh >= 128), Write(Sck, true)] + ShiftTrace((dh * 2) % 256, n - 1)
  }

  /** Write_Data */
  function ByteTrace(dh: byte): (t: Trace) {
    ShiftTrace(dh, 8) + [Write(Sck, false)]
  }

  function BytesTrace(bytes: seq<byte>): (t: Trace) {
    if bytes == [] then [] else ByteTrace(bytes[0]) + BytesTrace(bytes[1..])
  }

  /** A chip-select window around some bytes. */
  function FrameTrace(bytes: seq<byte>): (t: Trace) {
    [Write(Cs, true)] + BytesTrace(bytes) + [Write(Cs, false)]
  }

  lemma {:induction false} BytesTraceAppend(a: seq<byte>, b: seq<byte>)
    ensures BytesTrace(a + b) == BytesTrace(a) + BytesTrace(b)
  {
    if a == [] {
      assert a + b == b;
    } else {
      assert (a + b)[1..] == a[1..] + b;
      BytesTraceAppend(a[1..], b);
    }
  }

  /** Three writes move one bit to the receiver, with the data stable around the clock edge. */
  lemma OneBit(r: Receiver, bit: bool)
    requires r.cs
    ensures var t := [Write(Sck, false), Write(Mosi, bit), Write(Sck, true)];
            && Receive(r, t) == r.(sck := true, mosi := bit, bits := r.bits + [bit])
            && Quiet(r, t)
  {
    var t := [Write(Sck, false), Write(Mosi, bit), Write(Sck, true)];
    var r1 := Observe(r, t[0]);
    var r2 := Observe(r1, t[1]);
    var r3 := Observe(r2, t[2]);
    assert t[1..] == [t[1], t[2]] && t[1..][1..] == [t[2]] && t[1..][1..][1..] == [];
    assert Receive(r, t) == Receive(r1, t[1..]) == Receive(r2, t[1..][1..]);
    assert Receive(r2, [t[2]]) == Receive(r3, []);
    assert Quiet(r3, []) && Quiet(r2, t[1..][1..]) && Quiet(r1, t[1..]);
  }

  lemma {:induction false} ShiftIsReceived(r: Receiver, dh: byte, n: nat)
    requires r.cs
    ensures Quiet(r, ShiftTrace(dh, n))
    ensures var r' := Receive(r, ShiftTrace(dh, n));
            r'.cs && r'.bits == r.bits + BitsOut(dh, n) && r'.frames == r.frames
    decreases n
  {
    hide Receive, Quiet;
    if n == 0 {
      NoWrite(r);
    } else {
      var t := [Write(Sck, false), Write(Mosi, dh >= 128), Write(Sck, true)];
      var rest := ShiftTrace((dh * 2) % 256, n - 1);
      OneBit(r, dh >= 128);
      ShiftIsReceived(Receive(r, t), (dh * 2) % 256, n - 1);
      ReceiveAppend(r, t, rest);
      QuietAppend(r, t, rest);
      assert ShiftTrace(dh, n) == t + rest;
      assert r.bits + BitsOut(dh, n) == r.bits + [dh >= 128] + BitsOut((dh * 2) % 256, n - 1);
    }
  }

  lemma ByteIsReceived(r: Receiver, dh: byte)
    requires r.cs
    ensures Quiet(r, ByteTrace(dh))
    ensures var r' := Receive(r, ByteTrace(dh));
            r'.cs && !r'.sck && r'.bits == r.bits + BitsOut(dh, 8) && r'.frames == r.frames
  {
    var t, last := ShiftTrace(dh, 8), [Write(Sck, false)];
    ShiftIsReceived(r, dh, 8);
    ReceiveAppend(r, t, last);
    QuietAppend(r, t, last);
    OneWrite(Receive(r, t), Write(Sck, false));
  }

  lemma OneWrite(r: Receiver, w: Write)
    ensures Receive(r, [w]) == Observe(r, w)
    ensures Quiet(r, [w]) <==> (w.pin.Mosi? || w.pin.Cs? ==> !r.sck)
  {
    assert [w][1..] == [];
    assert Receive(Observe(r, w), []) == Observe(r, w);
    assert Quiet(Observe(r, w), []);
  }

  lemma {:induction false} BytesAreReceived(r: Receiver, bytes: seq<byte>)
    requires r.cs
    ensures Quiet(r, BytesTrace(bytes))
    ensures var r' := Receive(r, BytesTrace(bytes));
            && r'.cs && r'.bits == r.bits + BitsOfBytes(bytes) && r'.frames == r.frames
            && (!r.sck || bytes != [] ==> !r'.sck)
    decreases |bytes|
  {
    hide Receive, Quiet, ByteTrace, BitsOut;
    if bytes == [] {
      NoWrite(r);
    } else {
      var t, rest := ByteTrace(bytes[0]), BytesTrace(bytes[1..]);
      ByteIsReceived(r, bytes[0]);
      BytesAreReceived(Receive(r, t), bytes[1..]);
      ReceiveAppend(r, t, rest);
      QuietAppend(r, t, rest);
      assert r.bits + BitsOfBytes(bytes) == r.bits + BitsOut(bytes[0], 8) + BitsOfBytes(bytes[1..]);
    }
  }

  /**
   Serial round trip: whatever bytes are written in one chip-select window, a deselected receiver
   closes exactly one frame, and reads exactly those bytes from it. From a low clock, data and
   chip select move only while the clock is low, and the clock is low again at the end.
   */
  lemma FrameRoundTrip(r: Receiver, bytes: seq<byte>)
    requires !r.cs
    ensures var r' := Receive(r, FrameTrace(bytes));
            && !r'.cs
            && r'.frames == r.frames + [BitsOfBytes(bytes)]
            && (!r.sck ==> !r'.sck)
    ensures BytesOfBits(BitsOfBytes(bytes)) == bytes
    ensures !r.sck ==> Quiet(r, FrameTrace(bytes))
  {
    var open, body, close := [Write(Cs, true)], BytesTrace(bytes), [Write(Cs, false)];
    var r1 := Receive(r, open);
    OneWrite(r, Write(Cs, true));
    BytesAreReceived(r1, bytes);
    var r2 := Receive(r1, body);
    assert r2.bits == [] + BitsOfBytes(bytes) == BitsOfBytes(bytes);
    OneWrite(r2, Write(Cs, false));
    ReceiveAppend(r, open, body);
    ReceiveAppend(r, open + body, close);
    QuietAppend(r, open, body);
    QuietAppend(r, open + body, close);
    BytesRoundTrip(bytes);
  }

  // ---------------------------------------------------------------- commands

  datatype Command =
    | ClearAll
    | Invert
    | Blink(mode: byte)
    | Line(line: byte)
    | ToggleVcom

  function Repeat(b: byte, n: nat): (s: seq<byte>)
    ensures |s| == n && forall i :: 0 <= i < n ==> s[i] == b
  {
    if n == 0 then [] else Repeat(b, n - 1) + [b]
  }

  function BlinkCode(mode: byte): (code: byte) {
    match mode
    case 0 => 0x00
    case 1 => 0x18
    case 2 => 0x10
    case 3 => 0x14
    case _ => 0x00
  }

  /** line + 1, as a byte */
  function LineAddress(line: byte): (a: byte) {
    (line + 1) % 256
  }

  /** The bytes of the frame that a command sends; a toggle sends none. */
  function FrameOf(c: Command): (bytes: seq<byte>)
    requires !c.ToggleVcom?
  {
    match c
    case ClearAll => [0x20, 0x00]
    case Invert => [0x14, 0x00]
    case Blink(mode) => [BlinkCode(mode), 0x00]
    case Line(line) => [0x90, LineAddress(line)] + Repeat(0xcc, 44) + Repeat(0x33, 44) + [0x00, 0x00]
  }

  function CommandTrace(c: Command, vcom: bool): (t: Trace) {
    if c.ToggleVcom? then [Write(ExtComIn, !vcom)] else FrameTrace(FrameOf(c))
  }

  function CommandsTrace(cs: seq<Command>, vcom: bool): (t: Trace) {
    if cs == [] then []
    else CommandTrace(cs[0], vcom) + CommandsTrace(cs[1..], if cs[0].ToggleVcom? then !vcom else vcom)
  }

  /** The value of the variable vcom after some commands. */
  function VcomAfter(cs: seq<Command>, vcom: bool): (v: bool) {
    if cs == [] then vcom else VcomAfter(cs[1..], if cs[0].ToggleVcom? then !vcom else vcom)
  }

  /** Every toggle turns the variable over, and nothing else does. */
  lemma {:induction false} VcomParity(cs: seq<Command>, vcom: bool)
    ensures VcomAfter(cs, vcom) == vcom <==> multiset(cs)[ToggleVcom] % 2 == 0
    decreases |cs|
  {
    if cs == [] {
    } else {
      assert cs == [cs[0]] + cs[1..];
      VcomParity(cs[1..], if cs[0].ToggleVcom? then !vcom else vcom);
    }
  }

  function FramesOf(cs: seq<Command>): (frames: seq<seq<byte>>) {
    if cs == [] then []
    else (if cs[0].ToggleVcom? then [] else [FrameOf(cs[0])]) + FramesOf(cs[1..])
  }

  /** Every frame of the receiver, read as bytes. */
  function Decode(frames: seq<seq<bool>>): (r: seq<seq<nat>>)
    ensures |r| == |frames| && forall i :: 0 <= i < |r| ==> r[i] == BytesOfBits(frames[i])
  {
    seq(|frames|, i requires 0 <= i < |frames| => BytesOfBits(frames[i]))
  }

  lemma DecodeAppend(a: seq<seq<bool>>, b: seq<seq<bool>>)
    ensures Decode(a + b) == Decode(a) + Decode(b)
  {
    hide BytesOfBits;
    assert forall i :: 0 <= i < |a + b| ==> Decode(a + b)[i] == (Decode(a) + Decode(b))[i];
  }

  lemma CommandsUnfold(cs: seq<Command>, vcom: bool)
    ensures cs == [] ==> CommandsTrace(cs, vcom) == [] && FramesOf(cs) == []
    ensures cs != [] ==>
              CommandsTrace(cs, vcom)
              == CommandTrace(cs[0], vcom) + CommandsTrace(cs[1..], if cs[0].ToggleVcom? then !vcom else vcom)
    ensures cs != [] ==>
              FramesOf(cs) == (if cs[0].ToggleVcom? then [] else [FrameOf(cs[0])]) + FramesOf(cs[1..])
  {
    hide CommandTrace, FrameOf;
  }

  /**
   Any sequence of commands: the receiver reads back exactly the frames the commands stand for,
   in order, and data and chip select are written only while the clock is low.
   */
  lemma {:induction false} CommandsAreReceived(r: Receiver, cs: seq<Command>, vcom: bool)
    requires !r.cs && !r.sck
    ensures var r' := Receive(r, CommandsTrace(cs, vcom));
            && !r'.cs && !r'.sck
            && Decode(r'.frames) == Decode(r.frames) + FramesOf(cs)
    ensures Quiet(r, CommandsTrace(cs, vcom))
    decreases |cs|
  {
    hide Receive, Quiet, CommandTrace, CommandsTrace, FrameOf, FramesOf, Decode;
    CommandsUnfold(cs, vcom);
    if cs == [] {
      NoWrite(r);
    } else {
      var c := cs[0];
      var t := CommandTrace(c, vcom);
      var v := if c.ToggleVcom? then !vcom else vcom;
      var rest := CommandsTrace(cs[1..], v);
      CommandIsReceived(r, c, vcom);
      var r1 := Receive(r, t);
      CommandsAreReceived(r1, cs[1..], v);
      ReceiveAppend(r, t, rest);
      QuietAppend(r, t, rest);
    }
  }

  lemma CommandIsReceived(r: Receiver, c: Command, vcom: bool)
    requires !r.cs && !r.sck
    ensures var r' := Receive(r, CommandTrace(c, vcom));
            && !r'.cs && !r'.sck
            && Decode(r'.frames) == Decode(r.frames) + if c.ToggleVcom? then [] else [FrameOf(c)]
    ensures Quiet(r, CommandTrace(c, vcom))
  {
    if c.ToggleVcom? {
      OneWrite(r, Write(ExtComIn, !vcom));
    } else {
      var bytes := FrameOf(c);
      FrameRoundTrip(r, bytes);
      DecodeAppend(r.frames, [BitsOfBytes(bytes)]);
      assert Decode([BitsOfBytes(bytes)]) == [bytes];
    }
  }
}
