/**
 The display routines of src/lcd.c: each appends its pin writes to the trace of the port.
 */
module Lcd {
  import opened Arith
  import opened LcdLink

  const LINES: nat := 176

  // ---------------------------------------------------------------- the commands of lcd_init

  /** The loop of lcd_init over the first n lines. */
  function LineCommands(n: nat): (cs: seq<Command>)
    requires n <= LINES
  {
    if n == 0 then [] else LineCommands(n - 1) + [Line(n - 1), ToggleVcom]
  }

  function InitCommands(): (cs: seq<Command>) {
    [ClearAll, ToggleVcom] + LineCommands(LINES) + [Blink(0), ToggleVcom]
  }

  /** The mode pins, and lcd_reset. */
  function SetupTrace(): (t: Trace) {
    [Write(ExtMode, true), Write(ExtComIn, true), Write(Cs, false), Write(Disp, false), Write(Disp, true)]
  }

  lemma {:induction false} CommandsTraceAppend(a: seq<Command>, b: seq<Command>, vcom: bool)
    ensures CommandsTrace(a + b, vcom) == CommandsTrace(a, vcom) + CommandsTrace(b, VcomAfter(a, vcom))
    ensures VcomAfter(a + b, vcom) == VcomAfter(b, VcomAfter(a, vcom))
    decreases |a|
  {
    hide CommandTrace, CommandsTrace;
    CommandsUnfold(a, vcom);
    CommandsUnfold(a + b, vcom);
    if a == [] {
      assert a + b == b;
    } else {
      assert (a + b)[1..] == a[1..] + b;
      CommandsTraceAppend(a[1..], b, if a[0].ToggleVcom? then !vcom else vcom);
    }
  }

  lemma {:induction false} FramesOfAppend(a: seq<Command>, b: seq<Command>)
    ensures FramesOf(a + b) == FramesOf(a) + FramesOf(b)
  {
    hide FrameOf;
    if a == [] {
      assert a + b == b;
    } else {
      assert (a + b)[1..] == a[1..] + b;
      FramesOfAppend(a[1..], b);
    }
  }

  /** One command that sends a frame, and a toggle. */
  lemma FrameThenToggle(c: Command, vcom: bool)
    requires !c.ToggleVcom?
    ensures FramesOf([c, ToggleVcom]) == [FrameOf(c)]
    ensures CommandsTrace([c, ToggleVcom], vcom) == FrameTrace(FrameOf(c)) + [Write(ExtComIn, !vcom)]
    ensures VcomAfter([c, ToggleVcom], vcom) == !vcom
  {
    hide FrameOf, FrameTrace;
    var cs := [c, ToggleVcom];
    assert cs[1..] == [ToggleVcom] && cs[1..][1..] == [];
    assert FramesOf(cs[1..][1..]) == [] && FramesOf(cs[1..]) == [];
    assert CommandsTrace(cs[1..][1..], !vcom) == [];
    assert CommandsTrace(cs[1..], vcom) == [Write(ExtComIn, !vcom)];
    assert VcomAfter(cs[1..][1..], !vcom) == !vcom;
  }

  lemma LineCommandsStep(n: nat)
    requires n < LINES
    ensures LineCommands(0) == [] && LineCommands(n + 1) == LineCommands(n) + [Line(n), ToggleVcom]
  {
  }

  lemma {:induction false} LineFrames(n: nat)
    requires n <= LINES
    ensures |FramesOf(LineCommands(n))| == n
    ensures forall i :: 0 <= i < n ==> FramesOf(LineCommands(n))[i] == FrameOf(Line(i))
  {
    hide FrameOf, LineCommands;
    if n == 0 {
      LineCommandsStep(0);
    } else {
      LineFrames(n - 1);
      LineCommandsStep(n - 1);
      FramesOfAppend(LineCommands(n - 1), [Line(n - 1), ToggleVcom]);
      FrameThenToggle(Line(n - 1), false);
    }
  }

  lemma {:induction false} LineToggles(n: nat, vcom: bool)
    requires n <= LINES
    ensures VcomAfter(LineCommands(n), vcom) == if n % 2 == 0 then vcom else !vcom
  {
    hide FrameOf, LineCommands, CommandsTrace;
    if n == 0 {
      LineCommandsStep(0);
    } else {
      LineToggles(n - 1, vcom);
      LineCommandsStep(n - 1);
      CommandsTraceAppend(LineCommands(n - 1), [Line(n - 1), ToggleVcom], vcom);
      FrameThenToggle(Line(n - 1), VcomAfter(LineCommands(n - 1), vcom));
    }
  }

  /** An update frame: the address, two half lines of 44 bytes, two dummies. */
  ghost predicate IsLineFrame(f: seq<nat>, address: nat) {
    && |f| == 92 && f[0] == 0x90 && f[1] == address
    && (forall k :: 2 <= k < 46 ==> f[k] == 0xcc)
    && (forall k :: 46 <= k < 90 ==> f[k] == 0x33)
    && f[90] == f[91] == 0x00
  }

  /** One clear frame, the lines with addresses 1 to 176 in order, one no-update frame. */
  ghost predicate IsInitSequence(f: seq<seq<nat>>) {
    && |f| == 178
    && f[0] == [0x20, 0x00]
    && (forall i :: 1 <= i <= 176 ==> IsLineFrame(f[i], i))
    && f[177] == [0x00, 0x00]
  }

  lemma LineFrame(line: byte)
    ensures IsLineFrame(FrameOf(Line(line)), if line == 255 then 0 else line + 1)
  {
    hide Repeat;
  }

  /** What the receiver reads of each command, byte by byte. */
  lemma CommandFrame(r: Receiver, c: Command, vcom: bool)
    requires !r.cs && !r.sck
    ensures var before, f := Decode(r.frames), Decode(Receive(r, CommandTrace(c, vcom)).frames);
            match c
            case ToggleVcom => f == before
            case ClearAll => f == before + [[0x20, 0x00]]
            case Invert => f == before + [[0x14, 0x00]]
            case Blink(mode) =>
              f == before + [[if mode == 1 then 0x18 else if mode == 2 then 0x10 else if mode == 3 then 0x14 else 0x00,
                              0x00]]
            case Line(line) =>
              && |f| == |before| + 1 && before <= f
              && IsLineFrame(f[|before|], if line == 255 then 0 else line + 1)
  {
    hide Receive, CommandTrace, Repeat, Decode, IsLineFrame;
    CommandIsReceived(r, c, vcom);
    if c.Line? {
      LineFrame(c.line);
    }
  }

  /** In lcd_init every frame is followed by a toggle. */
  lemma InitAlternates()
    ensures |InitCommands()| == 356
    ensures forall k :: 0 <= k < 178 ==> !InitCommands()[2 * k].ToggleVcom? && InitCommands()[2 * k + 1] == ToggleVcom
  {
    hide LineCommands;
    LinesAlternate(LINES);
    var lines := LineCommands(LINES);
    forall k | 0 <= k < 178
      ensures !InitCommands()[2 * k].ToggleVcom? && InitCommands()[2 * k + 1] == ToggleVcom
    {
      if 1 <= k < 177 {
        assert InitCommands()[2 * k] == lines[2 * (k - 1)] && InitCommands()[2 * k + 1] == lines[2 * (k - 1) + 1];
      }
    }
  }

  lemma {:induction false} LinesAlternate(n: nat)
    requires n <= LINES
    ensures |LineCommands(n)| == 2 * n
    ensures forall k :: 0 <= k < n ==> LineCommands(n)[2 * k].Line? && LineCommands(n)[2 * k + 1] == ToggleVcom
  {
    hide LineCommands;
    if n == 0 {
      LineCommandsStep(0);
    } else {
      LinesAlternate(n - 1);
      LineCommandsStep(n - 1);
    }
  }

  lemma InitFramesAre()
    ensures FramesOf(InitCommands())
            == [FrameOf(ClearAll)] + FramesOf(LineCommands(LINES)) + [FrameOf(Blink(0))]
  {
    hide LineCommands, FramesOf, FrameOf;
    var lines := LineCommands(LINES);
    FrameThenToggle(ClearAll, false);
    FrameThenToggle(Blink(0), false);
    FramesOfAppend([ClearAll, ToggleVcom], lines);
    FramesOfAppend([ClearAll, ToggleVcom] + lines, [Blink(0), ToggleVcom]);
  }

  /** The frames that the commands of lcd_init stand for. */
  lemma InitFrames()
    ensures IsInitSequence(FramesOf(InitCommands()))
  {
    hide LineCommands, FramesOf, InitCommands, IsLineFrame, Repeat;
    var f, lines := FramesOf(InitCommands()), FramesOf(LineCommands(LINES));
    InitFramesAre();
    LineFrames(LINES);
    forall i | 1 <= i <= LINES ensures IsLineFrame(f[i], i) {
      assert f[i] == lines[i - 1];
      LineFrame(i - 1);
    }
  }

  lemma SetupIsReceived(r: Receiver)
    requires !r.sck
    ensures Receive(r, SetupTrace()) == Observe(r, Write(Cs, false)) && Quiet(r, SetupTrace())
  {
    var a, b := [Write(ExtMode, true), Write(ExtComIn, true)], [Write(Cs, false)];
    var c := [Write(Disp, false), Write(Disp, true)];
    assert SetupTrace() == a + (b + c);
    PlainWrites(r, Write(ExtMode, true), Write(ExtComIn, true));
    OneWrite(r, Write(Cs, false));
    PlainWrites(Observe(r, Write(Cs, false)), Write(Disp, false), Write(Disp, true));
    ReceiveAppend(r, a, b + c);
    QuietAppend(r, a, b + c);
    ReceiveAppend(r, b, c);
    QuietAppend(r, b, c);
  }

  /** Pins that the serial receiver does not look at. */
  lemma PlainWrites(r: Receiver, v: Write, w: Write)
    requires !v.pin.Sck? && !v.pin.Mosi? && !v.pin.Cs? && !w.pin.Sck? && !w.pin.Mosi? && !w.pin.Cs?
    ensures Receive(r, [v, w]) == r && Quiet(r, [v, w])
  {
    OneWrite(r, v);
    OneWrite(r, w);
    assert [v, w] == [v] + [w];
    ReceiveAppend(r, [v], [w]);
    QuietAppend(r, [v], [w]);
  }

  /**
   The whole trace of lcd_init, seen by a receiver with a low clock: beyond what closing an open
   window yields, it reads one clear frame, line addresses 1 to 176 once each in order, and one
   no-update frame; data and chip select are written only while the clock is low.
   */
  lemma InitIsReceived(r: Receiver, vcom: bool)
    requires !r.sck
    ensures var setup := [Write(ExtMode, true), Write(ExtComIn, true),
                          Write(Cs, false), Write(Disp, false), Write(Disp, true)];
            var t := setup + CommandsTrace(InitCommands(), vcom);
            var before := Decode(Observe(r, Write(Cs, false)).frames);
            && Quiet(r, t)
            && before <= Decode(Receive(r, t).frames)
            && IsInitSequence(Decode(Receive(r, t).frames)[|before|..])
  {
    hide *;
    var setup, commands := SetupTrace(), CommandsTrace(InitCommands(), vcom);
    SetupUnfolds([]);
    SetupIsReceived(r);
    Deselected(r);
    CommandsAreReceived(Receive(r, setup), InitCommands(), vcom);
    ReceiveAppend(r, setup, commands);
    QuietAppend(r, setup, commands);
    InitFrames();
    var before, f := Decode(Receive(r, setup).frames), FramesOf(InitCommands());
    assert (before + f)[|before|..] == f;
  }

  lemma Deselected(r: Receiver)
    ensures var r' := Observe(r, Write(Cs, false)); !r'.cs && r'.sck == r.sck
  {
  }

  // ---------------------------------------------------------------- the common-electrode pin

  /** The level of EXTCOMIN after a trace. */
  function ComLevel(t: Trace, level: bool): (l: bool) {
    if t == [] then level else if t[|t| - 1].pin.ExtComIn? then t[|t| - 1].level else ComLevel(t[..|t| - 1], level)
  }

  lemma {:induction false} ComLevelAppend(t: Trace, u: Trace, level: bool)
    ensures ComLevel(t + u, level) == ComLevel(u, ComLevel(t, level))
    decreases |u|
  {
    if u == [] {
      assert t + u == t;
    } else {
      assert (t + u)[..|t + u| - 1] == t + u[..|u| - 1];
      ComLevelAppend(t, u[..|u| - 1], level);
    }
  }

  lemma {:induction false} ShiftKeepsCom(dh: byte, n: nat, level: bool)
    ensures ComLevel(ShiftTrace(dh, n), level) == level
    decreases n
  {
    if n == 0 {
    } else {
      var t := [Write(Sck, false), Write(Mosi, dh >= 128), Write(Sck, true)];
      assert t[..2] == [t[0], t[1]] && t[..2][..1] == [t[0]] && t[..2][..1][..0] == [];
      assert ComLevel(t[..2][..1], level) == level;
      assert ComLevel(t[..2], level) == level;
      ShiftKeepsCom((dh * 2) % 256, n - 1, level);
      ComLevelAppend(t, ShiftTrace((dh * 2) % 256, n - 1), level);
    }
  }

  lemma ComLevelOne(w: Write, level: bool)
    ensures ComLevel([w], level) == if w.pin.ExtComIn? then w.level else level
  {
    assert [w][..0] == [];
  }

  lemma {:induction false} BytesKeepCom(bytes: seq<byte>, level: bool)
    ensures ComLevel(BytesTrace(bytes), level) == level
  {
    if bytes == [] {
    } else {
      BytesKeepCom(bytes[1..], level);
      ShiftKeepsCom(bytes[0], 8, level);
      ComLevelOne(Write(Sck, false), level);
      ComLevelAppend(ShiftTrace(bytes[0], 8), [Write(Sck, false)], level);
      ComLevelAppend(ByteTrace(bytes[0]), BytesTrace(bytes[1..]), level);
    }
  }

  lemma FrameKeepsCom(bytes: seq<byte>, level: bool)
    ensures ComLevel(FrameTrace(bytes), level) == level
  {
    BytesKeepCom(bytes, level);
    ComLevelOne(Write(Cs, true), level);
    ComLevelOne(Write(Cs, false), level);
    ComLevelAppend([Write(Cs, true)], BytesTrace(bytes), level);
    ComLevelAppend([Write(Cs, true)] + BytesTrace(bytes), [Write(Cs, false)], level);
  }

  /**
   After any commands the pin shows the variable vcom if and only if it did before or at least
   one of the commands is a toggle.
   */
  lemma {:induction false} PinShowsVcom(cs: seq<Command>, vcom: bool, level: bool)
    ensures ComLevel(CommandsTrace(cs, vcom), level) == VcomAfter(cs, vcom)
            <==> level == vcom || ToggleVcom in cs
    decreases |cs|
  {
    hide FrameOf, FrameTrace;
    if cs == [] {
    } else {
      var c := cs[0];
      assert cs == [c] + cs[1..];
      var v := if c.ToggleVcom? then !vcom else vcom;
      var t := CommandTrace(c, vcom);
      if c.ToggleVcom? {
        ComLevelOne(Write(ExtComIn, !vcom), level);
        PinShowsVcom(cs[1..], v, v);
      } else {
        FrameKeepsCom(FrameOf(c), level);
        PinShowsVcom(cs[1..], v, level);
      }
      ComLevelAppend(t, CommandsTrace(cs[1..], v), level);
    }
  }

  // ---------------------------------------------------------------- the routines

  class Display {
    var trace: Trace
    var vcom: bool

    constructor ()
      ensures trace == [] && !vcom
    {
      trace := [];
      vcom := false;
    }

    method Set(pin: Pin, level: bool)
      modifies this`trace
      ensures trace == old(trace) + [Write(pin, level)]
    {
      trace := trace + [Write(pin, level)];
    }

    /** Write_Data */
    method WriteData(data: byte)
      modifies this`trace
      ensures trace == old(trace) + ByteTrace(data)
    {
      hide *;
      var dh: byte := data;
      for i := 0 to 8
        invariant trace + ShiftTrace(dh, 8 - i) == old(trace) + ShiftTrace(data, 8)
      {
        ShiftUnfolds(dh, 8 - i);
        ghost var before := trace;
        Set(Sck, false);
        AndTopBit(dh);
        if And(dh, 0x80) != 0 {
          Set(Mosi, true);
        } else {
          Set(Mosi, false);
        }
        Set(Sck, true);
        assert trace == before + [Write(Sck, false), Write(Mosi, dh >= 128), Write(Sck, true)];
        dh := (dh * 2) % 256;
      }
      ShiftUnfolds(dh, 0);
      assert trace + [] == trace;
      Set(Sck, false);
      ByteUnfolds(data);
      assert trace == old(trace) + ShiftTrace(data, 8) + [Write(Sck, false)];
    }

    /** A command byte and a zero byte in one chip-select window. */
    method Short(code: byte)
      modifies this`trace
      ensures trace == old(trace) + FrameTrace([code, 0x00])
    {
      hide *;
      Set(Cs, true);
      WriteData(code);
      WriteData(0x00);
      Set(Cs, false);
      TwoBytes(code, 0x00);
      FrameUnfolds([code, 0x00]);
      assert trace == old(trace) + ([Write(Cs, true)] + (ByteTrace(code) + ByteTrace(0x00)) + [Write(Cs, false)]);
    }

    /** ClearScreen */
    method ClearScreen()
      modifies this`trace
      ensures trace == old(trace) + CommandTrace(ClearAll, vcom)
    {
      Short(0x20);
    }

    /** invertDisplay */
    method InvertDisplay()
      modifies this`trace
      ensures trace == old(trace) + CommandTrace(Invert, vcom)
    {
      Short(0x14);
    }

    /** setBlinkMode */
    method SetBlinkMode(mode: byte)
      modifies this`trace
      ensures trace == old(trace) + CommandTrace(Blink(mode), vcom)
    {
      var code: byte;
      match mode {
        case 0 => code := 0x00;
        case 1 => code := 0x18;
        case 2 => code := 0x10;
        case 3 => code := 0x14;
        case _ => code := 0x00;
      }
      Short(code);
    }

    /** toggle_vcom */
    method ToggleCom()
      modifies this
      ensures trace == old(trace) + CommandTrace(ToggleVcom, old(vcom)) && vcom == !old(vcom)
      ensures trace == old(trace) + [Write(ExtComIn, vcom)]
    {
      if vcom {
        Set(ExtComIn, false);
        vcom := false;
      } else {
        Set(ExtComIn, true);
        vcom := true;
      }
    }

    /** A loop that writes one byte n times. */
    method WriteMany(b: byte, n: nat)
      modifies this`trace
      ensures trace == old(trace) + BytesTrace(Repeat(b, n))
    {
      hide *;
      RepeatUnfolds(b, 0);
      assert trace == trace + [];
      for i := 0 to n
        invariant trace == old(trace) + BytesTrace(Repeat(b, i))
      {
        WriteData(b);
        RepeatUnfolds(b, i);
      }
    }

    /** set_line */
    method SetLine(line: byte)
      modifies this`trace
      ensures trace == old(trace) + CommandTrace(Line(line), vcom)
    {
      hide *;
      Set(Cs, true);
      WriteData(0x90);
      WriteData(LineAddress(line));
      WriteMany(0xcc, 44);
      WriteMany(0x33, 44);
      WriteData(0x00);
      WriteData(0x00);
      Set(Cs, false);
      LineUnfolds(line, vcom);
    }

    /** lcd_init */
    method LcdInit()
      modifies this
      ensures var setup := [Write(ExtMode, true), Write(ExtComIn, true),
                            Write(Cs, false), Write(Disp, false), Write(Disp, true)];
              trace == old(trace) + setup + CommandsTrace(InitCommands(), old(vcom))
      ensures vcom == old(vcom)
    {
      hide SetupTrace, InitCommands, LineCommands, CommandTrace, CommandsTrace, VcomAfter;
      ghost var start, v := old(trace) + SetupTrace(), vcom;
      Set(ExtMode, true);
      Set(ExtComIn, true);
      Set(Cs, false);
      Set(Disp, false);
      Set(Disp, true);
      SetupUnfolds(old(trace));
      ghost var done := [ClearAll, ToggleVcom];
      ClearScreen();
      ToggleCom();
      LoopStarts(start, v);
      for i := 0 to LINES
        invariant done == [ClearAll, ToggleVcom] + LineCommands(i)
        invariant trace == start + CommandsTrace(done, v) && vcom == VcomAfter(done, v)
      {
        SetLine(i);
        ToggleCom();
        TwoMore(start, done, Line(i), v);
        LineCommandsStep(i);
        done := done + [Line(i), ToggleVcom];
      }
      SetBlinkMode(0);
      ToggleCom();
      TwoMore(start, done, Blink(0), v);
      InitToggles(v);
    }
  }

  // ---------------------------------------------------------------- unfolded traces

  lemma SetupUnfolds(t: Trace)
    ensures t + [Write(ExtMode, true)] + [Write(ExtComIn, true)] + [Write(Cs, false)] + [Write(Disp, false)]
            + [Write(Disp, true)] == t + SetupTrace()
    ensures SetupTrace() == [Write(ExtMode, true), Write(ExtComIn, true),
                             Write(Cs, false), Write(Disp, false), Write(Disp, true)]
  {
  }

  /** A frame and a toggle after the commands done so far. */
  lemma TwoMore(start: Trace, done: seq<Command>, c: Command, vcom: bool)
    requires !c.ToggleVcom?
    ensures var w := VcomAfter(done, vcom);
            && start + CommandsTrace(done, vcom) + CommandTrace(c, w) + CommandTrace(ToggleVcom, w)
               == start + CommandsTrace(done + [c, ToggleVcom], vcom)
            && VcomAfter(done + [c, ToggleVcom], vcom) == !w
  {
    hide FrameOf, FrameTrace, CommandsTrace, VcomAfter;
    FrameThenToggle(c, VcomAfter(done, vcom));
    CommandsTraceAppend(done, [c, ToggleVcom], vcom);
  }

  lemma LoopStarts(start: Trace, vcom: bool)
    ensures [ClearAll, ToggleVcom] == [ClearAll, ToggleVcom] + LineCommands(0)
    ensures start + CommandTrace(ClearAll, vcom) + CommandTrace(ToggleVcom, vcom)
            == start + CommandsTrace([ClearAll, ToggleVcom], vcom)
    ensures VcomAfter([ClearAll, ToggleVcom], vcom) == !vcom
  {
    hide FrameOf, FrameTrace;
    FrameThenToggle(ClearAll, vcom);
  }

  /** The 178 toggles of lcd_init cancel out. */
  lemma InitToggles(vcom: bool)
    ensures InitCommands() == [ClearAll, ToggleVcom] + LineCommands(LINES) + [Blink(0), ToggleVcom]
    ensures VcomAfter(InitCommands(), vcom) == vcom
  {
    hide LineCommands, FrameOf, FrameTrace, CommandsTrace, VcomAfter;
    FrameThenToggle(ClearAll, vcom);
    FrameThenToggle(Blink(0), !vcom);
    LineToggles(LINES, !vcom);
    CommandsTraceAppend([ClearAll, ToggleVcom], LineCommands(LINES), vcom);
    CommandsTraceAppend([ClearAll, ToggleVcom] + LineCommands(LINES), [Blink(0), ToggleVcom], vcom);
  }

  lemma ShiftUnfolds(dh: byte, n: nat)
    ensures n == 0 ==> ShiftTrace(dh, n) == []
    ensures n > 0 ==> ShiftTrace(dh, n) == [Write(Sck, false), Write(Mosi, dh >= 128), Write(Sck, true)]
                                           + ShiftTrace((dh * 2) % 256, n - 1)
  {
  }

  lemma ByteUnfolds(dh: byte)
    ensures ByteTrace(dh) == ShiftTrace(dh, 8) + [Write(Sck, false)]
  {
    hide ShiftTrace;
  }

  lemma FrameUnfolds(bytes: seq<byte>)
    ensures FrameTrace(bytes) == [Write(Cs, true)] + BytesTrace(bytes) + [Write(Cs, false)]
  {
    hide BytesTrace;
  }

  lemma RepeatUnfolds(b: byte, n: nat)
    ensures BytesTrace(Repeat(b, 0)) == []
    ensures BytesTrace(Repeat(b, n + 1)) == BytesTrace(Repeat(b, n)) + ByteTrace(b)
  {
    hide ByteTrace;
    BytesTraceAppend(Repeat(b, n), [b]);
    assert [b][1..] == [] && BytesTrace([b]) == ByteTrace(b) + BytesTrace([]);
  }

  lemma LineUnfolds(line: byte, vcom: bool)
    ensures CommandTrace(Line(line), vcom)
            == [Write(Cs, true)] + ByteTrace(0x90) + ByteTrace(LineAddress(line)) + BytesTrace(Repeat(0xcc, 44))
               + BytesTrace(Repeat(0x33, 44)) + ByteTrace(0x00) + ByteTrace(0x00) + [Write(Cs, false)]
  {
    hide ByteTrace, BytesTrace, Repeat;
    var a, cc, tt := LineAddress(line), Repeat(0xcc, 44), Repeat(0x33, 44);
    TwoBytes(0x90, a);
    TwoBytes(0x00, 0x00);
    BytesTraceAppend([0x90, a], cc);
    BytesTraceAppend([0x90, a] + cc, tt);
    BytesTraceAppend([0x90, a] + cc + tt, [0x00, 0x00]);
    FrameUnfolds(FrameOf(Line(line)));
  }

  lemma TwoBytes(a: byte, b: byte)
    ensures BytesTrace([a, b]) == ByteTrace(a) + ByteTrace(b)
  {
    hide ByteTrace;
    assert [a, b][1..] == [b] && [b][1..] == [];
    assert BytesTrace([b]) == ByteTrace(b) + BytesTrace([]);
  }
}
