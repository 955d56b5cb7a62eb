/** The byte-driven frame parser: what it does to any stream, and that it undoes the builder. */
module UartParser {
  import opened Crc
  import opened UartFrame

  /** A frame as the parser fills it in: `data` is what has been received so far. */
  datatype Frame = Frame(cmdClass: Byte, cmd: Byte, dataLen: nat, data: seq<Byte>, crc: bv16)

  datatype Stats = Stats(framesReceived: nat, bytesReceived: nat, syncErrors: nat, crcErrors: nat,
                         tailErrors: nat, lengthErrors: nat, timeoutErrors: nat)

  /** ParserContext: `payload` is payload_buf up to payload_index, `delivered` what the callback got. */
  datatype Context = Context(frame: Frame, currentByte: Byte, expectedLen: nat, dataIndex: nat,
                             crc1: Byte, crc2: Byte, payload: seq<Byte>, stats: Stats, delivered: seq<Frame>)

  const EMPTY_FRAME := Frame(0, 0, 0, [], 0)

  // ---- Guards ----

  predicate IsHeader(ctx: Context) { ctx.currentByte == HEADER }

  predicate HasData(ctx: Context) { ctx.expectedLen > 2 }

  predicate NoData(ctx: Context) { ctx.expectedLen == 2 }

  predicate DataComplete(ctx: Context) { ctx.dataIndex + 1 >= ctx.frame.dataLen }

  predicate IsTail(ctx: Context) { ctx.currentByte == TAIL }

  /** Evaluated before the high byte of the length is stored. */
  predicate LengthValid(ctx: Context) { ctx.expectedLen >= 2 && ctx.expectedLen - 2 <= DATA_MAX }

  // ---- Actions ----

  function ResetContext(ctx: Context): Context
  {
    ctx.(frame := EMPTY_FRAME, expectedLen := 0, dataIndex := 0, payload := [], crc1 := 0, crc2 := 0)
  }

  function SyncError(ctx: Context): Context
  {
    ctx.(stats := ctx.stats.(syncErrors := ctx.stats.syncErrors + 1))
  }

  function StoreLength1(ctx: Context): Context
  {
    ctx.(expectedLen := Value(ctx.currentByte))
  }

  /** The bytes of the length do not overlap, so the bitwise or is a sum. */
  function StoreLength2(ctx: Context): Context
  {
    ctx.(expectedLen := ctx.expectedLen + 256 * Value(ctx.currentByte))
  }

  function LengthError(ctx: Context): Context
  {
    ctx.(stats := ctx.stats.(lengthErrors := ctx.stats.lengthErrors + 1))
  }

  function StoreCmdClass(ctx: Context): Context
  {
    ctx.(frame := ctx.frame.(cmdClass := ctx.currentByte), payload := ctx.payload + [ctx.currentByte])
  }

  /** expected_len is at least 2 here; the subtraction is written out for every value. */
  function StoreCmd(ctx: Context): Context
  {
    var dataLen := if ctx.expectedLen >= 2 then ctx.expectedLen - 2 else ctx.expectedLen + UINT16 - 2;
    ctx.(frame := ctx.frame.(cmd := ctx.currentByte, dataLen := dataLen, data := []),
         payload := ctx.payload + [ctx.currentByte], dataIndex := 0)
  }

  function StoreData(ctx: Context): Context
  {
    if ctx.dataIndex < ctx.frame.dataLen then
      ctx.(frame := ctx.frame.(data := ctx.frame.data + [ctx.currentByte]),
           payload := ctx.payload + [ctx.currentByte], dataIndex := ctx.dataIndex + 1)
    else ctx
  }

  function StoreCrc1(ctx: Context): Context
  {
    ctx.(crc1 := ctx.currentByte)
  }

  function StoreCrc2(ctx: Context): Context
  {
    ctx.(crc2 := ctx.currentByte)
  }

  function CompleteFrame(ctx: Context): Context
  {
    var received := CrcOf(ctx.crc1, ctx.crc2);
    if Crc16(ctx.payload) != received then ctx.(stats := ctx.stats.(crcErrors := ctx.stats.crcErrors + 1))
    else
      var frame := ctx.frame.(crc := received);
      ctx.(frame := frame, stats := ctx.stats.(framesReceived := ctx.stats.framesReceived + 1),
           delivered := ctx.delivered + [frame])
  }

  function TailError(ctx: Context): Context
  {
    ctx.(stats := ctx.stats.(tailErrors := ctx.stats.tailErrors + 1))
  }

  // ---- One byte, as the transition table says ----

  datatype State = Idle | Length1 | Length2 | CmdClass | Cmd | Data | Crc1 | Crc2 | Tail

  datatype Machine = Machine(state: State, ctx: Context)

  function Accept(ctx: Context, b: Byte): Context
  {
    ctx.(currentByte := b, stats := ctx.stats.(bytesReceived := ctx.stats.bytesReceived + 1))
  }

  function PutByte(m: Machine, b: Byte): Machine
  {
    var c := Accept(m.ctx, b);
    match m.state
    case Idle => if IsHeader(c) then Machine(Length1, ResetContext(c)) else Machine(Idle, SyncError(c))
    case Length1 => Machine(Length2, StoreLength1(c))
    case Length2 => if LengthValid(c) then Machine(CmdClass, StoreLength2(c)) else Machine(Idle, LengthError(c))
    case CmdClass => Machine(Cmd, StoreCmdClass(c))
    case Cmd =>
      if HasData(c) then Machine(Data, StoreCmd(c)) else if NoData(c) then Machine(Crc1, StoreCmd(c)) else Machine(Cmd, c)
    case Data => Machine(if DataComplete(c) then Crc1 else Data, StoreData(c))
    case Crc1 => Machine(Crc2, StoreCrc1(c))
    case Crc2 => Machine(Tail, StoreCrc2(c))
    case Tail => Machine(Idle, if IsTail(c) then CompleteFrame(c) else TailError(c))
  }

  function PutAll(m: Machine, bytes: seq<Byte>): Machine
  {
    if bytes == [] then m else PutByte(PutAll(m, bytes[..|bytes| - 1]), bytes[|bytes| - 1])
  }

  /** However the stream is cut into calls, the parser ends in the same state. */
  lemma {:induction false} SplitDoesNotMatter(m: Machine, s: seq<Byte>, s': seq<Byte>)
    ensures PutAll(m, s + s') == PutAll(PutAll(m, s), s')
    decreases |s'|
  {
    if s' == [] {
      assert s + s' == s;
    } else {
      hide PutByte;
      var last := |s'| - 1;
      assert (s + s')[..|s| + last] == s + s'[..last];
      SplitDoesNotMatter(m, s, s'[..last]);
    }
  }

  lemma PutOne(m: Machine, b: Byte)
    ensures PutAll(m, [b]) == PutByte(m, b)
  {
    hide PutByte;
    assert [b][..0] == [];
    assert PutAll(m, []) == m;
  }

  lemma PutFirst(m: Machine, b: Byte, rest: seq<Byte>)
    ensures PutAll(m, [b] + rest) == PutAll(PutByte(m, b), rest)
  {
    hide PutByte;
    SplitDoesNotMatter(m, [b], rest);
    PutOne(m, b);
  }

  // ---- A whole frame ----

  function Declared(lo: Byte, hi: Byte): nat
  {
    Value(lo) + 256 * Value(hi)
  }

  /** The context n bytes into a frame that started in `ctx`, before any data. */
  function Reading(ctx: Context, n: nat, current: Byte, expected: nat, frame: Frame, payload: seq<Byte>): Context
  {
    Context(frame, current, expected, 0, 0, 0, payload, CountBytes(ctx.stats, n), ctx.delivered)
  }

  function CountBytes(stats: Stats, n: nat): Stats
  {
    stats.(bytesReceived := stats.bytesReceived + n)
  }

  /** The context right before the data, or before the CRC if there is none. */
  function Opened(ctx: Context, lo: Byte, hi: Byte, cmdClass: Byte, cmd: Byte): Context
    requires Value(lo) >= 2
  {
    Reading(ctx, 5, cmd, Declared(lo, hi), Frame(cmdClass, cmd, Declared(lo, hi) - 2, [], 0), [cmdClass, cmd])
  }

  lemma HeaderByte(ctx: Context)
    ensures PutByte(Machine(Idle, ctx), HEADER) == Machine(Length1, Reading(ctx, 1, HEADER, 0, EMPTY_FRAME, []))
  {
  }

  lemma LowByte(ctx: Context, lo: Byte)
    ensures PutByte(Machine(Length1, Reading(ctx, 1, HEADER, 0, EMPTY_FRAME, [])), lo)
            == Machine(Length2, Reading(ctx, 2, lo, Value(lo), EMPTY_FRAME, []))
  {
  }

  lemma HighByte(ctx: Context, lo: Byte, hi: Byte)
    ensures PutByte(Machine(Length2, Reading(ctx, 2, lo, Value(lo), EMPTY_FRAME, [])), hi)
            == if Value(lo) >= 2 then Machine(CmdClass, Reading(ctx, 3, hi, Declared(lo, hi), EMPTY_FRAME, []))
               else Machine(Idle, LengthError(Reading(ctx, 3, hi, Value(lo), EMPTY_FRAME, [])))
  {
    hide Value;
  }

  lemma ClassByte(ctx: Context, hi: Byte, expected: nat, cmdClass: Byte)
    ensures PutByte(Machine(CmdClass, Reading(ctx, 3, hi, expected, EMPTY_FRAME, [])), cmdClass)
            == Machine(Cmd, Reading(ctx, 4, cmdClass, expected, EMPTY_FRAME.(cmdClass := cmdClass), [cmdClass]))
  {
    assert [] + [cmdClass] == [cmdClass];
  }

  lemma CmdByte(ctx: Context, expected: nat, cmdClass: Byte, cmd: Byte)
    requires expected >= 2
    ensures PutByte(Machine(Cmd, Reading(ctx, 4, cmdClass, expected, EMPTY_FRAME.(cmdClass := cmdClass), [cmdClass])), cmd)
            == Machine(if expected > 2 then Data else Crc1,
                       Reading(ctx, 5, cmd, expected, Frame(cmdClass, cmd, expected - 2, [], 0), [cmdClass, cmd]))
  {
    assert [cmdClass] + [cmd] == [cmdClass, cmd];
  }

  /** Header and length. */
  lemma LengthStage(ctx: Context, lo: Byte, hi: Byte)
    ensures PutAll(Machine(Idle, ctx), [HEADER, lo, hi])
            == if Value(lo) >= 2 then Machine(CmdClass, Reading(ctx, 3, hi, Declared(lo, hi), EMPTY_FRAME, []))
               else Machine(Idle, LengthError(Reading(ctx, 3, hi, Value(lo), EMPTY_FRAME, [])))
  {
    hide PutByte, PutAll, Reading, LengthError, Declared;
    HeaderByte(ctx);
    LowByte(ctx, lo);
    HighByte(ctx, lo, hi);
    assert [HEADER, lo, hi] == [HEADER] + ([lo] + [hi]);
    PutFirst(Machine(Idle, ctx), HEADER, [lo] + [hi]);
    PutFirst(Machine(Length1, Reading(ctx, 1, HEADER, 0, EMPTY_FRAME, [])), lo, [hi]);
    PutOne(Machine(Length2, Reading(ctx, 2, lo, Value(lo), EMPTY_FRAME, [])), hi);
  }

  lemma OpenFrame(ctx: Context, lo: Byte, hi: Byte, cmdClass: Byte, cmd: Byte)
    requires Value(lo) >= 2
    ensures PutAll(Machine(Idle, ctx), [HEADER, lo, hi, cmdClass, cmd])
            == Machine(if Declared(lo, hi) > 2 then Data else Crc1, Opened(ctx, lo, hi, cmdClass, cmd))
  {
    hide PutByte, PutAll, Reading, Declared;
    var m := Machine(CmdClass, Reading(ctx, 3, hi, Declared(lo, hi), EMPTY_FRAME, []));
    LengthStage(ctx, lo, hi);
    ClassByte(ctx, hi, Declared(lo, hi), cmdClass);
    DeclaredAtLeast(lo, hi);
    CmdByte(ctx, Declared(lo, hi), cmdClass, cmd);
    assert [HEADER, lo, hi, cmdClass, cmd] == [HEADER, lo, hi] + ([cmdClass] + [cmd]);
    SplitDoesNotMatter(Machine(Idle, ctx), [HEADER, lo, hi], [cmdClass] + [cmd]);
    PutFirst(m, cmdClass, [cmd]);
    PutOne(PutByte(m, cmdClass), cmd);
  }

  lemma DeclaredAtLeast(lo: Byte, hi: Byte)
    ensures Declared(lo, hi) >= Value(lo)
  {
  }

  /** The context after the first n data bytes of a frame. */
  function Filled(ctx: Context, data: seq<Byte>): Context
  {
    ctx.(frame := ctx.frame.(data := data), dataIndex := |data|, payload := ctx.payload + data,
         currentByte := if data == [] then ctx.currentByte else data[|data| - 1],
         stats := ctx.stats.(bytesReceived := ctx.stats.bytesReceived + |data|))
  }

  lemma {:induction false} FillData(ctx: Context, data: seq<Byte>)
    requires ctx.dataIndex == 0 && ctx.frame.data == [] && 0 < |data| <= ctx.frame.dataLen
    ensures PutAll(Machine(Data, ctx), data)
            == Machine(if |data| == ctx.frame.dataLen then Crc1 else Data, Filled(ctx, data))
  {
    var init, b := data[..|data| - 1], data[|data| - 1];
    assert data == init + [b];
    if init == [] {
    } else {
      FillData(ctx, init);
    }
    NextData(ctx, init, b);
  }

  lemma NextData(ctx: Context, init: seq<Byte>, b: Byte)
    requires |init| < ctx.frame.dataLen && ctx.dataIndex == 0 && ctx.frame.data == []
    ensures PutByte(Machine(Data, if init == [] then ctx else Filled(ctx, init)), b)
            == Machine(if |init| + 1 == ctx.frame.dataLen then Crc1 else Data, Filled(ctx, init + [b]))
  {
    assert ctx.payload + init + [b] == ctx.payload + (init + [b]);
    assert init == [] ==> init + [b] == [b];
  }

  /** The context once both CRC bytes are in. */
  function Summed(ctx: Context, lo: Byte, hi: Byte): Context
  {
    ctx.(crc1 := lo, crc2 := hi, currentByte := hi, stats := CountBytes(ctx.stats, 2))
  }

  lemma CrcBytes(ctx: Context, lo: Byte, hi: Byte)
    ensures PutByte(PutByte(Machine(Crc1, ctx), lo), hi) == Machine(Tail, Summed(ctx, lo, hi))
  {
  }

  lemma CloseFrame(ctx: Context, lo: Byte, hi: Byte, last: Byte)
    ensures PutAll(Machine(Crc1, ctx), [lo, hi, last]) == PutByte(Machine(Tail, Summed(ctx, lo, hi)), last)
  {
    hide PutByte, PutAll, Summed;
    var m := PutByte(Machine(Crc1, ctx), lo);
    CrcBytes(ctx, lo, hi);
    assert [lo, hi, last] == [lo] + ([hi] + [last]);
    PutFirst(Machine(Crc1, ctx), lo, [hi] + [last]);
    PutFirst(m, hi, [last]);
    PutOne(PutByte(m, hi), last);
  }

  /** A frame as it may arrive: any data, any CRC bytes, any last byte. */
  function Arrived(cmdClass: Byte, cmd: Byte, data: seq<Byte>, crcLo: Byte, crcHi: Byte, last: Byte): seq<Byte>
  {
    Head(cmdClass, cmd, |data|) + data + [crcLo, crcHi, last]
  }

  /** The lengths whose low byte the parser lets through: all but 254 and 255. */
  predicate AcceptedLength(n: nat)
  {
    n <= DATA_MAX && n != 254 && n != 255
  }

  lemma AcceptedLowByte(n: nat)
    requires n <= DATA_MAX
    ensures AcceptedLength(n) <==> Value(Low8((2 + n) % UINT16)) >= 2
    ensures Declared(Low8((2 + n) % UINT16), High8((2 + n) % UINT16)) == 2 + n
  {
    hide Low8, High8;
    LengthValue(2 + n);
  }

  /** The statistics and deliveries after a frame with this content, checksum and last byte, the bytes
      themselves being counted already. */
  function Judged(stats: Stats, delivered: seq<Frame>, frame: Frame, payload: seq<Byte>, sum: bv16, last: Byte)
    : (Stats, seq<Frame>)
  {
    if last != TAIL then (stats.(tailErrors := stats.tailErrors + 1), delivered)
    else if Crc16(payload) != sum then (stats.(crcErrors := stats.crcErrors + 1), delivered)
    else (stats.(framesReceived := stats.framesReceived + 1), delivered + [frame.(crc := sum)])
  }

  lemma LastByte(c: Context, last: Byte)
    ensures var m := PutByte(Machine(Tail, c), last);
            && m.state == Idle
            && (m.ctx.stats, m.ctx.delivered)
               == Judged(CountBytes(c.stats, 1), c.delivered, c.frame, c.payload, CrcOf(c.crc1, c.crc2), last)
  {
    hide Crc16, CrcOf;
  }

  lemma TailJudges(filled: Context, crcLo: Byte, crcHi: Byte, last: Byte)
    ensures var m := PutAll(Machine(Crc1, filled), [crcLo, crcHi, last]);
            && m.state == Idle
            && (m.ctx.stats, m.ctx.delivered)
               == Judged(CountBytes(filled.stats, 3), filled.delivered, filled.frame, filled.payload,
                         CrcOf(crcLo, crcHi), last)
  {
    hide Crc16, CrcOf, PutByte, PutAll, Judged;
    LastByte(Summed(filled, crcLo, crcHi), last);
    CloseFrame(filled, crcLo, crcHi, last);
  }

  /** Header, length, class, command and data: what they leave behind. */
  lemma HeadAndData(ctx: Context, cmdClass: Byte, cmd: Byte, data: seq<Byte>) returns (filled: Context)
    requires AcceptedLength(|data|)
    ensures PutAll(Machine(Idle, ctx), Head(cmdClass, cmd, |data|) + data) == Machine(Crc1, filled)
    ensures filled.payload == Payload(cmdClass, cmd, data) && filled.frame == Frame(cmdClass, cmd, |data|, data, 0)
    ensures filled.stats == CountBytes(ctx.stats, 5 + |data|) && filled.delivered == ctx.delivered
  {
    hide Low8, High8;
    var n := |data|;
    var lo, hi := Low8((2 + n) % UINT16), High8((2 + n) % UINT16);
    AcceptedLowByte(n);
    var start := Opened(ctx, lo, hi, cmdClass, cmd);
    OpenFrame(ctx, lo, hi, cmdClass, cmd);
    hide PutByte;
    SplitDoesNotMatter(Machine(Idle, ctx), Head(cmdClass, cmd, n), data);
    if n > 0 {
      FillData(start, data);
      filled := Filled(start, data);
    } else {
      assert data == [];
      filled := start;
    }
  }

  /** What the parser does with a frame of accepted length that arrives in Idle, whatever its data and
      trailer: it is delivered iff the last byte is 0x55 and the CRC matches, and otherwise exactly
      one error is counted. */
  lemma ArrivedFrame(ctx: Context, cmdClass: Byte, cmd: Byte, data: seq<Byte>, crcLo: Byte, crcHi: Byte, last: Byte)
    requires AcceptedLength(|data|)
    ensures var m := PutAll(Machine(Idle, ctx), Arrived(cmdClass, cmd, data, crcLo, crcHi, last));
            && m.state == Idle
            && (m.ctx.stats, m.ctx.delivered)
               == Judged(CountBytes(ctx.stats, 8 + |data|), ctx.delivered, Frame(cmdClass, cmd, |data|, data, 0),
                         Payload(cmdClass, cmd, data), CrcOf(crcLo, crcHi), last)
  {
    hide Crc16, CrcOf, Judged, PutByte, Head;
    var filled := HeadAndData(ctx, cmdClass, cmd, data);
    TailJudges(filled, crcLo, crcHi, last);
    SplitDoesNotMatter(Machine(Idle, ctx), Head(cmdClass, cmd, |data|) + data, [crcLo, crcHi, last]);
  }

  // ---- What the builder and the parser do together ----

  /** A built frame as it arrives untouched. */
  lemma BuiltFrame(cmdClass: Byte, cmd: Byte, data: seq<Byte>)
    requires |data| <= DATA_MAX
    ensures var crc := Crc16(Payload(cmdClass, cmd, data));
            FrameBytes(cmdClass, cmd, data) == Arrived(cmdClass, cmd, data, CrcLow(crc), CrcHigh(crc), TAIL)
  {
    var p := Payload(cmdClass, cmd, data);
    assert p[..(2 + |data|) % UINT16] == p;
  }

  function Built(cmdClass: Byte, cmd: Byte, data: seq<Byte>): Frame
  {
    Frame(cmdClass, cmd, |data|, data, Crc16(Payload(cmdClass, cmd, data)))
  }

  /** The parser undoes the builder. */
  lemma RoundTrip(ctx: Context, cmdClass: Byte, cmd: Byte, data: seq<Byte>)
    requires AcceptedLength(|data|)
    ensures var m := PutAll(Machine(Idle, ctx), FrameBytes(cmdClass, cmd, data));
            && m.state == Idle && m.ctx.delivered == ctx.delivered + [Built(cmdClass, cmd, data)]
            && m.ctx.stats == ctx.stats.(framesReceived := ctx.stats.framesReceived + 1,
                                         bytesReceived := ctx.stats.bytesReceived + 8 + |data|)
  {
    hide Crc16, CrcOf, PutByte;
    BuiltFrame(cmdClass, cmd, data);
    var crc := Crc16(Payload(cmdClass, cmd, data));
    CrcValue(crc);
    ArrivedFrame(ctx, cmdClass, cmd, data, CrcLow(crc), CrcHigh(crc), TAIL);
  }

  /** A built frame with 254 or 255 data bytes is turned away at its third byte: the low byte of its
      length alone looks too small. */
  lemma LengthRejected(ctx: Context, cmdClass: Byte, cmd: Byte, data: seq<Byte>)
    requires |data| <= DATA_MAX
    ensures var m := PutAll(Machine(Idle, ctx), FrameBytes(cmdClass, cmd, data)[..3]);
            && (m.state == CmdClass <==> AcceptedLength(|data|))
            && (!AcceptedLength(|data|) ==>
                  && m.state == Idle && m.ctx.delivered == ctx.delivered
                  && m.ctx.stats == ctx.stats.(lengthErrors := ctx.stats.lengthErrors + 1,
                                               bytesReceived := ctx.stats.bytesReceived + 3))
  {
    hide Crc16, Low8, High8, Value, Declared, PutAll;
    var n := |data|;
    var lo, hi := Low8((2 + n) % UINT16), High8((2 + n) % UINT16);
    AcceptedLowByte(n);
    LengthStage(ctx, lo, hi);
    assert FrameBytes(cmdClass, cmd, data)[..3] == [HEADER, lo, hi];
  }

  /** A frame in a stream, with the bytes that came before it. */
  datatype Item = Item(gap: seq<Byte>, cmdClass: Byte, cmd: Byte, data: seq<Byte>)

  predicate Noise(gap: seq<Byte>)
  {
    forall i :: 0 <= i < |gap| ==> gap[i] != HEADER
  }

  function Bytes(items: seq<Item>): seq<Byte>
  {
    if items == [] then []
    else
      var it := items[|items| - 1];
      Bytes(items[..|items| - 1]) + (it.gap + FrameBytes(it.cmdClass, it.cmd, it.data))
  }

  function Frames(items: seq<Item>): seq<Frame>
  {
    if items == [] then []
    else
      var it := items[|items| - 1];
      Frames(items[..|items| - 1]) + [Built(it.cmdClass, it.cmd, it.data)]
  }

  function GapBytes(items: seq<Item>): nat
  {
    if items == [] then 0 else GapBytes(items[..|items| - 1]) + |items[|items| - 1].gap|
  }

  lemma {:induction false} SkipNoise(ctx: Context, gap: seq<Byte>)
    requires Noise(gap)
    ensures var m := PutAll(Machine(Idle, ctx), gap);
            && m.state == Idle && m.ctx.delivered == ctx.delivered
            && m.ctx.stats == ctx.stats.(syncErrors := ctx.stats.syncErrors + |gap|,
                                         bytesReceived := ctx.stats.bytesReceived + |gap|)
  {
    if gap == [] {
    } else {
      SkipNoise(ctx, gap[..|gap| - 1]);
    }
  }

  /** One item of the stream. */
  lemma ParseItem(ctx: Context, it: Item)
    requires Noise(it.gap) && AcceptedLength(|it.data|)
    ensures var m := PutAll(Machine(Idle, ctx), it.gap + FrameBytes(it.cmdClass, it.cmd, it.data));
            && m.state == Idle && m.ctx.delivered == ctx.delivered + [Built(it.cmdClass, it.cmd, it.data)]
            && m.ctx.stats == ctx.stats.(syncErrors := ctx.stats.syncErrors + |it.gap|,
                                         framesReceived := ctx.stats.framesReceived + 1,
                                         bytesReceived := ctx.stats.bytesReceived + |it.gap| + 8 + |it.data|)
  {
    hide PutByte, Built, FrameBytes;
    var m := PutAll(Machine(Idle, ctx), it.gap);
    SkipNoise(ctx, it.gap);
    RoundTrip(m.ctx, it.cmdClass, it.cmd, it.data);
    SplitDoesNotMatter(Machine(Idle, ctx), it.gap, FrameBytes(it.cmdClass, it.cmd, it.data));
  }

  /** Any list of built frames with noise between them comes out as exactly those frames in order,
      and nothing but the noise is counted as an error. */
  lemma {:induction false} StreamRoundTrip(ctx: Context, items: seq<Item>)
    requires forall k :: 0 <= k < |items| ==> Noise(items[k].gap) && AcceptedLength(|items[k].data|)
    ensures var m := PutAll(Machine(Idle, ctx), Bytes(items));
            && m.state == Idle && m.ctx.delivered == ctx.delivered + Frames(items)
            && m.ctx.stats == ctx.stats.(syncErrors := ctx.stats.syncErrors + GapBytes(items),
                                         framesReceived := ctx.stats.framesReceived + |items|,
                                         bytesReceived := ctx.stats.bytesReceived + |Bytes(items)|)
  {
    hide PutByte, Built, FrameBytes;
    if items == [] {
      assert ctx.delivered + [] == ctx.delivered;
    } else {
      var init, it := items[..|items| - 1], items[|items| - 1];
      StreamRoundTrip(ctx, init);
      var m := PutAll(Machine(Idle, ctx), Bytes(init));
      ParseItem(m.ctx, it);
      ItemLength(it);
      SplitDoesNotMatter(Machine(Idle, ctx), Bytes(init), it.gap + FrameBytes(it.cmdClass, it.cmd, it.data));
      assert ctx.delivered + Frames(items) == ctx.delivered + Frames(init) + [Built(it.cmdClass, it.cmd, it.data)];
    }
  }

  lemma ItemLength(it: Item)
    ensures |FrameBytes(it.cmdClass, it.cmd, it.data)| == 8 + |it.data|
  {
    hide Crc16;
  }

  // ---- Corruption ----

  /** A built frame of accepted length whose payload was replaced by another of the same length. */
  function Altered(cmdClass: Byte, cmd: Byte, data: seq<Byte>, cmdClass': Byte, cmd': Byte, data': seq<Byte>): seq<Byte>
    requires |FrameBytes(cmdClass, cmd, data)| >= 5 + |data|
  {
    Head(cmdClass', cmd', |data|) + data' + FrameBytes(cmdClass, cmd, data)[5 + |data|..]
  }

  /** Such a frame is turned away: one CRC error, nothing delivered, back in Idle. */
  predicate TurnedAway(ctx: Context, m: Machine, n: nat)
  {
    && m.state == Idle && m.ctx.delivered == ctx.delivered
    && m.ctx.stats == ctx.stats.(crcErrors := ctx.stats.crcErrors + 1, bytesReceived := ctx.stats.bytesReceived + n)
  }

  lemma OtherChecksum(ctx: Context, cmdClass: Byte, cmd: Byte, data: seq<Byte>,
                      cmdClass': Byte, cmd': Byte, data': seq<Byte>)
    requires AcceptedLength(|data|) && |data'| == |data|
    requires Crc16(Payload(cmdClass', cmd', data')) != Crc16(Payload(cmdClass, cmd, data))
    ensures |FrameBytes(cmdClass, cmd, data)| == 8 + |data|
    ensures TurnedAway(ctx, PutAll(Machine(Idle, ctx), Altered(cmdClass, cmd, data, cmdClass', cmd', data')), 8 + |data|)
  {
    hide Crc16, CrcOf, PutByte, Head, Payload;
    BuiltFrame(cmdClass, cmd, data);
    var crc := Crc16(Payload(cmdClass, cmd, data));
    CrcValue(crc);
    ArrivedFrame(ctx, cmdClass', cmd', data', CrcLow(crc), CrcHigh(crc), TAIL);
    assert FrameBytes(cmdClass, cmd, data)[5 + |data|..] == [CrcLow(crc), CrcHigh(crc), TAIL];
  }

  /** A built frame of accepted length whose payload was altered, but only within two adjacent bytes,
      is never delivered. */
  lemma CorruptionCaught(ctx: Context, cmdClass: Byte, cmd: Byte, data: seq<Byte>,
                         cmdClass': Byte, cmd': Byte, data': seq<Byte>, i: nat)
    requires AcceptedLength(|data|) && |data'| == |data| && i <= |data|
    requires Payload(cmdClass', cmd', data') != Payload(cmdClass, cmd, data)
    requires forall k :: 0 <= k < 2 + |data| && k != i && k != i + 1 ==>
               Payload(cmdClass', cmd', data')[k] == Payload(cmdClass, cmd, data)[k]
    ensures |FrameBytes(cmdClass, cmd, data)| == 8 + |data|
    ensures TurnedAway(ctx, PutAll(Machine(Idle, ctx), Altered(cmdClass, cmd, data, cmdClass', cmd', data')), 8 + |data|)
  {
    hide Crc16, PutAll, Altered, FrameBytes;
    BurstDetected(Payload(cmdClass, cmd, data), Payload(cmdClass', cmd', data'), i);
    OtherChecksum(ctx, cmdClass, cmd, data, cmdClass', cmd', data');
  }

  /** Nor one whose payload was altered within any sixteen consecutive bits. */
  lemma BitBurstCaught(ctx: Context, cmdClass: Byte, cmd: Byte, data: seq<Byte>,
                       cmdClass': Byte, cmd': Byte, data': seq<Byte>, j: nat)
    requires AcceptedLength(|data|) && |data'| == |data|
    requires Payload(cmdClass', cmd', data') != Payload(cmdClass, cmd, data)
    requires var bits, bits' := Message(Payload(cmdClass, cmd, data)), Message(Payload(cmdClass', cmd', data'));
             forall k :: 0 <= k < |bits| && k < |bits'| && !(j <= k < j + 16) ==> bits[k] == bits'[k]
    ensures |FrameBytes(cmdClass, cmd, data)| == 8 + |data|
    ensures TurnedAway(ctx, PutAll(Machine(Idle, ctx), Altered(cmdClass, cmd, data, cmdClass', cmd', data')), 8 + |data|)
  {
    hide Crc16, PutAll, Altered, FrameBytes, Message;
    BitBurstDetected(Payload(cmdClass, cmd, data), Payload(cmdClass', cmd', data'), j);
    OtherChecksum(ctx, cmdClass, cmd, data, cmdClass', cmd', data');
  }

  /** Adding the change of the low byte is the same as replacing it. */
  lemma LowByteReplaced(c: bv16, t: bv16, lo: Byte)
    ensures Xor(c, t) == CrcOf(lo, CrcHigh(c)) <==> t == XorByte(CrcLow(c), lo) as bv16
  {
    var w := CrcOf(lo, CrcHigh(c));
    SameHighByte(c, lo);
    XorSolves(c, t, w);
  }

  lemma XorSolves(c: bv16, t: bv16, w: bv16)
    ensures c ^ t == w <==> t == c ^ w
  {
    assert c ^ (c ^ t) == t && c ^ (c ^ w) == w;
  }

  lemma SameHighByte(c: bv16, lo: Byte)
    ensures c ^ CrcOf(lo, CrcHigh(c)) == (CrcLow(c) ^ lo) as bv16
  {
  }

  /** A frame that ends well is delivered iff its CRC bytes fit. */
  lemma DeliveredIff(ctx: Context, cmdClass: Byte, cmd: Byte, data: seq<Byte>, crcLo: Byte, crcHi: Byte)
    requires AcceptedLength(|data|)
    ensures PutAll(Machine(Idle, ctx), Arrived(cmdClass, cmd, data, crcLo, crcHi, TAIL)).ctx.delivered != ctx.delivered
            <==> Crc16(Payload(cmdClass, cmd, data)) == CrcOf(crcLo, crcHi)
  {
    hide Crc16, CrcOf, PutByte, Head, Payload;
    ArrivedFrame(ctx, cmdClass, cmd, data, crcLo, crcHi, TAIL);
  }

  lemma XorTwice(a: Byte, b: Byte)
    ensures XorByte(a, XorByte(a, b)) == b
  {
  }

  lemma XorIs(a: Byte, b: Byte, c: Byte)
    ensures XorByte(a, b) == c <==> b == XorByte(a, c)
  {
    hide XorByte;
    XorTwice(a, b);
    XorTwice(a, c);
  }

  lemma XorIsZero(a: Byte, b: Byte)
    ensures XorByte(a, b) == 0 <==> b == a
  {
  }

  /** The promise stops at the payload: because the CRC is sent low byte first, a change of the last
      data byte and the first CRC byte goes unnoticed exactly when it flips 0x89 in the one and 0xA1 in
      the other, or nothing. */
  lemma BoundaryBurst(ctx: Context, cmdClass: Byte, cmd: Byte, data: seq<Byte>, x: Byte, lo: Byte)
    requires AcceptedLength(|data|) && data != []
    ensures var last := |data| - 1;
            var crc := Crc16(Payload(cmdClass, cmd, data));
            var m := PutAll(Machine(Idle, ctx), Arrived(cmdClass, cmd, data[..last] + [x], lo, CrcHigh(crc), TAIL));
            m.ctx.delivered != ctx.delivered
            <==> (x == data[last] && lo == CrcLow(crc)) || (x == XorByte(data[last], 0x89) && lo == XorByte(CrcLow(crc), 0xA1))
  {
    hide Crc16, CrcOf, PutAll, Arrived, Table, CrcLow, CrcHigh, XorByte;
    var b, crc := data[|data| - 1], Crc16(Payload(cmdClass, cmd, data));
    BoundaryChange(ctx, cmdClass, cmd, data, x, lo);
    ByteEntries(XorByte(b, x), XorByte(CrcLow(crc), lo));
    XorIsZero(b, x);
    XorIsZero(CrcLow(crc), lo);
    XorIs(b, x, 0x89);
    XorIs(CrcLow(crc), lo, 0xA1);
  }

  /** In terms of the table: the entry of the data byte's change must be the change of the CRC byte. */
  lemma BoundaryChange(ctx: Context, cmdClass: Byte, cmd: Byte, data: seq<Byte>, x: Byte, lo: Byte)
    requires AcceptedLength(|data|) && data != []
    ensures var last := |data| - 1;
            var crc := Crc16(Payload(cmdClass, cmd, data));
            var m := PutAll(Machine(Idle, ctx), Arrived(cmdClass, cmd, data[..last] + [x], lo, CrcHigh(crc), TAIL));
            m.ctx.delivered != ctx.delivered <==> Table(XorByte(data[last], x)) == XorByte(CrcLow(crc), lo) as bv16
  {
    hide Crc16, CrcOf, PutAll, Arrived, Table, CrcLow, CrcHigh, Xor, XorByte;
    var last := |data| - 1;
    var p, data' := [cmdClass, cmd] + data[..last], data[..last] + [x];
    assert Payload(cmdClass, cmd, data) == p + [data[last]] && Payload(cmdClass, cmd, data') == p + [x];
    LastByteDifference(p, data[last], x);
    var crc := Crc16(Payload(cmdClass, cmd, data));
    LowByteReplaced(crc, Table(XorByte(data[last], x)), lo);
    DeliveredIff(ctx, cmdClass, cmd, data', lo, CrcHigh(crc));
  }

  /** Such a burst exists. */
  lemma BoundaryBurstExample(ctx: Context)
    ensures var crc := Crc16(Payload(1, 2, [0]));
            PutAll(Machine(Idle, ctx), Arrived(1, 2, [0x89], XorByte(CrcLow(crc), 0xA1), CrcHigh(crc), TAIL)).ctx.delivered
            != ctx.delivered
  {
    hide Crc16, PutAll, Arrived, CrcLow, CrcHigh;
    var zero: seq<Byte> := [0];
    assert zero[..0] + [0x89] == [0x89];
    BoundaryBurst(ctx, 1, 2, zero, 0x89, XorByte(CrcLow(Crc16(Payload(1, 2, zero))), 0xA1));
  }
}
