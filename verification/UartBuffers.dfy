/** The parser's fixed buffers: when a byte is written behind their end. */
module UartBuffers {
  import opened Crc
  import opened UartFrame
  import opened UartParser

  const PAYLOAD_MAX: nat := DATA_MAX + 4

  /** The parser is about to store its next byte behind the end of frame.data or of payload_buf. */
  predicate WritesOutside(m: Machine)
  {
    match m.state
    case CmdClass => |m.ctx.payload| >= PAYLOAD_MAX
    case Cmd => |m.ctx.payload| >= PAYLOAD_MAX
    case Data =>
      && m.ctx.dataIndex < m.ctx.frame.dataLen
      && (m.ctx.dataIndex >= DATA_MAX || |m.ctx.payload| >= PAYLOAD_MAX)
    case _ => false
  }

  /** Some byte of the stream is stored outside. */
  ghost predicate Overflows(m: Machine, s: seq<Byte>)
  {
    exists k :: 0 <= k < |s| && WritesOutside(PutAll(m, s[..k]))
  }

  /** What a caller can see in the bytes: at some point where a frame starts, a length whose low byte is
      accepted and whose value exceeds 258 is followed by more than 258 further bytes. */
  predicate Overdeclares(s: seq<Byte>)
  {
    if |s| < 3 then false
    else if s[0] != HEADER then Overdeclares(s[1..])
    else if Value(s[1]) < 2 then Overdeclares(s[3..])
    else
      var declared := Declared(s[1], s[2]);
      if declared > DATA_MAX + 2 then |s| > 3 + 2 + DATA_MAX
      else if |s| <= declared + 6 then false
      else Overdeclares(s[declared + 6..])
  }

  // ---- Splitting a stream ----

  lemma NothingYet(m: Machine)
    ensures PutAll(m, []) == m
  {
  }

  lemma OneByte(m: Machine, b: Byte)
    ensures Overflows(m, [b]) <==> WritesOutside(m)
  {
    hide PutByte, WritesOutside;
    NothingYet(m);
    assert [b][..0] == [];
  }

  lemma PrefixOf(m: Machine, s: seq<Byte>, s': seq<Byte>, k: nat)
    requires k <= |s'|
    ensures PutAll(m, (s + s')[..|s| + k]) == PutAll(PutAll(m, s), s'[..k])
  {
    hide PutByte;
    assert (s + s')[..|s| + k] == s + s'[..k];
    SplitDoesNotMatter(m, s, s'[..k]);
  }

  lemma OverflowsSplit(m: Machine, s: seq<Byte>, s': seq<Byte>)
    ensures Overflows(m, s + s') <==> Overflows(m, s) || Overflows(PutAll(m, s), s')
  {
    hide PutAll, WritesOutside;
    forall k | 0 <= k < |s|
      ensures (s + s')[..k] == s[..k]
    {
    }
    forall k | 0 <= k < |s'|
      ensures PutAll(m, (s + s')[..|s| + k]) == PutAll(PutAll(m, s), s'[..k])
    {
      PrefixOf(m, s, s', k);
    }
    if Overflows(m, s + s') {
      var k :| 0 <= k < |s + s'| && WritesOutside(PutAll(m, (s + s')[..k]));
      if k < |s| {
        assert WritesOutside(PutAll(m, s[..k]));
      } else {
        assert WritesOutside(PutAll(PutAll(m, s), s'[..k - |s|]));
      }
    }
    if Overflows(m, s) {
      var k :| 0 <= k < |s| && WritesOutside(PutAll(m, s[..k]));
      assert WritesOutside(PutAll(m, (s + s')[..k]));
    }
    if Overflows(PutAll(m, s), s') {
      var k :| 0 <= k < |s'| && WritesOutside(PutAll(PutAll(m, s), s'[..k]));
      assert WritesOutside(PutAll(m, (s + s')[..|s| + k]));
    }
  }

  lemma OverflowsFirst(m: Machine, b: Byte, rest: seq<Byte>)
    requires !WritesOutside(m)
    ensures Overflows(m, [b] + rest) <==> Overflows(PutByte(m, b), rest)
  {
    hide PutByte, WritesOutside, Overflows;
    OneByte(m, b);
    PutOne(m, b);
    OverflowsSplit(m, [b], rest);
  }

  // ---- Frames with an accepted length of at most 258 ----

  /** The buffers hold what the declared length allows. */
  predicate InBounds(m: Machine)
  {
    var c := m.ctx;
    match m.state
    case Idle => true
    case Length1 => c.payload == [] && c.frame.data == []
    case Length2 => c.payload == [] && c.frame.data == [] && c.expectedLen <= 255
    case CmdClass => c.payload == [] && c.frame.data == [] && 2 <= c.expectedLen <= DATA_MAX + 2
    case Cmd => |c.payload| == 1 && c.frame.data == [] && 2 <= c.expectedLen <= DATA_MAX + 2
    case Data => |c.payload| == 2 + c.dataIndex && |c.frame.data| == c.dataIndex < c.frame.dataLen <= DATA_MAX
    case Crc1 => |c.payload| == 2 + c.frame.dataLen && |c.frame.data| == c.frame.dataLen <= DATA_MAX
    case Crc2 => |c.payload| == 2 + c.frame.dataLen && |c.frame.data| == c.frame.dataLen <= DATA_MAX
    case Tail => |c.payload| == 2 + c.frame.dataLen && |c.frame.data| == c.frame.dataLen <= DATA_MAX
  }

  /** Inside a frame whose length has been read. */
  predicate InFrame(m: Machine)
  {
    m.state != Idle && m.state != Length1 && m.state != Length2
  }

  /** How many bytes are missing until the parser is back in Idle. */
  function Missing(m: Machine): int
  {
    match m.state
    case CmdClass => m.ctx.expectedLen + 3
    case Cmd => m.ctx.expectedLen + 2
    case Data => m.ctx.frame.dataLen - m.ctx.dataIndex + 3
    case Crc1 => 3
    case Crc2 => 2
    case Tail => 1
    case _ => 0
  }

  lemma StepInFrame(m: Machine, b: Byte)
    requires InBounds(m) && InFrame(m)
    ensures !WritesOutside(m) && Missing(m) >= 1
    ensures InBounds(PutByte(m, b)) && Missing(PutByte(m, b)) == Missing(m) - 1
    ensures Missing(m) > 1 <==> InFrame(PutByte(m, b))
    ensures Missing(m) == 1 ==> PutByte(m, b).state == Idle
  {
    hide Crc16, CrcOf, Value;
  }

  /** A frame of acceptable length stays inside and leads back to Idle. */
  lemma {:induction false} RestOfFrame(m: Machine, s: seq<Byte>)
    requires InBounds(m) && InFrame(m) && |s| <= Missing(m)
    ensures !Overflows(m, s)
    ensures |s| == Missing(m) ==> PutAll(m, s).state == Idle
    decreases |s|
  {
    if s == [] {
    } else {
      hide PutByte, InBounds, WritesOutside, Missing, Overflows;
      var next := PutByte(m, s[0]);
      StepInFrame(m, s[0]);
      assert s == [s[0]] + s[1..];
      PutFirst(m, s[0], s[1..]);
      OverflowsFirst(m, s[0], s[1..]);
      if InFrame(next) {
        RestOfFrame(next, s[1..]);
      } else {
        assert s[1..] == [];
        NothingYet(next);
        NothingOutside(next);
      }
    }
  }

  lemma NothingOutside(m: Machine)
    ensures !Overflows(m, [])
  {
  }

  // ---- Frames whose length is too large ----

  /** k bytes after such a length. */
  predicate Running(m: Machine, k: nat)
  {
    && |m.ctx.payload| == k
    && (k == 0 ==> m.state == CmdClass && m.ctx.expectedLen > DATA_MAX + 2)
    && (k == 1 ==> m.state == Cmd && m.ctx.expectedLen > DATA_MAX + 2)
    && (k >= 2 ==> m.state == Data && |m.ctx.frame.data| == m.ctx.dataIndex == k - 2 && m.ctx.frame.dataLen > DATA_MAX)
  }

  lemma StepRunning(m: Machine, k: nat, b: Byte)
    requires Running(m, k) && k <= 2 + DATA_MAX
    ensures WritesOutside(m) <==> k == 2 + DATA_MAX
    ensures k < 2 + DATA_MAX ==> Running(PutByte(m, b), k + 1)
  {
  }

  /** The 259th byte after the length is the first to be stored outside. */
  lemma {:induction false} LongFrame(m: Machine, k: nat, s: seq<Byte>)
    requires Running(m, k) && k <= 2 + DATA_MAX
    ensures Overflows(m, s) <==> |s| > 2 + DATA_MAX - k
    ensures |s| == 2 + DATA_MAX - k ==> Running(PutAll(m, s), 2 + DATA_MAX)
    decreases |s|
  {
    if s == [] {
    } else {
      hide PutByte, Running, Overflows, WritesOutside;
      assert s == [s[0]] + s[1..];
      StepRunning(m, k, s[0]);
      if k == 2 + DATA_MAX {
        OneByte(m, s[0]);
        OverflowsSplit(m, [s[0]], s[1..]);
      } else {
        PutFirst(m, s[0], s[1..]);
        OverflowsFirst(m, s[0], s[1..]);
        LongFrame(PutByte(m, s[0]), k + 1, s[1..]);
      }
    }
  }

  // ---- Every stream ----

  /** Header and length. */
  lemma StartOfFrame(ctx: Context, lo: Byte, hi: Byte)
    ensures var m := PutAll(Machine(Idle, ctx), [HEADER, lo, hi]);
            && (Value(lo) < 2 ==> m.state == Idle)
            && (Value(lo) >= 2 ==> m.state == CmdClass && InFrame(m))
            && (Value(lo) >= 2 && Declared(lo, hi) > DATA_MAX + 2 ==> Running(m, 0))
            && (Value(lo) >= 2 && Declared(lo, hi) <= DATA_MAX + 2 ==>
                  InBounds(m) && Missing(m) == Declared(lo, hi) + 3)
    ensures !Overflows(Machine(Idle, ctx), [HEADER, lo, hi])
  {
    hide PutByte, Overflows;
    LengthStage(ctx, lo, hi);
    HeaderByte(ctx);
    LowByte(ctx, lo);
    assert [HEADER, lo, hi] == [HEADER] + ([lo] + [hi]);
    OverflowsFirst(Machine(Idle, ctx), HEADER, [lo] + [hi]);
    OverflowsFirst(PutByte(Machine(Idle, ctx), HEADER), lo, [hi]);
    OneByte(PutByte(PutByte(Machine(Idle, ctx), HEADER), lo), hi);
  }

  /** Fewer than three bytes reach no buffer. */
  lemma ShortStream(ctx: Context, s: seq<Byte>)
    requires |s| < 3
    ensures !Overflows(Machine(Idle, ctx), s)
  {
    hide Overflows;
    var m0 := Machine(Idle, ctx);
    if s == [] {
      NothingOutside(m0);
    } else {
      var m1 := PutByte(m0, s[0]);
      assert s == [s[0]] + s[1..];
      OverflowsFirst(m0, s[0], s[1..]);
      if |s| == 1 {
        assert s[1..] == [];
        NothingOutside(m1);
      } else {
        assert s[1..] == [s[1]];
        OneByte(m1, s[1]);
      }
    }
  }

  /** For every stream that arrives in Idle: some byte is stored behind the end of a buffer iff the
      stream declares too much somewhere. */
  lemma {:induction false} BuffersSuffice(ctx: Context, s: seq<Byte>)
    ensures Overflows(Machine(Idle, ctx), s) <==> Overdeclares(s)
    decreases |s|
  {
    hide Overflows, PutByte, InBounds, Missing, Running, Declared;
    var idle := Machine(Idle, ctx);
    if |s| < 3 {
      ShortStream(ctx, s);
    } else if s[0] != HEADER {
      assert s == [s[0]] + s[1..];
      OverflowsFirst(idle, s[0], s[1..]);
      NoiseStaysIdle(ctx, s[0]);
      BuffersSuffice(PutByte(idle, s[0]).ctx, s[1..]);
    } else {
      var m, rest := PutAll(idle, [HEADER, s[1], s[2]]), s[3..];
      assert s == [HEADER, s[1], s[2]] + rest;
      StartOfFrame(ctx, s[1], s[2]);
      OverflowsSplit(idle, [HEADER, s[1], s[2]], rest);
      if Value(s[1]) < 2 {
        BuffersSuffice(m.ctx, rest);
      } else if Declared(s[1], s[2]) > DATA_MAX + 2 {
        LongFrame(m, 0, rest);
      } else {
        WholeFrame(m, rest);
        var n := Declared(s[1], s[2]) + 3;
        if |rest| > n {
          assert rest[n..] == s[n + 3..];
          BuffersSuffice(PutAll(m, rest[..n]).ctx, rest[n..]);
        }
      }
    }
  }

  lemma NoiseStaysIdle(ctx: Context, b: Byte)
    requires b != HEADER
    ensures PutByte(Machine(Idle, ctx), b).state == Idle
  {
  }

  /** After a length of at most 258 only what follows the frame can overflow. */
  lemma WholeFrame(m: Machine, rest: seq<Byte>)
    requires InBounds(m) && InFrame(m)
    ensures |rest| <= Missing(m) ==> !Overflows(m, rest)
    ensures |rest| > Missing(m) > 0 ==>
              && PutAll(m, rest[..Missing(m)]).state == Idle
              && (Overflows(m, rest) <==> Overflows(PutAll(m, rest[..Missing(m)]), rest[Missing(m)..]))
  {
    hide Overflows, PutAll, InBounds;
    var n := Missing(m);
    if |rest| <= n {
      RestOfFrame(m, rest);
    } else if n > 0 {
      RestOfFrame(m, rest[..n]);
      assert rest == rest[..n] + rest[n..];
      OverflowsSplit(m, rest[..n], rest[n..]);
    }
  }

  /** So the buffers do not suffice: after any accepted length above 258 and 256 data bytes, the data
      buffer is full and the parser waits for more of them. */
  lemma LengthBeyondBuffer(ctx: Context, lo: Byte, hi: Byte, cmdClass: Byte, cmd: Byte, data: seq<Byte>, b: Byte)
    requires Value(lo) >= 2 && Declared(lo, hi) > DATA_MAX + 2 && |data| == DATA_MAX
    ensures var s := [HEADER, lo, hi, cmdClass, cmd] + data;
            var m := PutAll(Machine(Idle, ctx), s);
            && m.state == Data && |m.ctx.frame.data| == m.ctx.dataIndex == DATA_MAX < m.ctx.frame.dataLen
            && !Overflows(Machine(Idle, ctx), s) && Overflows(Machine(Idle, ctx), s + [b])
  {
    hide Overflows, PutByte, Declared;
    var idle := Machine(Idle, ctx);
    var head, tail := [HEADER, lo, hi], [cmdClass, cmd] + data;
    var m := PutAll(idle, head);
    StartOfFrame(ctx, lo, hi);
    assert [HEADER, lo, hi, cmdClass, cmd] + data == head + tail;
    assert [HEADER, lo, hi, cmdClass, cmd] + data + [b] == head + (tail + [b]);
    SplitDoesNotMatter(idle, head, tail);
    OverflowsSplit(idle, head, tail);
    OverflowsSplit(idle, head, tail + [b]);
    LongFrame(m, 0, tail);
    LongFrame(m, 0, tail + [b]);
  }

  /** The smallest such length is 259: AA 03 01, class, command and 257 data bytes. */
  lemma OverflowExample(ctx: Context, data: seq<Byte>)
    requires |data| == DATA_MAX + 1
    ensures Overflows(Machine(Idle, ctx), [HEADER, 3, 1, 0, 0] + data)
  {
    var init, b := data[..DATA_MAX], data[DATA_MAX];
    assert [HEADER, 3, 1, 0, 0] + data == [HEADER, 3, 1, 0, 0] + init + [b];
    LengthBeyondBuffer(ctx, 3, 1, 0, 0, init, b);
  }

  // ---- From any point of a stream ----

  /** No byte of the stream completes a declared length above 258. */
  predicate DeclaresSmall(m: Machine, bytes: seq<Byte>)
  {
    bytes == []
    || var last := |bytes| - 1;
       var before := PutAll(m, bytes[..last]);
       && DeclaresSmall(m, bytes[..last])
       && (before.state == Length2 ==> before.ctx.expectedLen + 256 * Value(bytes[last]) <= DATA_MAX + 2)
  }

  lemma StepInBounds(m: Machine, b: Byte)
    requires InBounds(m) && (m.state == Length2 ==> m.ctx.expectedLen + 256 * Value(b) <= DATA_MAX + 2)
    ensures InBounds(PutByte(m, b))
  {
    hide Crc16, CrcOf, Value;
  }

  /** Whatever the parser was in the middle of: without a length above 258 the buffers never overflow. */
  lemma {:induction false} SmallLengthsSuffice(m: Machine, bytes: seq<Byte>)
    requires InBounds(m) && DeclaresSmall(m, bytes)
    ensures var r := PutAll(m, bytes);
            && InBounds(r)
            && (r.state == CmdClass || r.state == Cmd || r.state == Data ==> |r.ctx.payload| < PAYLOAD_MAX)
            && (r.state == Data ==> |r.ctx.frame.data| < DATA_MAX)
  {
    if bytes == [] {
    } else {
      hide PutByte;
      var last := |bytes| - 1;
      SmallLengthsSuffice(m, bytes[..last]);
      StepInBounds(PutAll(m, bytes[..last]), bytes[last]);
    }
  }
}
