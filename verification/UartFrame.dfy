/** The frame builder: 0xAA, payload length (two bytes, low first), command class, command, data,
    CRC over class, command and data (low byte first), 0x55. */
module UartFrame {
  import opened Crc

  const HEADER: Byte := 0xAA
  const TAIL: Byte := 0x55
  const DATA_MAX: nat := 256
  const UINT16: nat := 0x1_0000

  /** The low and high byte of a 16-bit length. */
  function Low8(n: nat): Byte
  {
    (n % 256) as bv8
  }

  function High8(n: nat): Byte
  {
    (n / 256 % 256) as bv8
  }

  function CrcLow(crc: bv16): Byte
  {
    (crc & 0xFF) as bv8
  }

  function CrcHigh(crc: bv16): Byte
  {
    (crc >> 8) as bv8
  }

  /** The bytes in front of the data; the payload length is a uint16_t and wraps. */
  function Head(cmdClass: Byte, cmd: Byte, dataLen: nat): (s: seq<Byte>)
    ensures |s| == 5
  {
    [HEADER, Low8((2 + dataLen) % UINT16), High8((2 + dataLen) % UINT16), cmdClass, cmd]
  }

  function Trailer(crc: bv16): (s: seq<Byte>)
    ensures |s| == 3
  {
    [CrcLow(crc), CrcHigh(crc), TAIL]
  }

  /** What the CRC covers when the length field does not wrap: class, command and data. */
  function Payload(cmdClass: Byte, cmd: Byte, data: seq<Byte>): seq<Byte>
  {
    [cmdClass, cmd] + data
  }

  /** The frame whose length field says dataLen + 2 and whose CRC covers that much of `covered`. */
  function FrameOver(cmdClass: Byte, cmd: Byte, dataLen: nat, data: seq<Byte>, covered: seq<Byte>): seq<Byte>
    requires dataLen <= |covered|
  {
    Head(cmdClass, cmd, dataLen) + data + Trailer(Crc16(Payload(cmdClass, cmd, covered)[..(2 + dataLen) % UINT16]))
  }

  /** The frame for some data. */
  function FrameBytes(cmdClass: Byte, cmd: Byte, data: seq<Byte>): seq<Byte>
  {
    FrameOver(cmdClass, cmd, |data|, data, data)
  }

  /** A byte as a number. */
  function Value(b: Byte): (n: nat)
    ensures n < 256
  {
    b as int
  }

  lemma ByteValue(n: nat)
    requires n < 256
    ensures Value(n as bv8) == n
  {
    assert n % 256 == n;
  }

  /** A 16-bit length survives its two bytes. */
  lemma LengthValue(n: nat)
    requires n < UINT16
    ensures Value(Low8(n)) + 256 * Value(High8(n)) == n
    ensures Value(Low8(n)) == n % 256
  {
    ByteValue(n % 256);
    ByteValue(n / 256);
  }

  /** The CRC in its two bytes, low byte first. */
  function CrcOf(lo: Byte, hi: Byte): bv16
  {
    (lo as bv16) | ((hi as bv16) << 8)
  }

  /** A CRC survives its two bytes. */
  lemma CrcValue(crc: bv16)
    ensures CrcOf(CrcLow(crc), CrcHigh(crc)) == crc
  {
  }

  /** Byte by byte, for data whose length does not wrap: 0xAA, the number of bytes from the class through the
      data as low and high byte, class, command, data, the CRC of those as low and high byte, 0x55. */
  lemma Layout(cmdClass: Byte, cmd: Byte, data: seq<Byte>)
    requires 2 + |data| < UINT16
    ensures var f, n := FrameBytes(cmdClass, cmd, data), |data|;
            && |f| == n + 8 && f[0] == 0xAA && f[n + 7] == 0x55
            && Value(f[1]) + 256 * Value(f[2]) == 2 + n && f[3] == cmdClass && f[4] == cmd && f[5..5 + n] == data
            && (f[n + 5] as bv16) + ((f[n + 6] as bv16) << 8) == Crc16([cmdClass, cmd] + data)
  {
    hide Crc16, Low8, High8, CrcLow, CrcHigh, Value;
    var f, n := FrameBytes(cmdClass, cmd, data), |data|;
    var crc := Crc16(Payload(cmdClass, cmd, data)[..(2 + n) % UINT16]);
    assert Payload(cmdClass, cmd, data)[..(2 + n) % UINT16] == [cmdClass, cmd] + data;
    LengthValue(2 + n);
    CrcBytes(crc);
    assert f[n + 5..] == Trailer(crc) && f[5..5 + n] == data && f[..5] == Head(cmdClass, cmd, n);
    assert f[n + 5] == Trailer(crc)[0] && f[n + 6] == Trailer(crc)[1] && f[n + 7] == Trailer(crc)[2];
  }

  lemma CrcBytes(crc: bv16)
    ensures (CrcLow(crc) as bv16) + ((CrcHigh(crc) as bv16) << 8) == crc
  {
  }

  /** build_frame.  With a null `data` nothing is copied, but the declared length and the CRC still
      cover data_len bytes, namely whatever the buffer held. */
  method BuildFrame(buffer: array?<Byte>, cmdClass: Byte, cmd: Byte, data: array?<Byte>, dataLen: nat)
      returns (idx: nat)
    requires dataLen < UINT16
    requires buffer != null ==> buffer != data && buffer.Length >= 8 + dataLen
    requires data != null ==> dataLen <= data.Length
    modifies if buffer == null then {} else {buffer}
    ensures buffer == null ==> idx == 0
    ensures buffer != null ==>
              var copied := if data == null then [] else data[..dataLen];
              var bytes := FrameOver(cmdClass, cmd, dataLen, copied,
                                     if data == null then old(buffer[5..5 + dataLen]) else copied);
              idx == |bytes| && buffer[..idx] == bytes && buffer[idx..] == old(buffer[idx..])
  {
    hide Crc16, Low8, High8, CrcLow, CrcHigh, Trailer;
    if buffer == null {
      return 0;
    }
    var payloadLen := (2 + dataLen) % UINT16;
    WriteHead(buffer, cmdClass, cmd, dataLen);
    idx := 5;
    if data != null && dataLen > 0 {
      idx := CopyData(buffer, data, dataLen);
    }
    ghost var copied := if data == null then [] else data[..dataLen];
    ghost var filled := buffer[..];
    HeadAndData(old(buffer[..]), filled, Head(cmdClass, cmd, dataLen), copied, idx, dataLen);
    ChecksumSpan(filled, cmdClass, cmd, dataLen);
    var crc := ComputeCrc(buffer, 3, payloadLen);
    WriteTrailer(buffer, idx, crc);
    WithTrailer(old(buffer[..]), filled, buffer[..], Head(cmdClass, cmd, dataLen) + copied, Trailer(crc), idx);
    idx := idx + 3;
  }

  /** The buffer once head and data are in: their concatenation, and everything behind as before. */
  lemma HeadAndData(before: seq<Byte>, filled: seq<Byte>, head: seq<Byte>, copied: seq<Byte>, idx: nat, dataLen: nat)
    requires |head| == 5 && idx == 5 + |copied| && (copied == [] || |copied| == dataLen)
    requires |filled| == |before| >= 8 + dataLen
    requires filled[..5] == head && filled[5..idx] == copied && filled[idx..] == before[idx..]
    ensures filled[..idx] == head + copied
    ensures filled[5..5 + dataLen] == if copied == [] then before[5..5 + dataLen] else copied
  {
    assert filled[..idx] == filled[..5] + filled[5..idx];
    if copied == [] {
      assert filled[5..][..dataLen] == filled[5..5 + dataLen] && before[5..][..dataLen] == before[5..5 + dataLen];
    }
  }

  lemma WithTrailer(before: seq<Byte>, filled: seq<Byte>, after: seq<Byte>, front: seq<Byte>, trailer: seq<Byte>, idx: nat)
    requires |trailer| == 3 && |after| == |filled| == |before| >= idx + 3
    requires filled[..idx] == front && filled[idx..] == before[idx..]
    requires after[..idx] == filled[..idx] && after[idx..idx + 3] == trailer && after[idx + 3..] == filled[idx + 3..]
    ensures after[..idx + 3] == front + trailer && after[idx + 3..] == before[idx + 3..]
  {
    assert after[..idx + 3] == after[..idx] + after[idx..idx + 3];
    assert filled[idx..][3..] == filled[idx + 3..] && before[idx..][3..] == before[idx + 3..];
  }

  /** Where the CRC is computed the buffer holds class, command and what follows. */
  lemma ChecksumSpan(buf: seq<Byte>, cmdClass: Byte, cmd: Byte, dataLen: nat)
    requires |buf| >= 8 + dataLen && buf[..5] == Head(cmdClass, cmd, dataLen)
    ensures var n := (2 + dataLen) % UINT16;
            n <= 2 + dataLen && buf[3..3 + n] == Payload(cmdClass, cmd, buf[5..5 + dataLen])[..n]
  {
    hide Low8, High8;
    var n, span := (2 + dataLen) % UINT16, Payload(cmdClass, cmd, buf[5..5 + dataLen]);
    assert n <= 2 + dataLen;
    assert buf[3] == buf[..5][3] == cmdClass && buf[4] == buf[..5][4] == cmd;
    assert buf[3..5] == [cmdClass, cmd];
    assert buf[3..5 + dataLen] == buf[3..5] + buf[5..5 + dataLen] == span;
    assert buf[3..3 + n] == buf[3..5 + dataLen][..n];
  }

  method WriteHead(buffer: array<Byte>, cmdClass: Byte, cmd: Byte, dataLen: nat)
    requires buffer.Length >= 5
    modifies buffer
    ensures buffer[..5] == Head(cmdClass, cmd, dataLen) && buffer[5..] == old(buffer[5..])
  {
    var payloadLen := (2 + dataLen) % UINT16;
    var idx := 0;
    buffer[idx] := HEADER;
    buffer[idx + 1] := Low8(payloadLen);
    buffer[idx + 2] := High8(payloadLen);
    buffer[idx + 3] := cmdClass;
    buffer[idx + 4] := cmd;
  }

  method CopyData(buffer: array<Byte>, data: array<Byte>, dataLen: nat) returns (idx: nat)
    requires buffer != data && buffer.Length >= 5 + dataLen && dataLen <= data.Length
    modifies buffer
    ensures idx == 5 + dataLen && buffer[5..idx] == data[..dataLen]
    ensures buffer[..5] == old(buffer[..5]) && buffer[idx..] == old(buffer[idx..])
  {
    idx := 5;
    for i := 0 to dataLen
      invariant idx == 5 + i && buffer[5..idx] == data[..i]
      invariant buffer[..5] == old(buffer[..5]) && buffer[idx..] == old(buffer[idx..])
    {
      buffer[idx] := data[i];
      idx := idx + 1;
    }
  }

  method WriteTrailer(buffer: array<Byte>, idx: nat, crc: bv16)
    requires idx + 3 <= buffer.Length
    modifies buffer
    ensures buffer[..idx] == old(buffer[..idx]) && buffer[idx + 3..] == old(buffer[idx + 3..])
    ensures buffer[idx..idx + 3] == Trailer(crc)
  {
    buffer[idx] := CrcLow(crc);
    buffer[idx + 1] := CrcHigh(crc);
    buffer[idx + 2] := TAIL;
  }

  /** crc16 called with a pointer into the buffer. */
  method ComputeCrc(buffer: array<Byte>, from: nat, len: nat) returns (crc: bv16)
    requires from + len <= buffer.Length
    ensures crc == Crc16(buffer[from..from + len])
  {
    var part := new Byte[len](i requires 0 <= i < len reads buffer => buffer[from + i]);
    crc := ComputeCrc16(part, len);
    assert part[..len] == buffer[from..from + len];
  }
}
