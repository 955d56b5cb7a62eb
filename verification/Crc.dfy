/** CRC-16 with the generator x^16 + x^12 + x^5 + 1 and zero initial value: the table-driven loop
    computes the remainder of plain polynomial division, and no change confined to sixteen consecutive
    bits leaves it unchanged. */
module Crc {

  type Byte = bv8

  const GENERATOR: bv16 := 0x1021

  // ---- The table, one function for each row of sixteen entries ----

  function Row0(lo: bv8): bv16
  {
    if lo == 0 then 0x0000 else if lo == 1 then 0x1021 else if lo == 2 then 0x2042 else if lo == 3 then 0x3063 else
    if lo == 4 then 0x4084 else if lo == 5 then 0x50A5 else if lo == 6 then 0x60C6 else if lo == 7 then 0x70E7 else
    if lo == 8 then 0x8108 else if lo == 9 then 0x9129 else if lo == 10 then 0xA14A else if lo == 11 then 0xB16B else
    if lo == 12 then 0xC18C else if lo == 13 then 0xD1AD else if lo == 14 then 0xE1CE else 0xF1EF
  }

  function Row1(lo: bv8): bv16
  {
    if lo == 0 then 0x1231 else if lo == 1 then 0x0210 else if lo == 2 then 0x3273 else if lo == 3 then 0x2252 else
    if lo == 4 then 0x52B5 else if lo == 5 then 0x4294 else if lo == 6 then 0x72F7 else if lo == 7 then 0x62D6 else
    if lo == 8 then 0x9339 else if lo == 9 then 0x8318 else if lo == 10 then 0xB37B else if lo == 11 then 0xA35A else
    if lo == 12 then 0xD3BD else if lo == 13 then 0xC39C else if lo == 14 then 0xF3FF else 0xE3DE
  }

  function Row2(lo: bv8): bv16
  {
    if lo == 0 then 0x2462 else if lo == 1 then 0x3443 else if lo == 2 then 0x0420 else if lo == 3 then 0x1401 else
    if lo == 4 then 0x64E6 else if lo == 5 then 0x74C7 else if lo == 6 then 0x44A4 else if lo == 7 then 0x5485 else
    if lo == 8 then 0xA56A else if lo == 9 then 0xB54B else if lo == 10 then 0x8528 else if lo == 11 then 0x9509 else
    if lo == 12 then 0xE5EE else if lo == 13 then 0xF5CF else if lo == 14 then 0xC5AC else 0xD58D
  }

  function Row3(lo: bv8): bv16
  {
    if lo == 0 then 0x3653 else if lo == 1 then 0x2672 else if lo == 2 then 0x1611 else if lo == 3 then 0x0630 else
    if lo == 4 then 0x76D7 else if lo == 5 then 0x66F6 else if lo == 6 then 0x5695 else if lo == 7 then 0x46B4 else
    if lo == 8 then 0xB75B else if lo == 9 then 0xA77A else if lo == 10 then 0x9719 else if lo == 11 then 0x8738 else
    if lo == 12 then 0xF7DF else if lo == 13 then 0xE7FE else if lo == 14 then 0xD79D else 0xC7BC
  }

  function Row4(lo: bv8): bv16
  {
    if lo == 0 then 0x48C4 else if lo == 1 then 0x58E5 else if lo == 2 then 0x6886 else if lo == 3 then 0x78A7 else
    if lo == 4 then 0x0840 else if lo == 5 then 0x1861 else if lo == 6 then 0x2802 else if lo == 7 then 0x3823 else
    if lo == 8 then 0xC9CC else if lo == 9 then 0xD9ED else if lo == 10 then 0xE98E else if lo == 11 then 0xF9AF else
    if lo == 12 then 0x8948 else if lo == 13 then 0x9969 else if lo == 14 then 0xA90A else 0xB92B
  }

  function Row5(lo: bv8): bv16
  {
    if lo == 0 then 0x5AF5 else if lo == 1 then 0x4AD4 else if lo == 2 then 0x7AB7 else if lo == 3 then 0x6A96 else
    if lo == 4 then 0x1A71 else if lo == 5 then 0x0A50 else if lo == 6 then 0x3A33 else if lo == 7 then 0x2A12 else
    if lo == 8 then 0xDBFD else if lo == 9 then 0xCBDC else if lo == 10 then 0xFBBF else if lo == 11 then 0xEB9E else
    if lo == 12 then 0x9B79 else if lo == 13 then 0x8B58 else if lo == 14 then 0xBB3B else 0xAB1A
  }

  function Row6(lo: bv8): bv16
  {
    if lo == 0 then 0x6CA6 else if lo == 1 then 0x7C87 else if lo == 2 then 0x4CE4 else if lo == 3 then 0x5CC5 else
    if lo == 4 then 0x2C22 else if lo == 5 then 0x3C03 else if lo == 6 then 0x0C60 else if lo == 7 then 0x1C41 else
    if lo == 8 then 0xEDAE else if lo == 9 then 0xFD8F else if lo == 10 then 0xCDEC else if lo == 11 then 0xDDCD else
    if lo == 12 then 0xAD2A else if lo == 13 then 0xBD0B else if lo == 14 then 0x8D68 else 0x9D49
  }

  function Row7(lo: bv8): bv16
  {
    if lo == 0 then 0x7E97 else if lo == 1 then 0x6EB6 else if lo == 2 then 0x5ED5 else if lo == 3 then 0x4EF4 else
    if lo == 4 then 0x3E13 else if lo == 5 then 0x2E32 else if lo == 6 then 0x1E51 else if lo == 7 then 0x0E70 else
    if lo == 8 then 0xFF9F else if lo == 9 then 0xEFBE else if lo == 10 then 0xDFDD else if lo == 11 then 0xCFFC else
    if lo == 12 then 0xBF1B else if lo == 13 then 0xAF3A else if lo == 14 then 0x9F59 else 0x8F78
  }

  function Row8(lo: bv8): bv16
  {
    if lo == 0 then 0x9188 else if lo == 1 then 0x81A9 else if lo == 2 then 0xB1CA else if lo == 3 then 0xA1EB else
    if lo == 4 then 0xD10C else if lo == 5 then 0xC12D else if lo == 6 then 0xF14E else if lo == 7 then 0xE16F else
    if lo == 8 then 0x1080 else if lo == 9 then 0x00A1 else if lo == 10 then 0x30C2 else if lo == 11 then 0x20E3 else
    if lo == 12 then 0x5004 else if lo == 13 then 0x4025 else if lo == 14 then 0x7046 else 0x6067
  }

  function Row9(lo: bv8): bv16
  {
    if lo == 0 then 0x83B9 else if lo == 1 then 0x9398 else if lo == 2 then 0xA3FB else if lo == 3 then 0xB3DA else
    if lo == 4 then 0xC33D else if lo == 5 then 0xD31C else if lo == 6 then 0xE37F else if lo == 7 then 0xF35E else
    if lo == 8 then 0x02B1 else if lo == 9 then 0x1290 else if lo == 10 then 0x22F3 else if lo == 11 then 0x32D2 else
    if lo == 12 then 0x4235 else if lo == 13 then 0x5214 else if lo == 14 then 0x6277 else 0x7256
  }

  function RowA(lo: bv8): bv16
  {
    if lo == 0 then 0xB5EA else if lo == 1 then 0xA5CB else if lo == 2 then 0x95A8 else if lo == 3 then 0x8589 else
    if lo == 4 then 0xF56E else if lo == 5 then 0xE54F else if lo == 6 then 0xD52C else if lo == 7 then 0xC50D else
    if lo == 8 then 0x34E2 else if lo == 9 then 0x24C3 else if lo == 10 then 0x14A0 else if lo == 11 then 0x0481 else
    if lo == 12 then 0x7466 else if lo == 13 then 0x6447 else if lo == 14 then 0x5424 else 0x4405
  }

  function RowB(lo: bv8): bv16
  {
    if lo == 0 then 0xA7DB else if lo == 1 then 0xB7FA else if lo == 2 then 0x8799 else if lo == 3 then 0x97B8 else
    if lo == 4 then 0xE75F else if lo == 5 then 0xF77E else if lo == 6 then 0xC71D else if lo == 7 then 0xD73C else
    if lo == 8 then 0x26D3 else if lo == 9 then 0x36F2 else if lo == 10 then 0x0691 else if lo == 11 then 0x16B0 else
    if lo == 12 then 0x6657 else if lo == 13 then 0x7676 else if lo == 14 then 0x4615 else 0x5634
  }

  function RowC(lo: bv8): bv16
  {
    if lo == 0 then 0xD94C else if lo == 1 then 0xC96D else if lo == 2 then 0xF90E else if lo == 3 then 0xE92F else
    if lo == 4 then 0x99C8 else if lo == 5 then 0x89E9 else if lo == 6 then 0xB98A else if lo == 7 then 0xA9AB else
    if lo == 8 then 0x5844 else if lo == 9 then 0x4865 else if lo == 10 then 0x7806 else if lo == 11 then 0x6827 else
    if lo == 12 then 0x18C0 else if lo == 13 then 0x08E1 else if lo == 14 then 0x3882 else 0x28A3
  }

  function RowD(lo: bv8): bv16
  {
    if lo == 0 then 0xCB7D else if lo == 1 then 0xDB5C else if lo == 2 then 0xEB3F else if lo == 3 then 0xFB1E else
    if lo == 4 then 0x8BF9 else if lo == 5 then 0x9BD8 else if lo == 6 then 0xABBB else if lo == 7 then 0xBB9A else
    if lo == 8 then 0x4A75 else if lo == 9 then 0x5A54 else if lo == 10 then 0x6A37 else if lo == 11 then 0x7A16 else
    if lo == 12 then 0x0AF1 else if lo == 13 then 0x1AD0 else if lo == 14 then 0x2AB3 else 0x3A92
  }

  function RowE(lo: bv8): bv16
  {
    if lo == 0 then 0xFD2E else if lo == 1 then 0xED0F else if lo == 2 then 0xDD6C else if lo == 3 then 0xCD4D else
    if lo == 4 then 0xBDAA else if lo == 5 then 0xAD8B else if lo == 6 then 0x9DE8 else if lo == 7 then 0x8DC9 else
    if lo == 8 then 0x7C26 else if lo == 9 then 0x6C07 else if lo == 10 then 0x5C64 else if lo == 11 then 0x4C45 else
    if lo == 12 then 0x3CA2 else if lo == 13 then 0x2C83 else if lo == 14 then 0x1CE0 else 0x0CC1
  }

  function RowF(lo: bv8): bv16
  {
    if lo == 0 then 0xEF1F else if lo == 1 then 0xFF3E else if lo == 2 then 0xCF5D else if lo == 3 then 0xDF7C else
    if lo == 4 then 0xAF9B else if lo == 5 then 0xBFBA else if lo == 6 then 0x8FD9 else if lo == 7 then 0x9FF8 else
    if lo == 8 then 0x6E17 else if lo == 9 then 0x7E36 else if lo == 10 then 0x4E55 else if lo == 11 then 0x5E74 else
    if lo == 12 then 0x2E93 else if lo == 13 then 0x3EB2 else if lo == 14 then 0x0ED1 else 0x1EF0
  }

  /** kCrc16Table. */
  function Table(i: bv8): bv16
  {
    var hi, lo := i >> 4, i & 0xF;
    if hi == 0 then Row0(lo)
    else if hi == 1 then Row1(lo)
    else if hi == 2 then Row2(lo)
    else if hi == 3 then Row3(lo)
    else if hi == 4 then Row4(lo)
    else if hi == 5 then Row5(lo)
    else if hi == 6 then Row6(lo)
    else if hi == 7 then Row7(lo)
    else if hi == 8 then Row8(lo)
    else if hi == 9 then Row9(lo)
    else if hi == 10 then RowA(lo)
    else if hi == 11 then RowB(lo)
    else if hi == 12 then RowC(lo)
    else if hi == 13 then RowD(lo)
    else if hi == 14 then RowE(lo)
    else RowF(lo)
  }

  function Index(crc: bv16, d: Byte): bv8
  {
    ((crc >> 8) as bv8) ^ d
  }

  /** One round of the table-driven loop. */
  function Step(crc: bv16, d: Byte): bv16
  {
    (crc << 8) ^ Table(Index(crc, d))
  }

  function Crc16From(crc: bv16, data: seq<Byte>): bv16
  {
    if data == [] then crc else Step(Crc16From(crc, data[..|data| - 1]), data[|data| - 1])
  }

  /** The value crc16 returns. */
  function Crc16(data: seq<Byte>): bv16
  {
    Crc16From(0, data)
  }

  // ---- Bit by bit ----

  /** One shift of the register. */
  function Bit(c: bv16): bv16
  {
    if c & 0x8000 != 0 then (c << 1) ^ GENERATOR else c << 1
  }

  function Bits4(c: bv16): bv16
  {
    Bit(Bit(Bit(Bit(c))))
  }

  function Bits8(c: bv16): bv16
  {
    Bits4(Bits4(c))
  }

  lemma Row0IsBits(lo: bv8)
    requires lo <= 0xF
    ensures Row0(lo) == Bits8(((0x00 | lo) as bv16) << 8)
  {
  }

  lemma Row1IsBits(lo: bv8)
    requires lo <= 0xF
    ensures Row1(lo) == Bits8(((0x10 | lo) as bv16) << 8)
  {
  }

  lemma Row2IsBits(lo: bv8)
    requires lo <= 0xF
    ensures Row2(lo) == Bits8(((0x20 | lo) as bv16) << 8)
  {
  }

  lemma Row3IsBits(lo: bv8)
    requires lo <= 0xF
    ensures Row3(lo) == Bits8(((0x30 | lo) as bv16) << 8)
  {
  }

  lemma Row4IsBits(lo: bv8)
    requires lo <= 0xF
    ensures Row4(lo) == Bits8(((0x40 | lo) as bv16) << 8)
  {
  }

  lemma Row5IsBits(lo: bv8)
    requires lo <= 0xF
    ensures Row5(lo) == Bits8(((0x50 | lo) as bv16) << 8)
  {
  }

  lemma Row6IsBits(lo: bv8)
    requires lo <= 0xF
    ensures Row6(lo) == Bits8(((0x60 | lo) as bv16) << 8)
  {
  }

  lemma Row7IsBits(lo: bv8)
    requires lo <= 0xF
    ensures Row7(lo) == Bits8(((0x70 | lo) as bv16) << 8)
  {
  }

  lemma Row8IsBits(lo: bv8)
    requires lo <= 0xF
    ensures Row8(lo) == Bits8(((0x80 | lo) as bv16) << 8)
  {
  }

  lemma Row9IsBits(lo: bv8)
    requires lo <= 0xF
    ensures Row9(lo) == Bits8(((0x90 | lo) as bv16) << 8)
  {
  }

  lemma RowAIsBits(lo: bv8)
    requires lo <= 0xF
    ensures RowA(lo) == Bits8(((0xA0 | lo) as bv16) << 8)
  {
  }

  lemma RowBIsBits(lo: bv8)
    requires lo <= 0xF
    ensures RowB(lo) == Bits8(((0xB0 | lo) as bv16) << 8)
  {
  }

  lemma RowCIsBits(lo: bv8)
    requires lo <= 0xF
    ensures RowC(lo) == Bits8(((0xC0 | lo) as bv16) << 8)
  {
  }

  lemma RowDIsBits(lo: bv8)
    requires lo <= 0xF
    ensures RowD(lo) == Bits8(((0xD0 | lo) as bv16) << 8)
  {
  }

  lemma RowEIsBits(lo: bv8)
    requires lo <= 0xF
    ensures RowE(lo) == Bits8(((0xE0 | lo) as bv16) << 8)
  {
  }

  lemma RowFIsBits(lo: bv8)
    requires lo <= 0xF
    ensures RowF(lo) == Bits8(((0xF0 | lo) as bv16) << 8)
  {
  }

  /** The table holds the remainders of its indices times x^16. */
  lemma TableIsBits(i: bv8)
    ensures Table(i) == Bits8(Upper(i))
  {
    hide Row0, Row1, Row2, Row3, Row4, Row5, Row6, Row7, Row8, Row9, RowA, RowB, RowC, RowD, RowE, RowF, Bits8;
    var hi, lo := i >> 4, i & 0xF;
    assert lo <= 0xF && hi <= 0xF && i == (hi << 4) | lo;
    if hi == 0 { Row0IsBits(lo); assert i == 0x00 | lo; }
    if hi == 1 { Row1IsBits(lo); assert i == 0x10 | lo; }
    if hi == 2 { Row2IsBits(lo); assert i == 0x20 | lo; }
    if hi == 3 { Row3IsBits(lo); assert i == 0x30 | lo; }
    if hi == 4 { Row4IsBits(lo); assert i == 0x40 | lo; }
    if hi == 5 { Row5IsBits(lo); assert i == 0x50 | lo; }
    if hi == 6 { Row6IsBits(lo); assert i == 0x60 | lo; }
    if hi == 7 { Row7IsBits(lo); assert i == 0x70 | lo; }
    if hi == 8 { Row8IsBits(lo); assert i == 0x80 | lo; }
    if hi == 9 { Row9IsBits(lo); assert i == 0x90 | lo; }
    if hi == 10 { RowAIsBits(lo); assert i == 0xA0 | lo; }
    if hi == 11 { RowBIsBits(lo); assert i == 0xB0 | lo; }
    if hi == 12 { RowCIsBits(lo); assert i == 0xC0 | lo; }
    if hi == 13 { RowDIsBits(lo); assert i == 0xD0 | lo; }
    if hi == 14 { RowEIsBits(lo); assert i == 0xE0 | lo; }
    if hi == 15 { RowFIsBits(lo); assert i == 0xF0 | lo; }
  }

  // ---- Polynomials of degree below 16 over GF(2) ----

  /** The coefficients, b15 being that of x^15. */
  datatype Word = Word(b15: bool, b14: bool, b13: bool, b12: bool, b11: bool, b10: bool, b9: bool, b8: bool,
                       b7: bool, b6: bool, b5: bool, b4: bool, b3: bool, b2: bool, b1: bool, b0: bool)

  function Plus(a: Word, b: Word): Word
  {
    Word(a.b15 != b.b15, a.b14 != b.b14, a.b13 != b.b13, a.b12 != b.b12, a.b11 != b.b11, a.b10 != b.b10, a.b9 != b.b9, a.b8 != b.b8,
         a.b7 != b.b7, a.b6 != b.b6, a.b5 != b.b5, a.b4 != b.b4, a.b3 != b.b3, a.b2 != b.b2, a.b1 != b.b1, a.b0 != b.b0)
  }

  /** Multiply by x modulo the generator. */
  function Times(c: Word): Word
  {
    Word(c.b14, c.b13, c.b12, c.b11 != c.b15, c.b10, c.b9, c.b8, c.b7,
         c.b6, c.b5, c.b4 != c.b15, c.b3, c.b2, c.b1, c.b0, c.b15)
  }

  function Times2(c: Word): Word
  {
    Times(Times(c))
  }

  function Times4(c: Word): Word
  {
    Times2(Times2(c))
  }

  function Times8(c: Word): Word
  {
    Times4(Times4(c))
  }

  const ZERO := Word(false, false, false, false, false, false, false, false,
                     false, false, false, false, false, false, false, false)

  /** Is the bit with mask m set? */
  predicate Has(c: bv16, m: bv16)
  {
    c & m != 0
  }

  /** The polynomial in a register. */
  function Poly(c: bv16): Word
  {
    Word(Has(c, 0x8000), Has(c, 0x4000), Has(c, 0x2000), Has(c, 0x1000), Has(c, 0x800), Has(c, 0x400), Has(c, 0x200), Has(c, 0x100),
         Has(c, 0x80), Has(c, 0x40), Has(c, 0x20), Has(c, 0x10), Has(c, 0x8), Has(c, 0x4), Has(c, 0x2), Has(c, 0x1))
  }

  /** A byte as the coefficients of x^15 down to x^8. */
  function Top(d: Byte): Word
  {
    Word(d & 0x80 != 0, d & 0x40 != 0, d & 0x20 != 0, d & 0x10 != 0, d & 0x8 != 0, d & 0x4 != 0, d & 0x2 != 0, d & 0x1 != 0,
         false, false, false, false, false, false, false, false)
  }

  /** A byte as the coefficients of x^7 down to 1. */
  function Low(d: Byte): Word
  {
    Word(false, false, false, false, false, false, false, false,
         d & 0x80 != 0, d & 0x40 != 0, d & 0x20 != 0, d & 0x10 != 0, d & 0x8 != 0, d & 0x4 != 0, d & 0x2 != 0, d & 0x1 != 0)
  }

  /** The upper half of the coefficients. */
  function HighPart(c: Word): Word
  {
    Word(c.b15, c.b14, c.b13, c.b12, c.b11, c.b10, c.b9, c.b8,
         false, false, false, false, false, false, false, false)
  }

  function LowPart(c: Word): Word
  {
    Word(false, false, false, false, false, false, false, false,
         c.b7, c.b6, c.b5, c.b4, c.b3, c.b2, c.b1, c.b0)
  }

  /** Multiply by x^8 and drop what does not fit. */
  function Up8(c: Word): Word
  {
    Word(c.b7, c.b6, c.b5, c.b4, c.b3, c.b2, c.b1, c.b0,
         false, false, false, false, false, false, false, false)
  }

  lemma TimesLinear(a: Word, b: Word)
    ensures Times(Plus(a, b)) == Plus(Times(a), Times(b))
  {
  }

  lemma Times2Linear(a: Word, b: Word)
    ensures Times2(Plus(a, b)) == Plus(Times2(a), Times2(b))
  {
    TimesLinear(a, b);
    TimesLinear(Times(a), Times(b));
  }

  lemma Times4Linear(a: Word, b: Word)
    ensures Times4(Plus(a, b)) == Plus(Times4(a), Times4(b))
  {
    Times2Linear(a, b);
    Times2Linear(Times2(a), Times2(b));
  }

  lemma Times8Linear(a: Word, b: Word)
    ensures Times8(Plus(a, b)) == Plus(Times8(a), Times8(b))
  {
    Times4Linear(a, b);
    Times4Linear(Times4(a), Times4(b));
  }

  lemma PolyBit(c: bv16)
    ensures Poly(Bit(c)) == Times(Poly(c))
  {
  }

  lemma PolyBits8(c: bv16)
    ensures Poly(Bits8(c)) == Times8(Poly(c))
  {
    PolyBits4(c);
    PolyBits4(Bits4(c));
  }

  lemma PolyBits4(c: bv16)
    ensures Poly(Bits4(c)) == Times4(Poly(c))
  {
    PolyBit(c);
    PolyBit(Bit(c));
    PolyBit(Bit(Bit(c)));
    PolyBit(Bit(Bit(Bit(c))));
  }

  /** One bit of an exclusive or. */
  lemma BitPlus(a: bv16, b: bv16, m: bv16)
    requires m != 0 && m & (m - 1) == 0
    ensures Has(a ^ b, m) == (Has(a, m) != Has(b, m))
  {
    OneBit(a, m);
    OneBit(b, m);
    MaskDistributes(a, b, m);
  }

  lemma OneBit(a: bv16, m: bv16)
    requires m != 0 && m & (m - 1) == 0
    ensures a & m == 0 || a & m == m
  {
  }

  lemma MaskDistributes(a: bv16, b: bv16, m: bv16)
    ensures (a ^ b) & m == (a & m) ^ (b & m)
  {
  }

  lemma HighBitsPlus(a: bv16, b: bv16)
    ensures
      && Has(a ^ b, 0x8000) == (Has(a, 0x8000) != Has(b, 0x8000))
      && Has(a ^ b, 0x4000) == (Has(a, 0x4000) != Has(b, 0x4000))
      && Has(a ^ b, 0x2000) == (Has(a, 0x2000) != Has(b, 0x2000))
      && Has(a ^ b, 0x1000) == (Has(a, 0x1000) != Has(b, 0x1000))
      && Has(a ^ b, 0x800) == (Has(a, 0x800) != Has(b, 0x800))
      && Has(a ^ b, 0x400) == (Has(a, 0x400) != Has(b, 0x400))
      && Has(a ^ b, 0x200) == (Has(a, 0x200) != Has(b, 0x200))
      && Has(a ^ b, 0x100) == (Has(a, 0x100) != Has(b, 0x100))
  {
    BitPlus(a, b, 0x8000); BitPlus(a, b, 0x4000); BitPlus(a, b, 0x2000); BitPlus(a, b, 0x1000);
    BitPlus(a, b, 0x800); BitPlus(a, b, 0x400); BitPlus(a, b, 0x200); BitPlus(a, b, 0x100);
  }

  lemma LowBitsPlus(a: bv16, b: bv16)
    ensures
      && Has(a ^ b, 0x80) == (Has(a, 0x80) != Has(b, 0x80))
      && Has(a ^ b, 0x40) == (Has(a, 0x40) != Has(b, 0x40))
      && Has(a ^ b, 0x20) == (Has(a, 0x20) != Has(b, 0x20))
      && Has(a ^ b, 0x10) == (Has(a, 0x10) != Has(b, 0x10))
      && Has(a ^ b, 0x8) == (Has(a, 0x8) != Has(b, 0x8))
      && Has(a ^ b, 0x4) == (Has(a, 0x4) != Has(b, 0x4))
      && Has(a ^ b, 0x2) == (Has(a, 0x2) != Has(b, 0x2))
      && Has(a ^ b, 0x1) == (Has(a, 0x1) != Has(b, 0x1))
  {
    BitPlus(a, b, 0x80); BitPlus(a, b, 0x40); BitPlus(a, b, 0x20); BitPlus(a, b, 0x10);
    BitPlus(a, b, 0x8); BitPlus(a, b, 0x4); BitPlus(a, b, 0x2); BitPlus(a, b, 0x1);
  }

  function Xor(a: bv16, b: bv16): bv16
  {
    a ^ b
  }

  function XorByte(a: Byte, b: Byte): Byte
  {
    a ^ b
  }

  lemma PolyPlus(a: bv16, b: bv16)
    ensures Poly(Xor(a, b)) == Plus(Poly(a), Poly(b))
  {
    hide Has;
    HighBitsPlus(a, b);
    LowBitsPlus(a, b);
  }

  lemma PolyOfByte(d: Byte)
    ensures Poly(Upper(d)) == Top(d)
  {
  }

  lemma PolyUp8(c: bv16)
    ensures Poly(c << 8) == Up8(Poly(c))
    ensures Top((c >> 8) as bv8) == HighPart(Poly(c))
  {
  }

  /** A byte in the upper half of a register. */
  function Upper(d: Byte): bv16
  {
    (d as bv16) << 8
  }

  lemma UpperOfXor(a: Byte, b: Byte)
    ensures Upper(XorByte(a, b)) == Xor(Upper(a), Upper(b))
  {
  }

  lemma TopPlus(a: Byte, b: Byte)
    ensures Top(XorByte(a, b)) == Plus(Top(a), Top(b))
  {
    hide Poly, Top, Plus, Xor, XorByte, Upper;
    UpperOfXor(a, b);
    PolyOfByte(a);
    PolyOfByte(b);
    PolyOfByte(XorByte(a, b));
    PolyPlus(Upper(a), Upper(b));
  }

  lemma Times8OfLow(c: Word)
    ensures Times8(LowPart(c)) == Up8(c)
  {
  }

  lemma TopOfIndex(crc: bv16, d: Byte)
    ensures Top(Index(crc, d)) == Plus(HighPart(Poly(crc)), Top(d))
  {
    hide Poly, Top, Plus, HighPart;
    PolyUp8(crc);
    TopPlus((crc >> 8) as bv8, d);
    assert Index(crc, d) == XorByte((crc >> 8) as bv8, d);
  }

  lemma StepIsSum(crc: bv16, d: Byte)
    ensures Poly(Step(crc, d)) == Plus(Poly(crc << 8), Poly(Table(Index(crc, d))))
  {
    hide Table, Index, Poly, Plus;
    PolyPlus(crc << 8, Table(Index(crc, d)));
    assert Step(crc, d) == Xor(crc << 8, Table(Index(crc, d)));
  }

  /** One table round on polynomials: add the byte on top and multiply by x^8. */
  lemma StepIsTimes8(crc: bv16, d: Byte)
    ensures Poly(Step(crc, d)) == Times8(Plus(Poly(crc), Top(d)))
  {
    hide Step, Table, Index, Poly, Top, Plus, Times8, HighPart, Up8;
    StepIsSum(crc, d);
    PolyUp8(crc);
    TableIsTimes8(Index(crc, d));
    TopOfIndex(crc, d);
    SplitSum(Poly(crc), Top(d));
  }

  lemma TableIsTimes8(i: bv8)
    ensures Poly(Table(i)) == Times8(Top(i))
  {
    hide Table, Bits8, Poly, Top, Times8;
    TableIsBits(i);
    PolyBits8(Upper(i));
    PolyOfByte(i);
  }

  lemma PartsSum(c: Word, d: Word)
    ensures Plus(LowPart(c), Plus(HighPart(c), d)) == Plus(c, d)
  {
  }

  /** The low half only moves up, the high half meets the generator. */
  lemma SplitSum(c: Word, d: Word)
    ensures Plus(Up8(c), Times8(Plus(HighPart(c), d))) == Times8(Plus(c, d))
  {
    PartsSum(c, d);
    hide Plus, Times8, HighPart, LowPart, Up8;
    Times8OfLow(c);
    Times8Linear(LowPart(c), Plus(HighPart(c), d));
  }

  // ---- Plain polynomial division ----

  function Coefficient(bit: bool): Word
  {
    ZERO.(b0 := bit)
  }

  /** Long division, highest coefficient first: the next coefficient of the dividend is shifted into
      the remainder, and the generator subtracted if x^16 came out. */
  function Divide(r: Word, dividend: seq<bool>): Word
  {
    if dividend == [] then r
    else Plus(Times(Divide(r, dividend[..|dividend| - 1])), Coefficient(dividend[|dividend| - 1]))
  }

  /** The bits of a byte, most significant first. */
  function BitsOf(b: Byte): (s: seq<bool>)
    ensures |s| == 8
  {
    [b & 0x80 != 0, b & 0x40 != 0, b & 0x20 != 0, b & 0x10 != 0, b & 8 != 0, b & 4 != 0, b & 2 != 0, b & 1 != 0]
  }

  /** The message as a polynomial. */
  function Message(data: seq<Byte>): seq<bool>
  {
    if data == [] then [] else Message(data[..|data| - 1]) + BitsOf(data[|data| - 1])
  }

  /** Multiplication by x^16. */
  function Shifted(m: seq<bool>): seq<bool>
  {
    m + [false, false, false, false, false, false, false, false] + [false, false, false, false, false, false, false, false]
  }

  lemma {:induction false} DivideConcat(r: Word, s: seq<bool>, s': seq<bool>)
    ensures Divide(r, s + s') == Divide(Divide(r, s), s')
    decreases |s'|
  {
    if s' == [] {
      assert s + s' == s;
    } else {
      var last := |s'| - 1;
      hide Plus, Times, Coefficient;
      assert (s + s')[..|s| + last] == s + s'[..last];
      DivideConcat(r, s, s'[..last]);
    }
  }

  lemma DivideLast(r: Word, s: seq<bool>)
    requires s != []
    ensures Divide(r, s) == Plus(Times(Divide(r, s[..|s| - 1])), Coefficient(s[|s| - 1]))
  {
    hide Plus, Times, Coefficient;
  }

  lemma DivideOne(r: Word, bit: bool)
    ensures Divide(r, [bit]) == Plus(Times(r), Coefficient(bit))
  {
    assert [bit][..0] == [];
    assert Divide(r, []) == r;
  }

  function Two(p: bool, q: bool): Word
  {
    ZERO.(b1 := p, b0 := q)
  }

  function Four(p: bool, q: bool, s: bool, t: bool): Word
  {
    ZERO.(b3 := p, b2 := q, b1 := s, b0 := t)
  }

  lemma PlusAssociates(a: Word, b: Word, c: Word)
    ensures Plus(Plus(a, b), c) == Plus(a, Plus(b, c))
  {
  }

  /** Collecting the coefficients of a short polynomial. */
  lemma Collect(p: bool, q: bool, s: bool, t: bool)
    ensures Plus(Times(Coefficient(p)), Coefficient(q)) == Two(p, q)
    ensures Plus(Times2(Two(p, q)), Two(s, t)) == Four(p, q, s, t)
  {
  }

  lemma CollectByte(b: Byte)
    ensures var s := BitsOf(b); Plus(Times4(Four(s[0], s[1], s[2], s[3])), Four(s[4], s[5], s[6], s[7])) == Low(b)
  {
  }

  lemma DivideTwo(r: Word, p: bool, q: bool)
    ensures Divide(r, [p, q]) == Plus(Times2(r), Two(p, q))
  {
    hide Divide, Plus, Times, Two, Coefficient;
    assert [p, q] == [p] + [q];
    DivideConcat(r, [p], [q]);
    DivideOne(r, p);
    DivideOne(Divide(r, [p]), q);
    TimesLinear(Times(r), Coefficient(p));
    PlusAssociates(Times(Times(r)), Times(Coefficient(p)), Coefficient(q));
    Collect(p, q, p, q);
  }

  lemma DivideFour(r: Word, p: bool, q: bool, s: bool, t: bool)
    ensures Divide(r, [p, q, s, t]) == Plus(Times4(r), Four(p, q, s, t))
  {
    hide Divide, Plus, Times2, Two, Four;
    assert [p, q, s, t] == [p, q] + [s, t];
    DivideConcat(r, [p, q], [s, t]);
    DivideTwo(r, p, q);
    DivideTwo(Divide(r, [p, q]), s, t);
    Times2Linear(Times2(r), Two(p, q));
    PlusAssociates(Times2(Times2(r)), Times2(Two(p, q)), Two(s, t));
    Collect(p, q, s, t);
  }

  /** Dividing in a whole byte. */
  lemma DivideByte(r: Word, b: Byte)
    ensures Divide(r, BitsOf(b)) == Plus(Times8(r), Low(b))
  {
    hide Divide, Plus, Times4, Four, Low, BitsOf;
    var s := BitsOf(b);
    CollectByte(b);
    assert s == [s[0], s[1], s[2], s[3]] + [s[4], s[5], s[6], s[7]];
    DivideConcat(r, [s[0], s[1], s[2], s[3]], [s[4], s[5], s[6], s[7]]);
    DivideFour(r, s[0], s[1], s[2], s[3]);
    DivideFour(Divide(r, [s[0], s[1], s[2], s[3]]), s[4], s[5], s[6], s[7]);
    Times4Linear(Times4(r), Four(s[0], s[1], s[2], s[3]));
    PlusAssociates(Times4(Times4(r)), Times4(Four(s[0], s[1], s[2], s[3])), Four(s[4], s[5], s[6], s[7]));
  }

  lemma PlusZero(c: Word)
    ensures Low(0) == ZERO && Plus(c, ZERO) == c
  {
  }

  lemma DivideZeros(r: Word)
    ensures Divide(r, [false, false, false, false, false, false, false, false]) == Times8(r)
  {
    assert BitsOf(0) == [false, false, false, false, false, false, false, false];
    hide Divide, Times8, Plus, Low, BitsOf;
    DivideByte(r, 0);
    PlusZero(Times8(r));
  }

  lemma LowMovesUp(b: Byte)
    ensures Times8(Low(b)) == Top(b)
  {
    Times8OfLow(Low(b));
    assert LowPart(Low(b)) == Low(b);
  }

  lemma {:induction false} CrcIsShiftedRemainder(data: seq<Byte>)
    ensures Poly(Crc16(data)) == Times8(Times8(Divide(ZERO, Message(data))))
  {
    if data == [] {
      assert Poly(0) == ZERO && Times8(ZERO) == ZERO;
    } else {
      hide Divide, Times8, Plus, Low, Top, Poly, Step, BitsOf;
      var init, b := data[..|data| - 1], data[|data| - 1];
      var r := Divide(ZERO, Message(init));
      CrcIsShiftedRemainder(init);
      StepIsTimes8(Crc16(init), b);
      DivideConcat(ZERO, Message(init), BitsOf(b));
      DivideByte(r, b);
      Times8Linear(Times8(r), Low(b));
      LowMovesUp(b);
    }
  }

  /** The table-driven CRC is the remainder of the message times x^16 divided by the generator, for
      messages of any length. */
  lemma CrcIsRemainder(data: seq<Byte>)
    ensures Poly(Crc16(data)) == Divide(ZERO, Shifted(Message(data)))
  {
    hide Divide, Times8, Poly, Crc16;
    var z := [false, false, false, false, false, false, false, false];
    var m := Message(data);
    DivideConcat(ZERO, m, z);
    DivideConcat(ZERO, m + z, z);
    DivideZeros(Divide(ZERO, m));
    DivideZeros(Times8(Divide(ZERO, m)));
    CrcIsShiftedRemainder(data);
  }

  // ---- What the CRC tells apart ----

  lemma TimesInjective(a: Word, b: Word)
    requires Times(a) == Times(b)
    ensures a == b
  {
  }

  lemma Times8Injective(a: Word, b: Word)
    requires Times8(a) == Times8(b)
    ensures a == b
  {
    hide Times4;
    Times4Injective(Times4(a), Times4(b));
    Times4Injective(a, b);
  }

  lemma Times4Injective(a: Word, b: Word)
    requires Times4(a) == Times4(b)
    ensures a == b
  {
    hide Times;
    TimesInjective(Times(Times(Times(a))), Times(Times(Times(b))));
    TimesInjective(Times(Times(a)), Times(Times(b)));
    TimesInjective(Times(a), Times(b));
    TimesInjective(a, b);
  }

  lemma HighHalfDetermined(a: bv16, b: bv16)
    requires Poly(a) == Poly(b)
    ensures a & 0xFF00 == b & 0xFF00
  {
  }

  lemma LowHalfDetermined(a: bv16, b: bv16)
    requires Poly(a) == Poly(b)
    ensures a & 0xFF == b & 0xFF
  {
  }

  lemma PolyInjective(a: bv16, b: bv16)
    requires Poly(a) == Poly(b)
    ensures a == b
  {
    HighHalfDetermined(a, b);
    LowHalfDetermined(a, b);
    hide Poly;
    assert a == (a & 0xFF00) | (a & 0xFF) && b == (b & 0xFF00) | (b & 0xFF);
  }

  lemma TopInjective(a: Byte, b: Byte)
    requires Top(a) == Top(b)
    ensures a == b
  {
  }

  lemma PlusCancels(a: Word, b: Word, c: Word)
    requires Plus(a, c) == Plus(b, c)
    ensures a == b
  {
  }

  /** Different registers stay different whatever byte follows. */
  lemma StepInjective(c: bv16, c': bv16, d: Byte)
    requires Step(c, d) == Step(c', d)
    ensures c == c'
  {
    hide Step, Poly, Top, Times8, Plus;
    StepIsTimes8(c, d);
    StepIsTimes8(c', d);
    Times8Injective(Plus(Poly(c), Top(d)), Plus(Poly(c'), Top(d)));
    PlusCancels(Poly(c), Poly(c'), Top(d));
    PolyInjective(c, c');
  }

  lemma {:induction false} SuffixInjective(c: bv16, c': bv16, data: seq<Byte>)
    requires Crc16From(c, data) == Crc16From(c', data)
    ensures c == c'
  {
    if data == [] {
    } else {
      hide Step;
      var init, d := data[..|data| - 1], data[|data| - 1];
      StepInjective(Crc16From(c, init), Crc16From(c', init), d);
      SuffixInjective(c, c', init);
    }
  }

  /** The low halves of the table's entries, as polynomials, determine the index. */
  lemma LowHalfDeterminesIndex(a: Byte, b: Byte)
    requires LowPart(Times8(Top(a))) == LowPart(Times8(Top(b)))
    ensures a == b
  {
    hide Top;
    TopIsHigh(a);
    TopIsHigh(b);
    SameLowHalf(Top(a), Top(b));
    TopInjective(a, b);
  }

  lemma TopIsHigh(a: Byte)
    ensures HighPart(Top(a)) == Top(a)
  {
  }

  /** The low half of eight shifts of a high half, written out. */
  function Folded(u: Word): Word
  {
    Word(false, false, false, false, false, false, false, false,
         (u.b15) != (u.b10 != u.b14),
         (u.b14) != (u.b9 != u.b13),
         (u.b13) != (u.b8 != u.b12),
         u.b12,
         u.b11 != u.b15,
         u.b10 != u.b14,
         u.b9 != u.b13,
         u.b8 != u.b12)
  }

  /** Four shifts of a high half. */
  lemma Times4OfHigh(u: Word)
    requires HighPart(u) == u
    ensures Times4(u) == Word(u.b11 != u.b15, u.b10 != u.b14, u.b9 != u.b13, u.b8 != u.b12, false, false, false, u.b15,
                              u.b14, u.b13, u.b12, false, u.b15, u.b14, u.b13, u.b12)
  {
  }

  lemma LowHalfOfTimes4(v: Word)
    ensures LowPart(Times4(v)) == Word(false, false, false, false, false, false, false, false,
                                       v.b3 != v.b14, v.b2 != v.b13, v.b1 != v.b12, v.b0, v.b15, v.b14, v.b13, v.b12)
  {
  }

  lemma LowHalfIsFolded(u: Word)
    requires HighPart(u) == u
    ensures LowPart(Times8(u)) == Folded(u)
  {
    hide Times4, LowPart, HighPart;
    Times4OfHigh(u);
    LowHalfOfTimes4(Times4(u));
  }

  lemma SameLowHalf(u: Word, v: Word)
    requires HighPart(u) == u && HighPart(v) == v && LowPart(Times8(u)) == LowPart(Times8(v))
    ensures u == v
  {
    hide Times8;
    LowHalfIsFolded(u);
    LowHalfIsFolded(v);
  }

  /** The low bytes of the table are a permutation of the bytes. */
  lemma LowBytesPermute(a: Byte, b: Byte)
    requires Table(a) & 0xFF == Table(b) & 0xFF
    ensures a == b
  {
    hide Table, Times8, Top;
    TableIsTimes8(a);
    TableIsTimes8(b);
    SameLowByte(Table(a), Table(b));
    LowHalfDeterminesIndex(a, b);
  }

  lemma SameLowByte(x: bv16, y: bv16)
    requires x & 0xFF == y & 0xFF
    ensures LowPart(Poly(x)) == LowPart(Poly(y))
  {
    LowByteMask(x);
    LowByteMask(y);
  }

  lemma LowByteMask(x: bv16)
    ensures LowPart(Poly(x)) == Poly(x & 0xFF)
  {
  }

  /** From the same register, two bytes are determined by the register after them. */
  lemma TwoStepsInjective(c: bv16, a: Byte, b: Byte, a': Byte, b': Byte)
    requires Step(Step(c, a), b) == Step(Step(c, a'), b')
    ensures a == a' && b == b'
  {
    hide Step, Poly, Top, Times8, Plus, LowPart;
    StepIsTimes8(c, a);
    StepIsTimes8(c, a');
    var u, u' := Poly(Step(c, a)), Poly(Step(c, a'));
    StepIsTimes8(Step(c, a), b);
    StepIsTimes8(Step(c, a'), b');
    Times8Injective(Plus(u, Top(b)), Plus(u', Top(b')));
    LowUntouched(u, b);
    LowUntouched(u', b');
    SameIndex(Poly(c), a, a');
    assert Plus(u, Top(b)) == Plus(u, Top(b'));
    PlusCommutes(u, Top(b));
    PlusCommutes(u, Top(b'));
    PlusCancels(Top(b), Top(b'), u);
    TopInjective(b, b');
  }

  lemma PlusCommutes(a: Word, b: Word)
    ensures Plus(a, b) == Plus(b, a)
  {
  }

  lemma LowUntouched(u: Word, b: Byte)
    ensures LowPart(Plus(u, Top(b))) == LowPart(u)
  {
  }

  lemma SameIndex(c: Word, a: Byte, a': Byte)
    requires LowPart(Times8(Plus(c, Top(a)))) == LowPart(Times8(Plus(c, Top(a'))))
    ensures a == a'
  {
    hide Top, Times8;
    Times8Linear(c, Top(a));
    Times8Linear(c, Top(a'));
    LowPartCancels(Times8(c), Times8(Top(a)), Times8(Top(a')));
    LowHalfDeterminesIndex(a, a');
  }

  lemma LowPartCancels(c: Word, x: Word, y: Word)
    requires LowPart(Plus(c, x)) == LowPart(Plus(c, y))
    ensures LowPart(x) == LowPart(y)
  {
  }

  lemma {:induction false} Crc16Splits(c: bv16, s: seq<Byte>, s': seq<Byte>)
    ensures Crc16From(c, s + s') == Crc16From(Crc16From(c, s), s')
    decreases |s'|
  {
    hide Step;
    if s' == [] {
      assert s + s' == s;
    } else {
      var last := |s'| - 1;
      assert (s + s')[..|s| + last] == s + s'[..last];
      Crc16Splits(c, s, s'[..last]);
    }
  }

  lemma Crc16OfTwo(c: bv16, a: Byte, b: Byte)
    ensures Crc16From(c, [a, b]) == Step(Step(c, a), b)
  {
    hide Step;
    assert [a, b][..1] == [a] && [a][..0] == [];
    assert Crc16From(c, []) == c;
  }

  /** Messages that differ, but only within two adjacent bytes, have different CRCs. */
  lemma BurstDetected(m: seq<Byte>, m': seq<Byte>, i: nat)
    requires |m| == |m'| && m != m' && i + 1 < |m|
    requires forall k :: 0 <= k < |m| && k != i && k != i + 1 ==> m[k] == m'[k]
    ensures Crc16(m) != Crc16(m')
  {
    hide Step;
    var p, s := m[..i], m[i + 2..];
    assert m' == p + [m'[i], m'[i + 1]] + s && m == p + [m[i], m[i + 1]] + s;
    var c := Crc16From(0, p);
    Crc16Splits(0, p + [m[i], m[i + 1]], s);
    Crc16Splits(0, p, [m[i], m[i + 1]]);
    Crc16Splits(0, p + [m'[i], m'[i + 1]], s);
    Crc16Splits(0, p, [m'[i], m'[i + 1]]);
    Crc16OfTwo(c, m[i], m[i + 1]);
    Crc16OfTwo(c, m'[i], m'[i + 1]);
    if Crc16(m) == Crc16(m') {
      SuffixInjective(Crc16From(0, p + [m[i], m[i + 1]]), Crc16From(0, p + [m'[i], m'[i + 1]]), s);
      TwoStepsInjective(c, m[i], m[i + 1], m'[i], m'[i + 1]);
      assert false;
    }
  }

  // ---- Bursts that need not start at a byte ----

  /** From different remainders the same continuation leads to different remainders. */
  lemma {:induction false} DivideInjective(r: Word, r': Word, t: seq<bool>)
    requires Divide(r, t) == Divide(r', t)
    ensures r == r'
  {
    if t == [] {
    } else {
      hide Plus, Times, Coefficient;
      var init, b := t[..|t| - 1], t[|t| - 1];
      PlusCancels(Times(Divide(r, init)), Times(Divide(r', init)), Coefficient(b));
      TimesInjective(Divide(r, init), Divide(r', init));
      DivideInjective(r, r', init);
    }
  }

  /** The sum of two dividends of equal length. */
  function SumOf(s: seq<bool>, s': seq<bool>): (e: seq<bool>)
    requires |s| == |s'|
    ensures |e| == |s| && forall k :: 0 <= k < |s| ==> e[k] == (s[k] != s'[k])
  {
    if s == [] then [] else SumOf(s[..|s| - 1], s'[..|s| - 1]) + [s[|s| - 1] != s'[|s| - 1]]
  }

  lemma CoefficientPlus(b: bool, b': bool)
    ensures Plus(Coefficient(b), Coefficient(b')) == Coefficient(b != b')
  {
  }

  lemma PlusSwaps(a: Word, b: Word, c: Word, d: Word)
    ensures Plus(Plus(a, b), Plus(c, d)) == Plus(Plus(a, c), Plus(b, d))
  {
  }

  /** Division is linear in remainder and dividend together. */
  lemma {:induction false} DivideLinear(r: Word, s: seq<bool>, r': Word, s': seq<bool>)
    requires |s| == |s'|
    ensures Divide(Plus(r, r'), SumOf(s, s')) == Plus(Divide(r, s), Divide(r', s'))
  {
    if s == [] {
    } else {
      hide Plus, Times, Coefficient;
      var n := |s| - 1;
      var a, a' := Divide(r, s[..n]), Divide(r', s'[..n]);
      assert SumOf(s, s')[..n] == SumOf(s[..n], s'[..n]);
      DivideLinear(r, s[..n], r', s'[..n]);
      TimesLinear(a, a');
      CoefficientPlus(s[n], s'[n]);
      PlusSwaps(Times(a), Coefficient(s[n]), Times(a'), Coefficient(s'[n]));
    }
  }

  /** A polynomial of degree below n. */
  predicate Below(w: Word, n: nat)
  {
    && (n <= 15 ==> !w.b15) && (n <= 14 ==> !w.b14) && (n <= 13 ==> !w.b13) && (n <= 12 ==> !w.b12)
    && (n <= 11 ==> !w.b11) && (n <= 10 ==> !w.b10) && (n <= 9 ==> !w.b9) && (n <= 8 ==> !w.b8)
    && (n <= 7 ==> !w.b7) && (n <= 6 ==> !w.b6) && (n <= 5 ==> !w.b5) && (n <= 4 ==> !w.b4)
    && (n <= 3 ==> !w.b3) && (n <= 2 ==> !w.b2) && (n <= 1 ==> !w.b1) && (n <= 0 ==> !w.b0)
  }

  /** While nothing has come out at the top, bringing in a coefficient loses nothing. */
  lemma ShiftIn(w: Word, n: nat, b: bool)
    requires Below(w, n) && n <= 15
    ensures Below(Plus(Times(w), Coefficient(b)), n + 1)
    ensures Plus(Times(w), Coefficient(b)) == ZERO ==> w == ZERO && !b
  {
  }

  lemma NothingDivided()
    ensures Divide(ZERO, []) == ZERO && Below(ZERO, 0)
  {
  }

  /** So a dividend of at most sixteen coefficients leaves no remainder only if it is zero. */
  lemma {:induction false} ShortDividend(e: seq<bool>)
    requires |e| <= 16
    ensures Below(Divide(ZERO, e), |e|)
    ensures Divide(ZERO, e) == ZERO ==> forall k :: 0 <= k < |e| ==> !e[k]
  {
    hide Divide, Plus, Times, Coefficient, Below;
    if e == [] {
      NothingDivided();
    } else {
      var init := e[..|e| - 1];
      ShortDividend(init);
      DivideLast(ZERO, e);
      ShiftIn(Divide(ZERO, init), |init|, e[|e| - 1]);
      assert e == init + [e[|e| - 1]];
    }
  }

  lemma PlusSelf(a: Word)
    ensures Plus(a, a) == ZERO
  {
  }

  /** At most sixteen coefficients are determined by what the division makes of them. */
  lemma ShortDetermined(r: Word, s: seq<bool>, s': seq<bool>)
    requires |s| == |s'| <= 16 && Divide(r, s) == Divide(r, s')
    ensures s == s'
  {
    hide Plus, Divide;
    DivideLinear(r, s, r, s');
    PlusSelf(r);
    PlusSelf(Divide(r, s));
    ShortDividend(SumOf(s, s'));
    forall k | 0 <= k < |s|
      ensures s[k] == s'[k]
    {
      assert !SumOf(s, s')[k];
    }
  }

  /** Dividends with the same remainder that agree outside sixteen consecutive coefficients are the same. */
  lemma BurstDetermined(s: seq<bool>, s': seq<bool>, j: nat)
    requires |s| == |s'| && Divide(ZERO, s) == Divide(ZERO, s')
    requires forall k :: 0 <= k < |s| && !(j <= k < j + 16) ==> s[k] == s'[k]
    ensures s == s'
  {
    hide Divide;
    if j <= |s| {
      var e := if j + 16 <= |s| then j + 16 else |s|;
      assert s'[..j] == s[..j];
      assert s'[e..] == s[e..];
      CutInThree(s, j, e);
      CutInThree(s', j, e);
      MiddleDetermined(s[..j], s[j..e], s'[j..e], s[e..]);
    }
  }

  lemma CutInThree(s: seq<bool>, j: nat, e: nat)
    requires j <= e <= |s|
    ensures s == s[..j] + s[j..e] + s[e..]
  {
  }

  lemma MiddleDetermined(p: seq<bool>, a: seq<bool>, a': seq<bool>, t: seq<bool>)
    requires |a| == |a'| <= 16 && Divide(ZERO, p + a + t) == Divide(ZERO, p + a' + t)
    ensures a == a'
  {
    hide Divide;
    DivideConcat(ZERO, p + a, t);
    DivideConcat(ZERO, p + a', t);
    DivideInjective(Divide(ZERO, p + a), Divide(ZERO, p + a'), t);
    DivideConcat(ZERO, p, a);
    DivideConcat(ZERO, p, a');
    ShortDetermined(Divide(ZERO, p), a, a');
  }

  lemma {:induction false} MessageLength(m: seq<Byte>)
    ensures |Message(m)| == 8 * |m|
  {
    if m == [] {
    } else {
      MessageLength(m[..|m| - 1]);
    }
  }

  lemma BitsInjective(a: Byte, b: Byte)
    requires BitsOf(a) == BitsOf(b)
    ensures a == b
  {
    var s, t := BitsOf(a), BitsOf(b);
    assert s[0] == t[0] && s[1] == t[1] && s[2] == t[2] && s[3] == t[3];
    assert s[4] == t[4] && s[5] == t[5] && s[6] == t[6] && s[7] == t[7];
    assert Low(a) == Low(b);
    LowMovesUp(a);
    LowMovesUp(b);
    TopInjective(a, b);
  }

  lemma {:induction false} MessageInjective(m: seq<Byte>, m': seq<Byte>)
    requires |m| == |m'| && Message(m) == Message(m')
    ensures m == m'
  {
    if m == [] {
    } else {
      hide BitsOf;
      var n := |m| - 1;
      MessageLength(m[..n]);
      MessageLength(m'[..n]);
      assert Message(m[..n]) == Message(m)[..8 * n] && Message(m'[..n]) == Message(m')[..8 * n];
      assert BitsOf(m[n]) == Message(m)[8 * n..] && BitsOf(m'[n]) == Message(m')[8 * n..];
      MessageInjective(m[..n], m'[..n]);
      BitsInjective(m[n], m'[n]);
      assert m == m[..n] + [m[n]] && m' == m'[..n] + [m'[n]];
    }
  }

  /** Messages that differ, but only within sixteen consecutive bits, have different CRCs: wherever the
      bits lie, over two bytes or three. */
  lemma BitBurstDetected(m: seq<Byte>, m': seq<Byte>, j: nat)
    requires |m| == |m'| && m != m'
    requires forall k :: 0 <= k < |Message(m)| && k < |Message(m')| && !(j <= k < j + 16) ==>
               Message(m)[k] == Message(m')[k]
    ensures Crc16(m) != Crc16(m')
  {
    hide Divide, Poly, Crc16, Message;
    MessageLength(m);
    MessageLength(m');
    CrcIsRemainder(m);
    CrcIsRemainder(m');
    if Crc16(m) == Crc16(m') {
      BurstDetermined(Shifted(Message(m)), Shifted(Message(m')), j);
      assert Message(m) == Shifted(Message(m))[..8 * |m|] == Message(m');
      MessageInjective(m, m');
      assert false;
    }
  }

  // ---- How a change of the last byte shows ----

  lemma TableOfXor(a: Byte, b: Byte)
    ensures Table(XorByte(a, b)) == Xor(Table(a), Table(b))
  {
    hide Table, Poly, Top, Times8, Plus, Xor, XorByte;
    TableIsTimes8(a);
    TableIsTimes8(b);
    TableIsTimes8(XorByte(a, b));
    TopPlus(a, b);
    Times8Linear(Top(a), Top(b));
    PolyPlus(Table(a), Table(b));
    PolyInjective(Table(XorByte(a, b)), Xor(Table(a), Table(b)));
  }

  lemma IndexDifference(c: bv16, x: Byte, x': Byte)
    ensures Index(c, x') == XorByte(Index(c, x), XorByte(x, x'))
  {
    var h := (c >> 8) as bv8;
    assert (h ^ x) ^ (x ^ x') == h ^ x';
  }

  lemma XorAssociates(a: bv16, b: bv16, c: bv16)
    ensures Xor(Xor(a, b), c) == Xor(a, Xor(b, c))
  {
  }

  lemma StepIsXor(c: bv16, x: Byte)
    ensures Step(c, x) == Xor(c << 8, Table(Index(c, x)))
  {
    hide Table, Index;
  }

  lemma StepDifference(c: bv16, x: Byte, x': Byte)
    ensures Step(c, x') == Xor(Step(c, x), Table(XorByte(x, x')))
  {
    hide Table, Index, Step, Xor, XorByte;
    StepIsXor(c, x);
    StepIsXor(c, x');
    IndexDifference(c, x, x');
    TableOfXor(Index(c, x), XorByte(x, x'));
    XorAssociates(c << 8, Table(Index(c, x)), Table(XorByte(x, x')));
  }

  /** Changing the last byte of a message changes its CRC by the table entry of the difference. */
  lemma LastByteDifference(p: seq<Byte>, x: Byte, x': Byte)
    ensures Crc16(p + [x']) == Xor(Crc16(p + [x]), Table(XorByte(x, x')))
  {
    hide Table, Step, Xor, XorByte;
    assert (p + [x])[..|p|] == p && (p + [x'])[..|p|] == p;
    StepDifference(Crc16(p), x, x');
  }

  /** Only two entries of the table fit in a byte. */
  lemma ByteEntries(i: Byte, k: Byte)
    ensures Table(i) == k as bv16 <==> (i == 0 && k == 0) || (i == 0x89 && k == 0xA1)
  {
    hide Table, Bits8;
    TableIsBits(i);
    ByteAfterBits8(i, k);
  }

  lemma ByteAfterBits8(i: Byte, k: Byte)
    ensures Bits8(Upper(i)) == k as bv16 <==> (i == 0 && k == 0) || (i == 0x89 && k == 0xA1)
  {
  }

  // ---- The loop ----

  lemma NoBytes()
    ensures Crc16([]) == 0
  {
  }

  lemma NextByte(s: seq<Byte>, b: Byte)
    ensures Crc16(s + [b]) == Step(Crc16(s), b)
  {
    hide Step;
    assert (s + [b])[..|s|] == s;
  }

  /** crc16: a null pointer has CRC 0 whatever the length. */
  method ComputeCrc16(data: array?<Byte>, len: nat) returns (crc: bv16)
    requires data != null ==> len <= data.Length
    ensures crc == if data == null then 0 else Crc16(data[..len])
  {
    hide Step, Crc16;
    crc := 0;
    if data != null {
      NoBytes();
      for i := 0 to len
        invariant crc == Crc16(data[..i])
      {
        assert data[..i + 1] == data[..i] + [data[i]];
        NextByte(data[..i], data[i]);
        crc := Step(crc, data[i]);
      }
    }
  }
}
