/** The select backend: two growing vectors of words that hold one bit per fd, and the scan of the
    words that select returns. */
module SelectBackend {
  import opened Masks

  /** NFDBITS */
  const BITS: nat := 64

  /** An fd_mask. */
  type Word = bv64

  type Vector = seq<Word>

  /** 1UL << bit */
  function MaskOf(bit: nat): Word
  {
    if bit == 0 then 1 else MaskOf(bit - 1) << 1
  }

  function BitAnd(a: Word, b: Word): Word
  {
    a & b
  }

  function BitOr(a: Word, b: Word): Word
  {
    a | b
  }

  function BitNot(a: Word): Word
  {
    !a
  }

  // ---- The masks of the bits ----

  lemma ShiftedApart(m: Word, m': Word)
    requires BitAnd(m, m') == 0
    ensures BitAnd(m << 1, m' << 1) == 0
  {
  }

  lemma LowestApart(m: Word)
    ensures BitAnd(1, m << 1) == 0
  {
  }

  lemma AndCommutes(m: Word, m': Word)
    ensures BitAnd(m, m') == BitAnd(m', m)
  {
  }

  /** Different bits have disjoint masks. */
  lemma {:induction false} MasksApart(i: nat, j: nat)
    requires i < j
    ensures BitAnd(MaskOf(i), MaskOf(j)) == 0
  {
    hide BitAnd;
    if i == 0 {
      LowestApart(MaskOf(j - 1));
    } else {
      MasksApart(i - 1, j - 1);
      ShiftedApart(MaskOf(i - 1), MaskOf(j - 1));
    }
  }

  lemma EightUp(bit: nat)
    ensures MaskOf(bit + 8) == MaskOf(bit) << 8
  {
    hide MaskOf;
    FourUp(bit);
    FourUp(bit + 4);
    TwoShiftsOfFour(MaskOf(bit));
  }

  lemma OneUp(bit: nat)
    ensures MaskOf(bit + 1) == MaskOf(bit) << 1
  {
  }

  lemma FourShifts(m: Word)
    ensures (((m << 1) << 1) << 1) << 1 == m << 4
  {
  }

  lemma TwoShiftsOfFour(m: Word)
    ensures (m << 4) << 4 == m << 8
  {
  }

  lemma FourUp(bit: nat)
    ensures MaskOf(bit + 4) == MaskOf(bit) << 4
  {
    hide MaskOf;
    OneUp(bit);
    OneUp(bit + 1);
    OneUp(bit + 2);
    OneUp(bit + 3);
    FourShifts(MaskOf(bit));
  }

  /** The mask just behind the last bit has been shifted out. */
  lemma LastMask()
    ensures MaskOf(BITS - 1) << 1 == 0 && MaskOf(BITS - 1) == 0x8000_0000_0000_0000
  {
    assert MaskOf(0) == 1;
    EightUp(0); EightUp(8); EightUp(16); EightUp(24); EightUp(32); EightUp(40); EightUp(48);
    FourUp(56);
    assert MaskOf(60) == 0x1000_0000_0000_0000;
    assert MaskOf(61) == MaskOf(60) << 1;
    assert MaskOf(62) == MaskOf(61) << 1;
    assert MaskOf(63) == MaskOf(62) << 1;
  }

  lemma {:induction false} ZeroStaysZero(i: nat, j: nat)
    requires i <= j && MaskOf(i) == 0
    ensures MaskOf(j) == 0
    decreases j
  {
    if i == j {
    } else {
      ZeroStaysZero(i, j - 1);
    }
  }

  /** Every bit of a word has a mask. */
  lemma MaskNotZero(bit: nat)
    requires bit < BITS
    ensures MaskOf(bit) != 0
  {
    LastMask();
    if MaskOf(bit) == 0 {
      ZeroStaysZero(bit, BITS - 1);
    }
  }

  // ---- Setting and clearing ----

  /** Is a bit of a word set? */
  predicate Has(w: Word, bit: nat)
  {
    BitAnd(w, MaskOf(bit)) != 0
  }

  function On(w: Word, bit: nat): Word
  {
    BitOr(w, MaskOf(bit))
  }

  function Off(w: Word, bit: nat): Word
  {
    BitAnd(w, BitNot(MaskOf(bit)))
  }

  lemma OrMask(w: Word, m: Word)
    ensures BitAnd(BitOr(w, m), m) == m
  {
  }

  lemma AndNotMask(w: Word, m: Word)
    ensures BitAnd(BitAnd(w, BitNot(m)), m) == 0
  {
  }

  lemma OrOther(w: Word, m: Word, m': Word)
    requires BitAnd(m, m') == 0
    ensures BitAnd(BitOr(w, m), m') == BitAnd(w, m')
  {
    OtherBits(w, m, m');
  }

  lemma AndNotOther(w: Word, m: Word, m': Word)
    requires BitAnd(m, m') == 0
    ensures BitAnd(BitAnd(w, BitNot(m)), m') == BitAnd(w, m')
  {
    OtherBits(w, m, m');
  }

  lemma OtherBits(w: Word, m: Word, m': Word)
    requires m & m' == 0
    ensures (w | m) & m' == w & m'
    ensures (w & !m) & m' == w & m'
  {
  }

  lemma OwnBit(w: Word, bit: nat)
    requires bit < BITS
    ensures Has(On(w, bit), bit) && !Has(Off(w, bit), bit)
  {
    hide MaskOf, BitAnd, BitOr, BitNot;
    MaskNotZero(bit);
    OrMask(w, MaskOf(bit));
    AndNotMask(w, MaskOf(bit));
  }

  lemma OtherBit(w: Word, bit: nat, other: nat)
    requires bit != other
    ensures Has(On(w, bit), other) == Has(w, other) == Has(Off(w, bit), other)
  {
    hide MaskOf, BitAnd, BitOr, BitNot;
    if bit < other {
      MasksApart(bit, other);
    } else {
      MasksApart(other, bit);
      AndCommutes(MaskOf(bit), MaskOf(other));
    }
    OrOther(w, MaskOf(bit), MaskOf(other));
    AndNotOther(w, MaskOf(bit), MaskOf(other));
  }

  /** Switching a bit of a word on or off changes that bit and no other. */
  lemma Switched(w: Word, bit: nat)
    requires bit < BITS
    ensures Has(On(w, bit), bit) && !Has(Off(w, bit), bit)
    ensures forall other: nat :: other != bit ==> Has(On(w, bit), other) == Has(w, other) == Has(Off(w, bit), other)
  {
    hide Has, On, Off;
    OwnBit(w, bit);
    forall other: nat | other != bit
      ensures Has(On(w, bit), other) == Has(w, other) == Has(Off(w, bit), other)
    {
      OtherBit(w, bit, other);
    }
  }

  /** A zero word has no bits. */
  lemma ZeroHasNone(bit: nat)
    ensures !Has(0, bit)
  {
    hide MaskOf;
  }

  /** Is the bit of fd set? */
  predicate Set(v: Vector, fd: nat)
  {
    fd / BITS < |v| && Has(v[fd / BITS], fd % BITS)
  }

  lemma OneFdPerBit(fd: nat)
    ensures forall x: nat :: x / BITS == fd / BITS && x % BITS == fd % BITS ==> x == fd
  {
  }

  /** Set or clear the bit of fd, by setting it and then maybe clearing it. */
  function Put(v: Vector, fd: nat, wanted: bool): (r: Vector)
    requires fd / BITS < |v|
    ensures |r| == |v| && Set(r, fd) == wanted
    ensures forall x: nat :: x != fd ==> Set(r, x) == Set(v, x)
  {
    hide Has, On, Off;
    var word, bit := fd / BITS, fd % BITS;
    var on := v[word := On(v[word], bit)];
    var r := if wanted then on else on[word := Off(on[word], bit)];
    Switched(v[word], bit);
    Switched(on[word], bit);
    OneFdPerBit(fd);
    r
  }

  /** The vector with zero words appended. */
  function Grown(v: Vector, words: nat): (r: Vector)
    ensures |r| == (if words <= |v| then |v| else words) && forall x: nat :: Set(r, x) == Set(v, x)
  {
    hide Has;
    assert forall x: nat :: !Has(0, x) by {
      forall x: nat
        ensures !Has(0, x)
      {
        ZeroHasNone(x);
      }
    }
    if words <= |v| then v else v + seq(words - |v|, _ => 0)
  }

  /** What the two vectors say about fd. */
  function Bits(r: Vector, w: Vector, fd: nat): Mask
  {
    Mask(Set(r, fd), Set(w, fd))
  }

  // ---- The scan ----

  /** The fds from `from` up that have a bit, highest first, with their events. */
  function Scanned(r: Vector, w: Vector, from: nat): seq<(nat, Mask)>
    decreases BITS * |r| - from
  {
    if from >= BITS * |r| then []
    else Scanned(r, w, from + 1) + (if Bits(r, w, from) != NONE then [(from, Bits(r, w, from))] else [])
  }

  /** A pair of zero words contributes nothing. */
  lemma {:induction false} ZeroWords(r: Vector, w: Vector, word: nat, from: nat)
    requires |w| == |r| && word < |r| && r[word] == 0 && w[word] == 0
    requires BITS * word <= from <= BITS * (word + 1)
    ensures Scanned(r, w, from) == Scanned(r, w, BITS * (word + 1))
    decreases BITS * (word + 1) - from
  {
    if from == BITS * (word + 1) {
    } else {
      hide Has;
      ZeroWords(r, w, word, from + 1);
      assert from / BITS == word;
      ZeroHasNone(from % BITS);
    }
  }

  lemma BehindTheEnd(r: Vector, w: Vector, fd: nat)
    requires |w| == |r| && fd >= BITS * |r|
    ensures Bits(r, w, fd) == NONE
  {
  }

  /** Every fd with a bit is reported, with exactly its events, and only once. */
  lemma {:induction false} ScannedExactly(r: Vector, w: Vector, from: nat)
    requires |w| == |r|
    ensures var s := Scanned(r, w, from);
            && (forall k :: 0 <= k < |s| ==> from <= s[k].0 && s[k].1 == Bits(r, w, s[k].0) != NONE)
            && (forall j, k :: 0 <= j < k < |s| ==> s[j].0 > s[k].0)
            && (forall fd: nat :: from <= fd && Bits(r, w, fd) != NONE ==> (fd, Bits(r, w, fd)) in s)
    decreases BITS * |r| - from
  {
    hide Bits;
    if from >= BITS * |r| {
      forall fd: nat | from <= fd
        ensures Bits(r, w, fd) == NONE
      {
        BehindTheEnd(r, w, fd);
      }
    } else {
      ScannedExactly(r, w, from + 1);
      var s, rest := Scanned(r, w, from), Scanned(r, w, from + 1);
      forall fd: nat | from <= fd && Bits(r, w, fd) != NONE
        ensures (fd, Bits(r, w, fd)) in s
      {
        if fd == from {
          assert s[|rest|] == (fd, Bits(r, w, fd));
        } else {
          assert (fd, Bits(r, w, fd)) in rest;
        }
      }
    }
  }

  /** Bit by bit: an fd is reported as readable iff its bit is set in the first vector, as writable iff it is in
      the second. */
  lemma ScannedBits(r: Vector, w: Vector, fd: nat, read: bool, write: bool)
    requires |w| == |r|
    ensures (fd, Mask(read, write)) in Scanned(r, w, 0)
            <==> (read || write) && (read <==> Set(r, fd)) && (write <==> Set(w, fd))
  {
    hide Set;
    ScannedExactly(r, w, 0);
    var s := Scanned(r, w, 0);
    assert Bits(r, w, fd) == Mask(Set(r, fd), Set(w, fd));
    if (fd, Mask(read, write)) in s {
      var k :| 0 <= k < |s| && s[k] == (fd, Mask(read, write));
      assert s[k].1 == Bits(r, w, s[k].0);
    }
    if (read || write) && read == Set(r, fd) && write == Set(w, fd) {
      assert Bits(r, w, fd) != NONE;
      assert (fd, Bits(r, w, fd)) in s;
    }
  }

  /** What one bit of a word contributes. */
  lemma ScanBit(r: Vector, w: Vector, word: nat, bit: nat)
    requires |w| == |r| && word < |r| && bit < BITS
    ensures var events := Mask(Has(r[word], bit), Has(w[word], bit));
            Scanned(r, w, BITS * word + bit)
            == Scanned(r, w, BITS * word + bit + 1) + (if events != NONE then [(BITS * word + bit, events)] else [])
  {
    hide Bits;
    BitsAt(r, w, word, bit);
  }

  lemma BitsAt(r: Vector, w: Vector, word: nat, bit: nat)
    requires |w| == |r| && word < |r| && bit < BITS
    ensures Bits(r, w, BITS * word + bit) == Mask(Has(r[word], bit), Has(w[word], bit))
  {
    hide Has;
    FdParts(word, bit);
  }

  lemma FdParts(word: nat, bit: nat)
    requires bit < BITS
    ensures (BITS * word + bit) / BITS == word && (BITS * word + bit) % BITS == bit
  {
  }

  class Select {
    var vecRi: Vector
    var vecWi: Vector

    ghost predicate Valid()
      reads this
    {
      |vecRi| == |vecWi|
    }

    /** What select is asked to report for fd. */
    ghost function Registered(fd: nat): Mask
      reads this
    {
      Bits(vecRi, vecWi, fd)
    }

    constructor ()
      ensures Valid() && forall fd: nat :: Registered(fd) == NONE
    {
      vecRi, vecWi := [], [];
    }

    /** select_modify: afterwards exactly the new events of fd are asked for, and the same as before
        of every other fd, whether the vectors had to grow or not. */
    method SelectModify(fd: nat, oev: Mask, nev: Mask)
      requires Valid() && Registered(fd) == oev
      modifies this
      ensures Valid() && Registered(fd) == nev
      ensures Set(vecRi, fd) == nev.read && Set(vecWi, fd) == nev.write
      ensures forall x: nat :: x != fd ==> Registered(x) == old(Registered(x))
    {
      if oev == nev {
        return;
      }
      var word := fd / BITS;
      vecRi, vecWi := Grown(vecRi, word + 1), Grown(vecWi, word + 1);
      vecRi := Put(vecRi, fd, nev.read);
      vecWi := Put(vecWi, fd, nev.write);
    }

    /** The scan of select_poll over the vectors select returned: words and bits from the top, words
        without any bit being skipped. */
    method Scan(vecRo: Vector, vecWo: Vector) returns (fed: seq<(nat, Mask)>)
      requires |vecRo| == |vecWo|
      ensures fed == Scanned(vecRo, vecWo, 0)
    {
      fed := [];
      var word: nat := |vecRo|;
      while word > 0
        invariant word <= |vecRo| && fed == Scanned(vecRo, vecWo, BITS * word)
      {
        word := word - 1;
        if vecRo[word] != 0 || vecWo[word] != 0 {
          fed := ScanWord(vecRo, vecWo, word, fed);
        } else {
          ZeroWords(vecRo, vecWo, word, BITS * word);
        }
      }
    }

    /** The bits of one word. */
    method ScanWord(vecRo: Vector, vecWo: Vector, word: nat, before: seq<(nat, Mask)>) returns (fed: seq<(nat, Mask)>)
      requires |vecRo| == |vecWo| && word < |vecRo| && before == Scanned(vecRo, vecWo, BITS * (word + 1))
      ensures fed == Scanned(vecRo, vecWo, BITS * word)
    {
      hide Has, Scanned;
      fed := before;
      var wordR, wordW := vecRo[word], vecWo[word];
      var bit: nat := BITS;
      while bit > 0
        invariant bit <= BITS && fed == Scanned(vecRo, vecWo, BITS * word + bit)
      {
        bit := bit - 1;
        var fd := BITS * word + bit;
        var events := Mask(Has(wordR, bit), Has(wordW, bit));
        ScanBit(vecRo, vecWo, word, bit);
        if events != NONE {
          fed := fed + [(fd, events)];
        }
      }
    }
  }
}
