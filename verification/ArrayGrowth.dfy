/** How the event loop grows its arrays. */
module ArrayGrowth {

  const MALLOC_ROUND: nat := 4096
  const WORD_SIZE: nat := 8
  const MALLOC_OVERHEAD: nat := WORD_SIZE * 4

  /** Clearing the low twelve bits: the largest multiple of MALLOC_ROUND not above x. */
  function RoundDown(x: nat): (r: nat)
    ensures r <= x < r + MALLOC_ROUND && r % MALLOC_ROUND == 0
  {
    x - x % MALLOC_ROUND
  }

  /** A new element count for an array of `cur` elements that has to hold `cnt`.  The count at
      least doubles; when the array is large, the allocation plus the allocator's overhead
      fills a whole number of MALLOC_ROUND chunks up to less than one element. */
  method ArrayNextSize(elem: nat, cur: nat, cnt: nat) returns (ncur: nat)
    requires elem > 0
    ensures ncur >= cnt && ncur >= 2 * (cur + 1)
    ensures elem * ncur <= MALLOC_ROUND - MALLOC_OVERHEAD ||
            exists chunks: nat ::
              elem * ncur + MALLOC_OVERHEAD <= chunks * MALLOC_ROUND < elem * (ncur + 1) + MALLOC_OVERHEAD
  {
    ncur := 2 * (cur + 1);
    while cnt > ncur
      invariant ncur >= 2 * (cur + 1)
      decreases cnt - ncur
    {
      ncur := ncur * 2;
    }
    if elem * ncur > MALLOC_ROUND - MALLOC_OVERHEAD {
      var wanted := ncur;
      var bytes := RoundDown(ncur * elem + elem + (MALLOC_ROUND - 1) + MALLOC_OVERHEAD);
      ncur := (bytes - MALLOC_OVERHEAD) / elem;
      QuotientCovers(elem, wanted, bytes - MALLOC_OVERHEAD);
      assert bytes == (bytes / MALLOC_ROUND) * MALLOC_ROUND;
    }
  }

  lemma QuotientCovers(elem: nat, wanted: nat, room: nat)
    requires elem > 0 && wanted * elem + elem <= room
    ensures wanted <= room / elem && elem * (room / elem) <= room < elem * (room / elem + 1)
  {
    var q := room / elem;
    assert room == elem * q + room % elem;
    assert q < wanted ==> elem * (q + 1) <= elem * wanted;
  }
}
