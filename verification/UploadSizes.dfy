/** Payload sizes: where the writes of an upload run over their payloads, and where they read past their sectors. */
module UploadSizes {
  import opened Bytes
  import opened FlashDriver

  /** An upload of count payloads of size bytes each, in a 10 MiB slot. */
  predicate FitsSlot(offset: u32, count: nat, size: nat) {
    && (offset == 0 || offset == 0xA0_0000 || offset == 0x140_0000)
    && 0 < count <= 0xA0_0000 && 0 < size && count * size <= 0xA0_0000
  }

  lemma PayloadInside(count: nat, size: nat, n: nat)
    requires n < count
    ensures 0 <= n * size <= n * size + size <= count * size
  {
    assert (n + 1) * size <= count * size;
  }

  lemma MultipleOfSize(size: nat, offset: nat, n: nat)
    requires 0 < size <= 256 && 256 % size == 0 && offset % 256 == 0
    ensures (offset + n * size) % size == 0
  {
    var k, p := 256 / size, offset / 256;
    assert 256 == k * size && offset == p * 256;
    assert offset + n * size == (p * k + n) * size by {
      assert p * (k * size) == (p * k) * size;
    }
    MultipleHasNoRest(p * k + n, size);
  }

  lemma MultipleHasNoRest(k: nat, size: nat)
    requires size > 0
    ensures k * size % size == 0
  {
    var q, r := k * size / size, k * size % size;
    assert (k - q) * size == r;
    LessByFactor(k - q, 1, size);
    LessByFactor(-1, k - q, size);
  }

  lemma FirstPageOfSlot(offset: nat, d: nat)
    requires offset % 256 == 0
    ensures (offset + d) % 256 == d % 256
  {}

  // ---------------------------------------------------------------- writing no more than the payload

  /** Payload n of an image at `offset` is written without going over its end. */
  predicate WrittenExactly(offset: u32, size: nat, n: nat) {
    var place := offset + n * size;
    place < 0x1_0000_0000 && PagedLen(place, size) == size
  }

  /** The payload during which the first page ends, if no payload ends there. */
  lemma CrossingPayload(size: nat, count: nat, n: nat)
    requires 0 < size <= 256 && 256 % size != 0 && count * size > 256 && n == 256 / size
    ensures n < count && 0 <= n * size < 256 < n * size + size < 512
  {
    assert 256 == n * size + 256 % size;
    LessByFactor(n, count, size);
  }

  /**
   Exactly the payload sizes whose images are written without overlap: the divisors and multiples of the
   page, and any size if the image ends in the first page.
   */
  lemma SizesWrittenExactly(offset: u32, size: nat, count: nat)
    requires offset % 256 == 0 && size > 0 && count > 0 && offset + count * size < 0x1_0000_0000
    ensures (forall n: nat | n < count :: WrittenExactly(offset, size, n))
       <==> 256 % size == 0 || size % 256 == 0 || count * size <= 256
  {
    if 256 % size == 0 || size % 256 == 0 || count * size <= 256 {
      forall n: nat | n < count
        ensures WrittenExactly(offset, size, n)
      {
        GoodSizeExact(offset, size, count, n);
      }
    } else {
      var n := if size > 256 then 0 else 256 / size;
      BadSizeRunsOver(offset, size, count, n);
      assert !WrittenExactly(offset, size, n);
    }
  }

  lemma GoodSizeExact(offset: u32, size: nat, count: nat, n: nat)
    requires offset % 256 == 0 && size > 0 && n < count && offset + count * size < 0x1_0000_0000
    requires 256 % size == 0 || size % 256 == 0 || count * size <= 256
    ensures WrittenExactly(offset, size, n)
  {
    PayloadInside(count, size, n);
    if count * size > 256 {
      if size % 256 == 0 {
        MultipleOfPage(n + 1, size);
        assert (n + 1) * size == n * size + size;
      } else {
        DivisorAtMost(size, 256);
        MultipleOfSize(size, offset, n);
      }
    }
    GoodPlace(offset, size, n * size);
  }

  lemma GoodPlace(offset: u32, size: nat, d: nat)
    requires offset % 256 == 0 && 0 < size && offset + d + size < 0x1_0000_0000
    requires d + size <= 256 || (d + size) % 256 == 0 || (size <= 256 && 256 % size == 0 && (offset + d) % size == 0)
    ensures PagedLen(offset + d, size) == size
  {
    PagedLenExact(offset + d, size);
    if d + size <= 256 {
      FirstPageOfSlot(offset, d);
    } else if (d + size) % 256 == 0 {
      FirstPageOfSlot(offset, d + size);
    } else {
      DivisorFits(offset + d, size);
    }
  }

  lemma DivisorAtMost(size: nat, page: nat)
    requires size > 0 && page > 0 && page % size == 0
    ensures size <= page
  {}

  lemma MultipleOfPage(n: nat, size: nat)
    requires size % 256 == 0
    ensures n * size % 256 == 0
  {
    var q := size / 256;
    assert n * size == n * q * 256;
    MultipleHasNoRest(n * q, 256);
  }

  lemma BadSizeRunsOver(offset: u32, size: nat, count: nat, n: nat)
    requires offset % 256 == 0 && size > 0 && count > 0 && offset + count * size < 0x1_0000_0000
    requires 256 % size != 0 && size % 256 != 0 && count * size > 256 && n == if size > 256 then 0 else 256 / size
    ensures n < count && !WrittenExactly(offset, size, n)
  {
    if size <= 256 {
      CrossingPayload(size, count, n);
      PayloadInside(count, size, n);
      EndsOffPage(offset, n * size, size);
    } else {
      PayloadInside(count, size, 0);
      FirstPageOfSlot(offset, size);
      PagedLenExact(offset, size);
    }
  }

  lemma EndsOffPage(offset: u32, d: nat, size: nat)
    requires offset % 256 == 0 && d < 256 < d + size < 512 && offset + d < 0x1_0000_0000
    ensures PagedLen(offset + d, size) != size
  {
    FirstPageOfSlot(offset, d);
    FirstPageOfSlot(offset, d + size);
    PagedLenExact(offset + d, size);
  }

  // ---------------------------------------------------------------- reading no more than the sector

  /** The write of payload n reads no more than the 480 bytes behind its block's header. */
  predicate InSector(offset: u32, size: nat, n: nat) {
    var place := offset + n * size;
    place < 0x1_0000_0000 && PagedLen(place, size) <= 480
  }

  /** How many payloads of a size just below the page can come before one of them is read past its sector. */
  function SafeCount(size: nat): nat
    requires 240 < size < 256
  {
    if size == 242 then 72 else if size == 243 then 38 else 224 / (256 - size) + 2
  }

  /** Payload size and number of payloads of the uploads whose every write stays in its sector. */
  predicate SectorSize(size: nat, count: nat) {
    size <= 240 || size == 256 || (size < 256 && count <= SafeCount(size))
  }

  /** The place of payload n in its page, gap being what the payload size lacks to a page. */
  lemma PlaceInPage(gap: nat, n: nat, w: nat)
    requires gap <= 256 && 0 <= 256 * w - n * gap < 256
    ensures n * (256 - gap) % 256 == 256 * w - n * gap
  {
    assert n * (256 - gap) == 256 * (n - w) + (256 * w - n * gap);
  }

  /** Where a payload that crosses a page end is read past its sector: not far enough into its page. */
  predicate Overreads(gap: nat, r: nat) {
    gap < r < 32 - gap
  }

  lemma InSectorByPlace(offset: u32, size: nat, n: nat)
    requires offset % 256 == 0 && 0 < size <= 256 && offset + n * size < 0x1_0000_0000
    ensures InSector(offset, size, n) <==> !Overreads(256 - size, n * size % 256)
  {
    FirstPageOfSlot(offset, n * size);
  }

  lemma ProductAtMost(n: nat, k: nat, gap: nat)
    requires n <= k
    ensures n * gap <= k * gap
  {}

  lemma SafeBefore13(n: nat)
    requires n < 38
    ensures !Overreads(13, n * 243 % 256)
  {
    PlaceInPage(13, n, if n == 0 then 0 else if n <= 19 then 1 else 2);
  }

  lemma SafeBefore14(n: nat)
    requires n < 72
    ensures !Overreads(14, n * 242 % 256)
  {
    PlaceInPage(14, n, if n == 0 then 0 else if n <= 18 then 1 else if n <= 36 then 2 else if n <= 54 then 3 else 4);
  }

  lemma SafeBefore(gap: nat, n: nat)
    requires 1 <= gap <= 15 && n < SafeCount(256 - gap)
    ensures !Overreads(gap, n * (256 - gap) % 256)
  {
    if gap == 13 {
      SafeBefore13(n);
    } else if gap == 14 {
      SafeBefore14(n);
    } else {
      ProductAtMost(n, 224 / gap + 1, gap);
      QuotientTimes(224, gap);
      PlaceInPage(gap, n, if n == 0 then 0 else 1);
    }
  }

  lemma QuotientTimes(x: nat, gap: nat)
    requires gap > 0
    ensures x - gap < (x / gap) * gap <= x
    ensures (x / gap + 1) * gap == (x / gap) * gap + gap && (x / gap + 2) * gap == (x / gap) * gap + 2 * gap
  {
    assert x == (x / gap) * gap + x % gap;
  }

  lemma UnsafeAt(gap: nat)
    requires 1 <= gap <= 15
    ensures Overreads(gap, SafeCount(256 - gap) * (256 - gap) % 256)
  {
    if gap == 13 {
      PlaceInPage(13, 38, 2);
    } else if gap == 14 {
      PlaceInPage(14, 72, 4);
    } else if gap == 11 {
      PlaceInPage(11, 22, 1);
    } else if gap == 12 {
      PlaceInPage(12, 20, 1);
    } else if gap == 15 {
      PlaceInPage(15, 16, 1);
    } else {
      QuotientTimes(224, gap);
      PlaceInPage(gap, 224 / gap + 2, 1);
    }
  }

  /**
   Exactly the uploads whose every write stays in its own sector: payloads of at most 240 bytes or a whole
   page, and so many of the sizes between. Above a page the first write already takes two pages.
   */
  lemma SectorSizesExactly(offset: u32, size: nat, count: nat)
    requires offset % 256 == 0 && size > 0 && count > 0 && offset + count * size < 0x1_0000_0000
    ensures (forall n: nat | n < count :: InSector(offset, size, n)) <==> SectorSize(size, count)
  {
    if SectorSize(size, count) {
      forall n: nat | n < count
        ensures InSector(offset, size, n)
      {
        PayloadInside(count, size, n);
        InSectorByPlace(offset, size, n);
        if 240 < size < 256 { SafeBefore(256 - size, n); }
      }
    } else if size > 256 {
      PayloadInside(count, size, 0);
      assert !InSector(offset, size, 0);
    } else {
      var n := SafeCount(size);
      PayloadInside(count, size, n);
      UnsafeAt(256 - size);
      InSectorByPlace(offset, size, n);
      assert !InSector(offset, size, n);
    }
  }

  // ---------------------------------------------------------------- reading no more than a buffer holds

  /** The bytes behind a block's header in a buffer of 4096 bytes that it begins. */
  const BUFFER_SOURCE: nat := 4064

  /** The write of payload n fits in a buffer. */
  predicate InBuffer(offset: u32, size: nat, n: nat) {
    var place := offset + n * size;
    place < 0x1_0000_0000 && PagedLen(place, size) <= BUFFER_SOURCE
  }

  /** How far into its page payload n begins. */
  function IntoPage(size: nat, n: nat): nat {
    n * size % 256
  }

  /** Payload size and number of payloads of the uploads none of whose writes fits in a buffer. */
  predicate NeverFits(size: nat, count: nat) {
    size > 4064 || (size > 3840 && forall n: nat | n < count :: !(32 <= IntoPage(size, n) <= 4096 - size))
  }

  /** Among the largest sizes a write fits only if its payload begins far enough into a page, and ends with the 16th. */
  lemma InBufferByPlace(offset: u32, size: nat, n: nat)
    requires offset % 256 == 0 && size > 3840 && offset + n * size < 0x1_0000_0000
    ensures InBuffer(offset, size, n) <==> size <= 4064 && 32 <= IntoPage(size, n) <= 4096 - size
  {
    FirstPageOfSlot(offset, n * size);
    LargeWrite(offset + n * size, size, IntoPage(size, n));
  }

  lemma LargeWrite(place: u32, size: nat, r: nat)
    requires size > 3840 && r == place % 256
    ensures PagedLen(place, size) <= BUFFER_SOURCE <==> size <= 4064 && 32 <= r <= 4096 - size
  {
    PagedLenExact(place, size);
    if size <= 4064 {
      SameInPage(place + size + 255, r + size + 255, place / 256);
      if r + size <= 4096 {
        assert (r + size + 255) % 256 == r + size + 255 - 4096;
      } else {
        assert (r + size + 255) % 256 == r + size + 255 - 4352;
      }
    }
  }

  lemma SameInPage(x: nat, y: nat, q: nat)
    requires x == y + 256 * q
    ensures x % 256 == y % 256
  {}

  /**
   Exactly the uploads in which every write that fits in a buffer stays in its own sector: those of
   `SectorSizesExactly`, and those that no buffer can carry.
   */
  lemma BufferSizesExactly(offset: u32, size: nat, count: nat)
    requires offset % 256 == 0 && size > 0 && count > 0 && offset + count * size < 0x1_0000_0000
    ensures (forall n: nat | n < count :: InBuffer(offset, size, n) ==> InSector(offset, size, n))
       <==> SectorSize(size, count) || NeverFits(size, count)
  {
    SectorSizesExactly(offset, size, count);
    if size <= 256 {
      forall n: nat | n < count
        ensures InBuffer(offset, size, n)
      {
        PayloadInside(count, size, n);
        PagedLenExact(offset + n * size, size);
      }
    } else if size <= 3840 {
      PayloadInside(count, size, 0);
      FirstWrite(offset, size);
      assert InBuffer(offset, size, 0) && !InSector(offset, size, 0);
    } else {
      forall n: nat | n < count
        ensures InBuffer(offset, size, n) <==> size <= 4064 && 32 <= IntoPage(size, n) <= 4096 - size
        ensures !InSector(offset, size, n)
      {
        PayloadInside(count, size, n);
        InBufferByPlace(offset, size, n);
        PagedLenExact(offset + n * size, size);
      }
    }
  }

  lemma FirstWrite(offset: u32, size: nat)
    requires offset % 256 == 0 && 256 < size <= 3840
    ensures 480 < PagedLen(offset, size) <= 3840
  {
    SameInPage(offset + size + 255, size + 255, offset / 256);
  }
}
