/**
 * The iterator arithmetic of module/diff_buffer.h: a sector offset inside a
 * difference buffer is turned into a page index, a byte offset within that
 * page and the number of bytes that may be copied from there.
 */
module DiffBufferIter {
  import opened Kernel

  /** struct diff_buffer_iter, with the page named by its index in the buffer. */
  datatype Iter = Iter(pageInx: nat, offset: nat, bytes: nat)

  /** ofs << SECTOR_SHIFT, evaluated in 64-bit sector_t arithmetic. */
  function ByteOffset(ofs: U64Val): nat
  {
    (ofs * SECTOR_SIZE) % U64
  }

  /**
   * diff_buffer_iter_get. None is the `false` return, which leaves the
   * caller's iterator untouched.
   */
  function IterGet(size: U64Val, ofs: U64Val): (r: Option<Iter>)
    ensures r.None? <==> size <= ByteOffset(ofs)
    ensures r.Some? ==> r.value.pageInx == ofs / SECTOR_IN_PAGE
    ensures r.Some? ==> r.value.offset == (ofs % SECTOR_IN_PAGE) * SECTOR_SIZE
    ensures r.Some? ==> r.value.offset % SECTOR_SIZE == 0 && r.value.offset < PAGE_SIZE
    ensures r.Some? ==> r.value.bytes == Min(PAGE_SIZE - r.value.offset, size - ByteOffset(ofs))
    ensures r.Some? ==> 0 < r.value.bytes && r.value.offset + r.value.bytes <= PAGE_SIZE
    ensures r.Some? ==> ByteOffset(ofs) + r.value.bytes <= size
  {
    var pos := ByteOffset(ofs);
    if size <= pos then None
    else
      var offset := (ofs % SECTOR_IN_PAGE) * SECTOR_SIZE;
      Some(Iter(ofs / SECTOR_IN_PAGE, offset, Min(PAGE_SIZE - offset, size - pos)))
  }

  /**
   * Whenever ofs << 9 does not wrap, page index and in-page offset address
   * exactly byte ofs * 512 of the buffer.
   */
  lemma IterAddressesSector(size: U64Val, ofs: U64Val)
    requires ofs * SECTOR_SIZE < U64
    requires IterGet(size, ofs).Some?
    ensures var it := IterGet(size, ofs).value;
            it.pageInx * PAGE_SIZE + it.offset == ofs * SECTOR_SIZE
  {
    var q, m := ofs / SECTOR_IN_PAGE, ofs % SECTOR_IN_PAGE;
    assert ofs == q * SECTOR_IN_PAGE + m;
  }

  /**
   * In a buffer of `pageCount` pages holding `size <= pageCount * PAGE_SIZE`
   * bytes, every successful lookup names an existing page.
   */
  lemma IterPageInBuffer(size: U64Val, ofs: U64Val, pageCount: nat)
    requires ofs * SECTOR_SIZE < U64
    requires size <= pageCount * PAGE_SIZE
    requires IterGet(size, ofs).Some?
    ensures IterGet(size, ofs).value.pageInx < pageCount
  {
    IterAddressesSector(size, ofs);
  }
}
