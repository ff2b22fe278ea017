/**
 * The chunk state machine of module/chunk.c.
 *
 * A chunk is one unit of copy-on-write: its original sectors are read into a
 * page-list buffer (LOADING), written to the difference storage (STORING)
 * and then kept in the diff area's cache (IN_CACHE). Completions arrive in
 * chunk_notify_work. Block I/O (dm_io), the difference-storage allocator and
 * the page allocator are abstract: their outcomes are parameters.
 */
module ChunkEngine {
  import opened Kernel
  import opened DiffBufferIter

  // ---------------------------------------------------------------------------
  // The page-list difference buffer (diff_buffer_new / diff_buffer_free)
  // ---------------------------------------------------------------------------

  /** struct page_list entry: whether it holds a page, and the index of the next entry. */
  datatype PageEntry = PageEntry(page: bool, next: Option<nat>)

  /** Every `next` link points forward inside the array, so walking the list ends. */
  ghost predicate ForwardLinked(p: seq<PageEntry>)
  {
    forall i :: 0 <= i < |p| && p[i].next.Some? ==> i < p[i].next.value < |p|
  }

  /**
   * Entries 0..k-1 hold pages and are linked in array order; the others are
   * as kzalloc left them. The last linked entry has no successor.
   */
  ghost predicate LinkedPrefix(p: seq<PageEntry>, k: nat)
  {
    k <= |p|
    && (forall i :: 0 <= i < |p| ==> p[i].page == (i < k))
    && (forall i :: 0 <= i < |p| ==> p[i].next == (if i + 1 < k then Some(i + 1) else None))
  }

  /** The number of pages on the list that starts at entry i. */
  function PagesFrom(p: seq<PageEntry>, i: nat): nat
    requires ForwardLinked(p) && i < |p|
    decreases |p| - i
  {
    (if p[i].page then 1 else 0) + (if p[i].next.Some? then PagesFrom(p, p[i].next.value) else 0)
  }

  /** A list linked over its first k entries reaches exactly the pages from i up to k. */
  lemma {:induction false} PrefixPages(p: seq<PageEntry>, k: nat, i: nat)
    requires LinkedPrefix(p, k) && i < |p|
    ensures ForwardLinked(p)
    ensures PagesFrom(p, i) == if i < k then k - i else 0
    decreases |p| - i
  {
    assert ForwardLinked(p);
    if p[i].next.Some? {
      PrefixPages(p, k, i + 1);
    }
  }

  class DiffBuffer {
    var size: nat
    const pages: array<PageEntry>

    /** kzalloc of the buffer header and its page_list array. */
    constructor (bufferSize: nat, pageCount: nat)
      ensures size == bufferSize && fresh(pages) && pages.Length == pageCount
      ensures LinkedPrefix(pages[..], 0)
    {
      size := bufferSize;
      pages := new PageEntry[pageCount](_ => PageEntry(false, None));
    }
  }

  /** diff_buffer_free: walk the page list and release every page on it; the result counts them. */
  method DiffBufferFree(buf: DiffBuffer?) returns (released: nat)
    requires buf != null ==> buf.pages.Length > 0 && ForwardLinked(buf.pages[..])
    ensures released == if buf == null then 0 else PagesFrom(buf.pages[..], 0)
  {
    if buf == null {
      return 0;
    }
    released := 0;
    var cur: Option<nat> := Some(0);
    while cur.Some?
      invariant cur.Some? ==> cur.value < buf.pages.Length
      invariant released + (if cur.Some? then PagesFrom(buf.pages[..], cur.value) else 0)
                == PagesFrom(buf.pages[..], 0)
      decreases if cur.Some? then buf.pages.Length - cur.value else 0
    {
      var entry := buf.pages[cur.value];
      if entry.page {
        released := released + 1;
      }
      cur := entry.next;
    }
  }

  /**
   * diff_buffer_new. `headerOk` is the outcome of the kzalloc of the header
   * and the first `pagesAvailable` calls of alloc_page succeed. On failure all
   * pages obtained so far are released again.
   */
  method DiffBufferNew(pageCount: nat, bufferSize: nat, headerOk: bool, pagesAvailable: nat)
    returns (buf: DiffBuffer?, released: nat)
    ensures buf != null <==> pageCount > 0 && headerOk && pagesAvailable >= pageCount
    ensures buf != null ==> (fresh(buf) && fresh(buf.pages) && buf.size == bufferSize
                             && buf.pages.Length == pageCount && LinkedPrefix(buf.pages[..], pageCount))
    ensures released == if buf == null && pageCount > 0 && headerOk then pagesAvailable else 0
  {
    released := 0;
    if pageCount == 0 || !headerOk {
      return null, 0;
    }
    var b := new DiffBuffer(bufferSize, pageCount);
    if pagesAvailable == 0 {
      PrefixPages(b.pages[..], 0, 0);
      released := DiffBufferFree(b);
      return null, released;
    }
    b.pages[0] := PageEntry(true, None);
    var inx := 1;
    while inx < pageCount
      invariant 1 <= inx <= pageCount && inx <= pagesAvailable
      invariant LinkedPrefix(b.pages[..], inx)
      invariant b.size == bufferSize
    {
      if inx >= pagesAvailable {
        PrefixPages(b.pages[..], inx, 0);
        released := DiffBufferFree(b);
        return null, released;
      }
      b.pages[inx] := PageEntry(true, None);
      b.pages[inx - 1] := PageEntry(true, Some(inx));
      inx := inx + 1;
    }
    buf := b;
  }

  /** The pages chunk_allocate_buffer asks for: round_up(sector_count, SECTOR_IN_PAGE) / SECTOR_IN_PAGE. */
  function ChunkPageCount(sectorCount: nat): nat
  {
    CeilDiv(sectorCount, SECTOR_IN_PAGE)
  }

  /** The buffer of a chunk holds its sectors in the fewest whole pages. */
  lemma ChunkBufferFits(sectorCount: nat)
    ensures ChunkPageCount(sectorCount) * PAGE_SIZE >= sectorCount * SECTOR_SIZE
    ensures (ChunkPageCount(sectorCount) - 1) * PAGE_SIZE < sectorCount * SECTOR_SIZE
  {
    var n := ChunkPageCount(sectorCount);
    assert n * SECTOR_IN_PAGE >= sectorCount;
    assert (n - 1) * SECTOR_IN_PAGE < sectorCount;
  }

  /** Every sector of a chunk that diff_buffer_iter_get accepts lies on an allocated page. */
  lemma ChunkIterInBuffer(sectorCount: nat, ofs: U64Val)
    requires sectorCount * SECTOR_SIZE < U64 && ofs * SECTOR_SIZE < U64
    requires IterGet(sectorCount * SECTOR_SIZE, ofs).Some?
    ensures IterGet(sectorCount * SECTOR_SIZE, ofs).value.pageInx < ChunkPageCount(sectorCount)
  {
    ChunkBufferFits(sectorCount);
    IterPageInBuffer(sectorCount * SECTOR_SIZE, ofs, ChunkPageCount(sectorCount));
  }

  // ---------------------------------------------------------------------------
  // The chunk state machine on values
  // ---------------------------------------------------------------------------

  /** The CHUNK_ST_* flag bits. */
  datatype Flag = Failed | BufferReady | StoreReady | Loading | Storing | InCache

  /** A piece of the difference storage assigned to a chunk. */
  datatype DiffStore = DiffStore(sector: nat, count: nat)

  /** struct dm_io_region: the sectors an asynchronous request covers. */
  datatype Region = Region(sector: nat, count: nat)

  /** The mutable part of a chunk. */
  datatype ChunkView = ChunkView(flags: set<Flag>, diffStore: Option<DiffStore>, error: int)

  /** The mutable part of a diff area, as the chunk code touches it. */
  datatype AreaView<C> = AreaView(corrupted: bool, errorCode: int, caching: seq<C>, cachingCount: nat)

  /** The result of one step, with the dm_io request it started and whether cache cleanup was requested. */
  datatype Step<C> = Step(chunk: ChunkView, area: AreaView<C>, issued: Option<Region>, needCleanup: bool)

  /** diff_area_set_corrupted, taken as: the area becomes corrupted and records the error. */
  function SetCorrupted<C>(a: AreaView<C>, err: int): AreaView<C>
  {
    a.(corrupted := true, errorCode := err)
  }

  /** chunk_store_failed. */
  function StoreFailed<C>(c: ChunkView, a: AreaView<C>, err: int, issued: Option<Region>): Step<C>
  {
    Step(c.(flags := c.flags + {Failed}), SetCorrupted(a, err), issued, false)
  }

  /** The constant surroundings of a chunk: its area's configuration and the abstract services. */
  datatype Env = Env(
    inMemory: bool,                        // diff_area->in_memory
    chunkSectors: nat,                     // diff_area_chunk_sectors()
    sectorCount: nat,                      // chunk->sector_count
    getStore: nat -> Result<DiffStore>,    // diff_storage_get_store(size)
    dmIo: int,                             // the result of starting dm_io
    maximumInCache: nat)                   // chunk_maximum_in_cache

  /** chunk_schedule_storing. */
  function StoringSpec<C>(c: ChunkView, a: AreaView<C>, env: Env): Step<C>
  {
    if env.inMemory then Step(c, a, None, false)
    else
      var store := if c.diffStore.Some? then Ok(c.diffStore.value) else env.getStore(env.chunkSectors);
      if store.Err? then StoreFailed(c, a, store.code, None)
      else
        var c1 := c.(diffStore := Some(store.value), flags := c.flags + {Storing});
        var region := Region(store.value.sector, env.sectorCount);
        if env.dmIo != SUCCESS then StoreFailed(c1, a, env.dmIo, Some(region))
        else Step(c1, a, Some(region), false)
  }

  /** chunk_schedule_caching for chunk `self`. */
  function CachingSpec<C>(self: C, c: ChunkView, a: AreaView<C>, maximumInCache: nat): Step<C>
  {
    if InCache in c.flags then Step(c, a, None, false)
    else
      Step(c.(flags := c.flags + {InCache}),
           a.(caching := a.caching + [self], cachingCount := a.cachingCount + 1),
           None, a.cachingCount + 1 > maximumInCache)
  }

  /** chunk_notify_work for chunk `self`. */
  function NotifySpec<C>(self: C, c: ChunkView, a: AreaView<C>, env: Env): Step<C>
  {
    if c.error != SUCCESS then StoreFailed(c, a, c.error, None)
    else if Loading in c.flags then
      StoringSpec(c.(flags := c.flags - {Loading} + {BufferReady}), a, env)
    else if Storing in c.flags then
      CachingSpec(self, c.(flags := c.flags - {Storing} + {StoreReady}), a, env.maximumInCache)
    else Step(c, a, None, false)
  }

  // ---------------------------------------------------------------------------
  // Properties of the state machine
  // ---------------------------------------------------------------------------

  /**
   * A completion carrying an error only adds FAILED and corrupts the area
   * with that error: no other flag moves, no I/O starts, the cache is untouched.
   */
  lemma NotifyErrorFails<C>(self: C, c: ChunkView, a: AreaView<C>, env: Env)
    requires c.error != SUCCESS
    ensures var s := NotifySpec(self, c, a, env);
            s.chunk.flags == c.flags + {Failed} && s.chunk.diffStore == c.diffStore
            && s.area.corrupted && s.area.errorCode == c.error
            && s.area.caching == a.caching && s.area.cachingCount == a.cachingCount
            && s.issued.None? && !s.needCleanup
  {
  }

  /**
   * A successful load completion replaces LOADING by BUFFER_READY and, when
   * the area is not in memory and a store can be had, starts the write of
   * sector_count sectors to that store with STORING set.
   */
  lemma LoadCompletionStartsStore<C>(self: C, c: ChunkView, a: AreaView<C>, env: Env)
    requires c.error == SUCCESS && Loading in c.flags
    requires !env.inMemory && env.dmIo == SUCCESS
    requires c.diffStore.Some? || env.getStore(env.chunkSectors).Ok?
    ensures var s := NotifySpec(self, c, a, env);
            var store := if c.diffStore.Some? then c.diffStore.value else env.getStore(env.chunkSectors).value;
            s.chunk.flags == c.flags - {Loading} + {BufferReady, Storing}
            && s.chunk.diffStore == Some(store)
            && s.issued == Some(Region(store.sector, env.sectorCount))
            && s.area == a && !s.needCleanup
  {
  }

  /** An in-memory area never issues a store: the chunk stays BUFFER_READY. */
  lemma InMemoryIssuesNoStore<C>(self: C, c: ChunkView, a: AreaView<C>, env: Env)
    requires c.error == SUCCESS && Loading in c.flags && env.inMemory
    ensures var s := NotifySpec(self, c, a, env);
            s.chunk.flags == c.flags - {Loading} + {BufferReady} && s.area == a && s.issued.None?
  {
  }

  /** A chunk that already has a difference store reuses it, whatever the allocator would return. */
  lemma StoreIsReused<C>(c: ChunkView, a: AreaView<C>, env: Env, other: nat -> Result<DiffStore>)
    requires c.diffStore.Some?
    ensures StoringSpec(c, a, env) == StoringSpec(c, a, env.(getStore := other))
    ensures StoringSpec(c, a, env).chunk.diffStore == c.diffStore
  {
  }

  /** Any failure to get or to start a store ends with FAILED and a corrupted area. */
  lemma StoreErrorsFail<C>(c: ChunkView, a: AreaView<C>, env: Env)
    requires !env.inMemory
    requires (c.diffStore.None? && env.getStore(env.chunkSectors).Err?) || env.dmIo != SUCCESS
    ensures Failed in StoringSpec(c, a, env).chunk.flags && StoringSpec(c, a, env).area.corrupted
    ensures c.diffStore.None? && env.getStore(env.chunkSectors).Err? ==>
              StoringSpec(c, a, env).area.errorCode == env.getStore(env.chunkSectors).code
              && StoringSpec(c, a, env).issued.None?
  {
  }

  /**
   * Caching is idempotent: a chunk already IN_CACHE is not appended or counted
   * again, and cleanup is requested exactly when the new count exceeds
   * chunk_maximum_in_cache.
   */
  lemma CachingIdempotent<C>(self: C, c: ChunkView, a: AreaView<C>, maximumInCache: nat)
    ensures var s1 := CachingSpec(self, c, a, maximumInCache);
            var s2 := CachingSpec(self, s1.chunk, s1.area, maximumInCache);
            s2.chunk == s1.chunk && s2.area == s1.area && !s2.needCleanup
            && InCache in s1.chunk.flags
            && (s1.needCleanup <==> InCache !in c.flags && a.cachingCount + 1 > maximumInCache)
            && s1.area.caching == (if InCache in c.flags then a.caching else a.caching + [self])
  {
  }

  /**
   * The whole life of a chunk without errors: a LOADING chunk whose load and
   * store complete ends BUFFER_READY, STORE_READY and IN_CACHE, appended once
   * to the cache list, having written its sectors to its store.
   */
  lemma ChunkLifecycle<C>(self: C, a: AreaView<C>, env: Env)
    requires !env.inMemory && env.dmIo == SUCCESS && env.getStore(env.chunkSectors).Ok?
    ensures var c0 := ChunkView({Loading}, None, SUCCESS);
            var s1 := NotifySpec(self, c0, a, env);
            var s2 := NotifySpec(self, s1.chunk, s1.area, env);
            s1.issued == Some(Region(env.getStore(env.chunkSectors).value.sector, env.sectorCount))
            && s2.chunk.flags == {BufferReady, StoreReady, InCache}
            && s2.chunk.diffStore == Some(env.getStore(env.chunkSectors).value)
            && s2.area.caching == a.caching + [self]
            && s2.area.cachingCount == a.cachingCount + 1
            && s2.area.corrupted == a.corrupted
  {
    var c0 := ChunkView({Loading}, None, SUCCESS);
    var s1 := NotifySpec(self, c0, a, env);
    assert s1.chunk.flags == {BufferReady, Storing};
    assert s1.chunk.flags - {Storing} + {StoreReady} == {BufferReady, StoreReady};
  }

  // ---------------------------------------------------------------------------
  // The objects
  // ---------------------------------------------------------------------------

  /** The fields of struct diff_area that the chunk code reads and writes. */
  class DiffArea {
    const inMemory: bool
    const chunkSectors: nat
    var corrupted: bool
    var errorCode: int
    var cachingChunks: seq<Chunk>
    var cachingChunksCount: nat

    constructor (inMemory: bool, chunkSectors: nat)
      ensures this.inMemory == inMemory && this.chunkSectors == chunkSectors
      ensures !corrupted && errorCode == 0 && cachingChunks == [] && cachingChunksCount == 0
    {
      this.inMemory := inMemory;
      this.chunkSectors := chunkSectors;
      corrupted := false;
      errorCode := 0;
      cachingChunks := [];
      cachingChunksCount := 0;
    }

    ghost function View(): AreaView<Chunk>
      reads this
    {
      AreaView(corrupted, errorCode, cachingChunks, cachingChunksCount)
    }
  }

  class Chunk {
    const diffArea: DiffArea
    const number: nat
    var sectorCount: nat
    var flags: set<Flag>
    var diffBuffer: DiffBuffer?
    var diffStore: Option<DiffStore>
    var error: int

    /** chunk_alloc (after a successful kzalloc): everything zero but the area and the number. */
    constructor (diffArea: DiffArea, number: nat)
      ensures this.diffArea == diffArea && this.number == number
      ensures sectorCount == 0 && flags == {} && diffBuffer == null && diffStore.None? && error == 0
    {
      this.diffArea := diffArea;
      this.number := number;
      sectorCount := 0;
      flags := {};
      diffBuffer := null;
      diffStore := None;
      error := 0;
    }

    ghost function View(): ChunkView
      reads this
    {
      ChunkView(flags, diffStore, error)
    }

    function EnvOf(getStore: nat -> Result<DiffStore>, dmIo: int, maximumInCache: nat): Env
      reads this, diffArea
    {
      Env(diffArea.inMemory, diffArea.chunkSectors, sectorCount, getStore, dmIo, maximumInCache)
    }

    /** chunk_allocate_buffer: a fully linked buffer of ChunkPageCount pages and sector_count * 512 bytes, or -ENOMEM. */
    method AllocateBuffer(headerOk: bool, pagesAvailable: nat) returns (res: int, released: nat)
      modifies this
      ensures res == (if ChunkPageCount(sectorCount) > 0 && headerOk && pagesAvailable >= ChunkPageCount(sectorCount)
                      then SUCCESS else -ENOMEM)
      ensures res == SUCCESS ==> (diffBuffer != null && fresh(diffBuffer) && fresh(diffBuffer.pages)
                                  && diffBuffer.size == sectorCount * SECTOR_SIZE
                                  && diffBuffer.pages.Length == ChunkPageCount(sectorCount)
                                  && LinkedPrefix(diffBuffer.pages[..], diffBuffer.pages.Length))
      ensures res != SUCCESS ==> diffBuffer == old(diffBuffer)
      ensures flags == old(flags) && diffStore == old(diffStore) && error == old(error)
      ensures sectorCount == old(sectorCount)
    {
      var pageCount := ChunkPageCount(sectorCount);
      var bufferSize := sectorCount * SECTOR_SIZE;
      var buf;
      buf, released := DiffBufferNew(pageCount, bufferSize, headerOk, pagesAvailable);
      if buf == null {
        return -ENOMEM, released;
      }
      diffBuffer := buf;
      res := SUCCESS;
    }

    /** chunk_free_buffer: release the buffer's pages, drop it and clear BUFFER_READY. */
    method FreeBuffer() returns (released: nat)
      requires diffBuffer != null ==> diffBuffer.pages.Length > 0 && ForwardLinked(diffBuffer.pages[..])
      modifies this
      ensures released == if old(diffBuffer) == null then 0 else PagesFrom(old(diffBuffer).pages[..], 0)
      ensures diffBuffer == null && flags == old(flags) - {BufferReady}
      ensures diffStore == old(diffStore) && error == old(error) && sectorCount == old(sectorCount)
    {
      released := DiffBufferFree(diffBuffer);
      diffBuffer := null;
      flags := flags - {BufferReady};
    }

    /** chunk_store_failed. */
    method StoreFailedAt(err: int)
      modifies this, diffArea
      ensures flags == old(flags) + {Failed}
      ensures diffArea.View() == SetCorrupted(old(diffArea.View()), err)
      ensures diffStore == old(diffStore) && error == old(error) && sectorCount == old(sectorCount)
      ensures diffBuffer == old(diffBuffer)
    {
      flags := flags + {Failed};
      diffArea.corrupted := true;
      diffArea.errorCode := err;
    }

    /** chunk_async_store_diff: set STORING and start writing sector_count sectors to the store. */
    method AsyncStoreDiff(dmIo: int) returns (ret: int, region: Region)
      requires diffStore.Some?
      modifies this
      ensures diffStore == old(diffStore) && error == old(error) && sectorCount == old(sectorCount)
      ensures flags == old(flags) + {Storing}
      ensures region == Region(diffStore.value.sector, sectorCount) && ret == dmIo
      ensures diffBuffer == old(diffBuffer)
    {
      region := Region(diffStore.value.sector, sectorCount);
      flags := flags + {Storing};
      ret := dmIo;
    }

    /**
     * chunk_asunc_load_orig: set LOADING and start reading sector_count
     * sectors from number * chunk_sectors (a 64-bit sector_t product).
     */
    method AsyncLoadOrig(dmIo: int) returns (ret: int, region: Region)
      modifies this
      ensures flags == old(flags) + {Loading}
      ensures region == Region((number * diffArea.chunkSectors) % U64, sectorCount) && ret == dmIo
      ensures diffStore == old(diffStore) && error == old(error) && sectorCount == old(sectorCount)
      ensures diffBuffer == old(diffBuffer)
    {
      region := Region((number * diffArea.chunkSectors) % U64, sectorCount);
      flags := flags + {Loading};
      ret := dmIo;
    }

    /** chunk_schedule_storing. */
    method ScheduleStoring(getStore: nat -> Result<DiffStore>, dmIo: int) returns (issued: Option<Region>)
      modifies this, diffArea
      ensures var s := StoringSpec(old(View()), old(diffArea.View()), old(EnvOf(getStore, dmIo, 0)));
              View() == s.chunk && diffArea.View() == s.area && issued == s.issued
      ensures sectorCount == old(sectorCount) && diffBuffer == old(diffBuffer)
    {
      if diffArea.inMemory {
        return None;
      }
      if diffStore.None? {
        var store := getStore(diffArea.chunkSectors);
        if store.Err? {
          StoreFailedAt(store.code);
          return None;
        }
        diffStore := Some(store.value);
      }
      var ret, region := AsyncStoreDiff(dmIo);
      issued := Some(region);
      if ret != SUCCESS {
        StoreFailedAt(ret);
      }
    }

    /** chunk_schedule_caching; the result is whether cache cleanup is queued. */
    method ScheduleCaching(maximumInCache: nat) returns (needCleanup: bool)
      modifies this, diffArea
      ensures var s := CachingSpec(this, old(View()), old(diffArea.View()), maximumInCache);
              View() == s.chunk && diffArea.View() == s.area && needCleanup == s.needCleanup
      ensures sectorCount == old(sectorCount) && diffBuffer == old(diffBuffer)
    {
      needCleanup := false;
      if InCache !in flags {
        flags := flags + {InCache};
        diffArea.cachingChunks := diffArea.cachingChunks + [this];
        diffArea.cachingChunksCount := diffArea.cachingChunksCount + 1;
        needCleanup := diffArea.cachingChunksCount > maximumInCache;
      }
    }

    /** chunk_notify_work. */
    method NotifyWork(getStore: nat -> Result<DiffStore>, dmIo: int, maximumInCache: nat)
      returns (issued: Option<Region>, needCleanup: bool)
      modifies this, diffArea
      ensures var s := NotifySpec(this, old(View()), old(diffArea.View()), old(EnvOf(getStore, dmIo, maximumInCache)));
              View() == s.chunk && diffArea.View() == s.area && issued == s.issued && needCleanup == s.needCleanup
      ensures sectorCount == old(sectorCount) && diffBuffer == old(diffBuffer)
    {
      issued, needCleanup := None, false;
      if error != SUCCESS {
        StoreFailedAt(error);
        return;
      }
      if Loading in flags {
        flags := flags - {Loading} + {BufferReady};
        issued := ScheduleStoring(getStore, dmIo);
        return;
      }
      if Storing in flags {
        flags := flags - {Storing} + {StoreReady};
        needCleanup := ScheduleCaching(maximumInCache);
        return;
      }
    }
  }

  /** chunk_alloc: null when kzalloc fails (`ok` false). */
  method ChunkAlloc(diffArea: DiffArea, number: nat, ok: bool) returns (chunk: Chunk?)
    ensures chunk != null <==> ok
    ensures chunk != null ==> (fresh(chunk) && chunk.diffArea == diffArea && chunk.number == number
                               && chunk.error == 0 && chunk.flags == {} && chunk.diffBuffer == null
                               && chunk.diffStore.None?)
  {
    if !ok {
      return null;
    }
    chunk := new Chunk(diffArea, number);
  }
}
