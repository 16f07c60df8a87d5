/** The page table, the padding and the block emission of the ELF to UF2 converter. */
module Elf2Uf2 {
  import opened Words

  const PAGE_SIZE := 256
  const SECTOR_SIZE := 4096
  const BLOCK_DATA := 476
  const PT_LOAD := 1

  datatype RangeKind = Contents | NoContents | Ignore
  datatype AddressRange = AddressRange(from: u32, to: u32, kind: RangeKind)
  datatype Entry = Entry(typ: u32, offset: u32, vaddr: u32, paddr: u32, filez: u32, memsz: u32)
  datatype Fragment = Fragment(fileOffset: u32, pageOffset: nat, bytes: nat)
  datatype Code = Ok | Incompatible | ReadFailed
  datatype Block = Block(header: Header, targetAddr: u32, blockNo: nat, numBlocks: nat, data: seq<byte>)

  /** The fields that are the same in every block. */
  datatype Header = Header(
    magicStart0: u32, magicStart1: u32, flags: u32, payloadSize: u32, familyId: u32, magicEnd: u32)

  const UF2_HEADER := Header(0x0A324655, 0x9E5D5157, 0x00002000, PAGE_SIZE, 0xE48BFF56, 0x0AB16F30)

  type Pages = map<u32, seq<Fragment>>

  const FLASH_RANGES: seq<AddressRange> := [
    AddressRange(0x10000000, 0x15000000, Contents),
    AddressRange(0x20000000, 0x20042000, NoContents),
    AddressRange(0x21000000, 0x21040000, NoContents)
  ]

  const RAM_RANGES: seq<AddressRange> := [
    AddressRange(0x20000000, 0x20042000, Contents),
    AddressRange(0x15000000, 0x15004000, Contents),
    AddressRange(0x00000000, 0x00004000, Ignore)
  ]

  function PageOf(a: u32): (p: u32)
    ensures p % PAGE_SIZE == 0 && p <= a < p + PAGE_SIZE <= TWO32
  {
    a - a % PAGE_SIZE
  }

  // ------------------------------------------------------------------
  // Reference meaning: what loading the segments puts at an address
  // ------------------------------------------------------------------

  /** The number of file bytes the entry puts in memory. */
  function MappedSize(e: Entry): u32 {
    if e.typ == PT_LOAD then Min(e.filez, e.memsz) else 0
  }

  predicate Fits(r: AddressRange, addr: u32, size: u32) {
    r.from <= addr && Add32(addr, size) <= r.to
  }

  /** The index of the first range that holds the interval, or |ranges|. */
  function FirstFit(ranges: seq<AddressRange>, addr: u32, size: u32): (i: nat)
    ensures i <= |ranges|
    ensures i < |ranges| ==> Fits(ranges[i], addr, size)
    ensures forall j | 0 <= j < i :: !Fits(ranges[j], addr, size)
  {
    if ranges == [] then 0
    else if Fits(ranges[0], addr, size) then 0
    else 1 + FirstFit(ranges[1..], addr, size)
  }

  /** The interval lies in a valid range, and that range may hold what is put there. */
  predicate Placeable(ranges: seq<AddressRange>, addr: u32, size: u32, uninitialized: bool) {
    var i := FirstFit(ranges, addr, size);
    i < |ranges| && (ranges[i].kind == NoContents ==> uninitialized)
  }

  /** The entry contributes file bytes to the image. */
  predicate Loads(e: Entry, ranges: seq<AddressRange>) {
    && MappedSize(e) > 0
    && Placeable(ranges, e.paddr, MappedSize(e), false)
    && ranges[FirstFit(ranges, e.paddr, MappedSize(e))].kind == Contents
  }

  /** The entry is accepted. An entry in an ignored range is accepted whatever its tail is. */
  predicate Accepted(e: Entry, ranges: seq<AddressRange>) {
    || e.typ != PT_LOAD
    || e.memsz == 0
    || ((MappedSize(e) > 0 ==> Placeable(ranges, e.paddr, MappedSize(e), false))
        && (((MappedSize(e) > 0 ==> Loads(e, ranges)) && e.memsz > e.filez) ==>
              Placeable(ranges, Add32(e.paddr, e.filez), e.memsz - e.filez, true)))
  }

  predicate Covers(paddr: u32, size: u32, a: u32) {
    Sub32(a, paddr) < size
  }

  /** The file position that the last loaded segment covering `a` puts there. */
  function ImageSource(entries: seq<Entry>, ranges: seq<AddressRange>, a: u32): Option<u32> {
    if entries == [] then None
    else
      var e := entries[|entries| - 1];
      if Loads(e, ranges) && Covers(e.paddr, MappedSize(e), a)
      then Some(Add32(e.offset, Sub32(a, e.paddr)))
      else ImageSource(entries[..|entries| - 1], ranges, a)
  }

  // ------------------------------------------------------------------
  // The page table
  // ------------------------------------------------------------------

  predicate InPage(f: Fragment) {
    0 < f.bytes && f.pageOffset + f.bytes <= PAGE_SIZE
  }

  predicate Hits(f: Fragment, off: nat) {
    f.pageOffset <= off < f.pageOffset + f.bytes
  }

  /** The file position of the last fragment over page offset `off`. */
  function PageSource(fragments: seq<Fragment>, off: nat): Option<u32>
    requires off < PAGE_SIZE
  {
    if fragments == [] then None
    else
      var f := fragments[|fragments| - 1];
      if Hits(f, off) then Some(Add32(f.fileOffset, off - f.pageOffset))
      else PageSource(fragments[..|fragments| - 1], off)
  }

  ghost predicate WellFormed(pages: Pages) {
    forall p | p in pages :: p % PAGE_SIZE == 0 && forall f | f in pages[p] :: InPage(f)
  }

  function Lookup(pages: Pages, a: u32): Option<u32> {
    if PageOf(a) in pages then PageSource(pages[PageOf(a)], a - PageOf(a)) else None
  }

  /** Every fragment can be read from a file of `n` bytes. */
  ghost predicate Readable(pages: Pages, n: nat) {
    forall p | p in pages :: FragmentsReadable(pages[p], n)
  }

  ghost predicate FragmentsReadable(fragments: seq<Fragment>, n: nat) {
    forall f | f in fragments :: f.fileOffset + f.bytes <= n
  }

  /** Some address of page `p` belongs to the segment. */
  ghost predicate Touches(paddr: u32, size: u32, p: u32) {
    exists a: u32 :: Covers(paddr, size, a) && PageOf(a) == p
  }

  lemma {:induction false} PageSourceIsSomeHit(fragments: seq<Fragment>, off: nat)
    requires off < PAGE_SIZE
    ensures PageSource(fragments, off).Some? <==> exists f :: f in fragments && Hits(f, off)
  {
    if fragments != [] {
      var k := |fragments| - 1;
      assert fragments == fragments[..k] + [fragments[k]];
      PageSourceIsSomeHit(fragments[..k], off);
    }
  }

  /** Some page offset of the interval has a source already. */
  ghost predicate Occupied(fragments: seq<Fragment>, off: nat, len: nat)
    requires off + len <= PAGE_SIZE
  {
    exists o :: off <= o < off + len && PageSource(fragments, o).Some?
  }

  lemma OverlapIsSource(fragments: seq<Fragment>, off: nat, len: nat)
    requires 0 < len && off + len <= PAGE_SIZE
    requires forall f | f in fragments :: InPage(f)
    ensures (exists f :: f in fragments && Overlap(f, off, len)) <==> Occupied(fragments, off, len)
  {
    if f :| f in fragments && Overlap(f, off, len) {
      var o := if off <= f.pageOffset then f.pageOffset else off;
      assert InPage(f) && Hits(f, o);
      PageSourceIsSomeHit(fragments, o);
    }
    if o :| off <= o < off + len && PageSource(fragments, o).Some? {
      PageSourceIsSomeHit(fragments, o);
      var f :| f in fragments && Hits(f, o);
      assert Overlap(f, off, len);
    }
  }

  /** The test made against each fragment of the page: it fires iff some byte is already covered. */
  method Collides(fragments: seq<Fragment>, off: nat, len: nat) returns (hit: bool)
    requires 0 < len && off + len <= PAGE_SIZE
    requires forall f | f in fragments :: InPage(f)
    ensures hit <==> Occupied(fragments, off, len)
  {
    hit := false;
    for i := 0 to |fragments|
      invariant hit <==> exists f :: f in fragments[..i] && Overlap(f, off, len)
    {
      var f := fragments[i];
      assert InPage(f);
      ghost var sofar := hit;
      if (off < f.pageOffset + f.bytes) != (off + len <= f.pageOffset) {
        hit := true;
      }
      assert hit <==> sofar || Overlap(f, off, len);
      assert fragments[..i + 1] == fragments[..i] + [f];
      assert f in fragments[..i + 1];
    }
    assert fragments[..|fragments|] == fragments;
    OverlapIsSource(fragments, off, len);
  }

  ghost predicate Overlap(f: Fragment, off: nat, len: nat) {
    off < f.pageOffset + f.bytes && f.pageOffset < off + len
  }

  // One chunk of a segment: the part that lies in one page.

  function Push(pages: Pages, addr: u32, fileOffset: u32, len: nat): Pages {
    var base: u32 := PageOf(addr);
    var old_ := if base in pages then pages[base] else [];
    pages[base := old_ + [Fragment(fileOffset, addr - base, len)]]
  }

  lemma PushLookup(pages: Pages, addr: u32, fileOffset: u32, len: nat, a: u32)
    requires addr + len <= PageOf(addr) + PAGE_SIZE
    ensures Lookup(Push(pages, addr, fileOffset, len), a) ==
            if addr <= a < addr + len then Some(Add32(fileOffset, a - addr)) else Lookup(pages, a)
  {
    var base: u32 := PageOf(addr);
    var old_ := if base in pages then pages[base] else [];
    var f := Fragment(fileOffset, addr - base, len);
    if PageOf(a) == base {
      var now := old_ + [f];
      assert now[..|now| - 1] == old_ && now[|now| - 1] == f;
      assert PageSource(now, a - base) ==
             if Hits(f, a - base) then Some(Add32(fileOffset, a - addr)) else PageSource(old_, a - base);
    }
  }

  /** Extending a covered interval by one chunk, in wrapping arithmetic. */
  lemma CoversStep(paddr: u32, done: u32, len: nat, a: u32)
    requires 0 < len && done + len < TWO32
    requires Add32(paddr, done) + len <= PageOf(Add32(paddr, done)) + PAGE_SIZE
    ensures Covers(paddr, done + len, a) <==>
            (Covers(paddr, done, a) || Add32(paddr, done) <= a < Add32(paddr, done) + len)
    ensures Add32(paddr, done) <= a < Add32(paddr, done) + len ==>
              Sub32(a, paddr) == done + (a - Add32(paddr, done))
  {
  }

  /** `pages` is `was` with the first `size` bytes of the segment laid over it. */
  ghost predicate Laid(pages: Pages, was: Pages, paddr: u32, offset: u32, size: u32) {
    forall a: u32 :: Lookup(pages, a) ==
      if Covers(paddr, size, a) then Some(Add32(offset, Sub32(a, paddr))) else Lookup(was, a)
  }

  /** Some byte of the segment was already supplied by an earlier one. */
  ghost predicate Clash(was: Pages, paddr: u32, size: u32) {
    exists a: u32 :: Covers(paddr, size, a) && Lookup(was, a).Some?
  }

  /** The next chunk of a segment stays in one page. */
  predicate ChunkFits(paddr: u32, done: u32, len: nat) {
    && 0 < len && done + len < TWO32
    && Add32(paddr, done) + len <= PageOf(Add32(paddr, done)) + PAGE_SIZE
  }

  lemma AddTwice(x: u32, y: u32, d: nat)
    requires y + d < TWO32
    ensures Add32(Add32(x, y), d) == Add32(x, y + d)
  {
  }

  lemma ChunkLaidAt(pages: Pages, was: Pages, paddr: u32, offset: u32, done: u32, len: nat, a: u32)
    requires ChunkFits(paddr, done, len)
    requires Lookup(pages, a) ==
             if Covers(paddr, done, a) then Some(Add32(offset, Sub32(a, paddr))) else Lookup(was, a)
    ensures Lookup(Push(pages, Add32(paddr, done), Add32(offset, done), len), a) ==
            if Covers(paddr, done + len, a) then Some(Add32(offset, Sub32(a, paddr))) else Lookup(was, a)
  {
    var addr := Add32(paddr, done);
    PushLookup(pages, addr, Add32(offset, done), len, a);
    CoversStep(paddr, done, len, a);
    if addr <= a < addr + len {
      AddTwice(offset, done, a - addr);
    }
  }

  lemma ChunkLaid(pages: Pages, was: Pages, paddr: u32, offset: u32, done: u32, len: nat)
    requires ChunkFits(paddr, done, len) && Laid(pages, was, paddr, offset, done)
    ensures Laid(Push(pages, Add32(paddr, done), Add32(offset, done), len), was, paddr, offset, done + len)
  {
    forall a: u32
      ensures Lookup(Push(pages, Add32(paddr, done), Add32(offset, done), len), a) ==
              if Covers(paddr, done + len, a) then Some(Add32(offset, Sub32(a, paddr))) else Lookup(was, a)
    {
      ChunkLaidAt(pages, was, paddr, offset, done, len, a);
    }
  }

  lemma ChunkTouches(paddr: u32, done: u32, len: nat, p: u32)
    requires ChunkFits(paddr, done, len)
    ensures Touches(paddr, done + len, p) <==> Touches(paddr, done, p) || p == PageOf(Add32(paddr, done))
  {
    var addr := Add32(paddr, done);
    forall a: u32
      ensures Covers(paddr, done + len, a) <==> Covers(paddr, done, a) || addr <= a < addr + len
    {
      CoversStep(paddr, done, len, a);
    }
    if p == PageOf(addr) {
      assert Covers(paddr, done + len, addr);
    }
  }

  lemma ChunkClash(pages: Pages, was: Pages, paddr: u32, offset: u32, done: u32, len: nat)
    requires ChunkFits(paddr, done, len) && Laid(pages, was, paddr, offset, done)
    ensures Clash(was, paddr, done + len) <==>
            Clash(was, paddr, done) || ChunkHit(pages, Add32(paddr, done), len)
  {
    var addr := Add32(paddr, done);
    forall a: u32
      ensures Covers(paddr, done + len, a) <==> Covers(paddr, done, a) || addr <= a < addr + len
      ensures addr <= a < addr + len ==> !Covers(paddr, done, a) && Lookup(pages, a) == Lookup(was, a)
    {
      CoversStep(paddr, done, len, a);
    }
    if ChunkHit(pages, addr, len) {
      var a: u32 :| addr <= a < addr + len && Lookup(pages, a).Some?;
      assert Covers(paddr, done + len, a) && Lookup(was, a).Some?;
    }
    if Clash(was, paddr, done + len) && !Clash(was, paddr, done) {
      var a: u32 :| Covers(paddr, done + len, a) && Lookup(was, a).Some?;
      assert Lookup(pages, a).Some?;
    }
    if Clash(was, paddr, done) {
      var a: u32 :| Covers(paddr, done, a) && Lookup(was, a).Some?;
      assert Covers(paddr, done + len, a);
    }
  }

  ghost predicate ChunkHit(pages: Pages, addr: u32, len: nat) {
    exists a: u32 :: addr <= a < addr + len && Lookup(pages, a).Some?
  }

  lemma PageOfIs(base: u32, a: u32)
    requires base % PAGE_SIZE == 0 && base <= a < base + PAGE_SIZE
    ensures PageOf(a) == base
  {
  }

  lemma OccupiedIsHit(pages: Pages, addr: u32, len: nat)
    requires addr + len <= PageOf(addr) + PAGE_SIZE
    ensures ChunkHit(pages, addr, len) <==>
            Occupied(if PageOf(addr) in pages then pages[PageOf(addr)] else [], addr - PageOf(addr), len)
  {
    var base: u32 := PageOf(addr);
    var fragments := if base in pages then pages[base] else [];
    forall a: u32 | addr <= a < addr + len
      ensures Lookup(pages, a) == PageSource(fragments, a - base)
    {
      PageOfIs(base, a);
    }
    var off := addr - base;
    if o :| off <= o < off + len && PageSource(fragments, o).Some? {
      var a: u32 := base + o;
      assert Lookup(pages, a).Some?;
    }
  }

  lemma ChunkReadable(pages: Pages, addr: u32, fileOffset: u32, len: nat, n: nat)
    ensures Readable(Push(pages, addr, fileOffset, len), n) <==> Readable(pages, n) && fileOffset + len <= n
  {
    var base: u32 := PageOf(addr);
    var old_ := if base in pages then pages[base] else [];
    var f := Fragment(fileOffset, addr - base, len);
    var pushed := Push(pages, addr, fileOffset, len);
    assert forall g :: g in old_ + [f] <==> g in old_ || g == f;
    assert f in pushed[base];
    if Readable(pushed, n) {
      forall p | p in pages ensures FragmentsReadable(pages[p], n) {
        assert FragmentsReadable(pushed[p], n);
      }
    }
  }

  /** The pages present are the old ones and those the segment touches. */
  ghost predicate Grown(pages: Pages, was: Pages, paddr: u32, size: u32) {
    forall p: u32 :: p in pages <==> p in was || Touches(paddr, size, p)
  }

  /** What is true once the first `done` bytes of a segment have been split into pages. */
  ghost predicate Progress(pages: Pages, was: Pages, paddr: u32, offset: u32, done: u32, overlap: bool, n: nat) {
    && WellFormed(pages)
    && Laid(pages, was, paddr, offset, done)
    && Grown(pages, was, paddr, done)
    && (overlap <==> Clash(was, paddr, done))
    && (offset + done <= TWO32 || n < TWO32 ==>
          (Readable(pages, n) <==> Readable(was, n) && (done > 0 ==> offset + done <= n)))
  }

  lemma ProgressStart(pages: Pages, paddr: u32, offset: u32, n: nat)
    requires WellFormed(pages)
    ensures Progress(pages, pages, paddr, offset, 0, false, n)
  {
  }

  /** The next chunk ends at the page boundary or with the segment. */
  lemma NextChunkFits(paddr: u32, offset: u32, done: u32, size: u32, len: nat)
    requires done < size
    requires len == Min(size - done, PAGE_SIZE - Add32(paddr, done) % PAGE_SIZE)
    ensures ChunkFits(paddr, done, len)
    ensures len <= PAGE_SIZE && Add32(Add32(paddr, done), len) == Add32(paddr, done + len)
    ensures Add32(Add32(offset, done), len) == Add32(offset, done + len)
  {
  }

  lemma ProgressStep(pages: Pages, was: Pages, paddr: u32, offset: u32, done: u32, len: nat,
                     overlap: bool, hit: bool, n: nat)
    requires ChunkFits(paddr, done, len) && Progress(pages, was, paddr, offset, done, overlap, n)
    requires WellFormed(Push(pages, Add32(paddr, done), Add32(offset, done), len))
    requires hit <==> ChunkHit(pages, Add32(paddr, done), len)
    ensures Progress(Push(pages, Add32(paddr, done), Add32(offset, done), len),
                     was, paddr, offset, done + len, overlap || hit, n)
  {
    ChunkLaid(pages, was, paddr, offset, done, len);
    ChunkClash(pages, was, paddr, offset, done, len);
    forall p: u32
      ensures Touches(paddr, done + len, p) <==> Touches(paddr, done, p) || p == PageOf(Add32(paddr, done))
    {
      ChunkTouches(paddr, done, len, p);
    }
    if offset + done + len <= TWO32 || n < TWO32 {
      ChunkReadable(pages, Add32(paddr, done), Add32(offset, done), len, n);
    }
  }

  /** The table of page fragments, `std::map` keyed by page address. */
  class PageTable {
    var pages: Pages

    constructor ()
      ensures pages == map[]
    {
      pages := map[];
    }

    /** Adds the fragment for a chunk that lies in one page, and tests it against the others there. */
    method AddChunk(addr: u32, fileOffset: u32, len: nat) returns (hit: bool)
      requires WellFormed(pages)
      requires 0 < len && addr + len <= PageOf(addr) + PAGE_SIZE
      modifies this
      ensures WellFormed(pages) && pages == Push(old(pages), addr, fileOffset, len)
      ensures hit <==> ChunkHit(old(pages), addr, len)
    {
      var off := addr % PAGE_SIZE;
      var base: u32 := addr - off;
      if base !in pages {
        pages := pages[base := []];
      }
      hit := Collides(pages[base], off, len);
      OccupiedIsHit(old(pages), addr, len);
      pages := pages[base := pages[base] + [Fragment(fileOffset, off, len)]];
    }

    /** One iteration: the next chunk of the segment, `done` bytes in. */
    method AddNext(addr: u32, fileOffset: u32, remaining: u32, overlap: bool, ghost was: Pages,
                   ghost paddr: u32, ghost offset: u32, ghost done: u32, ghost n: nat)
      returns (len: nat, overlap': bool)
      requires 0 < remaining && done + remaining < TWO32
      requires addr == Add32(paddr, done) && fileOffset == Add32(offset, done)
      requires Progress(pages, was, paddr, offset, done, overlap, n)
      modifies this
      ensures 0 < len <= remaining && len <= PAGE_SIZE
      ensures Add32(addr, len) == Add32(paddr, done + len) && Add32(fileOffset, len) == Add32(offset, done + len)
      ensures Progress(pages, was, paddr, offset, done + len, overlap', n)
    {
      len := Min(remaining, PAGE_SIZE - addr % PAGE_SIZE);
      NextChunkFits(paddr, offset, done, done + remaining, len);
      ghost var before := pages;
      var hit := AddChunk(addr, fileOffset, len);
      ProgressStep(before, was, paddr, offset, done, len, overlap, hit, n);
      overlap' := overlap || hit;
    }

    /** Splits one segment into page fragments. The overlap test only reports. */
    method AddSegment(paddr: u32, offset: u32, size: u32, ghost n: nat) returns (overlap: bool)
      requires WellFormed(pages)
      modifies this
      ensures Progress(pages, old(pages), paddr, offset, size, overlap, n)
    {
      var addr, remaining, fileOffset := paddr, size, offset;
      overlap := false;
      ProgressStart(pages, paddr, offset, n);
      while remaining > 0
        invariant 0 <= remaining <= size
        invariant addr == Add32(paddr, size - remaining)
        invariant fileOffset == Add32(offset, size - remaining)
        invariant Progress(pages, old(pages), paddr, offset, size - remaining, overlap, n)
      {
        var len;
        len, overlap := AddNext(addr, fileOffset, remaining, overlap, old(pages), paddr, offset, size - remaining, n);
        addr, fileOffset := Add32(addr, len), Add32(fileOffset, len);
        remaining := remaining - len;
      }
    }

    /** Fills each touched flash sector, except the last, with empty pages. */
    method Pad() returns (lastPage: u32)
      requires WellFormed(pages) && pages != map[]
      modifies this
      ensures Greatest(lastPage, old(pages).Keys)
      ensures PadState(pages, old(pages), lastPage, Sectors(old(pages)), 0, 0)
    {
      GreatestExists(pages.Keys);
      lastPage :| Greatest(lastPage, pages.Keys);
      ghost var was, padded := pages, {};
      var sectors := Sectors(pages);
      while sectors != {}
        invariant padded + sectors == Sectors(was)
        invariant PadState(pages, was, lastPage, padded, 0, 0)
        decreases sectors
      {
        var sector :| sector in sectors;
        PadSector(sector, lastPage, was, padded);
        sectors := sectors - {sector};
        padded := padded + {sector};
      }
    }

    method PadSector(sector: int, lastPage: u32, ghost was: Pages, ghost padded: set<int>)
      requires 0 <= sector < SECTORS && PadState(pages, was, lastPage, padded, 0, 0)
      modifies this
      ensures PadState(pages, was, lastPage, padded + {sector}, 0, 0)
    {
      var page := sector * SECTOR_SIZE;
      var limit := SectorLimit(sector);
      PaddingStart(sector);
      while page < limit
        invariant InPadding(sector, page, limit)
        invariant PadState(pages, was, lastPage, padded, sector * SECTOR_SIZE, page)
        decreases limit - page
      {
        PaddingStep(sector, page, limit);
        PadPage(page, lastPage, was, padded, sector * SECTOR_SIZE);
        page := page + PAGE_SIZE;
      }
      SectorPadded(pages, was, lastPage, padded, sector, page, limit);
    }

    /** One iteration: the page is created if it is missing below the last page. */
    method PadPage(page: u32, lastPage: u32, ghost was: Pages, ghost padded: set<int>, ghost start: int)
      requires start <= page && page % PAGE_SIZE == 0 && PadState(pages, was, lastPage, padded, start, page)
      modifies this
      ensures PadState(pages, was, lastPage, padded, start, page + PAGE_SIZE)
    {
      PadStep(pages, was, lastPage, padded, start, page);
      if page < lastPage && page !in pages {
        pages := pages[page := []];
      }
    }

    /** The entry point check of a RAM binary, over the pages in address order. */
    method EntersLowestPage(entryPoint: u32) returns (ok: bool)
      requires WellFormed(pages)
      ensures ok <==> LowestPage(pages.Keys, entryPoint)
    {
      var expectedMain, expectedXip := UINT32_MAX, UINT32_MAX;
      var rest := pages.Keys;
      ghost var done := {};
      while rest != {}
        invariant done + rest == pages.Keys && Below(done, rest)
        invariant ExpectedEntry(expectedMain, done, MAIN_RAM_START, MAIN_RAM_END)
        invariant ExpectedEntry(expectedXip, done, XIP_SRAM_START, XIP_SRAM_END)
        decreases rest
      {
        LeastExists(rest);
        var page :| Least(page, rest);
        BelowStep(done, rest, page);
        if InMainRam(page) && page < expectedMain {
          expectedMain := page + 1;
        } else if InXipSram(page) && page < expectedXip {
          expectedXip := page + 1;
        }
        done := done + {page};
        rest := rest - {page};
      }
      assert done == pages.Keys;
      var expected := if expectedMain != UINT32_MAX then expectedMain else expectedXip;
      ok := entryPoint != expectedXip && entryPoint == expected;
    }

    /** Emits one block for each page, in address order. */
    method Emit(file: seq<byte>) returns (code: Code, blocks: seq<Block>)
      requires WellFormed(pages) && |file| <= TWO32
      ensures code == (if Readable(pages, |file|) then Ok else ReadFailed)
      ensures code == Ok ==> BlocksOf(blocks, pages, pages.Keys, file)
    {
      blocks := [];
      var pageNum := 0;
      var rest := pages.Keys;
      ghost var done := {};
      while rest != {}
        invariant pageNum == |blocks| && Emitted(blocks, pages, done, rest, file)
        decreases rest
      {
        LeastExists(rest);
        var page :| Least(page, rest);
        var data, ok := RealizeBlock(file, pages[page]);
        if !ok {
          return ReadFailed, blocks;
        }
        EmitStep(blocks, pages, done, rest, file, page, data);
        done := done + {page};
        blocks := blocks + [Block(UF2_HEADER, page, pageNum, |pages|, data)];
        pageNum := pageNum + 1;
        rest := rest - {page};
      }
      assert done == pages.Keys;
      code := Ok;
    }
  }

  // ------------------------------------------------------------------
  // Padding
  // ------------------------------------------------------------------

  predicate Least(m: u32, s: set<u32>) {
    m in s && forall q | q in s :: m <= q
  }

  predicate Greatest(m: u32, s: set<u32>) {
    m in s && forall q | q in s :: q <= m
  }

  lemma {:induction false} LeastExists(s: set<u32>)
    requires s != {}
    ensures exists m :: Least(m, s)
  {
    var x :| x in s;
    if s == {x} {
      assert Least(x, s);
    } else {
      LeastExists(s - {x});
      var m :| Least(m, s - {x});
      var r := if x < m then x else m;
      assert forall q | q in s :: q == x || q in s - {x};
      assert Least(r, s);
    }
  }

  lemma {:induction false} GreatestExists(s: set<u32>)
    requires s != {}
    ensures exists m :: Greatest(m, s)
  {
    var x :| x in s;
    if s == {x} {
      assert Greatest(x, s);
    } else {
      GreatestExists(s - {x});
      var m :| Greatest(m, s - {x});
      var r := if x > m then x else m;
      assert forall q | q in s :: q == x || q in s - {x};
      assert Greatest(r, s);
    }
  }

  /** Padding done for the sectors of `padded` and for the pages of [start, page). */
  ghost predicate PadState(pages: Pages, was: Pages, last: u32, padded: set<int>, start: int, page: int) {
    && (forall p: u32 :: p in pages <==>
          p in was || (p % PAGE_SIZE == 0 && p < last && (PaddedSector(p, padded) || start <= p < page)))
    && (forall p | p in was :: pages[p] == was[p])
    && (forall p | p in pages && p !in was :: pages[p] == [])
  }

  lemma PadStep(pages: Pages, was: Pages, last: u32, padded: set<int>, start: int, page: u32)
    requires start <= page && page % PAGE_SIZE == 0 && PadState(pages, was, last, padded, start, page)
    ensures PadState(if page < last && page !in pages then pages[page := []] else pages,
                     was, last, padded, start, page + PAGE_SIZE)
  {
    var now := if page < last && page !in pages then pages[page := []] else pages;
    forall p: u32 | p % PAGE_SIZE == 0
      ensures start <= p < page + PAGE_SIZE <==> start <= p < page || p == page
    {
    }
  }

  /** The bound of a sector's loop, in 32 bits. */
  function SectorLimit(sector: int): int {
    if sector + 1 < SECTORS then (sector + 1) * SECTOR_SIZE else 0
  }

  /** The loop variable of one sector; when the limit has wrapped to 0 there is nothing to do. */
  predicate InPadding(sector: int, page: int, limit: int) {
    && limit == SectorLimit(sector)
    && exists k :: PagesDone(sector, page, k) && 0 <= k <= if limit == 0 then 0 else 16
  }

  predicate PagesDone(sector: int, page: int, k: int) {
    page == sector * SECTOR_SIZE + k * PAGE_SIZE
  }

  lemma PaddingStart(sector: int)
    ensures InPadding(sector, sector * SECTOR_SIZE, SectorLimit(sector))
  {
    assert PagesDone(sector, sector * SECTOR_SIZE, 0);
  }

  lemma PaddingStep(sector: int, page: int, limit: int)
    requires 0 <= sector < SECTORS && InPadding(sector, page, limit) && page < limit
    ensures 0 <= sector * SECTOR_SIZE <= page < TWO32 && page % PAGE_SIZE == 0
    ensures InPadding(sector, page + PAGE_SIZE, limit)
  {
    var k :| PagesDone(sector, page, k) && 0 <= k <= if limit == 0 then 0 else 16;
    assert PagesDone(sector, page + PAGE_SIZE, k + 1);
  }

  lemma SectorPadded(pages: Pages, was: Pages, last: u32, padded: set<int>, sector: int, page: int, limit: int)
    requires 0 <= sector < SECTORS && InPadding(sector, page, limit) && page >= limit
    requires PadState(pages, was, last, padded, sector * SECTOR_SIZE, page)
    ensures PadState(pages, was, last, padded + {sector}, 0, 0)
  {
    forall p: u32
      ensures PaddedSector(p, padded + {sector}) <==> PaddedSector(p, padded) || sector * SECTOR_SIZE <= p < page
    {
      SectorBounds(p, sector);
    }
  }

  const SECTORS := 0x10_0000

  function SectorOf(p: u32): (s: int)
    ensures 0 <= s < SECTORS
  {
    p / SECTOR_SIZE
  }

  function Sectors(pages: Pages): set<int> {
    set p | p in pages :: SectorOf(p)
  }

  /** The loop bound wraps to 0 for the topmost sector, which is therefore never padded. */
  predicate PaddedSector(p: u32, padded: set<int>) {
    SectorOf(p) in padded && SectorOf(p) + 1 < SECTORS
  }

  lemma SectorBounds(p: u32, sector: int)
    requires 0 <= sector < SECTORS
    ensures SectorOf(p) == sector <==> sector * SECTOR_SIZE <= p < (sector + 1) * SECTOR_SIZE
  {
  }

  // ------------------------------------------------------------------
  // Emission
  // ------------------------------------------------------------------

  /** The byte a page's fragments give at an offset; 0 where no fragment reaches. */
  function PageByte(file: seq<byte>, fragments: seq<Fragment>, off: nat): byte
    requires off < PAGE_SIZE
  {
    match PageSource(fragments, off)
    case Some(pos) => if pos < |file| then file[pos] else 0
    case None => 0
  }

  ghost predicate BlockOf(b: Block, i: nat, pages: Pages, file: seq<byte>) {
    && b.header == UF2_HEADER && b.targetAddr in pages
    && b.blockNo == i && b.numBlocks == |pages|
    && DataOf(b.data, pages[b.targetAddr], file)
  }

  /** The page's bytes, and zeros in the rest of the block's data area. */
  ghost predicate DataOf(data: seq<byte>, fragments: seq<Fragment>, file: seq<byte>) {
    && |data| == BLOCK_DATA
    && (forall o | 0 <= o < PAGE_SIZE :: data[o] == PageByte(file, fragments, o))
    && (forall o | PAGE_SIZE <= o < BLOCK_DATA :: data[o] == 0)
  }

  /** `addrs` lists the members of `keys` in increasing order. */
  ghost predicate Enumerates(addrs: seq<u32>, keys: set<u32>) {
    && |addrs| == |keys|
    && (forall i, j | 0 <= i < j < |addrs| :: addrs[i] < addrs[j])
    && (forall p: u32 :: p in addrs <==> p in keys)
  }

  lemma EnumeratesStep(addrs: seq<u32>, keys: set<u32>, p: u32)
    requires Enumerates(addrs, keys) && forall q | q in keys :: q < p
    ensures Enumerates(addrs + [p], keys + {p})
  {
    var all := addrs + [p];
    forall i, j | 0 <= i < j < |all|
      ensures all[i] < all[j]
    {
      assert addrs[i] in addrs;
    }
  }

  function Addresses(blocks: seq<Block>): (addrs: seq<u32>)
    ensures |addrs| == |blocks| && forall i | 0 <= i < |blocks| :: addrs[i] == blocks[i].targetAddr
  {
    if blocks == [] then [] else Addresses(blocks[..|blocks| - 1]) + [blocks[|blocks| - 1].targetAddr]
  }

  /** The blocks are those of the pages in `keys`, in address order. */
  ghost predicate BlocksOf(blocks: seq<Block>, pages: Pages, keys: set<u32>, file: seq<byte>) {
    && Enumerates(Addresses(blocks), keys)
    && (forall i | 0 <= i < |blocks| :: BlockOf(blocks[i], i, pages, file))
  }

  lemma BlocksStep(blocks: seq<Block>, b: Block, pages: Pages, keys: set<u32>, file: seq<byte>)
    requires BlocksOf(blocks, pages, keys, file) && BlockOf(b, |blocks|, pages, file)
    requires forall p | p in keys :: p < b.targetAddr
    ensures BlocksOf(blocks + [b], pages, keys + {b.targetAddr}, file)
  {
    EnumeratesStep(Addresses(blocks), keys, b.targetAddr);
    var all := blocks + [b];
    assert all[..|blocks|] == blocks;
    forall i | 0 <= i < |all|
      ensures BlockOf(all[i], i, pages, file)
    {
      assert all[i] == if i < |blocks| then blocks[i] else b;
    }
  }

  /** The pages of `done` have been read and written, those of `rest` have not. */
  ghost predicate Emitted(blocks: seq<Block>, pages: Pages, done: set<u32>, rest: set<u32>, file: seq<byte>) {
    && done + rest == pages.Keys
    && Below(done, rest)
    && (forall p | p in done :: FragmentsReadable(pages[p], |file|))
    && BlocksOf(blocks, pages, done, file)
  }

  ghost predicate Below(done: set<u32>, rest: set<u32>) {
    forall p | p in done :: forall q | q in rest :: p < q
  }

  lemma EmitStep(blocks: seq<Block>, pages: Pages, done: set<u32>, rest: set<u32>, file: seq<byte>,
                 page: u32, data: seq<byte>)
    requires Emitted(blocks, pages, done, rest, file) && Least(page, rest)
    requires FragmentsReadable(pages[page], |file|)
    requires DataOf(data, pages[page], file)
    ensures Emitted(blocks + [Block(UF2_HEADER, page, |blocks|, |pages|, data)], pages,
                    done + {page}, rest - {page}, file)
  {
    BelowStep(done, rest, page);
    BlocksStep(blocks, Block(UF2_HEADER, page, |blocks|, |pages|, data), pages, done, file);
  }

  lemma BelowStep(done: set<u32>, rest: set<u32>, page: u32)
    requires Below(done, rest) && Least(page, rest)
    ensures page !in done && forall p | p in done :: p < page
    ensures Below(done + {page}, rest - {page}) && done + {page} + (rest - {page}) == done + rest
  {
  }

  /** A fresh zeroed block buffer, filled from the fragments of one page. */
  method RealizeBlock(file: seq<byte>, fragments: seq<Fragment>) returns (data: seq<byte>, ok: bool)
    requires |file| <= TWO32
    requires forall f | f in fragments :: InPage(f)
    ensures ok <==> FragmentsReadable(fragments, |file|)
    ensures ok ==> DataOf(data, fragments, file)
  {
    var buf := new byte[BLOCK_DATA](_ => 0);
    ok := RealizePage(file, fragments, buf);
    data := buf[..];
  }

  /** Reads the fragments of a page into a zeroed buffer; a later fragment overwrites an earlier one. */
  method RealizePage(file: seq<byte>, fragments: seq<Fragment>, buf: array<byte>) returns (ok: bool)
    requires buf.Length >= PAGE_SIZE && |file| <= TWO32
    requires forall f | f in fragments :: InPage(f)
    requires forall o | 0 <= o < buf.Length :: buf[o] == 0
    modifies buf
    ensures ok <==> FragmentsReadable(fragments, |file|)
    ensures ok ==> forall o | 0 <= o < PAGE_SIZE :: buf[o] == PageByte(file, fragments, o)
    ensures forall o | PAGE_SIZE <= o < buf.Length :: buf[o] == 0
  {
    for i := 0 to |fragments|
      invariant FragmentsReadable(fragments[..i], |file|)
      invariant forall o | 0 <= o < PAGE_SIZE :: buf[o] == PageByte(file, fragments[..i], o)
      invariant forall o | PAGE_SIZE <= o < buf.Length :: buf[o] == 0
    {
      var f := fragments[i];
      if f.fileOffset + f.bytes > |file| {
        return false;
      }
      assert InPage(f);
      forall k | 0 <= k < f.bytes {
        buf[f.pageOffset + k] := file[f.fileOffset + k];
      }
      ghost var now := fragments[..i + 1];
      assert now[..|now| - 1] == fragments[..i] && now[|now| - 1] == f;
    }
    assert fragments[..|fragments|] == fragments;
    ok := true;
  }

  // ------------------------------------------------------------------
  // Checking the segments
  // ------------------------------------------------------------------

  method CheckAddressRange(ranges: seq<AddressRange>, addr: u32, size: u32, uninitialized: bool)
    returns (code: Code, range: AddressRange)
    ensures code == if Placeable(ranges, addr, size, uninitialized) then Ok else Incompatible
    ensures code == Ok ==> range == ranges[FirstFit(ranges, addr, size)]
  {
    range := AddressRange(0, 0, Ignore);
    for i := 0 to |ranges|
      invariant forall j | 0 <= j < i :: !Fits(ranges[j], addr, size)
    {
      if Fits(ranges[i], addr, size) {
        if ranges[i].kind == NoContents && !uninitialized {
          return Incompatible, range;
        }
        return Ok, ranges[i];
      }
    }
    code := Incompatible;
  }

  /** Page `p` holds a byte of some loaded segment. */
  ghost predicate Mapped(entries: seq<Entry>, ranges: seq<AddressRange>, p: u32) {
    exists a: u32 :: PageOf(a) == p && ImageSource(entries, ranges, a).Some?
  }

  /** `e` is loaded over a byte that one of the `earlier` entries already supplied. */
  ghost predicate Overlaps(earlier: seq<Entry>, e: Entry, ranges: seq<AddressRange>) {
    && Loads(e, ranges)
    && exists a: u32 :: Covers(e.paddr, MappedSize(e), a) && ImageSource(earlier, ranges, a).Some?
  }

  /** One of the first `n` entries overlaps one before it. */
  ghost predicate AnyOverlap(entries: seq<Entry>, ranges: seq<AddressRange>, n: nat)
    requires n <= |entries|
  {
    exists j :: 0 <= j < n && Overlaps(entries[..j], entries[j], ranges)
  }

  predicate NoFileWrap(entries: seq<Entry>, ranges: seq<AddressRange>) {
    forall e | e in entries && Loads(e, ranges) :: e.offset + MappedSize(e) <= TWO32
  }

  /** No file position wraps to one that exists. */
  predicate Limited(entries: seq<Entry>, ranges: seq<AddressRange>, n: nat) {
    n < TWO32 || NoFileWrap(entries, ranges)
  }

  predicate InFile(entries: seq<Entry>, ranges: seq<AddressRange>, n: nat) {
    forall e | e in entries && Loads(e, ranges) :: e.offset + MappedSize(e) <= n
  }

  /** The page table represents the loaded segments of `entries`. */
  ghost predicate Represents(pages: Pages, entries: seq<Entry>, ranges: seq<AddressRange>, n: nat) {
    && WellFormed(pages)
    && (forall a: u32 :: Lookup(pages, a) == ImageSource(entries, ranges, a))
    && (forall p: u32 :: p in pages <==> Mapped(entries, ranges, p))
    && (Limited(entries, ranges, n) ==> (Readable(pages, n) <==> InFile(entries, ranges, n)))
  }

  lemma RepresentsLoad(pages: Pages, was: Pages, entries: seq<Entry>, e: Entry, ranges: seq<AddressRange>,
                       overlap: bool, n: nat)
    requires Represents(was, entries, ranges, n) && Loads(e, ranges)
    requires Progress(pages, was, e.paddr, e.offset, MappedSize(e), overlap, n)
    ensures Represents(pages, entries + [e], ranges, n)
    ensures overlap <==> Overlaps(entries, e, ranges)
  {
    var all := entries + [e];
    assert all[..|entries|] == entries;
    assert forall g :: g in all <==> g in entries || g == e;
    forall a: u32
      ensures Lookup(pages, a) == ImageSource(all, ranges, a)
      ensures ImageSource(all, ranges, a).Some? <==>
              Covers(e.paddr, MappedSize(e), a) || ImageSource(entries, ranges, a).Some?
    {
      assert Lookup(was, a) == ImageSource(entries, ranges, a);
    }
    forall p: u32
      ensures p in pages <==> Mapped(all, ranges, p)
    {
      assert p in pages <==> Mapped(entries, ranges, p) || Touches(e.paddr, MappedSize(e), p);
    }
  }

  lemma RepresentsSkip(pages: Pages, entries: seq<Entry>, e: Entry, ranges: seq<AddressRange>, n: nat)
    requires Represents(pages, entries, ranges, n) && !Loads(e, ranges)
    ensures Represents(pages, entries + [e], ranges, n)
  {
    var all := entries + [e];
    assert all[..|entries|] == entries;
    assert forall g :: g in all <==> g in entries || g == e;
    forall a: u32
      ensures ImageSource(all, ranges, a) == ImageSource(entries, ranges, a)
    {
    }
    forall p: u32
      ensures Mapped(all, ranges, p) <==> Mapped(entries, ranges, p)
    {
    }
  }

  /** What is true once the first `i` entries have been accepted. */
  ghost predicate Checked(pages: Pages, entries: seq<Entry>, i: nat, ranges: seq<AddressRange>, overlap: bool, n: nat)
    requires i <= |entries|
  {
    && AllAccepted(entries[..i], ranges)
    && Represents(pages, entries[..i], ranges, n)
    && (overlap <==> AnyOverlap(entries, ranges, i))
  }

  /** One entry: range check, page fragments, range check of the uninitialized tail. */
  method CheckEntry(e: Entry, ranges: seq<AddressRange>, table: PageTable, ghost earlier: seq<Entry>, ghost n: nat)
    returns (code: Code, overlap: bool)
    requires Represents(table.pages, earlier, ranges, n)
    modifies table
    ensures code == if Accepted(e, ranges) then Ok else Incompatible
    ensures code == Ok ==> Represents(table.pages, earlier + [e], ranges, n)
    ensures code == Ok ==> (overlap <==> Overlaps(earlier, e, ranges))
  {
    code, overlap := Ok, false;
    ghost var was := table.pages;
    if e.typ == PT_LOAD && e.memsz != 0 {
      var mapped := Min(e.filez, e.memsz);
      if mapped > 0 {
        var range;
        code, range := CheckAddressRange(ranges, e.paddr, mapped, false);
        if code != Ok {
          return;
        }
        if range.kind != Contents {
          RepresentsSkip(was, earlier, e, ranges, n);
          return;
        }
        overlap := table.AddSegment(e.paddr, e.offset, mapped, n);
        RepresentsLoad(table.pages, was, earlier, e, ranges, overlap, n);
      } else {
        RepresentsSkip(was, earlier, e, ranges, n);
      }
      if e.memsz > e.filez {
        var tail;
        code, tail := CheckAddressRange(ranges, Add32(e.paddr, e.filez), e.memsz - e.filez, true);
      }
    } else {
      RepresentsSkip(was, earlier, e, ranges, n);
    }
  }

  method CheckNext(entries: seq<Entry>, i: nat, ranges: seq<AddressRange>, table: PageTable, overlap: bool,
                   ghost n: nat)
    returns (code: Code, overlap': bool)
    requires i < |entries| && Checked(table.pages, entries, i, ranges, overlap, n)
    modifies table
    ensures code == if Accepted(entries[i], ranges) then Ok else Incompatible
    ensures code == Ok ==> Checked(table.pages, entries, i + 1, ranges, overlap', n)
  {
    EntryStep(entries, i, ranges);
    var hit;
    code, hit := CheckEntry(entries[i], ranges, table, entries[..i], n);
    overlap' := overlap || hit;
  }

  /** Accepts the entries one by one; overlaps are noted but do not stop the conversion. */
  method CheckEntries(entries: seq<Entry>, ranges: seq<AddressRange>, table: PageTable, ghost n: nat)
    returns (code: Code, overlap: bool)
    requires table.pages == map[]
    modifies table
    ensures code == if AllAccepted(entries, ranges) then Ok else Incompatible
    ensures code == Ok ==> Represents(table.pages, entries, ranges, n)
    ensures code == Ok ==> (overlap <==> AnyOverlap(entries, ranges, |entries|))
  {
    overlap := false;
    for i := 0 to |entries|
      invariant Checked(table.pages, entries, i, ranges, overlap, n)
    {
      code, overlap := CheckNext(entries, i, ranges, table, overlap, n);
      if code != Ok {
        return;
      }
    }
    assert entries[..|entries|] == entries;
    code := Ok;
  }

  lemma EntryStep(entries: seq<Entry>, i: nat, ranges: seq<AddressRange>)
    requires i < |entries|
    ensures entries[..i + 1] == entries[..i] + [entries[i]]
    ensures AllAccepted(entries[..i + 1], ranges) <==> AllAccepted(entries[..i], ranges) && Accepted(entries[i], ranges)
    ensures !Accepted(entries[i], ranges) ==> !AllAccepted(entries, ranges)
    ensures AnyOverlap(entries, ranges, i + 1) <==>
            AnyOverlap(entries, ranges, i) || Overlaps(entries[..i], entries[i], ranges)
  {
    var e := entries[i];
    assert forall g :: g in entries[..i + 1] <==> g in entries[..i] || g == e;
  }

  predicate AllAccepted(entries: seq<Entry>, ranges: seq<AddressRange>) {
    forall e | e in entries :: Accepted(e, ranges)
  }

  // ------------------------------------------------------------------
  // The conversion
  // ------------------------------------------------------------------

  /** The blocks carry the image: every loaded byte is in its block, and the rest is 0. */
  ghost predicate IsImage(blocks: seq<Block>, file: seq<byte>, entries: seq<Entry>, ranges: seq<AddressRange>) {
    && (forall i | 0 <= i < |blocks| ::
          && blocks[i].header == Header(0x0A324655, 0x9E5D5157, 0x2000, 256, 0xE48BFF56, 0x0AB16F30)
          && blocks[i].targetAddr % PAGE_SIZE == 0
          && blocks[i].blockNo == i && blocks[i].numBlocks == |blocks|
          && CarriesPage(blocks[i], file, entries, ranges))
    && (forall i, j | 0 <= i < j < |blocks| :: blocks[i].targetAddr < blocks[j].targetAddr)
    && (forall a: u32 | ImageSource(entries, ranges, a).Some? :: HasBlock(blocks, PageOf(a)))
  }

  ghost predicate HasBlock(blocks: seq<Block>, p: u32) {
    exists i :: 0 <= i < |blocks| && blocks[i].targetAddr == p
  }

  /** The byte a loader of the segments expects at an address of an emitted page. */
  ghost predicate ExpectedByte(x: byte, file: seq<byte>, entries: seq<Entry>, ranges: seq<AddressRange>, a: u32) {
    match ImageSource(entries, ranges, a)
    case Some(pos) => pos < |file| && x == file[pos]
    case None => x == 0
  }

  ghost predicate CarriesPage(b: Block, file: seq<byte>, entries: seq<Entry>, ranges: seq<AddressRange>) {
    && |b.data| == BLOCK_DATA
    && (forall a: u32 | PageOf(a) == b.targetAddr ::
          ExpectedByte(b.data[a - b.targetAddr], file, entries, ranges, a))
    && (forall o | PAGE_SIZE <= o < BLOCK_DATA :: b.data[o] == 0)
  }

  /** No loaded segment wraps past the top of the address space. */
  predicate NoAddressWrap(entries: seq<Entry>, ranges: seq<AddressRange>) {
    forall e | e in entries && Loads(e, ranges) :: e.paddr + MappedSize(e) < TWO32
  }

  /** Where the topmost sector of the address space has a page, it has all the pages below that. */
  ghost predicate TopSectorFilled(entries: seq<Entry>, ranges: seq<AddressRange>) {
    forall p: u32, q: u32 ::
      InTopSector(p) && InTopSector(q) && q % PAGE_SIZE == 0 && q < p && Mapped(entries, ranges, p) ==>
        Mapped(entries, ranges, q)
  }

  predicate InTopSector(p: u32) {
    SectorOf(p) + 1 == SECTORS
  }

  /** Every block is for a page with loaded bytes or, in flash, pads a touched sector below the last page. */
  ghost predicate NoStrayBlocks(blocks: seq<Block>, entries: seq<Entry>, ranges: seq<AddressRange>, ramStyle: bool) {
    forall i | 0 <= i < |blocks| :: Expected(blocks[i].targetAddr, entries, ranges, ramStyle)
  }

  ghost predicate Expected(p: u32, entries: seq<Entry>, ranges: seq<AddressRange>, ramStyle: bool) {
    || Mapped(entries, ranges, p)
    || (!ramStyle
        && (exists q: u32 :: Mapped(entries, ranges, q) && SectorOf(q) == SectorOf(p))
        && (exists r: u32 :: Mapped(entries, ranges, r) && p < r))
  }

  /** The block number and the page's position in its flash sector agree. */
  ghost predicate SectorAligned(blocks: seq<Block>) {
    forall i | 0 <= i < |blocks| :: i % 16 == (blocks[i].targetAddr / PAGE_SIZE) % 16
  }

  predicate AnyLoaded(entries: seq<Entry>, ranges: seq<AddressRange>) {
    exists e :: e in entries && Loads(e, ranges)
  }

  function Ranges(ramStyle: bool): seq<AddressRange> {
    if ramStyle then RAM_RANGES else FLASH_RANGES
  }

  /** A RAM binary is entered at the start (in Thumb state) of its lowest page in main RAM. */
  ghost predicate EntersAtStart(entries: seq<Entry>, entryPoint: u32) {
    exists p: u32 ::
      && Mapped(entries, RAM_RANGES, p) && InMainRam(p) && entryPoint == p + 1
      && forall q: u32 :: Mapped(entries, RAM_RANGES, q) && InMainRam(q) ==> p <= q
  }

  /** What makes the conversion fail before the file contents are read. */
  ghost predicate Compatible(entries: seq<Entry>, entryPoint: u32) {
    match BinaryType(entries, entryPoint)
    case None => false
    case Some(ramStyle) =>
      && AllAccepted(entries, Ranges(ramStyle)) && AnyLoaded(entries, Ranges(ramStyle))
      && (ramStyle ==> EntersAtStart(entries, entryPoint))
  }

  /** The outcome of a conversion, and the blocks written if it succeeds. */
  ghost predicate Converted(file: seq<byte>, entries: seq<Entry>, entryPoint: u32,
                            code: Code, blocks: seq<Block>, overlap: bool) {
    && (code == Incompatible <==> !Compatible(entries, entryPoint))
    && (Compatible(entries, entryPoint) ==>
          var ramStyle := BinaryType(entries, entryPoint).value;
          var ranges := Ranges(ramStyle);
          && (Limited(entries, ranges, |file|) ==>
                code == if InFile(entries, ranges, |file|) then Ok else ReadFailed)
          && (overlap <==> AnyOverlap(entries, ranges, |entries|))
          && (code == Ok ==> IsImage(blocks, file, entries, ranges))
          && (code == Ok ==> NoStrayBlocks(blocks, entries, ranges, ramStyle))
          && (code == Ok && !ramStyle ==> (SectorAligned(blocks) <==> TopSectorFilled(entries, ranges))))
  }

  method Convert(file: seq<byte>, entries: seq<Entry>, entryPoint: u32)
    returns (code: Code, blocks: seq<Block>, overlap: bool)
    requires |file| <= TWO32
    ensures Converted(file, entries, entryPoint, code, blocks, overlap)
  {
    blocks, overlap := [], false;
    var ramStyle;
    code, ramStyle := DetermineBinaryType(entries, entryPoint);
    if code != Ok {
      return;
    }
    var ranges := Ranges(ramStyle);
    var table := new PageTable();
    code, overlap := CheckEntries(entries, ranges, table, |file|);
    if code != Ok {
      return;
    }
    LoadedIsPage(table.pages, entries, ranges, |file|);
    if table.pages == map[] {
      return Incompatible, [], overlap;
    }
    if ramStyle {
      var entered := table.EntersLowestPage(entryPoint);
      EnteredAtStart(table.pages, entries, entryPoint, |file|);
      if !entered {
        return Incompatible, [], overlap;
      }
    }
    code, blocks := WritePages(table, file, entries, ramStyle);
  }

  /** Padding (in flash) and emission. */
  method WritePages(table: PageTable, file: seq<byte>, entries: seq<Entry>, ramStyle: bool)
    returns (code: Code, blocks: seq<Block>)
    requires |file| <= TWO32 && table.pages != map[]
    requires Represents(table.pages, entries, Ranges(ramStyle), |file|)
    modifies table
    ensures code in {Ok, ReadFailed}
    ensures var ranges := Ranges(ramStyle);
            && (Limited(entries, ranges, |file|) ==>
                  code == if InFile(entries, ranges, |file|) then Ok else ReadFailed)
            && (code == Ok ==> IsImage(blocks, file, entries, ranges))
            && (code == Ok ==> NoStrayBlocks(blocks, entries, ranges, ramStyle))
            && (code == Ok && !ramStyle ==> (SectorAligned(blocks) <==> TopSectorFilled(entries, ranges)))
  {
    ghost var was, last, ranges := table.pages, 0, Ranges(ramStyle);
    if !ramStyle {
      var top := table.Pad();
      last := top;
      PadKeeps(table.pages, was, last, entries, ranges, |file|);
    }
    code, blocks := table.Emit(file);
    if code == Ok {
      BlocksAreImage(blocks, table.pages, file, entries, ranges);
      BlocksAreNotStray(blocks, table.pages, was, last, file, entries, ranges, ramStyle);
      if !ramStyle {
        TopFilledIsGapless(was, entries, ranges, |file|);
        PaddingAligns(blocks, table.pages, was, last);
      }
    }
  }

  // ------------------------------------------------------------------
  // Flash or RAM
  // ------------------------------------------------------------------

  /** The first range that holds the address may have contents. */
  function Initialized(ranges: seq<AddressRange>, addr: u32): bool {
    if ranges == [] then false
    else if ranges[0].from <= addr < ranges[0].to then ranges[0].kind == Contents
    else Initialized(ranges[1..], addr)
  }

  /** Where the entry point is loaded, if it is in this segment. */
  function EntersAt(e: Entry, entryPoint: u32): Option<u32> {
    if MappedSize(e) > 0 && e.vaddr <= entryPoint < Add32(e.vaddr, MappedSize(e))
    then Some(Sub32(Add32(entryPoint, e.paddr), e.vaddr))
    else None
  }

  /** The segment decides whether this is a RAM binary (true) or a flash binary (false). */
  function Decides(e: Entry, entryPoint: u32): Option<bool> {
    match EntersAt(e, entryPoint)
    case None => None
    case Some(a) =>
      if Initialized(RAM_RANGES, a) then Some(true)
      else if Initialized(FLASH_RANGES, a) then Some(false)
      else None
  }

  /** The first segment to decide; None if the entry point is not in a mapped part of the file. */
  function BinaryType(entries: seq<Entry>, entryPoint: u32): (t: Option<bool>)
    ensures t.Some? <==> exists e :: e in entries && Decides(e, entryPoint).Some?
  {
    if entries == [] then None
    else if Decides(entries[0], entryPoint).Some? then Decides(entries[0], entryPoint)
    else BinaryType(entries[1..], entryPoint)
  }

  method IsInitialized(ranges: seq<AddressRange>, addr: u32) returns (yes: bool)
    ensures yes == Initialized(ranges, addr)
  {
    for i := 0 to |ranges|
      invariant Initialized(ranges, addr) == Initialized(ranges[i..], addr)
    {
      if ranges[i].from <= addr && ranges[i].to > addr {
        return ranges[i].kind == Contents;
      }
    }
    yes := false;
  }

  method DetermineBinaryType(entries: seq<Entry>, entryPoint: u32) returns (code: Code, ramStyle: bool)
    ensures match BinaryType(entries, entryPoint)
            case Some(t) => code == Ok && ramStyle == t
            case None => code == Incompatible
  {
    for i := 0 to |entries|
      invariant BinaryType(entries, entryPoint) == BinaryType(entries[i..], entryPoint)
    {
      var e := entries[i];
      if e.typ == PT_LOAD && e.memsz != 0 {
        var mapped := Min(e.filez, e.memsz);
        if mapped != 0 && entryPoint >= e.vaddr && entryPoint < Add32(e.vaddr, mapped) {
          var effective := Sub32(Add32(entryPoint, e.paddr), e.vaddr);
          var inRam := IsInitialized(RAM_RANGES, effective);
          if inRam {
            return Ok, true;
          }
          var inFlash := IsInitialized(FLASH_RANGES, effective);
          if inFlash {
            return Ok, false;
          }
        }
      }
    }
    return Incompatible, false;
  }

  // What the decision means, in load addresses

  /** The mapped part of the segment, in the program's own addresses, holds the entry point. */
  predicate HoldsEntry(e: Entry, entryPoint: u32) {
    var size := if e.filez < e.memsz then e.filez else e.memsz;
    e.typ == PT_LOAD && size != 0 && e.vaddr <= entryPoint < (e.vaddr + size) % TWO32
  }

  /** Where the segment puts the entry point. */
  function EntryLoadedAt(e: Entry, entryPoint: u32): int {
    (entryPoint - e.vaddr + e.paddr) % TWO32
  }

  predicate InRam(a: int) {
    0x20000000 <= a < 0x20042000 || 0x15000000 <= a < 0x15004000
  }

  predicate InFlash(a: int) {
    0x10000000 <= a < 0x15000000
  }

  /** Segment `i` is the first to put the entry point into RAM or flash. */
  predicate FirstToEnter(entries: seq<Entry>, entryPoint: u32, i: int) {
    && 0 <= i < |entries| && Enters(entries[i], entryPoint)
    && forall j | 0 <= j < i :: !Enters(entries[j], entryPoint)
  }

  predicate Enters(e: Entry, entryPoint: u32) {
    && HoldsEntry(e, entryPoint)
    && (InRam(EntryLoadedAt(e, entryPoint)) || InFlash(EntryLoadedAt(e, entryPoint)))
  }

  lemma InitializedIs(a: u32)
    ensures Initialized(RAM_RANGES, a) <==> InRam(a)
    ensures Initialized(FLASH_RANGES, a) <==> InFlash(a)
  {
    RangesInOrder(RAM_RANGES, a);
    RangesInOrder(FLASH_RANGES, a);
  }

  lemma RangesInOrder(ranges: seq<AddressRange>, a: u32)
    requires |ranges| == 3
    ensures Initialized(ranges, a) <==>
            if ranges[0].from <= a < ranges[0].to then ranges[0].kind == Contents
            else if ranges[1].from <= a < ranges[1].to then ranges[1].kind == Contents
            else ranges[2].from <= a < ranges[2].to && ranges[2].kind == Contents
  {
    var second, third := ranges[1..], ranges[2..];
    assert second[1..] == third && third[1..] == [];
    assert Initialized(third, a) <==> ranges[2].from <= a < ranges[2].to && ranges[2].kind == Contents;
    assert Initialized(second, a) <==>
           if ranges[1].from <= a < ranges[1].to then ranges[1].kind == Contents else Initialized(third, a);
  }

  lemma DecidesByAddress(e: Entry, entryPoint: u32)
    ensures Decides(e, entryPoint) == Some(true) <==>
            HoldsEntry(e, entryPoint) && InRam(EntryLoadedAt(e, entryPoint))
    ensures Decides(e, entryPoint) == Some(false) <==>
            HoldsEntry(e, entryPoint) && InFlash(EntryLoadedAt(e, entryPoint))
  {
    assert HoldsEntry(e, entryPoint) <==> EntersAt(e, entryPoint).Some?;
    if HoldsEntry(e, entryPoint) {
      var a := EntersAt(e, entryPoint).value;
      WrapsBack(entryPoint, e.paddr, e.vaddr);
      InitializedIs(a);
    }
  }

  lemma WrapsBack(x: u32, y: u32, z: u32)
    ensures Sub32(Add32(x, y), z) == (x - z + y) % TWO32
  {
  }

  lemma {:induction false} FirstDecides(entries: seq<Entry>, entryPoint: u32)
    ensures BinaryType(entries, entryPoint).Some? ==>
              exists i :: FirstToEnter(entries, entryPoint, i)
                          && BinaryType(entries, entryPoint) == Decides(entries[i], entryPoint)
    ensures BinaryType(entries, entryPoint).None? ==>
              forall i | 0 <= i < |entries| :: !Enters(entries[i], entryPoint)
  {
    if entries != [] {
      DecidesByAddress(entries[0], entryPoint);
      if Enters(entries[0], entryPoint) {
        assert FirstToEnter(entries, entryPoint, 0);
      } else {
        FirstDecides(entries[1..], entryPoint);
        if BinaryType(entries, entryPoint).Some? {
          var i :| FirstToEnter(entries[1..], entryPoint, i)
                   && BinaryType(entries[1..], entryPoint) == Decides(entries[1..][i], entryPoint);
          assert FirstToEnter(entries, entryPoint, i + 1);
        }
      }
    }
  }

  lemma OneIsFirst(entries: seq<Entry>, entryPoint: u32, i: int, j: int)
    requires FirstToEnter(entries, entryPoint, i) && FirstToEnter(entries, entryPoint, j)
    ensures i == j
  {
  }

  /** The first segment to put the entry point into RAM or flash decides, by the address at which it does. */
  lemma BinaryTypeIff(entries: seq<Entry>, entryPoint: u32)
    ensures BinaryType(entries, entryPoint) == Some(true) <==>
            exists i :: FirstToEnter(entries, entryPoint, i) && InRam(EntryLoadedAt(entries[i], entryPoint))
    ensures BinaryType(entries, entryPoint) == Some(false) <==>
            exists i :: FirstToEnter(entries, entryPoint, i) && InFlash(EntryLoadedAt(entries[i], entryPoint))
  {
    FirstDecides(entries, entryPoint);
    if BinaryType(entries, entryPoint).Some? {
      var i :| FirstToEnter(entries, entryPoint, i)
               && BinaryType(entries, entryPoint) == Decides(entries[i], entryPoint);
      DecidesByAddress(entries[i], entryPoint);
      forall j | FirstToEnter(entries, entryPoint, j)
        ensures j == i
      {
        OneIsFirst(entries, entryPoint, i, j);
      }
    }
  }

  const MAIN_RAM_START := 0x20000000
  const MAIN_RAM_END := 0x20042000
  const XIP_SRAM_START := 0x15000000
  const XIP_SRAM_END := 0x15004000
  const UINT32_MAX: u32 := 0xFFFF_FFFF

  predicate InMainRam(p: u32) {
    MAIN_RAM_START <= p < MAIN_RAM_END
  }

  predicate InXipSram(p: u32) {
    XIP_SRAM_START <= p < XIP_SRAM_END
  }

  /** The entry point expected of the pages of `done` that lie in [from, to). */
  ghost predicate ExpectedEntry(x: u32, done: set<u32>, from: u32, to: u32) {
    || (x == UINT32_MAX && forall p | p in done :: !(from <= p < to))
    || (x > 0 && x - 1 in done && from <= x - 1 < to && forall q | q in done && from <= q < to :: x - 1 <= q)
  }

  lemma EnteredAtStart(pages: Pages, entries: seq<Entry>, entryPoint: u32, n: nat)
    requires Represents(pages, entries, RAM_RANGES, n)
    ensures EntersAtStart(entries, entryPoint) <==> LowestPage(pages.Keys, entryPoint)
  {
    assert forall p: u32 :: p in pages.Keys <==> Mapped(entries, RAM_RANGES, p);
  }

  /** The address before the entry point is the lowest page in main RAM. */
  ghost predicate LowestPage(keys: set<u32>, entryPoint: u32) {
    && entryPoint > 0 && entryPoint - 1 in keys && InMainRam(entryPoint - 1)
    && forall q | q in keys && InMainRam(q) :: entryPoint - 1 <= q
  }

  // ------------------------------------------------------------------
  // From pages to the image
  // ------------------------------------------------------------------

  /** Padding may add pages; otherwise as `Represents`. */
  ghost predicate Holds(pages: Pages, entries: seq<Entry>, ranges: seq<AddressRange>, n: nat) {
    && WellFormed(pages)
    && (forall a: u32 :: Lookup(pages, a) == ImageSource(entries, ranges, a))
    && (Limited(entries, ranges, n) ==> (Readable(pages, n) <==> InFile(entries, ranges, n)))
  }

  lemma {:induction false} ImageSourceIsSomeLoad(entries: seq<Entry>, ranges: seq<AddressRange>, a: u32)
    ensures ImageSource(entries, ranges, a).Some? <==>
            exists e :: e in entries && Loads(e, ranges) && Covers(e.paddr, MappedSize(e), a)
  {
    if entries != [] {
      var k := |entries| - 1;
      assert entries == entries[..k] + [entries[k]];
      ImageSourceIsSomeLoad(entries[..k], ranges, a);
    }
  }

  lemma LoadedIsPage(pages: Pages, entries: seq<Entry>, ranges: seq<AddressRange>, n: nat)
    requires Represents(pages, entries, ranges, n)
    ensures AnyLoaded(entries, ranges) <==> pages != map[]
  {
    if e :| e in entries && Loads(e, ranges) {
      assert Covers(e.paddr, MappedSize(e), e.paddr);
      ImageSourceIsSomeLoad(entries, ranges, e.paddr);
      assert PageOf(e.paddr) in pages;
    }
    if p :| p in pages {
      var a: u32 :| PageOf(a) == p && ImageSource(entries, ranges, a).Some?;
      ImageSourceIsSomeLoad(entries, ranges, a);
    }
  }

  lemma PadKeeps(pages: Pages, was: Pages, last: u32, entries: seq<Entry>, ranges: seq<AddressRange>, n: nat)
    requires Represents(was, entries, ranges, n) && PadState(pages, was, last, Sectors(was), 0, 0)
    ensures Holds(pages, entries, ranges, n)
  {
    forall a: u32
      ensures Lookup(pages, a) == ImageSource(entries, ranges, a)
    {
      assert Lookup(was, a) == ImageSource(entries, ranges, a);
    }
    forall p | p in pages
      ensures p in was ==> pages[p] == was[p]
      ensures p !in was ==> FragmentsReadable(pages[p], n)
    {
    }
  }

  lemma {:induction false} SourceReadable(fragments: seq<Fragment>, off: nat, n: nat)
    requires off < PAGE_SIZE && n <= TWO32 && FragmentsReadable(fragments, n)
    ensures PageSource(fragments, off).Some? ==> PageSource(fragments, off).value < n
  {
    if fragments != [] {
      var k := |fragments| - 1;
      assert fragments[k] in fragments;
      assert forall f | f in fragments[..k] :: f in fragments;
      SourceReadable(fragments[..k], off, n);
    }
  }

  lemma BlocksAreImage(blocks: seq<Block>, pages: Pages, file: seq<byte>, entries: seq<Entry>,
                       ranges: seq<AddressRange>)
    requires Holds(pages, entries, ranges, |file|) && Readable(pages, |file|) && |file| <= TWO32
    requires BlocksOf(blocks, pages, pages.Keys, file)
    ensures IsImage(blocks, file, entries, ranges)
  {
    forall i | 0 <= i < |blocks|
      ensures CarriesPage(blocks[i], file, entries, ranges)
    {
      assert BlockOf(blocks[i], i, pages, file);
      BlockCarriesPage(blocks[i], i, pages, file, entries, ranges);
    }
    forall a: u32 | ImageSource(entries, ranges, a).Some?
      ensures HasBlock(blocks, PageOf(a))
    {
      assert Lookup(pages, a).Some?;
      assert PageOf(a) in Addresses(blocks);
    }
  }

  lemma BlockCarriesPage(b: Block, i: nat, pages: Pages, file: seq<byte>, entries: seq<Entry>,
                         ranges: seq<AddressRange>)
    requires Holds(pages, entries, ranges, |file|) && Readable(pages, |file|) && |file| <= TWO32
    requires BlockOf(b, i, pages, file)
    ensures CarriesPage(b, file, entries, ranges)
  {
    forall a: u32 | PageOf(a) == b.targetAddr
      ensures ExpectedByte(b.data[a - b.targetAddr], file, entries, ranges, a)
    {
      assert Lookup(pages, a) == ImageSource(entries, ranges, a);
      SourceReadable(pages[b.targetAddr], a - b.targetAddr, |file|);
    }
  }

  // ------------------------------------------------------------------
  // Sector alignment
  // ------------------------------------------------------------------

  lemma BlocksAreNotStray(blocks: seq<Block>, pages: Pages, was: Pages, last: u32, file: seq<byte>,
                          entries: seq<Entry>, ranges: seq<AddressRange>, ramStyle: bool)
    requires Represents(was, entries, ranges, |file|) && BlocksOf(blocks, pages, pages.Keys, file)
    requires if ramStyle then pages == was
             else Greatest(last, was.Keys) && PadState(pages, was, last, Sectors(was), 0, 0)
    ensures NoStrayBlocks(blocks, entries, ranges, ramStyle)
  {
    forall i | 0 <= i < |blocks|
      ensures Expected(blocks[i].targetAddr, entries, ranges, ramStyle)
    {
      var p := blocks[i].targetAddr;
      assert Addresses(blocks)[i] == p;
      assert p in Addresses(blocks);
      if p !in was {
        var q :| q in was && SectorOf(q) == SectorOf(p);
        assert Mapped(entries, ranges, q) && Mapped(entries, ranges, last);
      }
    }
  }

  /** No gap below a page of the topmost sector. */
  ghost predicate TopSectorGapless(keys: set<u32>) {
    forall p: u32, q: u32 ::
      InTopSector(p) && InTopSector(q) && q % PAGE_SIZE == 0 && q < p && p in keys ==> q in keys
  }

  lemma TopFilledIsGapless(pages: Pages, entries: seq<Entry>, ranges: seq<AddressRange>, n: nat)
    requires Represents(pages, entries, ranges, n)
    ensures TopSectorFilled(entries, ranges) <==> TopSectorGapless(pages.Keys)
  {
    assert forall p: u32 :: p in pages.Keys <==> Mapped(entries, ranges, p);
  }

  /** Segments that do not wrap past the top of the address space always give aligned flash images. */
  lemma NoWrapFillsTop(entries: seq<Entry>)
    requires NoAddressWrap(entries, FLASH_RANGES)
    ensures TopSectorFilled(entries, FLASH_RANGES)
  {
    forall p: u32 | Mapped(entries, FLASH_RANGES, p)
      ensures !InTopSector(p)
    {
      var a: u32 :| PageOf(a) == p && ImageSource(entries, FLASH_RANGES, a).Some?;
      ImageSourceIsSomeLoad(entries, FLASH_RANGES, a);
      var e :| e in entries && Loads(e, FLASH_RANGES) && Covers(e.paddr, MappedSize(e), a);
      assert a < 0x21040000;
    }
  }

  lemma NothingBetween(addrs: seq<u32>, keys: set<u32>, i: nat, q: u32)
    requires Enumerates(addrs, keys) && i < |addrs| && q in keys && q < addrs[i]
    ensures i > 0 && q <= addrs[i - 1]
  {
    var k :| 0 <= k < |addrs| && addrs[k] == q;
    assert k < i;
  }

  /** The page `p` is at most `last`, and no page of its sector is missing below `last`. */
  ghost predicate GaplessAt(keys: set<u32>, last: u32, p: u32) {
    && p % PAGE_SIZE == 0 && p <= last
    && forall q: u32 | q % PAGE_SIZE == 0 && SectorOf(q) == SectorOf(p) && q < last :: q in keys
  }

  ghost predicate Gapless(keys: set<u32>, last: u32) {
    forall p | p in keys :: GaplessAt(keys, last, p)
  }

  /** Below the topmost sector no page of a touched sector is missing below `last`. */
  ghost predicate GaplessBelowTop(keys: set<u32>, last: u32) {
    && (forall p | p in keys :: p % PAGE_SIZE == 0 && p <= last)
    && (forall p | p in keys && !InTopSector(p) :: GaplessAt(keys, last, p))
  }

  /** The padding loop leaves no gap in a touched sector below the last page; it never pads the topmost sector. */
  lemma PaddedIsGapless(pages: Pages, was: Pages, last: u32)
    requires WellFormed(pages)
    requires PadState(pages, was, last, Sectors(was), 0, 0) && Greatest(last, was.Keys)
    ensures GaplessBelowTop(pages.Keys, last) && last in pages
    ensures TopSectorGapless(pages.Keys) <==> TopSectorGapless(was.Keys)
  {
    forall p | p in pages && !InTopSector(p)
      ensures GaplessAt(pages.Keys, last, p)
    {
      if p in was {
        assert SectorOf(p) in Sectors(was);
      }
    }
    forall p: u32 | InTopSector(p)
      ensures p in pages <==> p in was
    {
    }
  }

  lemma TopIsGapless(keys: set<u32>, last: u32)
    requires GaplessBelowTop(keys, last) && TopSectorGapless(keys) && last in keys
    ensures Gapless(keys, last)
  {
    forall p | p in keys
      ensures GaplessAt(keys, last, p)
    {
      if InTopSector(p) {
        assert InTopSector(last);
      }
    }
  }

  lemma SectorStart(addrs: seq<u32>, keys: set<u32>, last: u32, i: nat)
    requires Enumerates(addrs, keys) && i < |addrs| && GaplessAt(keys, last, addrs[i])
    requires i == 0 || SectorOf(addrs[i - 1]) < SectorOf(addrs[i])
    ensures addrs[i] == SectorOf(addrs[i]) * SECTOR_SIZE
  {
    var p := addrs[i];
    var first: u32 := SectorOf(p) * SECTOR_SIZE;
    if first < p {
      assert first in keys;
      NothingBetween(addrs, keys, i, first);
    }
  }

  lemma LastPageOfSector(q: u32)
    requires q % PAGE_SIZE == 0
    ensures var end := SectorOf(q) * SECTOR_SIZE + 15 * PAGE_SIZE;
            q <= end < TWO32 && end % PAGE_SIZE == 0 && SectorOf(end) == SectorOf(q)
  {
    var s, k := SectorOf(q), q / PAGE_SIZE;
    assert q == k * PAGE_SIZE;
    assert k <= 16 * s + 15;
    assert s * SECTOR_SIZE + 15 * PAGE_SIZE == (16 * s + 15) * PAGE_SIZE;
  }

  lemma LastPageIsBelow(q: u32, p: u32)
    requires SectorOf(q) < SectorOf(p)
    ensures SectorOf(q) * SECTOR_SIZE + 15 * PAGE_SIZE < p
  {
  }

  lemma SectorEnd(addrs: seq<u32>, keys: set<u32>, last: u32, i: nat)
    requires Enumerates(addrs, keys) && 0 < i < |addrs| && GaplessAt(keys, last, addrs[i - 1]) && addrs[i] <= last
    requires SectorOf(addrs[i - 1]) < SectorOf(addrs[i])
    ensures addrs[i - 1] == SectorOf(addrs[i - 1]) * SECTOR_SIZE + 15 * PAGE_SIZE
  {
    var q := addrs[i - 1];
    LastPageOfSector(q);
    LastPageIsBelow(q, addrs[i]);
    var end: u32 := SectorOf(q) * SECTOR_SIZE + 15 * PAGE_SIZE;
    if q < end {
      assert end in keys;
      NothingBetween(addrs, keys, i, end);
    }
  }

  lemma SectorNext(addrs: seq<u32>, keys: set<u32>, last: u32, i: nat)
    requires Enumerates(addrs, keys) && 0 < i < |addrs|
    requires GaplessAt(keys, last, addrs[i - 1]) && GaplessAt(keys, last, addrs[i])
    requires SectorOf(addrs[i - 1]) >= SectorOf(addrs[i])
    ensures addrs[i] == addrs[i - 1] + PAGE_SIZE
  {
    var q, p := addrs[i - 1], addrs[i];
    assert q + PAGE_SIZE <= p;
    var next: u32 := q + PAGE_SIZE;
    assert next < p ==> next in keys;
    if next < p {
      NothingBetween(addrs, keys, i, next);
    }
  }

  lemma NextModulo(i: nat, k: nat)
    requires i % 16 == k % 16
    ensures (i + 1) % 16 == (k + 1) % 16
  {
  }

  lemma StartPosition(p: u32)
    requires p == SectorOf(p) * SECTOR_SIZE
    ensures p / PAGE_SIZE == SectorOf(p) * 16
  {
  }

  lemma PositionStep(i: nat, q: u32, p: u32)
    requires 0 < i && (i - 1) % 16 == (q / PAGE_SIZE) % 16 && q % PAGE_SIZE == 0
    requires p == q + PAGE_SIZE
             || (p == SectorOf(p) * SECTOR_SIZE && q == SectorOf(q) * SECTOR_SIZE + 15 * PAGE_SIZE)
    ensures i % 16 == (p / PAGE_SIZE) % 16
  {
    NextModulo(i - 1, q / PAGE_SIZE);
    if p == q + PAGE_SIZE {
      assert p / PAGE_SIZE == q / PAGE_SIZE + 1;
    } else {
      StartPosition(p);
      assert q / PAGE_SIZE + 1 == (SectorOf(q) + 1) * 16;
    }
  }

  /** The block number tracks the page's position in its flash sector. */
  lemma {:induction false} GaplessAligns(addrs: seq<u32>, keys: set<u32>, last: u32, i: nat)
    requires Enumerates(addrs, keys) && Gapless(keys, last) && i < |addrs|
    ensures i % 16 == (addrs[i] / PAGE_SIZE) % 16
  {
    assert addrs[i] in addrs && GaplessAt(keys, last, addrs[i]);
    if i == 0 {
      SectorStart(addrs, keys, last, i);
      StartPosition(addrs[i]);
    } else {
      GaplessAligns(addrs, keys, last, i - 1);
      GaplessStep(addrs, keys, last, i);
    }
  }

  lemma GaplessStep(addrs: seq<u32>, keys: set<u32>, last: u32, i: nat)
    requires Enumerates(addrs, keys) && Gapless(keys, last) && 0 < i < |addrs|
    requires (i - 1) % 16 == (addrs[i - 1] / PAGE_SIZE) % 16
    ensures i % 16 == (addrs[i] / PAGE_SIZE) % 16
  {
    assert addrs[i - 1] in addrs && GaplessAt(keys, last, addrs[i - 1]);
    assert addrs[i] in addrs && GaplessAt(keys, last, addrs[i]);
    if SectorOf(addrs[i - 1]) < SectorOf(addrs[i]) {
      SectorStart(addrs, keys, last, i);
      SectorEnd(addrs, keys, last, i);
    } else {
      SectorNext(addrs, keys, last, i);
    }
    PositionStep(i, addrs[i - 1], addrs[i]);
  }

  /** Positions in one sector that follow each other modulo 16 are neighbours. */
  lemma SameSectorStep(q: u32, p: u32)
    requires q % PAGE_SIZE == 0 && p % PAGE_SIZE == 0 && q < p && SectorOf(q) == SectorOf(p)
    requires (p / PAGE_SIZE) % 16 == (q / PAGE_SIZE + 1) % 16
    ensures p == q + PAGE_SIZE
  {
    var s := SectorOf(p);
    PositionInSector(q, s);
    PositionInSector(p, s);
    NextModulo(16 * s, 0);
  }

  lemma PositionInSector(p: u32, s: int)
    requires SectorOf(p) == s && p % PAGE_SIZE == 0
    ensures 16 * s <= p / PAGE_SIZE < 16 * s + 16
    ensures (p / PAGE_SIZE) % 16 == p / PAGE_SIZE - 16 * s
  {
  }

  /** Alignment fills the topmost sector: its first page starts it, and each next one follows. */
  lemma {:induction false} AlignedFillsTop(addrs: seq<u32>, keys: set<u32>, last: u32, i: nat)
    requires Enumerates(addrs, keys) && GaplessBelowTop(keys, last) && i < |addrs| && InTopSector(addrs[i])
    requires forall k | 0 <= k < |addrs| :: k % 16 == (addrs[k] / PAGE_SIZE) % 16
    ensures FilledBelow(keys, addrs[i])
  {
    assert addrs[i] in addrs;
    if i > 0 && InTopSector(addrs[i - 1]) {
      assert addrs[i - 1] in addrs;
      AlignedFillsTop(addrs, keys, last, i - 1);
      NextModulo(i - 1, addrs[i - 1] / PAGE_SIZE);
      SameSectorStep(addrs[i - 1], addrs[i]);
      FilledNext(keys, addrs[i - 1], addrs[i]);
    } else {
      AlignedStart(addrs, keys, last, i);
      NothingBelowStart(keys, addrs[i]);
    }
  }

  /** The topmost sector has all its pages below `p`. */
  ghost predicate FilledBelow(keys: set<u32>, p: u32) {
    forall q: u32 | InTopSector(q) && q % PAGE_SIZE == 0 && q < p :: q in keys
  }

  lemma FilledNext(keys: set<u32>, o: u32, p: u32)
    requires FilledBelow(keys, o) && o in keys && o % PAGE_SIZE == 0 && p == o + PAGE_SIZE
    ensures FilledBelow(keys, p)
  {
    forall q: u32 | InTopSector(q) && q % PAGE_SIZE == 0 && q < p
      ensures q in keys
    {
      assert q < o || q == o;
    }
  }

  lemma NothingBelowStart(keys: set<u32>, p: u32)
    requires InTopSector(p) && p == SectorOf(p) * SECTOR_SIZE
    ensures FilledBelow(keys, p)
  {
  }

  lemma AlignedStart(addrs: seq<u32>, keys: set<u32>, last: u32, i: nat)
    requires Enumerates(addrs, keys) && GaplessBelowTop(keys, last) && i < |addrs| && InTopSector(addrs[i])
    requires i > 0 ==> !InTopSector(addrs[i - 1])
    requires forall k | 0 <= k < |addrs| :: k % 16 == (addrs[k] / PAGE_SIZE) % 16
    ensures addrs[i] == SectorOf(addrs[i]) * SECTOR_SIZE
  {
    assert addrs[i] in addrs;
    PositionInSector(addrs[i], SectorOf(addrs[i]));
    if i > 0 {
      assert addrs[i - 1] in addrs && GaplessAt(keys, last, addrs[i - 1]);
      SectorEnd(addrs, keys, last, i);
      PositionInSector(addrs[i - 1], SectorOf(addrs[i - 1]));
      NextModulo(i - 1, 15);
    }
  }

  /** A flash image is aligned exactly when the topmost sector, which is never padded, needs no padding. */
  lemma PaddingAligns(blocks: seq<Block>, pages: Pages, was: Pages, last: u32)
    requires WellFormed(pages) && Enumerates(Addresses(blocks), pages.Keys)
    requires PadState(pages, was, last, Sectors(was), 0, 0) && Greatest(last, was.Keys)
    ensures SectorAligned(blocks) <==> TopSectorGapless(was.Keys)
  {
    var addrs, keys := Addresses(blocks), pages.Keys;
    PaddedIsGapless(pages, was, last);
    if TopSectorGapless(was.Keys) {
      TopIsGapless(keys, last);
      forall i | 0 <= i < |blocks|
        ensures i % 16 == (blocks[i].targetAddr / PAGE_SIZE) % 16
      {
        GaplessAligns(addrs, keys, last, i);
      }
    }
    if SectorAligned(blocks) {
      forall p: u32, q: u32 | InTopSector(p) && InTopSector(q) && q % PAGE_SIZE == 0 && q < p && p in keys
        ensures q in keys
      {
        var i :| 0 <= i < |addrs| && addrs[i] == p;
        AlignedFillsTop(addrs, keys, last, i);
      }
    }
  }

  // ------------------------------------------------------------------
  // Accepted entries, in addresses
  // ------------------------------------------------------------------

  predicate Within(lo: int, hi: int, from: int, to: int) {
    from <= lo && hi <= to
  }

  /** The end of what the entry occupies does not wrap. */
  predicate Unwrapped(e: Entry) {
    e.paddr + e.filez < TWO32 && e.paddr + e.memsz < TWO32
  }

  lemma FirstFitIs(ranges: seq<AddressRange>, addr: u32, size: u32)
    requires |ranges| == 3
    ensures FirstFit(ranges, addr, size) ==
            if Fits(ranges[0], addr, size) then 0 else if Fits(ranges[1], addr, size) then 1
            else if Fits(ranges[2], addr, size) then 2 else 3
  {
    var i := FirstFit(ranges, addr, size);
  }

  /** A flash binary: contents go to flash; an uninitialized tail may also be in RAM. */
  lemma FlashAccepts(e: Entry)
    requires Unwrapped(e)
    ensures var lo, mid, hi := e.paddr, e.paddr + Min(e.filez, e.memsz), e.paddr + e.memsz;
            && (Loads(e, FLASH_RANGES) <==>
                  e.typ == PT_LOAD && lo < mid && Within(lo, mid, 0x10000000, 0x15000000))
            && (Accepted(e, FLASH_RANGES) <==>
                  e.typ != PT_LOAD || e.memsz == 0 ||
                  ((lo < mid ==> Within(lo, mid, 0x10000000, 0x15000000)) &&
                   (mid < hi ==> Within(mid, hi, 0x10000000, 0x15000000) || Within(mid, hi, 0x20000000, 0x20042000)
                                 || Within(mid, hi, 0x21000000, 0x21040000))))
  {
    FirstFitIs(FLASH_RANGES, e.paddr, MappedSize(e));
    if e.memsz > e.filez {
      FirstFitIs(FLASH_RANGES, Add32(e.paddr, e.filez), e.memsz - e.filez);
    }
  }

  /** A RAM binary: contents go to main RAM or cache RAM; what is in the boot ROM is ignored. */
  lemma RamAccepts(e: Entry)
    requires Unwrapped(e)
    ensures var lo, mid, hi := e.paddr, e.paddr + Min(e.filez, e.memsz), e.paddr + e.memsz;
            && (Loads(e, RAM_RANGES) <==>
                  e.typ == PT_LOAD && lo < mid &&
                  (Within(lo, mid, 0x20000000, 0x20042000) || Within(lo, mid, 0x15000000, 0x15004000)))
            && (Accepted(e, RAM_RANGES) <==>
                  e.typ != PT_LOAD || e.memsz == 0 || (lo < mid && Within(lo, mid, 0, 0x4000)) ||
                  ((lo < mid ==> Loads(e, RAM_RANGES)) &&
                   (mid < hi ==> Within(mid, hi, 0x20000000, 0x20042000) || Within(mid, hi, 0x15000000, 0x15004000)
                                 || Within(mid, hi, 0, 0x4000))))
  {
    FirstFitIs(RAM_RANGES, e.paddr, MappedSize(e));
    if e.memsz > e.filez {
      FirstFitIs(RAM_RANGES, Add32(e.paddr, e.filez), e.memsz - e.filez);
    }
  }

  // ------------------------------------------------------------------
  // Particular segment tables
  // ------------------------------------------------------------------

  const IN_RAM: seq<Entry> := [Entry(PT_LOAD, 512, 0x20000000, 0x20000000, 256, 256)]

  /** A segment in main RAM, entered at its start, always converts. */
  lemma RamBinaryConverts(file: seq<byte>, code: Code, blocks: seq<Block>, overlap: bool)
    requires 768 <= |file| <= TWO32 && Converted(file, IN_RAM, 0x20000001, code, blocks, overlap)
    ensures code == Ok && BinaryType(IN_RAM, 0x20000001) == Some(true)
  {
    var e := IN_RAM[0];
    BinaryTypeIff(IN_RAM, 0x20000001);
    assert FirstToEnter(IN_RAM, 0x20000001, 0);
    RamAccepts(e);
    assert e in IN_RAM && AnyLoaded(IN_RAM, RAM_RANGES) && AllAccepted(IN_RAM, RAM_RANGES);
    RamIsEntered();
    assert InFile(IN_RAM, RAM_RANGES, |file|);
  }

  lemma RamIsEntered()
    ensures EntersAtStart(IN_RAM, 0x20000001)
  {
    var e, p: u32 := IN_RAM[0], 0x20000000;
    RamAccepts(e);
    ImageSourceIsSomeLoad(IN_RAM, RAM_RANGES, p);
    assert e in IN_RAM && Covers(e.paddr, MappedSize(e), p);
    assert PageOf(p) == p && Mapped(IN_RAM, RAM_RANGES, p);
  }

  /** Code linked to run in RAM but stored in flash makes a flash binary, wherever it is stored there. */
  lemma CopiedToRamIsFlash(e: Entry, entryPoint: u32)
    requires HoldsEntry(e, entryPoint) && InFlash(e.paddr) && InFlash(e.paddr + (entryPoint - e.vaddr))
    ensures BinaryType([e], entryPoint) == Some(false)
  {
    BinaryTypeIff([e], entryPoint);
    assert FirstToEnter([e], entryPoint, 0);
  }

  /** A flash segment with the entry point, and one that wraps past the top of the address space. */
  const WRAPPED: seq<Entry> := [
    Entry(PT_LOAD, 512, 0x10000000, 0x10000000, 256, 256),
    Entry(PT_LOAD, 0, 0, 0xFFFF_FF00, 512, 512)
  ]

  lemma WrappedIsCompatible()
    ensures BinaryType(WRAPPED, 0x10000001) == Some(false) && Compatible(WRAPPED, 0x10000001)
    ensures NoFileWrap(WRAPPED, FLASH_RANGES) && InFile(WRAPPED, FLASH_RANGES, 768)
  {
    assert Fits(FLASH_RANGES[0], WRAPPED[0].paddr, 256) && Fits(FLASH_RANGES[0], WRAPPED[1].paddr, 512);
    assert WRAPPED[0] in WRAPPED && Loads(WRAPPED[0], FLASH_RANGES);
    assert Initialized(FLASH_RANGES, 0x10000001);
    assert !Initialized(RAM_RANGES, 0x10000001);
  }

  lemma WrappedLeavesGap()
    ensures !TopSectorFilled(WRAPPED, FLASH_RANGES)
  {
    var p: u32, q: u32 := 0xFFFF_FF00, 0xFFFF_F000;
    var e := WRAPPED[1];
    assert Fits(FLASH_RANGES[0], e.paddr, 512);
    ImageSourceIsSomeLoad(WRAPPED, FLASH_RANGES, p);
    assert e in WRAPPED && Loads(e, FLASH_RANGES) && Covers(e.paddr, MappedSize(e), p);
    assert PageOf(p) == p && Mapped(WRAPPED, FLASH_RANGES, p) && InTopSector(p) && InTopSector(q);
    if Mapped(WRAPPED, FLASH_RANGES, q) {
      var a: u32 :| PageOf(a) == q && ImageSource(WRAPPED, FLASH_RANGES, a).Some?;
      ImageSourceIsSomeLoad(WRAPPED, FLASH_RANGES, a);
      assert false;
    }
  }

  /** The 32-bit range check lets a segment wrap: any file of 768 bytes or more converts to a misaligned image. */
  lemma WrappedSegmentMisaligns(file: seq<byte>, code: Code, blocks: seq<Block>, overlap: bool)
    requires 768 <= |file| <= TWO32 && Converted(file, WRAPPED, 0x10000001, code, blocks, overlap)
    ensures code == Ok && !SectorAligned(blocks)
  {
    WrappedIsCompatible();
    WrappedLeavesGap();
  }

  // ------------------------------------------------------------------
  // What a loader of the blocks sees
  // ------------------------------------------------------------------

  predicate InBlock(b: Block, a: u32) {
    b.targetAddr <= a < b.targetAddr + PAGE_SIZE
  }

  /** Memory at `a` after the payloads of the blocks are written one after the other. */
  function Flashed(blocks: seq<Block>, a: u32): Option<byte>
    requires forall b | b in blocks :: |b.data| == BLOCK_DATA
  {
    if blocks == [] then None
    else
      var b := blocks[|blocks| - 1];
      if InBlock(b, a) then Some(b.data[a - b.targetAddr]) else Flashed(blocks[..|blocks| - 1], a)
  }

  lemma {:induction false} FlashedIsSomeBlock(blocks: seq<Block>, a: u32)
    requires forall b | b in blocks :: |b.data| == BLOCK_DATA
    ensures Flashed(blocks, a).Some? <==> exists b :: b in blocks && InBlock(b, a)
    ensures Flashed(blocks, a).Some? ==>
              exists b :: b in blocks && InBlock(b, a) && Flashed(blocks, a) == Some(b.data[a - b.targetAddr])
  {
    if blocks != [] {
      var k := |blocks| - 1;
      assert blocks == blocks[..k] + [blocks[k]];
      assert blocks[k] in blocks;
      FlashedIsSomeBlock(blocks[..k], a);
    }
  }

  lemma BlockHasExpectedByte(blocks: seq<Block>, file: seq<byte>, entries: seq<Entry>, ranges: seq<AddressRange>,
                             b: Block, a: u32)
    requires IsImage(blocks, file, entries, ranges) && b in blocks
    ensures |b.data| == BLOCK_DATA
    ensures InBlock(b, a) <==> PageOf(a) == b.targetAddr
    ensures InBlock(b, a) ==> ExpectedByte(b.data[a - b.targetAddr], file, entries, ranges, a)
  {
    var i :| 0 <= i < |blocks| && blocks[i] == b;
    assert CarriesPage(blocks[i], file, entries, ranges);
    if InBlock(b, a) {
      PageOfIs(b.targetAddr, a);
    }
  }

  /** Loading the blocks gives what loading the segments gives, and 0 elsewhere in an emitted page. */
  lemma FlashedIsImage(blocks: seq<Block>, file: seq<byte>, entries: seq<Entry>, ranges: seq<AddressRange>, a: u32)
    requires IsImage(blocks, file, entries, ranges)
    ensures forall b | b in blocks :: |b.data| == BLOCK_DATA
    ensures match ImageSource(entries, ranges, a)
            case Some(pos) => pos < |file| && Flashed(blocks, a) == Some(file[pos])
            case None => Flashed(blocks, a) == if HasBlock(blocks, PageOf(a)) then Some(0) else None
  {
    forall b | b in blocks
      ensures |b.data| == BLOCK_DATA
    {
      BlockHasExpectedByte(blocks, file, entries, ranges, b, a);
    }
    FlashedIsSomeBlock(blocks, a);
    if Flashed(blocks, a).Some? {
      var b :| b in blocks && InBlock(b, a) && Flashed(blocks, a) == Some(b.data[a - b.targetAddr]);
      BlockHasExpectedByte(blocks, file, entries, ranges, b, a);
    } else if HasBlock(blocks, PageOf(a)) {
      var i :| 0 <= i < |blocks| && blocks[i].targetAddr == PageOf(a);
      assert blocks[i] in blocks && InBlock(blocks[i], a);
    }
  }

  /** Every loaded byte lies in exactly one block. */
  lemma LoadedByteInOneBlock(blocks: seq<Block>, file: seq<byte>, entries: seq<Entry>, ranges: seq<AddressRange>,
                             a: u32)
    returns (i: nat)
    requires IsImage(blocks, file, entries, ranges) && ImageSource(entries, ranges, a).Some?
    ensures i < |blocks| && InBlock(blocks[i], a)
    ensures forall j | 0 <= j < |blocks| && InBlock(blocks[j], a) :: j == i
  {
    assert HasBlock(blocks, PageOf(a));
    i :| 0 <= i < |blocks| && blocks[i].targetAddr == PageOf(a);
    forall j | 0 <= j < |blocks| && InBlock(blocks[j], a)
      ensures j == i
    {
      PageOfIs(blocks[j].targetAddr, a);
    }
  }
}
