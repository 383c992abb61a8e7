/** Loading an executable into a process's address space (kernel/src/elf_loader.h:112-331).

    Physical pages are blocks handed out by the page allocator; a fresh block never overlaps
    memory that is already in use.  The page table maps virtual page numbers to pages of
    blocks (Memory::map, kernel/src/memory/virtual_memory_manager.cpp:34-155, works on whole
    pages and drops the NX flag). */
module ElfLoader {
  import opened Basics
  import opened Bytes
  import UserStack

  /** PageMapIndexer looks at address bits 12 to 47 only. */
  const ADDRESS_LIMIT: nat := 0x1_0000_0000_0000

  const PT_LOAD: nat := 1
  const PT_GNU_STACK: nat := 0x6474e551

  datatype Phdr = Phdr(typ: nat, flags: nat, offset: nat, vaddr: nat, filesz: nat, memsz: nat) {
    predicate Loads() {
      typ == PT_LOAD
    }

    predicate Executable() {
      flags % 2 == 1
    }

    predicate Writable() {
      flags / 2 % 2 == 1
    }

    /** Where the segment starts inside its first page. */
    function Skew(): nat {
      vaddr % PAGE_SIZE
    }

    function Pages(): nat {
      (memsz + Skew() + PAGE_SIZE - 1) / PAGE_SIZE
    }

    function FirstPage(): nat {
      vaddr / PAGE_SIZE
    }

    /** The segment is given page `p` of the address space. */
    predicate Covers(p: nat) {
      Loads() && FirstPage() <= p < FirstPage() + Pages()
    }

    /** What the caller must supply for a segment to be loadable at all: the file's part fits the pages that are
        allocated for p_memsz, which it does whenever p_filesz <= p_memsz. */
    predicate Sound() {
      Loads() ==> Skew() + filesz <= Pages() * PAGE_SIZE && vaddr + memsz + PAGE_SIZE <= ADDRESS_LIMIT
    }

    /** The file holds the whole segment. */
    predicate Available(file: seq<byte>) {
      Loads() ==> filesz == 0 || offset + filesz <= |file|
    }
  }

  /** The byte the segment promises at offset `i`: file contents, then zeros. */
  function SegmentByte(h: Phdr, file: seq<byte>, i: nat): byte
    requires h.Loads() && h.Available(file)
  {
    if i < h.filesz then file[h.offset + i] else 0
  }

  datatype Flags = Flags(present: bool, write: bool, user: bool, noExecute: bool)

  datatype Entry = Entry(block: array<byte>, page: nat, present: bool, write: bool, user: bool)

  datatype Region = Region(vaddr: nat, block: array<byte>, length: nat, flags: Flags) {
    /** Region's constructor (kernel/src/memory/region.h:34-44) rounds up to whole pages. */
    function Pages(): nat {
      if length % PAGE_SIZE == 0 then length / PAGE_SIZE else 1 + length / PAGE_SIZE
    }

    predicate Covers(p: nat) {
      vaddr / PAGE_SIZE <= p < vaddr / PAGE_SIZE + Pages()
    }
  }

  class PageTable {
    var entries: map<nat, Entry>
    /** The pages whose entry has the no-execute bit set.  Nothing below ever changes it. */
    var noExecute: set<nat>

    constructor ()
      ensures entries == map[] && noExecute == {}
    {
      entries, noExecute := map[], {};
    }

    /** Memory::map: one page, whatever the offsets of the addresses in it. */
    method Map(va: nat, block: array<byte>, offset: nat, flags: Flags)
      modifies this`entries
      ensures entries == old(entries)[va / PAGE_SIZE :=
                           Entry(block, offset / PAGE_SIZE, flags.present, flags.write, flags.user)]
    {
      entries := entries[va / PAGE_SIZE := Entry(block, offset / PAGE_SIZE, flags.present, flags.write, flags.user)];
    }

    /** The page-by-page loop of lines 183-190, and Memory::map_pages. */
    method MapPages(va: nat, block: array<byte>, pages: nat, flags: Flags)
      modifies this`entries
      ensures entries == old(entries) + Mapping(va / PAGE_SIZE, block, pages, flags)
    {
      var t := 0;
      while t < pages
        invariant 0 <= t <= pages
        invariant entries == old(entries) + Mapping(va / PAGE_SIZE, block, t, flags)
      {
        PageOf(va, t);
        Map(va + t * PAGE_SIZE, block, t * PAGE_SIZE, flags);
        t := t + 1;
      }
    }

    /** Memory::unmap_pages clears the Present flag of each page. */
    method UnmapPages(va: nat, pages: nat)
      requires forall p :: va / PAGE_SIZE <= p < va / PAGE_SIZE + pages ==> p in entries
      modifies this`entries
      ensures entries == Unmapped(old(entries), va / PAGE_SIZE, pages)
    {
      ghost var first := va / PAGE_SIZE;
      var t := 0;
      while t < pages
        invariant 0 <= t <= pages
        invariant entries == Unmapped(old(entries), first, t)
      {
        PageOf(va, t);
        var p := (va + t * PAGE_SIZE) / PAGE_SIZE;
        entries := entries[p := entries[p].(present := false)];
        t := t + 1;
      }
    }
  }

  function EntryFor(block: array<byte>, page: nat, flags: Flags): Entry {
    Entry(block, page, flags.present, flags.write, flags.user)
  }

  /** `pages` consecutive pages of the block, from virtual page `first`. */
  function Mapping(first: nat, block: array<byte>, pages: nat, flags: Flags): map<nat, Entry> {
    if pages == 0 then map[]
    else Mapping(first, block, pages - 1, flags)[first + pages - 1 := EntryFor(block, pages - 1, flags)]
  }

  function Unmapped(entries: map<nat, Entry>, first: nat, pages: nat): map<nat, Entry> {
    map p | p in entries ::
      if first <= p < first + pages then entries[p].(present := false) else entries[p]
  }

  lemma {:induction false} MappingAt(first: nat, block: array<byte>, pages: nat, flags: Flags, p: nat)
    ensures p in Mapping(first, block, pages, flags) <==> first <= p < first + pages
    ensures first <= p < first + pages ==> Mapping(first, block, pages, flags)[p] == EntryFor(block, p - first, flags)
    decreases pages
  {
    if pages > 0 {
      MappingAt(first, block, pages - 1, flags, p);
    }
  }

  lemma PageOf(va: nat, t: nat)
    ensures (va + t * PAGE_SIZE) / PAGE_SIZE == va / PAGE_SIZE + t
    ensures t * PAGE_SIZE / PAGE_SIZE == t
  {}

  class Process {
    var memories: seq<Region>
    var rsp: nat
    var rbp: nat
    var rip: nat

    constructor ()
      ensures memories == []
    {
      memories, rsp, rbp, rip := [], 0, 0, 0;
    }
  }

  // ------------------------------------------------------------- one segment

  ghost predicate Holds(block: array<byte>, h: Phdr, file: seq<byte>)
    requires h.Loads() && h.Available(file)
    reads block
  {
    && block.Length == h.Pages() * PAGE_SIZE
    && h.Skew() + h.memsz <= block.Length
    && (forall i :: 0 <= i < h.Skew() ==> block[i] == 0)
    && (forall i :: 0 <= i < h.memsz ==> block[h.Skew() + i] == SegmentByte(h, file, i))
  }

  lemma PagesSuffice(h: Phdr)
    ensures h.Skew() + h.memsz <= h.Pages() * PAGE_SIZE
  {}

  /** Every header with p_filesz <= p_memsz, inside the address space, is sound. */
  lemma SmallerFileIsSound(h: Phdr)
    requires h.filesz <= h.memsz && h.vaddr + h.memsz + PAGE_SIZE <= ADDRESS_LIMIT
    ensures h.Sound()
  {
    PagesSuffice(h);
    hide Phdr.Pages, Phdr.Skew;
  }

  /** memset, then vfs.read into a fresh block (lines 146-164). */
  method ReadSegment(h: Phdr, file: seq<byte>) returns (ok: bool, block: array<byte>)
    requires h.Loads() && h.Sound()
    ensures ok == h.Available(file)
    ensures fresh(block)
    ensures ok ==> Holds(block, h, file)
  {
    PagesSuffice(h);
    block := new byte[h.Pages() * PAGE_SIZE];
    var size := h.memsz + h.Skew();
    var i := 0;
    while i < size
      invariant 0 <= i <= size
      invariant forall j :: 0 <= j < i ==> block[j] == 0
    {
      block[i] := 0;
      i := i + 1;
    }
    // vfs.read: as many of the requested bytes as the file has from that offset.
    var available := if h.offset <= |file| then |file| - h.offset else 0;
    var n := if h.filesz <= available then h.filesz else available;
    var k := 0;
    while k < n
      invariant 0 <= k <= n
      invariant forall j :: 0 <= j < size ==>
                  block[j] == if h.Skew() <= j < h.Skew() + k then file[h.offset + j - h.Skew()] else 0
    {
      block[h.Skew() + k] := file[h.offset + k];
      k := k + 1;
    }
    ok := n == h.filesz;
  }

  // ------------------------------------------------------------ all segments

  function SegmentFlags(h: Phdr): Flags {
    Flags(true, h.Writable(), true, !h.Executable())
  }

  /** What the headers add to the page table, one after the other. */
  function Mapped(phdrs: seq<Phdr>, blocks: seq<array<byte>>): map<nat, Entry>
    requires |phdrs| == |blocks|
  {
    if phdrs == [] then map[]
    else
      var n := |phdrs| - 1;
      var h := phdrs[n];
      var rest := Mapped(phdrs[..n], blocks[..n]);
      if h.Loads() then rest + Mapping(h.FirstPage(), blocks[n], h.Pages(), SegmentFlags(h)) else rest
  }

  function Regions(phdrs: seq<Phdr>, blocks: seq<array<byte>>): seq<Region>
    requires |phdrs| == |blocks|
  {
    if phdrs == [] then []
    else
      var n := |phdrs| - 1;
      var h := phdrs[n];
      var rest := Regions(phdrs[..n], blocks[..n]);
      if h.Loads() then rest + [Region(h.vaddr, blocks[n], h.Pages() * PAGE_SIZE, SegmentFlags(h))] else rest
  }

  predicate AllAvailable(phdrs: seq<Phdr>, file: seq<byte>) {
    forall k :: 0 <= k < |phdrs| ==> phdrs[k].Available(file)
  }

  ghost predicate AllHold(phdrs: seq<Phdr>, blocks: seq<array<byte>>, file: seq<byte>)
    requires |phdrs| == |blocks|
    requires AllAvailable(phdrs, file)
    reads blocks
  {
    forall k :: 0 <= k < |phdrs| && phdrs[k].Loads() ==> Holds(blocks[k], phdrs[k], file)
  }

  /** The first `n` headers can be loaded, and the next one, if there is one, cannot. */
  predicate LoadableTo(phdrs: seq<Phdr>, file: seq<byte>, n: nat) {
    n <= |phdrs| && AllAvailable(phdrs[..n], file) && (n < |phdrs| ==> !phdrs[n].Available(file))
  }

  /** Lines 123-202.  The page table and the region list are extended header by header, by blocks that hold the
      segments, up to the first header whose segment the file does not hold; it succeeds exactly when there is
      none.  `stackNoExecute` is the flag PT_GNU_STACK headers add. */
  method LoadSegments(process: Process, table: PageTable, file: seq<byte>, phdrs: seq<Phdr>)
    returns (ok: bool, stackNoExecute: bool, ghost blocks: seq<array<byte>>)
    requires forall k :: 0 <= k < |phdrs| ==> phdrs[k].Sound()
    modifies process, table`entries
    ensures LoadableTo(phdrs, file, |blocks|) && fresh(blocks)
    ensures ok == AllAvailable(phdrs, file) == (|blocks| == |phdrs|)
    ensures AllHold(phdrs[..|blocks|], blocks, file)
    ensures table.entries == old(table.entries) + Mapped(phdrs[..|blocks|], blocks)
    ensures process.memories == old(process.memories) + Regions(phdrs[..|blocks|], blocks)
    ensures stackNoExecute == StackNoExecute(phdrs[..|blocks|])
    ensures process.rsp == old(process.rsp) && process.rbp == old(process.rbp) && process.rip == old(process.rip)
  {
    hide AllHold, Mapped, Regions, Holds, StackNoExecute;
    stackNoExecute, blocks := false, [];
    ghost var filler: array<byte> := new byte[0];
    assert phdrs[..0] == [];
    Start(file);
    var k := 0;
    while k < |phdrs|
      invariant 0 <= k <= |phdrs| && |blocks| == k
      invariant AllAvailable(phdrs[..k], file)
      invariant fresh(blocks)
      invariant AllHold(phdrs[..k], blocks, file)
      invariant table.entries == old(table.entries) + Mapped(phdrs[..k], blocks)
      invariant process.memories == old(process.memories) + Regions(phdrs[..k], blocks)
      invariant stackNoExecute == StackNoExecute(phdrs[..k])
      invariant process.rsp == old(process.rsp) && process.rbp == old(process.rbp) && process.rip == old(process.rip)
    {
      var h := phdrs[k];
      assert phdrs[..k + 1] == phdrs[..k] + [h];
      ghost var block' := filler;
      if h.typ == PT_LOAD {
        var okRead, block := ReadSegment(h, file);
        if !okRead {
          return false, stackNoExecute, blocks;
        }
        table.MapPages(h.vaddr, block, h.Pages(), SegmentFlags(h));
        process.memories := process.memories + [Region(h.vaddr, block, h.Pages() * PAGE_SIZE, SegmentFlags(h))];
        block' := block;
      } else if h.typ == PT_GNU_STACK {
        if !h.Executable() {
          stackNoExecute := true;
        }
      }
      OneHeaderMore(phdrs[..k], blocks, h, block', file, old(table.entries), old(process.memories));
      blocks := blocks + [block'];
      k := k + 1;
    }
    assert phdrs[..k] == phdrs;
    ok := true;
  }

  predicate StackNoExecute(phdrs: seq<Phdr>) {
    exists k :: 0 <= k < |phdrs| && phdrs[k].typ == PT_GNU_STACK && !phdrs[k].Executable()
  }

  lemma Start(file: seq<byte>)
    ensures AllHold([], [], file) && Mapped([], []) == map[] && Regions([], []) == [] && !StackNoExecute([])
  {}

  lemma OneHeaderMore(phdrs: seq<Phdr>, blocks: seq<array<byte>>, h: Phdr, block: array<byte>, file: seq<byte>,
                      entries: map<nat, Entry>, memories: seq<Region>)
    requires |phdrs| == |blocks| && AllAvailable(phdrs, file) && AllHold(phdrs, blocks, file)
    requires h.Available(file) && (h.Loads() ==> Holds(block, h, file))
    ensures AllAvailable(phdrs + [h], file)
    ensures AllHold(phdrs + [h], blocks + [block], file)
    ensures StackNoExecute(phdrs + [h]) <==>
            StackNoExecute(phdrs) || (h.typ == PT_GNU_STACK && !h.Executable())
    ensures entries + Mapped(phdrs + [h], blocks + [block]) ==
            if h.Loads()
            then entries + Mapped(phdrs, blocks) + Mapping(h.FirstPage(), block, h.Pages(), SegmentFlags(h))
            else entries + Mapped(phdrs, blocks)
    ensures memories + Regions(phdrs + [h], blocks + [block]) ==
            if h.Loads()
            then memories + Regions(phdrs, blocks) + [Region(h.vaddr, block, h.Pages() * PAGE_SIZE, SegmentFlags(h))]
            else memories + Regions(phdrs, blocks)
  {
    hide Holds, AllHold, AllAvailable, Mapped, Mapping, Regions, StackNoExecute, SegmentFlags;
    hide Phdr.Available, Phdr.Pages, Phdr.Executable, Phdr.FirstPage;
    OneMoreHolds(phdrs, blocks, h, block, file);
    OneMoreMapped(phdrs, blocks, h, block);
    OneMoreRegion(phdrs, blocks, h, block);
    OneMoreStackFlag(phdrs, h);
  }

  lemma OneMoreHolds(phdrs: seq<Phdr>, blocks: seq<array<byte>>, h: Phdr, block: array<byte>, file: seq<byte>)
    requires |phdrs| == |blocks| && AllAvailable(phdrs, file) && AllHold(phdrs, blocks, file)
    requires h.Available(file) && (h.Loads() ==> Holds(block, h, file))
    ensures AllAvailable(phdrs + [h], file) && AllHold(phdrs + [h], blocks + [block], file)
  {
    hide Holds, Phdr.Available;
    var hs, bs := phdrs + [h], blocks + [block];
    forall k | 0 <= k < |hs| ensures hs[k].Available(file) && (hs[k].Loads() ==> Holds(bs[k], hs[k], file)) {
      if k < |phdrs| {
        assert hs[k] == phdrs[k] && bs[k] == blocks[k];
      }
    }
  }

  lemma OneMoreMapped(phdrs: seq<Phdr>, blocks: seq<array<byte>>, h: Phdr, block: array<byte>)
    requires |phdrs| == |blocks|
    ensures Mapped(phdrs + [h], blocks + [block]) ==
            Mapped(phdrs, blocks)
            + if h.Loads() then Mapping(h.FirstPage(), block, h.Pages(), SegmentFlags(h)) else map[]
  {
    hide Mapping;
    assert (phdrs + [h])[..|phdrs|] == phdrs && (blocks + [block])[..|phdrs|] == blocks;
  }

  lemma OneMoreRegion(phdrs: seq<Phdr>, blocks: seq<array<byte>>, h: Phdr, block: array<byte>)
    requires |phdrs| == |blocks|
    ensures Regions(phdrs + [h], blocks + [block]) ==
            Regions(phdrs, blocks)
            + if h.Loads() then [Region(h.vaddr, block, h.Pages() * PAGE_SIZE, SegmentFlags(h))] else []
  {
    hide SegmentFlags, Phdr.Pages;
    assert (phdrs + [h])[..|phdrs|] == phdrs && (blocks + [block])[..|phdrs|] == blocks;
  }

  lemma OneMoreStackFlag(phdrs: seq<Phdr>, h: Phdr)
    ensures StackNoExecute(phdrs + [h]) <==> StackNoExecute(phdrs) || (h.typ == PT_GNU_STACK && !h.Executable())
  {
    hide Phdr.Executable;
    var hs := phdrs + [h];
    if StackNoExecute(phdrs) {
      var k :| 0 <= k < |phdrs| && phdrs[k].typ == PT_GNU_STACK && !phdrs[k].Executable();
      assert hs[k] == phdrs[k];
    }
    assert hs[|phdrs|] == h;
  }

  // ----------------------------------------------- what the process then sees

  /** The header whose page is found at virtual page `p`: the last one that covers it. */
  function LastCover(phdrs: seq<Phdr>, p: nat): (r: Option<nat>)
    ensures r.Some? ==> r.value < |phdrs| && phdrs[r.value].Covers(p)
  {
    if phdrs == [] then None
    else if phdrs[|phdrs| - 1].Covers(p) then Some(|phdrs| - 1)
    else LastCover(phdrs[..|phdrs| - 1], p)
  }

  lemma {:induction false} LastCoverMeaning(phdrs: seq<Phdr>, p: nat, k: nat)
    requires k < |phdrs|
    ensures LastCover(phdrs, p) == Some(k) <==>
            phdrs[k].Covers(p) && forall j :: k < j < |phdrs| ==> !phdrs[j].Covers(p)
  {
    var n := |phdrs| - 1;
    if !phdrs[n].Covers(p) && k < n {
      LastCoverMeaning(phdrs[..n], p, k);
      assert forall j :: k < j < n ==> phdrs[..n][j] == phdrs[j];
    }
  }

  lemma {:induction false} MappedAt(phdrs: seq<Phdr>, blocks: seq<array<byte>>, p: nat)
    requires |phdrs| == |blocks|
    ensures p in Mapped(phdrs, blocks) <==> LastCover(phdrs, p).Some?
    ensures p in Mapped(phdrs, blocks) ==>
              var k := LastCover(phdrs, p).value;
              Mapped(phdrs, blocks)[p] == EntryFor(blocks[k], p - phdrs[k].FirstPage(), SegmentFlags(phdrs[k]))
  {
    if phdrs != [] {
      var n := |phdrs| - 1;
      MappedAt(phdrs[..n], blocks[..n], p);
      MappingAt(phdrs[n].FirstPage(), blocks[n], phdrs[n].Pages(), SegmentFlags(phdrs[n]), p);
    }
  }

  lemma EntryAt(before: map<nat, Entry>, phdrs: seq<Phdr>, blocks: seq<array<byte>>, p: nat, k: nat)
    requires |phdrs| == |blocks| && k < |phdrs| && phdrs[k].Covers(p)
    requires forall j :: k < j < |phdrs| ==> !phdrs[j].Covers(p)
    ensures p in before + Mapped(phdrs, blocks)
    ensures (before + Mapped(phdrs, blocks))[p]
            == EntryFor(blocks[k], p - phdrs[k].FirstPage(), SegmentFlags(phdrs[k]))
  {
    hide Mapped;
    LastCoverMeaning(phdrs, p, k);
    MappedAt(phdrs, blocks, p);
  }

  /** The byte a process reads at virtual address `va`. */
  ghost function Translate(entries: map<nat, Entry>, va: nat): Option<byte>
    reads if va / PAGE_SIZE in entries then {entries[va / PAGE_SIZE].block} else {}
  {
    if va / PAGE_SIZE !in entries then None
    else
      var e := entries[va / PAGE_SIZE];
      var i := e.page * PAGE_SIZE + va % PAGE_SIZE;
      if e.present && i < e.block.Length then Some(e.block[i]) else None
  }

  lemma TranslateEntry(entries: map<nat, Entry>, va: nat, block: array<byte>, page: nat, flags: Flags)
    requires va / PAGE_SIZE in entries && entries[va / PAGE_SIZE] == EntryFor(block, page, flags) && flags.present
    requires page * PAGE_SIZE + va % PAGE_SIZE < block.Length
    ensures Translate(entries, va) == Some(block[page * PAGE_SIZE + va % PAGE_SIZE])
  {}

  lemma SegmentEntry(entries: map<nat, Entry>, h: Phdr, block: array<byte>, file: seq<byte>, i: nat, p: nat)
    requires h.Loads() && h.Available(file) && Holds(block, h, file) && i < h.memsz
    requires p == (h.vaddr + i) / PAGE_SIZE && h.FirstPage() <= p
    requires p in entries && entries[p] == EntryFor(block, p - h.FirstPage(), SegmentFlags(h))
    ensures Translate(entries, h.vaddr + i) == Some(SegmentByte(h, file, i))
  {
    SplitAddress(h, i);
    HoldsAt(block, h, file, i);
    hide Translate, Holds, SegmentByte;
    hide Phdr.Covers, Phdr.Skew, Phdr.FirstPage, Phdr.Pages, Phdr.Available, Phdr.Writable, Phdr.Executable;
    TranslateEntry(entries, h.vaddr + i, block, p - h.FirstPage(), SegmentFlags(h));
  }

  lemma HoldsAt(block: array<byte>, h: Phdr, file: seq<byte>, i: nat)
    requires h.Loads() && h.Available(file) && Holds(block, h, file) && i < h.memsz
    ensures h.Skew() + i < block.Length && block[h.Skew() + i] == SegmentByte(h, file, i)
  {}

  lemma SplitAddress(h: Phdr, i: nat)
    ensures h.FirstPage() <= (h.vaddr + i) / PAGE_SIZE
    ensures ((h.vaddr + i) / PAGE_SIZE - h.FirstPage()) * PAGE_SIZE + (h.vaddr + i) % PAGE_SIZE == h.Skew() + i
    ensures h.Loads() && i < h.memsz ==> h.Covers((h.vaddr + i) / PAGE_SIZE)
  {
    var q := (h.vaddr + i) / PAGE_SIZE - h.FirstPage();
    assert h.vaddr + i == (h.FirstPage() + q) * PAGE_SIZE + (h.vaddr + i) % PAGE_SIZE;
    if i < h.memsz {
      PagesSuffice(h);
      assert q * PAGE_SIZE < h.Pages() * PAGE_SIZE;
    }
  }

  /** No later segment takes over page `p`. */
  ghost predicate Owned(phdrs: seq<Phdr>, k: nat, p: nat) {
    forall j :: k < j < |phdrs| ==> !phdrs[j].Covers(p)
  }

  /** Every byte of a segment whose page no later segment takes over is the file's byte, or zero
      past p_filesz; the page is writable exactly when PF_W is set. */
  lemma SegmentVisible(before: map<nat, Entry>, phdrs: seq<Phdr>, blocks: seq<array<byte>>, file: seq<byte>, k: nat,
                       i: nat)
    requires |phdrs| == |blocks| && AllAvailable(phdrs, file) && AllHold(phdrs, blocks, file)
    requires k < |phdrs| && phdrs[k].Loads() && i < phdrs[k].memsz
    requires Owned(phdrs, k, (phdrs[k].vaddr + i) / PAGE_SIZE)
    ensures var after, va := before + Mapped(phdrs, blocks), phdrs[k].vaddr + i;
            && Translate(after, va) == Some(SegmentByte(phdrs[k], file, i))
            && (after[va / PAGE_SIZE].write <==> phdrs[k].flags % 4 >= 2)
            && after[va / PAGE_SIZE].user
  {
    hide Mapped, AllHold, AllAvailable, SegmentByte, Translate, Holds;
    hide Phdr.Covers, Phdr.Skew, Phdr.FirstPage, Phdr.Pages, Phdr.Available, Phdr.Writable, Phdr.Executable;
    var h := phdrs[k];
    var p := (h.vaddr + i) / PAGE_SIZE;
    HoldsOne(phdrs, blocks, file, k);
    SplitAddress(h, i);
    EntryAt(before, phdrs, blocks, p, k);
    SegmentEntry(before + Mapped(phdrs, blocks), h, blocks[k], file, i, p);
    var rest, w, x := LowBits(h.flags);
    FlagBits(h, rest, w, x);
  }

  lemma HoldsOne(phdrs: seq<Phdr>, blocks: seq<array<byte>>, file: seq<byte>, k: nat)
    requires |phdrs| == |blocks| && AllAvailable(phdrs, file) && AllHold(phdrs, blocks, file)
    requires k < |phdrs| && phdrs[k].Loads()
    ensures phdrs[k].Available(file) && Holds(blocks[k], phdrs[k], file)
  {}

  ghost predicate PageDisjoint(phdrs: seq<Phdr>) {
    forall j, k, p: nat :: 0 <= j < k < |phdrs| ==> !(phdrs[j].Covers(p) && phdrs[k].Covers(p))
  }

  /** With page-disjoint segments the whole image is as the file says. */
  lemma ImageVisible(before: map<nat, Entry>, phdrs: seq<Phdr>, blocks: seq<array<byte>>, file: seq<byte>)
    requires |phdrs| == |blocks| && AllAvailable(phdrs, file) && AllHold(phdrs, blocks, file)
    requires PageDisjoint(phdrs)
    ensures forall k, i :: 0 <= k < |phdrs| && phdrs[k].Loads() && 0 <= i < phdrs[k].memsz ==>
              Translate(before + Mapped(phdrs, blocks), phdrs[k].vaddr + i) == Some(SegmentByte(phdrs[k], file, i))
  {
    forall k, i | 0 <= k < |phdrs| && phdrs[k].Loads() && 0 <= i < phdrs[k].memsz
      ensures Translate(before + Mapped(phdrs, blocks), phdrs[k].vaddr + i) == Some(SegmentByte(phdrs[k], file, i))
    {
      SplitAddress(phdrs[k], i);
      SegmentVisible(before, phdrs, blocks, file, k, i);
    }
  }

  /** When a later segment starts in the page an earlier one ends in, the earlier one's bytes in
      that page are lost: the process reads zeros there. */
  lemma SharedPageZeroed(before: map<nat, Entry>, phdrs: seq<Phdr>, blocks: seq<array<byte>>, file: seq<byte>, k: nat,
                         va: nat)
    requires |phdrs| == |blocks| && AllAvailable(phdrs, file) && AllHold(phdrs, blocks, file)
    requires k < |phdrs| && phdrs[k].Loads()
    requires va / PAGE_SIZE == phdrs[k].FirstPage() && va < phdrs[k].vaddr && phdrs[k].memsz > 0
    requires forall j :: k < j < |phdrs| ==> !phdrs[j].Covers(va / PAGE_SIZE)
    ensures Translate(before + Mapped(phdrs, blocks), va) == Some(0)
  {
    var h := phdrs[k];
    assert Holds(blocks[k], h, file);
    hide Mapped, AllHold, SegmentByte;
    SplitAddress(h, 0);
    EntryAt(before, phdrs, blocks, va / PAGE_SIZE, k);
  }

  /** Two segments in one page: the process reads zero where the first promises the file's byte 1. */
  lemma SharedPageExample(before: map<nat, Entry>, blocks: seq<array<byte>>)
    requires |blocks| == 2 && AllHold(SHARING, blocks, [1])
    ensures SegmentByte(SHARING[0], [1], 0) == 1
    ensures Translate(before + Mapped(SHARING, blocks), SHARING[0].vaddr) == Some(0)
  {
    hide Mapped, AllHold, Translate;
    SharedPageZeroed(before, SHARING, blocks, [1], 1, SHARING[0].vaddr);
  }

  const SHARING: seq<Phdr> := [Phdr(PT_LOAD, 4, 0, 0x1000, 1, 1), Phdr(PT_LOAD, 6, 0, 0x1800, 0, 16)]

  /** Pages that no segment covers keep their entry. */
  lemma OthersUntouched(before: map<nat, Entry>, phdrs: seq<Phdr>, blocks: seq<array<byte>>, p: nat)
    requires |phdrs| == |blocks|
    requires forall j :: 0 <= j < |phdrs| ==> !phdrs[j].Covers(p)
    ensures p in before + Mapped(phdrs, blocks) <==> p in before
    ensures p in before ==> (before + Mapped(phdrs, blocks))[p] == before[p]
  {
    MappedAt(phdrs, blocks, p);
  }

  // ------------------------------------------------------------- what p_flags decides

  /** A loadable header takes exactly the pages between the start of its first page and the end of its memory. */
  lemma CoversMeaning(h: Phdr, p: nat)
    ensures h.Covers(p) <==> h.typ == 1 && p * 4096 < h.vaddr + h.memsz && h.vaddr < (p + 1) * 4096
  {
    var first, n := h.FirstPage(), h.Pages();
    assert h.vaddr == first * 4096 + h.Skew();
    assert (n - 1) * 4096 < h.memsz + h.Skew() <= n * 4096;
    if p < first {
      assert (p + 1) * 4096 <= first * 4096;
    } else if p < first + n {
      assert p * 4096 <= (first + n - 1) * 4096;
    } else {
      assert (first + n) * 4096 <= p * 4096;
    }
  }

  /** Bit 1 of p_flags, the writable one, decides whether the pages of a segment may be written. */
  lemma SegmentPermissions(before: map<nat, Entry>, phdrs: seq<Phdr>, blocks: seq<array<byte>>, k: nat, p: nat,
                           rest: nat, w: nat, x: nat)
    requires |phdrs| == |blocks| && k < |phdrs| && phdrs[k].Covers(p) && Owned(phdrs, k, p)
    requires phdrs[k].flags == 4 * rest + 2 * w + x && w < 2 && x < 2
    ensures var after := before + Mapped(phdrs, blocks);
            p in after && after[p].present && after[p].user && (after[p].write <==> w == 1)
  {
    hide Mapped, Phdr.Covers, Phdr.FirstPage;
    FlagBits(phdrs[k], rest, w, x);
    EntryAt(before, phdrs, blocks, p, k);
  }

  lemma FlagBits(h: Phdr, rest: nat, w: nat, x: nat)
    requires h.flags == 4 * rest + 2 * w + x && w < 2 && x < 2
    ensures SegmentFlags(h) == Flags(true, w == 1, true, x == 0)
  {
    assert h.flags / 2 == 2 * rest + w;
  }

  /** In the region recorded for a segment bit 1 decides the same, and bit 0, the executable one, what it says about
      execution. */
  lemma {:induction false} RegionPermissions(phdrs: seq<Phdr>, blocks: seq<array<byte>>, k: nat, rest: nat, w: nat,
                                             x: nat)
    requires |phdrs| == |blocks| && k < |phdrs| && phdrs[k].Loads()
    requires phdrs[k].flags == 4 * rest + 2 * w + x && w < 2 && x < 2
    ensures var r, all := |Regions(phdrs[..k], blocks[..k])|, Regions(phdrs, blocks);
            && r < |all|
            && all[r] == Region(phdrs[k].vaddr, blocks[k], phdrs[k].Pages() * PAGE_SIZE,
                                Flags(true, w == 1, true, x == 0))
  {
    hide Phdr.Pages, SegmentFlags;
    var n := |phdrs| - 1;
    if k == n {
      FlagBits(phdrs[k], rest, w, x);
    } else {
      RegionPermissions(phdrs[..n], blocks[..n], k, rest, w, x);
      assert phdrs[..n][..k] == phdrs[..k] && blocks[..n][..k] == blocks[..k];
    }
  }

  /** A region has the fewest whole pages that hold its length. */
  lemma RegionPages(r: Region)
    ensures r.length <= r.Pages() * 4096 < r.length + 4096
  {}

  /** Page `p` is there for users, and they may write it or not. */
  predicate Permits(entries: map<nat, Entry>, p: nat, write: bool) {
    p in entries && entries[p].present && entries[p].user && entries[p].write == write
  }

  /** What the loaded pages permit: everyone may read them, and write them where p_flags has bit 1 or the stack is. */
  ghost predicate PagesPermit(entries: map<nat, Entry>, phdrs: seq<Phdr>, stackBottom: nat) {
    && (forall k, p: nat :: 0 <= k < |phdrs| && phdrs[k].Covers(p) && Owned(phdrs, k, p) && !StackCovers(stackBottom, p)
          ==> Permits(entries, p, phdrs[k].flags % 4 >= 2))
    && (forall p: nat :: StackCovers(stackBottom, p) ==> Permits(entries, p, true))
  }

  lemma StackPermits(entries: map<nat, Entry>, stackBottom: nat, mem: array<byte>, noExecute: bool, p: nat)
    ensures StackCovers(stackBottom, p) ==> Permits(WithStack(entries, stackBottom, mem, noExecute), p, true)
    ensures !StackCovers(stackBottom, p) ==>
              forall w :: Permits(entries, p, w) ==> Permits(WithStack(entries, stackBottom, mem, noExecute), p, w)
  {
    hide Mapping;
    MappingAt(stackBottom / PAGE_SIZE, mem, 4, Flags(true, true, true, noExecute), p);
  }

  lemma AllPermit(before: map<nat, Entry>, phdrs: seq<Phdr>, blocks: seq<array<byte>>, stackBottom: nat,
                  mem: array<byte>, noExecute: bool)
    requires |phdrs| == |blocks|
    ensures PagesPermit(WithStack(before + Mapped(phdrs, blocks), stackBottom, mem, noExecute), phdrs, stackBottom)
  {
    hide Mapped, WithStack, Owned, StackCovers, Permits, Phdr.Covers;
    var loaded := before + Mapped(phdrs, blocks);
    var after := WithStack(loaded, stackBottom, mem, noExecute);
    forall k, p: nat | 0 <= k < |phdrs| && phdrs[k].Covers(p) && Owned(phdrs, k, p) && !StackCovers(stackBottom, p)
      ensures Permits(after, p, phdrs[k].flags % 4 >= 2)
    {
      OwnedPermits(before, phdrs, blocks, k, p);
      StackPermits(loaded, stackBottom, mem, noExecute, p);
    }
    forall p: nat | StackCovers(stackBottom, p) ensures Permits(after, p, true) {
      StackPermits(loaded, stackBottom, mem, noExecute, p);
    }
  }

  lemma OwnedPermits(before: map<nat, Entry>, phdrs: seq<Phdr>, blocks: seq<array<byte>>, k: nat, p: nat)
    requires |phdrs| == |blocks| && k < |phdrs| && phdrs[k].Covers(p) && Owned(phdrs, k, p)
    ensures Permits(before + Mapped(phdrs, blocks), p, phdrs[k].flags % 4 >= 2)
  {
    hide Mapped, Owned, Phdr.Covers;
    var rest, w, x := LowBits(phdrs[k].flags);
    SegmentPermissions(before, phdrs, blocks, k, p, rest, w, x);
  }

  lemma LowBits(f: nat) returns (rest: nat, w: nat, x: nat)
    ensures f == 4 * rest + 2 * w + x && w < 2 && x < 2 && (w == 1 <==> f % 4 >= 2)
  {
    rest := f / 4;
    w := if f % 4 >= 2 then 1 else 0;
    x := f % 4 - 2 * w;
  }

  // ------------------------------------------------------------- the execute flag

  /** Headers that differ in nothing but PF_X. */
  predicate SameButExecute(a: Phdr, b: Phdr) {
    a.(flags := 0) == b.(flags := 0) && a.flags / 2 == b.flags / 2
  }

  lemma {:induction false} MappingIgnoresExecute(first: nat, block: array<byte>, pages: nat, f: Flags, g: Flags)
    requires f.(noExecute := false) == g.(noExecute := false)
    ensures Mapping(first, block, pages, f) == Mapping(first, block, pages, g)
    decreases pages
  {
    if pages > 0 {
      MappingIgnoresExecute(first, block, pages - 1, f, g);
    }
  }

  /** PF_X decides nothing: headers that differ only in it are mapped to the same entries. */
  lemma {:induction false} ExecuteIgnored(a: seq<Phdr>, b: seq<Phdr>, blocks: seq<array<byte>>)
    requires |a| == |b| == |blocks| && forall i :: 0 <= i < |a| ==> SameButExecute(a[i], b[i])
    ensures Mapped(a, blocks) == Mapped(b, blocks)
  {
    if a != [] {
      var n := |a| - 1;
      ExecuteIgnored(a[..n], b[..n], blocks[..n]);
      assert SameButExecute(a[n], b[n]);
      hide Phdr.Executable, Phdr.Pages;
      MappingIgnoresExecute(a[n].FirstPage(), blocks[n], a[n].Pages(), SegmentFlags(a[n]), SegmentFlags(b[n]));
    }
  }

  /** A segment without PF_X is recorded as not executable, and its page can be executed all the same. */
  method DataCanExecute() returns (process: Process, table: PageTable)
    ensures |process.memories| == 1 && process.memories[0].flags.noExecute
    ensures 1 in table.entries && table.entries[1].present && 1 !in table.noExecute
  {
    hide Mapped, Regions, AllHold, Phdr.Sound;
    var h := Phdr(PT_LOAD, 6, 0, 0x1000, 1, 1);
    SmallerFileIsSound(h);
    process := new Process();
    table := new PageTable();
    var ok, noExecute;
    ghost var blocks;
    ok, noExecute, blocks := LoadSegments(process, table, [1], [h]);
    OneSegment(h, blocks);
  }

  lemma OneSegment(h: Phdr, blocks: seq<array<byte>>)
    requires |blocks| == 1 && h == Phdr(PT_LOAD, 6, 0, 0x1000, 1, 1)
    ensures [h][..1] == [h] && |Regions([h], blocks)| == 1 && Regions([h], blocks)[0].flags.noExecute
    ensures 1 in Mapped([h], blocks) && Mapped([h], blocks)[1].present
  {
    assert [h][..0] == [] && blocks[..0] == [];
    MappedAt([h], blocks, 1);
    LastCoverMeaning([h], 1, 0);
  }

  // ------------------------------------------------------------ taking it down

  predicate Recorded(memories: seq<Region>, p: nat) {
    exists r :: 0 <= r < |memories| && memories[r].Covers(p)
  }

  /** The regions recorded for the process are exactly the pages that were mapped. */
  lemma {:induction false} RegionsAreMapped(phdrs: seq<Phdr>, blocks: seq<array<byte>>, p: nat)
    requires |phdrs| == |blocks|
    ensures Recorded(Regions(phdrs, blocks), p) <==> p in Mapped(phdrs, blocks)
  {
    if phdrs != [] {
      var n := |phdrs| - 1;
      var h := phdrs[n];
      var rest, all := Regions(phdrs[..n], blocks[..n]), Regions(phdrs, blocks);
      RegionsAreMapped(phdrs[..n], blocks[..n], p);
      MappingAt(h.FirstPage(), blocks[n], h.Pages(), SegmentFlags(h), p);
      if h.Loads() {
        assert all[|rest|].Covers(p) <==> h.Covers(p);
        assert forall r :: 0 <= r < |rest| ==> all[r] == rest[r];
      }
    }
  }

  /** What lets a process be taken down: its recorded pages are in its page table. */
  ghost predicate RecordedAreMapped(memories: seq<Region>, entries: map<nat, Entry>) {
    forall p: nat :: Recorded(memories, p) ==> p in entries
  }

  function AfterUnload(e: Entry, recorded: bool): Entry {
    if recorded then e.(present := false) else e
  }

  /** The page table with the recorded pages marked as not present. */
  function Cleared(entries: map<nat, Entry>, memories: seq<Region>): (r: map<nat, Entry>)
    ensures r.Keys == entries.Keys
  {
    map p | p in entries :: AfterUnload(entries[p], Recorded(memories, p))
  }

  /** Physical pages given back to the allocator. */
  datatype Freed = Freed(block: array<byte>, pages: nat)

  function FreedOf(memories: seq<Region>): seq<Freed> {
    if memories == [] then []
    else
      var r := memories[|memories| - 1];
      FreedOf(memories[..|memories| - 1]) + [Freed(r.block, r.Pages())]
  }

  /** What is given back for a loaded image is, header by header, the whole block that was requested for it. */
  lemma {:induction false} WholeBlocksFreed(phdrs: seq<Phdr>, blocks: seq<array<byte>>, file: seq<byte>, i: nat)
    requires |phdrs| == |blocks| && AllAvailable(phdrs, file) && AllHold(phdrs, blocks, file)
    requires i < |FreedOf(Regions(phdrs, blocks))|
    ensures FreedOf(Regions(phdrs, blocks))[i].pages * PAGE_SIZE == FreedOf(Regions(phdrs, blocks))[i].block.Length
  {
    var n := |phdrs| - 1;
    var rest, all := Regions(phdrs[..n], blocks[..n]), Regions(phdrs, blocks);
    HoldsPrefix(phdrs, blocks, file, n);
    if phdrs[n].Loads() {
      assert all[..|all| - 1] == rest;
      WholeRegion(phdrs[n], blocks[n]);
      HoldsOne(phdrs, blocks, file, n);
    }
    hide Regions, AllHold, Phdr.Pages;
    if i < |FreedOf(rest)| {
      WholeBlocksFreed(phdrs[..n], blocks[..n], file, i);
    }
  }

  lemma HoldsPrefix(phdrs: seq<Phdr>, blocks: seq<array<byte>>, file: seq<byte>, n: nat)
    requires |phdrs| == |blocks| && AllAvailable(phdrs, file) && AllHold(phdrs, blocks, file) && n <= |phdrs|
    ensures AllAvailable(phdrs[..n], file) && AllHold(phdrs[..n], blocks[..n], file)
  {}

  lemma WholeRegion(h: Phdr, block: array<byte>)
    ensures Region(h.vaddr, block, h.Pages() * PAGE_SIZE, SegmentFlags(h)).Pages() == h.Pages()
  {
    hide Phdr.Pages;
  }

  /** Lines 348-353: unmap every recorded region, give its pages back, and forget it. */
  method Unload(process: Process, table: PageTable) returns (freed: seq<Freed>)
    requires RecordedAreMapped(process.memories, table.entries)
    modifies process`memories, table`entries
    ensures process.memories == [] && freed == FreedOf(old(process.memories))
    ensures table.entries == Cleared(old(table.entries), old(process.memories))
  {
    hide Recorded, Cleared, Unmapped, RecordedAreMapped;
    var regions := process.memories;
    ghost var before := table.entries;
    NothingCleared(before);
    assert regions[..0] == [];
    freed := [];
    var k := 0;
    while k < |regions|
      invariant 0 <= k <= |regions| && process.memories == regions && freed == FreedOf(regions[..k])
      invariant table.entries == Cleared(before, regions[..k])
    {
      var r := regions[k];
      RegionMapped(before, regions, k);
      ClearedStep(before, regions, k);
      table.UnmapPages(r.vaddr, r.Pages());
      assert regions[..k + 1][..k] == regions[..k];
      freed := freed + [Freed(r.block, r.Pages())];
      k := k + 1;
    }
    assert regions[..k] == regions;
    process.memories := [];
  }

  lemma NothingCleared(entries: map<nat, Entry>)
    ensures Cleared(entries, []) == entries
  {}

  lemma RegionMapped(entries: map<nat, Entry>, regions: seq<Region>, k: nat)
    requires RecordedAreMapped(regions, entries) && k < |regions|
    ensures forall p :: regions[k].vaddr / PAGE_SIZE <= p < regions[k].vaddr / PAGE_SIZE + regions[k].Pages() ==>
              p in entries
  {
    forall p: nat | regions[k].Covers(p) ensures p in entries {
      assert Recorded(regions, p);
    }
  }

  lemma ClearedStep(entries: map<nat, Entry>, regions: seq<Region>, k: nat)
    requires k < |regions|
    ensures Unmapped(Cleared(entries, regions[..k]), regions[k].vaddr / PAGE_SIZE, regions[k].Pages())
            == Cleared(entries, regions[..k + 1])
  {
    hide Recorded;
    forall p: nat ensures Recorded(regions[..k + 1], p) <==> Recorded(regions[..k], p) || regions[k].Covers(p) {
      OneRegionMore(regions, k, p);
    }
  }

  lemma OneRegionMore(regions: seq<Region>, k: nat, p: nat)
    requires k < |regions|
    ensures Recorded(regions[..k + 1], p) <==> Recorded(regions[..k], p) || regions[k].Covers(p)
  {
    assert regions[..k + 1][k] == regions[k];
    assert forall r :: 0 <= r < k ==> regions[..k + 1][r] == regions[..k][r];
  }

  // --------------------------------------------------------- the whole loader

  predicate StackCovers(stackBottom: nat, p: nat) {
    stackBottom / PAGE_SIZE <= p < stackBottom / PAGE_SIZE + 4
  }

  /** The page table with the stack mapped last, over whatever is there (lines 218-219). */
  function WithStack(entries: map<nat, Entry>, stackBottom: nat, mem: array<byte>, noExecute: bool): map<nat, Entry> {
    entries + Mapping(stackBottom / PAGE_SIZE, mem, 4, Flags(true, true, true, noExecute))
  }

  /** The stack is what the process sees at the stack's address. */
  lemma StackVisible(entries: map<nat, Entry>, stackBottom: nat, mem: array<byte>, noExecute: bool, va: nat)
    requires stackBottom % PAGE_SIZE == 0 && mem.Length == UserStack.STACK_SIZE
    requires StackCovers(stackBottom, va / PAGE_SIZE)
    ensures stackBottom <= va < stackBottom + UserStack.STACK_SIZE
    ensures Translate(WithStack(entries, stackBottom, mem, noExecute), va) == Some(mem[va - stackBottom])
  {
    hide Translate, Mapping;
    var flags := Flags(true, true, true, noExecute);
    MappingAt(stackBottom / PAGE_SIZE, mem, 4, flags, va / PAGE_SIZE);
    StackOffset(stackBottom, va);
    var page := va / PAGE_SIZE - stackBottom / PAGE_SIZE;
    TranslateEntry(WithStack(entries, stackBottom, mem, noExecute), va, mem, page, flags);
  }

  lemma StackOffset(stackBottom: nat, va: nat)
    requires stackBottom % PAGE_SIZE == 0 && StackCovers(stackBottom, va / PAGE_SIZE)
    ensures stackBottom <= va < stackBottom + UserStack.STACK_SIZE
    ensures (va / PAGE_SIZE - stackBottom / PAGE_SIZE) * PAGE_SIZE + va % PAGE_SIZE == va - stackBottom
  {}

  lemma StackPage(stackBottom: nat, j: nat)
    requires stackBottom % PAGE_SIZE == 0 && j < UserStack.STACK_SIZE
    ensures StackCovers(stackBottom, (stackBottom + j) / PAGE_SIZE)
  {}

  /** A segment's byte is still the file's after the stack has been mapped, if the stack does not cover its page;
      if it does, the process reads the stack there. */
  lemma SegmentBesideStack(before: map<nat, Entry>, phdrs: seq<Phdr>, blocks: seq<array<byte>>, file: seq<byte>,
                           stackBottom: nat, mem: array<byte>, noExecute: bool, k: nat, i: nat)
    requires |phdrs| == |blocks| && AllAvailable(phdrs, file) && AllHold(phdrs, blocks, file)
    requires k < |phdrs| && phdrs[k].Loads() && i < phdrs[k].memsz && Owned(phdrs, k, (phdrs[k].vaddr + i) / PAGE_SIZE)
    requires stackBottom % PAGE_SIZE == 0 && mem.Length == UserStack.STACK_SIZE
    ensures var va, after := phdrs[k].vaddr + i, WithStack(before + Mapped(phdrs, blocks), stackBottom, mem, noExecute);
            if StackCovers(stackBottom, va / PAGE_SIZE)
            then
              && stackBottom <= va < stackBottom + UserStack.STACK_SIZE
              && Translate(after, va) == Some(mem[va - stackBottom])
            else Translate(after, va) == Some(SegmentByte(phdrs[k], file, i))
  {
    hide Translate, Mapped, Mapping, AllHold, SegmentByte;
    var va := phdrs[k].vaddr + i;
    if StackCovers(stackBottom, va / PAGE_SIZE) {
      StackVisible(before + Mapped(phdrs, blocks), stackBottom, mem, noExecute, va);
    } else {
      SegmentVisible(before, phdrs, blocks, file, k, i);
      BesideStack(before + Mapped(phdrs, blocks), stackBottom, mem, noExecute, va);
    }
  }

  lemma BesideStack(entries: map<nat, Entry>, stackBottom: nat, mem: array<byte>, noExecute: bool, va: nat)
    requires !StackCovers(stackBottom, va / PAGE_SIZE)
    ensures Translate(WithStack(entries, stackBottom, mem, noExecute), va) == Translate(entries, va)
  {
    hide Mapping;
    MappingAt(stackBottom / PAGE_SIZE, mem, 4, Flags(true, true, true, noExecute), va / PAGE_SIZE);
  }

  ghost function BlocksOf(entries: map<nat, Entry>): set<object> {
    set p | p in entries :: entries[p].block as object
  }

  /** What the process reads through its page table: the file's bytes and zeros, wherever a segment has the page to
      itself and the stack does not cover it ... */
  ghost predicate ImageShown(entries: map<nat, Entry>, phdrs: seq<Phdr>, file: seq<byte>, stackBottom: nat)
    requires AllAvailable(phdrs, file)
    reads BlocksOf(entries)
  {
    forall k, i :: 0 <= k < |phdrs| && phdrs[k].Loads() && 0 <= i < phdrs[k].memsz
                   && Owned(phdrs, k, (phdrs[k].vaddr + i) / PAGE_SIZE)
                   && !StackCovers(stackBottom, (phdrs[k].vaddr + i) / PAGE_SIZE) ==>
      Translate(entries, phdrs[k].vaddr + i) == Some(SegmentByte(phdrs[k], file, i))
  }

  /** ... and the bytes of `v` at their addresses. */
  ghost predicate ViewShown(entries: map<nat, Entry>, v: UserStack.View)
    reads BlocksOf(entries)
  {
    forall j :: 0 <= j < |v.bytes| ==> Translate(entries, v.base + j) == Some(v.bytes[j])
  }

  lemma AllShown(before: map<nat, Entry>, phdrs: seq<Phdr>, blocks: seq<array<byte>>, file: seq<byte>,
                 stackBottom: nat, mem: array<byte>, noExecute: bool)
    requires |phdrs| == |blocks| && AllAvailable(phdrs, file) && AllHold(phdrs, blocks, file)
    requires stackBottom % PAGE_SIZE == 0 && mem.Length == UserStack.STACK_SIZE
    ensures var after := WithStack(before + Mapped(phdrs, blocks), stackBottom, mem, noExecute);
            ImageShown(after, phdrs, file, stackBottom) && ViewShown(after, UserStack.View(stackBottom, mem[..]))
  {
    hide Translate, Mapped, AllHold, SegmentByte, WithStack, Owned;
    var loaded := before + Mapped(phdrs, blocks);
    var after := WithStack(loaded, stackBottom, mem, noExecute);
    forall k, i | 0 <= k < |phdrs| && phdrs[k].Loads() && 0 <= i < phdrs[k].memsz
                  && Owned(phdrs, k, (phdrs[k].vaddr + i) / PAGE_SIZE)
                  && !StackCovers(stackBottom, (phdrs[k].vaddr + i) / PAGE_SIZE)
      ensures Translate(after, phdrs[k].vaddr + i) == Some(SegmentByte(phdrs[k], file, i))
    {
      SegmentBesideStack(before, phdrs, blocks, file, stackBottom, mem, noExecute, k, i);
    }
    var v := UserStack.View(stackBottom, mem[..]);
    forall j | 0 <= j < |v.bytes| ensures Translate(after, v.base + j) == Some(v.bytes[j]) {
      StackPage(stackBottom, j);
      StackVisible(loaded, stackBottom, mem, noExecute, stackBottom + j);
    }
  }

  /** LoadUserspaceElf64Process.  `stackBottom` is the address the allocator returns for the four
      stack pages, 0 when it has none.  On success the process sees, through the finished page table, its image and
      a stack from which the ABI reader recovers the arguments; on failure the segments before the failing one stay
      mapped and recorded, and the registers are untouched. */
  method LoadProcess(process: Process, table: PageTable, file: seq<byte>, phdrs: seq<Phdr>, entry: nat,
                     stackBottom: nat, args: seq<UserStack.Str>, env: seq<UserStack.Str>)
    returns (ok: bool, stack: UserStack.Stack, ghost blocks: seq<array<byte>>)
    requires forall k :: 0 <= k < |phdrs| ==> phdrs[k].Sound()
    requires stackBottom % PAGE_SIZE == 0 && stackBottom + UserStack.STACK_SIZE <= ADDRESS_LIMIT
    requires UserStack.Need(args, env) <= UserStack.STACK_SIZE
    modifies process, table`entries
    ensures LoadableTo(phdrs, file, |blocks|) && AllHold(phdrs[..|blocks|], blocks, file)
    ensures ok <==> AllAvailable(phdrs, file) && stackBottom != 0
    ensures ok ==> |blocks| == |phdrs| && stack.base == stackBottom && fresh(stack.mem)
    ensures var loaded := old(table.entries) + Mapped(phdrs[..|blocks|], blocks);
            table.entries == if ok then WithStack(loaded, stackBottom, stack.mem, StackNoExecute(phdrs)) else loaded
    ensures process.memories == old(process.memories) + Regions(phdrs[..|blocks|], blocks)
              + if ok then [StackRegion(stackBottom, stack.mem, StackNoExecute(phdrs))] else []
    ensures ok ==> ImageShown(table.entries, phdrs, file, stackBottom) && PagesPermit(table.entries, phdrs, stackBottom)
    ensures ok ==>
              var r := process.memories[|process.memories| - 1];
              && r.vaddr == stackBottom && r.block == stack.mem && r.length == 0x4000
              && r.flags.present && r.flags.write && r.flags.user
              && (r.flags.noExecute <==>
                  exists k :: 0 <= k < |phdrs| && phdrs[k].typ == 0x6474e551 && phdrs[k].flags % 2 == 0)
    ensures ok ==> ViewShown(table.entries, stack.Now())
                   && UserStack.Parse(stack.Now(), process.rsp)
                      == Some(UserStack.Image(UserStack.Visible(args), UserStack.Visible(env)))
    ensures ok ==> process.rsp == stackBottom + UserStack.STACK_SIZE - UserStack.Need(args, env)
    ensures ok ==> process.rsp % 16 == 0 && process.rbp == process.rsp && process.rip == entry
    ensures !ok ==>
              process.rsp == old(process.rsp) && process.rbp == old(process.rbp) && process.rip == old(process.rip)
  {
    hide AllHold, Mapped, Regions, Mapping, StackNoExecute, ImageShown, ViewShown, Translate, UserStack.Parse;
    hide PagesPermit;
    StackFlagMeaning(phdrs);
    var noExecute;
    ok, noExecute, blocks := LoadSegments(process, table, file, phdrs);
    var mem := new byte[UserStack.STACK_SIZE];
    stack := new UserStack.Stack(stackBottom, mem);
    if !ok {
      return;
    }
    assert phdrs[..|blocks|] == phdrs;
    if stackBottom == 0 {
      ok := false;
      return;
    }
    AddStack(process, table, stack, entry, noExecute, args, env);
    AllShown(old(table.entries), phdrs, blocks, file, stackBottom, mem, noExecute);
    AllPermit(old(table.entries), phdrs, blocks, stackBottom, mem, noExecute);
  }

  lemma StackFlagMeaning(phdrs: seq<Phdr>)
    ensures StackNoExecute(phdrs) <==>
            exists k :: 0 <= k < |phdrs| && phdrs[k].typ == 0x6474e551 && phdrs[k].flags % 2 == 0
  {}

  /** Lines 217-318: map the stack, record it, fill it, and set the registers. */
  method AddStack(process: Process, table: PageTable, stack: UserStack.Stack, entry: nat, noExecute: bool,
                  args: seq<UserStack.Str>, env: seq<UserStack.Str>)
    requires stack.base > 0 && stack.base % PAGE_SIZE == 0 && stack.mem.Length == UserStack.STACK_SIZE
    requires stack.base + UserStack.STACK_SIZE <= ADDRESS_LIMIT
    requires UserStack.Need(args, env) <= UserStack.STACK_SIZE
    modifies process, table`entries, stack.mem
    ensures table.entries == WithStack(old(table.entries), stack.base, stack.mem, noExecute)
    ensures process.memories == old(process.memories) + [StackRegion(stack.base, stack.mem, noExecute)]
    ensures UserStack.Parse(stack.Now(), process.rsp)
            == Some(UserStack.Image(UserStack.Visible(args), UserStack.Visible(env)))
    ensures process.rsp == stack.base + UserStack.STACK_SIZE - UserStack.Need(args, env)
    ensures process.rsp % 16 == 0 && process.rbp == process.rsp && process.rip == entry
  {
    hide Mapping, UserStack.Parse, UserStack.NoAuxiliary;
    table.MapPages(stack.base, stack.mem, 4, Flags(true, true, true, noExecute));
    process.memories := process.memories + [StackRegion(stack.base, stack.mem, noExecute)];
    var sp := stack.Build(args, env);
    process.rbp, process.rsp, process.rip := sp, sp, entry;
  }

  function StackRegion(stackBottom: nat, mem: array<byte>, noExecute: bool): Region {
    Region(stackBottom, mem, UserStack.STACK_SIZE, Flags(true, true, true, noExecute))
  }

  lemma LoadedAreMapped(memories: seq<Region>, entries: map<nat, Entry>, phdrs: seq<Phdr>, blocks: seq<array<byte>>)
    requires |phdrs| == |blocks| && RecordedAreMapped(memories, entries)
    ensures RecordedAreMapped(memories + Regions(phdrs, blocks), entries + Mapped(phdrs, blocks))
  {
    var rs := Regions(phdrs, blocks);
    var all := memories + rs;
    forall p: nat | Recorded(all, p) ensures p in entries + Mapped(phdrs, blocks) {
      var r :| 0 <= r < |all| && all[r].Covers(p);
      RegionsAreMapped(phdrs, blocks, p);
      hide Regions, Mapped;
      if r < |memories| {
        assert memories[r].Covers(p);
      } else {
        assert rs[r - |memories|].Covers(p);
      }
    }
  }

  lemma StackIsMapped(memories: seq<Region>, entries: map<nat, Entry>, stackBottom: nat, mem: array<byte>,
                      noExecute: bool)
    requires RecordedAreMapped(memories, entries)
    ensures RecordedAreMapped(memories + [StackRegion(stackBottom, mem, noExecute)],
                              WithStack(entries, stackBottom, mem, noExecute))
  {
    hide Mapping;
    var all := memories + [StackRegion(stackBottom, mem, noExecute)];
    forall p: nat | Recorded(all, p) ensures p in WithStack(entries, stackBottom, mem, noExecute) {
      var r :| 0 <= r < |all| && all[r].Covers(p);
      MappingAt(stackBottom / PAGE_SIZE, mem, 4, Flags(true, true, true, noExecute), p);
      if r < |memories| {
        assert memories[r].Covers(p);
      }
    }
  }

  /** ReplaceUserspaceElf64Process, after the header has been verified (lines 347-355).  Whether or not the new image
      loads, no page of the old one stays present unless a segment that was loaded, or the new stack, takes it, and
      the process can be replaced again.  A process whose replacement fails keeps its old registers. */
  method ReplaceProcess(process: Process, table: PageTable, file: seq<byte>, phdrs: seq<Phdr>, entry: nat,
                        stackBottom: nat, args: seq<UserStack.Str>)
    returns (ok: bool, freed: seq<Freed>, stack: UserStack.Stack, ghost loaded: nat)
    requires forall k :: 0 <= k < |phdrs| ==> phdrs[k].Sound()
    requires stackBottom % PAGE_SIZE == 0 && stackBottom + UserStack.STACK_SIZE <= ADDRESS_LIMIT
    requires UserStack.Need(args, []) <= UserStack.STACK_SIZE
    requires RecordedAreMapped(process.memories, table.entries)
    modifies process, table`entries
    ensures ok <==> AllAvailable(phdrs, file) && stackBottom != 0
    ensures LoadableTo(phdrs, file, loaded) && freed == FreedOf(old(process.memories))
    ensures RecordedAreMapped(process.memories, table.entries)
    ensures forall p: nat :: Recorded(old(process.memories), p) ==>
              && p in table.entries
              && (LastCover(phdrs[..loaded], p).Some? || (ok && StackCovers(stackBottom, p))
                  || !table.entries[p].present)
    ensures ok ==> ImageShown(table.entries, phdrs, file, stackBottom) && PagesPermit(table.entries, phdrs, stackBottom)
    ensures ok ==> ViewShown(table.entries, stack.Now())
    ensures ok ==> UserStack.Parse(stack.Now(), process.rsp) == Some(UserStack.Image(UserStack.Visible(args), []))
    ensures !ok ==> process.rsp == old(process.rsp) && process.rip == old(process.rip)
  {
    hide AllHold, Mapped, Regions, Mapping, ImageShown, ViewShown, PagesPermit, UserStack.Parse;
    freed := Unload(process, table);
    ghost var cleared := table.entries;
    ghost var blocks;
    assert UserStack.Visible([]) == [];
    ok, stack, blocks := LoadProcess(process, table, file, phdrs, entry, stackBottom, args, []);
    loaded := |blocks|;
    ghost var taken := phdrs[..loaded];
    LoadedAreMapped([], cleared, taken, blocks);
    assert [] + Regions(taken, blocks) == Regions(taken, blocks);
    if ok {
      ghost var mapped := cleared + Mapped(taken, blocks);
      StackIsMapped(Regions(taken, blocks), mapped, stackBottom, stack.mem, StackNoExecute(phdrs));
    }
    forall p: nat | Recorded(old(process.memories), p)
      ensures p in table.entries
      ensures LastCover(taken, p).Some? || (ok && StackCovers(stackBottom, p)) || !table.entries[p].present
    {
      MappedAt(taken, blocks, p);
      if ok {
        MappingAt(stackBottom / PAGE_SIZE, stack.mem, 4, Flags(true, true, true, StackNoExecute(phdrs)), p);
      }
    }
  }

  // ------------------------------------------------------- the stack over a segment

  const UNDER_STACK: Phdr := Phdr(PT_LOAD, 4, 0, 0x10000 + 16352, 1, 1)

  /** A segment whose only byte, a 1, lies where the allocator puts the stack: the process reads argc there. */
  method StackHidesSegment() returns (table: PageTable)
    ensures SegmentByte(UNDER_STACK, [1], 0) == 1
    ensures Translate(table.entries, UNDER_STACK.vaddr) == Some(0)
  {
    hide ImageShown, Mapped, Regions, AllHold, WithStack, Translate, UserStack.Parse;
    table := new PageTable();
    var process := new Process();
    var ok, stack;
    ghost var blocks;
    assert UserStack.Need([], []) == 32;
    ok, stack, blocks := LoadProcess(process, table, [1], [UNDER_STACK], 0, 0x10000, [], []);
    UserStack.ArgcByte(stack.Now(), process.rsp, UserStack.Image(UserStack.Visible([]), UserStack.Visible([])));
  }
}
