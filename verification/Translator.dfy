/**
 The virtual-address translator of PracticumV2/main.c as a state machine: a lookaside buffer over a page table,
 physical frames and a backing store.
 */
module Translator {
  import opened Sequences
  import opened Tlb

  const PAGES := 256
  const FRAMES := 256
  const FRAME_SIZE := 256

  datatype Policy = Fifo | Lru

  // ----- addresses -----

  type Address = bv32

  function GetPageNumber(mask: bv32, value: bv32): bv32 {
    (value & mask) >> 8
  }

  function GetOffset(mask: bv32, value: bv32): bv32 {
    value & mask
  }

  function Page(a: Address): (p: nat)
    ensures p < PAGES
  {
    PageBound(a);
    GetPageNumber(0xFF00, a) as nat
  }

  function Offset(a: Address): (o: nat)
    ensures o < FRAME_SIZE
  {
    PageBound(a);
    GetOffset(0xFF, a) as nat
  }

  lemma PageBound(a: Address)
    ensures GetPageNumber(0xFF00, a) as int < PAGES && GetOffset(0xFF, a) as int < FRAME_SIZE
  {
    assert GetPageNumber(0xFF00, a) < 256 && GetOffset(0xFF, a) < 256;
  }

  /** The low 16 bits of the address are page number times page size plus offset. */
  lemma AddressHalves(a: Address)
    ensures a & 0xFFFF == GetPageNumber(0xFF00, a) * 256 + GetOffset(0xFF, a)
  {
  }

  lemma HalvesAsNumber(x: bv32, page: bv32, offset: bv32)
    requires page < 256 && offset < 256 && x == page * 256 + offset
    ensures x as int == page as int * 256 + offset as int
  {
  }

  /** Page number and offset are the high and the low half of the low 16 bits of the address, which are the place in the
      store. */
  lemma AddressSplit(a: Address)
    ensures Page(a) == (a & 0xFFFF) as int / 256 && Offset(a) == (a & 0xFFFF) as int % 256
    ensures ByteAt(Page(a), Offset(a)) == (a & 0xFFFF) as int
  {
    LowHalves(a);
    QuotientAndRest((a & 0xFFFF) as int, Page(a), Offset(a));
  }

  lemma LowHalves(a: Address)
    ensures (a & 0xFFFF) as int == Page(a) * 256 + Offset(a)
  {
    AddressHalves(a);
    assert GetPageNumber(0xFF00, a) < 256 && GetOffset(0xFF, a) < 256;
    HalvesAsNumber(a & 0xFFFF, GetPageNumber(0xFF00, a), GetOffset(0xFF, a));
  }

  lemma QuotientAndRest(x: int, q: int, r: int)
    requires x == q * 256 + r && 0 <= r < 256
    ensures x / 256 == q && x % 256 == r
  {
  }

  datatype Place = Place(page: nat, offset: nat)

  /** A page and an offset within it. */
  type Location = l: Place | l.page < PAGES && l.offset < FRAME_SIZE witness Place(0, 0)

  function Locate(a: Address): Location {
    Place(Page(a), Offset(a))
  }

  function Locations(addresses: seq<Address>): (refs: seq<Location>)
    ensures |refs| == |addresses|
  {
    seq(|addresses|, i requires 0 <= i < |addresses| => Locate(addresses[i]))
  }

  function PagesOf(refs: seq<Location>): (pages: seq<int>)
    ensures |pages| == |refs|
  {
    seq(|refs|, i requires 0 <= i < |refs| => refs[i].page)
  }

  lemma PagesOfAppend(refs: seq<Location>, l: Location)
    ensures PagesOf(refs + [l]) == PagesOf(refs) + [l.page]
  {
  }

  /** The place in the store of a byte of a page. */
  function ByteAt(page: nat, offset: nat): (b: nat)
    ensures page < PAGES && offset < FRAME_SIZE ==> b < PAGES * FRAME_SIZE
  {
    page * FRAME_SIZE + offset
  }

  // ----- the state -----

  /** `next` is nextTLBentry; `table` and `tableFrames` are the entries of the page table in use, so that nextPage and
      nextFrame are |table|. `written` counts the slots of the buffer that have ever been written. */
  datatype Vm = Vm(tlb: Table, next: nat, written: nat, table: seq<int>, tableFrames: seq<int>,
                   dram: seq<seq<int>>, buffer: seq<int>, hits: nat, misses: nat, faults: nat)

  ghost predicate WellFormed(vm: Vm) {
    && Sized(vm.tlb) && vm.next <= |vm.tlb.pages| && vm.written <= |vm.tlb.pages|
    && |vm.dram| == FRAMES && (forall f :: 0 <= f < FRAMES ==> |vm.dram[f]| == FRAME_SIZE)
    && |vm.buffer| == FRAME_SIZE
    && |vm.table| == |vm.tableFrames| == vm.faults <= FRAMES
    && Distinct(vm.table)
    && (forall k :: 0 <= k < |vm.table| ==> 0 <= vm.table[k] < PAGES && vm.tableFrames[k] == k)
  }

  /** A page that is not in the page table finds a free frame. */
  lemma RoomForPage(table: seq<int>, page: nat, n: nat)
    requires Distinct(table) && (forall k :: 0 <= k < |table| ==> 0 <= table[k] < n)
    requires page < n && page !in table
    ensures |table| < n
  {
    DistinctCardinality(table);
    UpToCardinality(n);
    SubsetCardinality(Elems(table) + {page}, UpTo(n));
  }

  ghost function UpTo(n: nat): (s: set<int>)
    ensures forall x :: x in s <==> 0 <= x < n
  {
    if n == 0 then {} else UpTo(n - 1) + {n - 1}
  }

  lemma {:induction false} UpToCardinality(n: nat)
    ensures |UpTo(n)| == n
  {
    if n == 0 {
    } else {
      UpToCardinality(n - 1);
    }
  }

  // ----- one translation -----

  /** What fread leaves in the file buffer: the page's bytes, and stale bytes past the end of the store. */
  function Fetched(store: seq<int>, page: nat, buffer: seq<int>): (row: seq<int>)
    requires |buffer| == FRAME_SIZE
    ensures |row| == FRAME_SIZE
  {
    seq(FRAME_SIZE, i requires 0 <= i < FRAME_SIZE =>
      if ByteAt(page, i) < |store| then store[ByteAt(page, i)] else buffer[i])
  }

  /** readFromStore, with the counting of the fault. */
  function ReadFromStore(vm: Vm, store: seq<int>, page: nat): (r: Vm)
    requires WellFormed(vm) && page < PAGES && page !in vm.table
    ensures WellFormed(r)
  {
    RoomForPage(vm.table, page, PAGES);
    var row := Fetched(store, page, vm.buffer);
    vm.(table := vm.table + [page], tableFrames := vm.tableFrames + [|vm.table|],
        dram := vm.dram[|vm.table| := row], buffer := row, faults := vm.faults + 1)
  }

  /** The first half of translateAddress: the frame number, from the buffer, the page table or the store. */
  function Resolve(vm: Vm, store: seq<int>, page: nat): (r: (Vm, int))
    requires WellFormed(vm) && page < PAGES
    ensures WellFormed(r.0) && r.0.tlb == vm.tlb && r.0.next == vm.next && r.0.written == vm.written
  {
    var i := Find(vm.tlb.pages, page);
    var hit := i < |vm.tlb.pages|;
    var cached := if hit then vm.tlb.frames[i] else -1;
    var counted := if hit then vm.(hits := vm.hits + 1) else vm;
    if cached != -1 then (counted, cached) else
      var missed := counted.(misses := vm.misses + 1);
      var k := Find(vm.table, page);
      if k < |vm.table| then (missed, vm.tableFrames[k])
      else (ReadFromStore(missed, store, page), |vm.table|)
  }

  /** The second half: the buffer takes the pair in. */
  function Insert(vm: Vm, policy: Policy, page: nat, frame: int): (r: Vm)
    requires WellFormed(vm)
    ensures WellFormed(r) && r == vm.(tlb := r.tlb, next := r.next, written := r.written)
    ensures |r.tlb.pages| == |vm.tlb.pages|
  {
    var n := |vm.tlb.pages|;
    match policy
    case Fifo =>
      vm.(tlb := FifoInsert(vm.tlb, vm.next, page, frame), next := FifoNext(vm.next, n),
          written := FifoNext(vm.next, n))
    case Lru =>
      vm.(tlb := LruInsert(vm.tlb, page, frame),
          written := LruWritten(vm.tlb, page, vm.written))
  }

  /** translateAddress: the new state, and the value read; None where the frame number is no index into memory. */
  function Translate(vm: Vm, policy: Policy, store: seq<int>, page: nat, offset: nat): (r: (Vm, Option<int>))
    requires WellFormed(vm) && page < PAGES && offset < FRAME_SIZE
    ensures WellFormed(r.0) && |r.0.tlb.pages| == |vm.tlb.pages|
  {
    var (resolved, frame) := Resolve(vm, store, page);
    var inserted := Insert(resolved, policy, page, frame);
    (inserted, if 0 <= frame < FRAMES then Some(inserted.dram[frame][offset]) else None)
  }

  // ----- what one translation does, in any state -----

  /** A lookup of the page finds a frame number in the buffer. */
  predicate Found(vm: Vm, page: int)
    requires Sized(vm.tlb)
  {
    page in vm.tlb.pages && vm.tlb.frames[Find(vm.tlb.pages, page)] != -1
  }

  /** What a translation counts and maps: only a page that is neither found nor in the page table faults. */
  lemma TranslateCounts(vm: Vm, policy: Policy, store: seq<int>, page: nat, offset: nat)
    requires WellFormed(vm) && page < PAGES && offset < FRAME_SIZE
    ensures var r := Translate(vm, policy, store, page, offset).0;
            && r.hits == vm.hits + (if page in vm.tlb.pages then 1 else 0)
            && r.misses == vm.misses + (if Found(vm, page) then 0 else 1)
            && r.faults == vm.faults + (if Found(vm, page) || page in vm.table then 0 else 1)
            && r.table == vm.table + (if Found(vm, page) || page in vm.table then [] else [page])
  {
  }

  /** What a translation loads: nothing, or the page in the next frame, through the file buffer. Past the end of the
      store the file buffer keeps what it held. */
  lemma TranslateLoads(vm: Vm, policy: Policy, store: seq<int>, page: nat, offset: nat)
    requires WellFormed(vm) && page < PAGES && offset < FRAME_SIZE
    ensures var r, f := Translate(vm, policy, store, page, offset).0, |vm.table|;
            && (r.table == vm.table ==>
                  r.dram == vm.dram && r.buffer == vm.buffer && r.tableFrames == vm.tableFrames)
            && (r.table != vm.table ==>
                  && f < FRAMES && r.dram == vm.dram[f := r.buffer] && r.tableFrames == vm.tableFrames + [f]
                  && forall o :: 0 <= o < FRAME_SIZE ==>
                       r.buffer[o] == if page * 256 + o < |store| then store[page * 256 + o] else vm.buffer[o])
  {
    if !Found(vm, page) && page !in vm.table { RoomForPage(vm.table, page, PAGES); }
  }

  /** What a translation remembers and reads: the frame found, or else the one that the page table has by then. */
  lemma TranslateYields(vm: Vm, policy: Policy, store: seq<int>, page: nat, offset: nat)
    requires WellFormed(vm) && page < PAGES && offset < FRAME_SIZE
    ensures var (r, value) := Translate(vm, policy, store, page, offset);
            var f := if Found(vm, page) then vm.tlb.frames[Find(vm.tlb.pages, page)] else Find(r.table, page);
            && r.tlb == (if policy == Fifo then FifoInsert(vm.tlb, vm.next, page, f) else LruInsert(vm.tlb, page, f))
            && r.next == (if policy == Fifo && vm.next < |vm.tlb.pages| then vm.next + 1 else vm.next)
            && value == (if 0 <= f < FRAMES then Some(r.dram[f][offset]) else None)
            && (!Found(vm, page) ==> page in r.table)
  {
    if page !in vm.table { FindAppend(vm.table, page, page); }
  }

  /** The tables as they are set up: page numbers and memory zeroed, the rest whatever `tlb` holds. */
  ghost predicate Fresh(vm: Vm) {
    && WellFormed(vm)
    && (forall i :: 0 <= i < |vm.tlb.pages| ==> vm.tlb.pages[i] == NO_PAGE)
    && vm.next == vm.written == vm.hits == vm.misses == vm.faults == 0
    && (forall f, o :: 0 <= f < FRAMES && 0 <= o < FRAME_SIZE ==> vm.dram[f][o] == 0)
  }

  function Run(vm: Vm, policy: Policy, store: seq<int>, refs: seq<Location>): (r: Vm)
    requires WellFormed(vm)
    ensures WellFormed(r) && |r.tlb.pages| == |vm.tlb.pages|
  {
    if refs == [] then vm else
      var l := refs[|refs| - 1];
      Translate(Run(vm, policy, store, refs[..|refs| - 1]), policy, store, l.page, l.offset).0
  }

  // ----- coherence -----

  /** Every written slot names a page of the page table with its frame, and the others look empty. */
  ghost predicate CoherentTlb(t: Table, written: nat, table: seq<int>) {
    && Sized(t) && written <= |t.pages|
    && (forall i :: 0 <= i < written ==> t.pages[i] in table && t.frames[i] == Find(table, t.pages[i]))
    && (forall i :: written <= i < |t.pages| ==> t.pages[i] == NO_PAGE)
  }

  /** Every mapped frame holds its page as far as the store goes. */
  ghost predicate CoherentMemory(table: seq<int>, dram: seq<seq<int>>, store: seq<int>) {
    && |table| <= |dram|
    && forall k :: 0 <= k < |table| ==> HoldsPage(dram[k], table[k], store)
  }

  ghost predicate HoldsPage(row: seq<int>, page: int, store: seq<int>) {
    && |row| == FRAME_SIZE && 0 <= page < PAGES
    && forall o :: 0 <= o < FRAME_SIZE && ByteAt(page, o) < |store| ==> row[o] == store[ByteAt(page, o)]
  }

  ghost predicate Coherent(vm: Vm, store: seq<int>) {
    CoherentTlb(vm.tlb, vm.written, vm.table) && CoherentMemory(vm.table, vm.dram, store)
  }

  /** What each policy keeps besides: FIFO writes its slots in order, and under LRU no slot looks empty among those
      written unless all are. */
  ghost predicate Tidy(vm: Vm, policy: Policy)
    requires vm.written <= |vm.tlb.pages|
  {
    match policy
    case Fifo => vm.written == vm.next
    case Lru => vm.written < |vm.tlb.pages| ==> forall i :: 0 <= i < vm.written ==> vm.tlb.pages[i] != NO_PAGE
  }

  /** A lookup of page 0 must not take for a hit a slot that was never written, unless its frame number is the mark for
      none or happens to be the right one. */
  predicate Safe(vm: Vm, page: nat)
    requires Sized(vm.tlb)
  {
    var i := Find(vm.tlb.pages, NO_PAGE);
    || page != NO_PAGE || i < vm.written || i == |vm.tlb.pages|
    || vm.tlb.frames[i] == -1 || (NO_PAGE in vm.table && vm.tlb.frames[i] == Find(vm.table, NO_PAGE))
  }

  function WithPage(table: seq<int>, page: nat): seq<int> {
    if page in table then table else table + [page]
  }

  lemma FindAppend(s: seq<int>, x: int, p: int)
    requires p in s || p == x
    ensures Find(s + [x], p) == if p in s then Find(s, p) else |s|
  {
    var i, t := Find(s + [x], p), s + [x];
    assert t[|s|] == x;
    if p in s {
      assert t[Find(s, p)] == p;
    }
  }

  lemma FaultCoherent(vm: Vm, store: seq<int>, page: nat)
    requires WellFormed(vm) && page < PAGES && Coherent(vm, store) && page !in vm.table
    ensures Coherent(ReadFromStore(vm, store, page), store)
  {
    var r := ReadFromStore(vm, store, page);
    forall j | 0 <= j < vm.written
      ensures r.tlb.pages[j] in r.table && r.tlb.frames[j] == Find(r.table, r.tlb.pages[j])
    {
      FindAppend(vm.table, page, vm.tlb.pages[j]);
      assert r.table[Find(vm.table, vm.tlb.pages[j])] == vm.tlb.pages[j];
    }
  }

  /** A safe lookup finds the frame of the page and changes the page table only by adding a page that is not there. */
  lemma SafeResolve(vm: Vm, store: seq<int>, page: nat)
    requires WellFormed(vm) && page < PAGES && Coherent(vm, store) && Safe(vm, page)
    ensures Coherent(Resolve(vm, store, page).0, store)
    ensures Resolve(vm, store, page).0.table == WithPage(vm.table, page)
    ensures Resolve(vm, store, page).1 == Find(WithPage(vm.table, page), page)
  {
    if page !in vm.table {
      FaultCoherent(vm.(misses := vm.misses + 1), store, page);
      FindAppend(vm.table, page, page);
    }
  }

  lemma FifoCoherent(t: Table, next: nat, table: seq<int>, page: nat, frame: int)
    requires CoherentTlb(t, next, table)
    requires page in table && frame == Find(table, page)
    ensures CoherentTlb(FifoInsert(t, next, page, frame), FifoNext(next, |t.pages|), table)
  {
    var n, r := |t.pages|, FifoInsert(t, next, page, frame);
    var i := Find(t.pages[..next], page);
    forall j | 0 <= j < n
      ensures FifoOrigin(n, i, next, j) == -1 ==> r.pages[j] == page && r.frames[j] == frame
      ensures FifoOrigin(n, i, next, j) != -1 ==>
                r.pages[j] == t.pages[FifoOrigin(n, i, next, j)] && r.frames[j] == t.frames[FifoOrigin(n, i, next, j)]
    {
      FifoEntries(t.pages, i, next, page, j);
      FifoEntries(t.frames, i, next, frame, j);
    }
  }

  lemma LruCoherent(t: Table, written: nat, table: seq<int>, page: nat, frame: int)
    requires CoherentTlb(t, written, table) && page in table && frame == Find(table, page)
    requires written < |t.pages| ==> forall i :: 0 <= i < written ==> t.pages[i] != NO_PAGE
    ensures CoherentTlb(LruInsert(t, page, frame), LruWritten(t, page, written), table)
  {
    if page !in t.pages && written < |t.pages| {
      assert t.pages[written] == NO_PAGE;
      assert Victim(t, page) == written;
    }
  }

  lemma InsertCoherent(vm: Vm, policy: Policy, store: seq<int>, page: nat, frame: int)
    requires WellFormed(vm) && Coherent(vm, store) && Tidy(vm, policy)
    requires page in vm.table && frame == Find(vm.table, page)
    ensures var r := Insert(vm, policy, page, frame);
            Coherent(r, store) && Tidy(r, policy)
  {
    if policy == Fifo {
      FifoCoherent(vm.tlb, vm.next, vm.table, page, frame);
    } else {
      LruCoherent(vm.tlb, vm.written, vm.table, page, frame);
    }
  }

  lemma ReadsByte(table: seq<int>, dram: seq<seq<int>>, store: seq<int>, page: nat, offset: nat)
    requires CoherentMemory(table, dram, store) && page in table && offset < FRAME_SIZE
    ensures |dram[Find(table, page)]| == FRAME_SIZE
    ensures ByteAt(page, offset) < |store| ==>
              dram[Find(table, page)][offset] == store[ByteAt(page, offset)]
  {
    assert HoldsPage(dram[Find(table, page)], page, store);
  }

  /** A safe translation keeps the tables coherent. */
  lemma SafeState(vm: Vm, policy: Policy, store: seq<int>, page: nat, offset: nat)
    requires WellFormed(vm) && page < PAGES && offset < FRAME_SIZE
    requires Coherent(vm, store) && Safe(vm, page) && Tidy(vm, policy)
    ensures var r := Translate(vm, policy, store, page, offset).0;
            Coherent(r, store) && Tidy(r, policy) && r.table == WithPage(vm.table, page)
  {
    SafeResolve(vm, store, page);
    var (resolved, frame) := Resolve(vm, store, page);
    InsertCoherent(resolved, policy, store, page, frame);
  }

  /** A safe translation reads the byte of the store that the address names. */
  lemma SafeValue(vm: Vm, policy: Policy, store: seq<int>, page: nat, offset: nat)
    requires WellFormed(vm) && page < PAGES && offset < FRAME_SIZE
    requires Coherent(vm, store) && Safe(vm, page)
    ensures Translate(vm, policy, store, page, offset).1.Some?
    ensures ByteAt(page, offset) < |store| ==>
              Translate(vm, policy, store, page, offset).1 == Some(store[ByteAt(page, offset)])
  {
    SafeResolve(vm, store, page);
    var resolved := Resolve(vm, store, page).0;
    ReadsByte(resolved.table, resolved.dram, store, page, offset);
  }
}
