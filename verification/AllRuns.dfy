/**
 What the translator of PracticumV2/main.c does over every sequence of addresses, also where page 0 is referenced while
 a slot of the lookaside buffer still looks like it.
 */
module AllRuns {
  import opened Sequences
  import opened Recency
  import opened Tlb
  import opened Translator
  import opened TranslatorRuns

  // ----- what a run keeps -----

  /** Written slots hold frame numbers, and the right ones but for page 0; the others look empty. */
  ghost predicate NonzeroCoherent(t: Table, written: nat, table: seq<int>) {
    && Sized(t) && written <= |t.pages|
    && (forall i :: 0 <= i < written ==> t.frames[i] != -1)
    && (forall i :: 0 <= i < written && t.pages[i] != NO_PAGE ==>
          t.pages[i] in table && t.frames[i] == Find(table, t.pages[i]))
    && (forall i :: written <= i < |t.pages| ==> t.pages[i] == NO_PAGE)
  }

  /** Every mapped frame holds its page, and pages other than page 0 are found in their frames. */
  ghost predicate Sound(vm: Vm, store: seq<int>) {
    NonzeroCoherent(vm.tlb, vm.written, vm.table) && CoherentMemory(vm.table, vm.dram, store)
  }

  lemma SoundFault(vm: Vm, store: seq<int>, page: nat)
    requires WellFormed(vm) && page < PAGES && Sound(vm, store) && page !in vm.table
    ensures Sound(ReadFromStore(vm, store, page), store)
  {
    var r := ReadFromStore(vm, store, page);
    forall j | 0 <= j < vm.written && vm.tlb.pages[j] != NO_PAGE
      ensures r.tlb.pages[j] in r.table && r.tlb.frames[j] == Find(r.table, r.tlb.pages[j])
    {
      FindAppend(vm.table, page, vm.tlb.pages[j]);
      assert r.table[Find(vm.table, vm.tlb.pages[j])] == vm.tlb.pages[j];
    }
  }

  /** A lookup yields a frame number, and for a page other than page 0 its frame. */
  lemma SoundResolve(vm: Vm, store: seq<int>, page: nat)
    requires WellFormed(vm) && page < PAGES && Sound(vm, store)
    ensures var (r, frame) := Resolve(vm, store, page);
            && Sound(r, store) && frame != -1
            && (page != NO_PAGE ==> page in r.table && frame == Find(r.table, page))
  {
    if !Found(vm, page) && page !in vm.table {
      SoundFault(vm.(misses := vm.misses + 1), store, page);
      FindAppend(vm.table, page, page);
    }
  }

  lemma FifoSound(t: Table, next: nat, table: seq<int>, page: nat, frame: int)
    requires NonzeroCoherent(t, next, table) && frame != -1
    requires page != NO_PAGE ==> page in table && frame == Find(table, page)
    ensures NonzeroCoherent(FifoInsert(t, next, page, frame), FifoNext(next, |t.pages|), table)
  {
    var n, r := |t.pages|, FifoInsert(t, next, page, frame);
    var i := Find(t.pages[..next], page);
    forall j | 0 <= j < n
      ensures FifoOrigin(n, i, next, j) == -1 ==> r.pages[j] == page && r.frames[j] == frame
      ensures FifoOrigin(n, i, next, j) != -1 ==>
                r.pages[j] == t.pages[FifoOrigin(n, i, next, j)] && r.frames[j] == t.frames[FifoOrigin(n, i, next, j)]
    {
      FifoEntries(t.pages, i, next, page, j);
      FifoEntries(t.frames, i, next, frame, j);
    }
  }

  lemma LruSound(t: Table, written: nat, table: seq<int>, page: nat, frame: int)
    requires NonzeroCoherent(t, written, table) && frame != -1
    requires page != NO_PAGE ==> page in table && frame == Find(table, page)
    requires written < |t.pages| ==> forall i :: 0 <= i < written ==> t.pages[i] != NO_PAGE
    ensures NonzeroCoherent(LruInsert(t, page, frame), LruWritten(t, page, written), table)
  {
    if page !in t.pages && written < |t.pages| {
      assert t.pages[written] == NO_PAGE;
      assert Victim(t, page) == written;
    }
  }

  lemma SoundStep(vm: Vm, policy: Policy, store: seq<int>, page: nat, offset: nat)
    requires WellFormed(vm) && page < PAGES && offset < FRAME_SIZE && Sound(vm, store) && Tidy(vm, policy)
    ensures Sound(Translate(vm, policy, store, page, offset).0, store)
  {
    SoundResolve(vm, store, page);
    var (resolved, frame) := Resolve(vm, store, page);
    if policy == Fifo {
      FifoSound(resolved.tlb, resolved.next, resolved.table, page, frame);
    } else {
      LruSound(resolved.tlb, resolved.written, resolved.table, page, frame);
    }
  }

  lemma {:induction false} SoundAlways(vm: Vm, policy: Policy, store: seq<int>, refs: seq<Location>)
    requires Fresh(vm)
    ensures Sound(Run(vm, policy, store, refs), store)
  {
    if refs == [] {
    } else {
      SoundAlways(vm, policy, store, Front(refs));
      WrittenIsFilled(vm, policy, store, Front(refs));
      SoundStep(Run(vm, policy, store, Front(refs)), policy, store, Final(refs).page, Final(refs).offset);
    }
  }

  // ----- what it reads -----

  /** After any references, a reference to a page other than page 0 reads the byte of the store. */
  lemma OnlyPageZeroFails(vm: Vm, policy: Policy, store: seq<int>, refs: seq<Location>, l: Location)
    requires Fresh(vm) && l.page != NO_PAGE && ByteOf(l) < |store|
    ensures ValueAt(vm, policy, store, refs, l) == Some(store[ByteOf(l)])
  {
    var r := Run(vm, policy, store, refs);
    SoundAlways(vm, policy, store, refs);
    SoundResolve(r, store, l.page);
    var resolved := Resolve(r, store, l.page).0;
    ReadsByte(resolved.table, resolved.dram, store, l.page, l.offset);
  }

  /** After any references, a reference to page 0 reads what is in the frame of its slot: the byte of the page mapped
      there, 0 if none is, and nothing if there is no such frame. If no slot has a frame for it, it reads its own byte. */
  lemma PageZeroReads(vm: Vm, policy: Policy, store: seq<int>, refs: seq<Location>, offset: nat)
    requires Fresh(vm) && offset < FRAME_SIZE && |store| == PAGES * FRAME_SIZE
    ensures var r := Run(vm, policy, store, refs);
            var value, f := Translate(r, policy, store, NO_PAGE, offset).1,
                            if Found(r, NO_PAGE) then r.tlb.frames[Find(r.tlb.pages, NO_PAGE)] else -1;
            && (f == -1 ==> value == Some(store[offset]))
            && (0 <= f < |r.table| ==> 0 <= r.table[f] < PAGES && value == Some(store[ByteAt(r.table[f], offset)]))
            && (|r.table| <= f < FRAMES ==> value == Some(0))
            && (f < -1 || f >= FRAMES ==> value == None)
  {
    var r := Run(vm, policy, store, refs);
    SoundAlways(vm, policy, store, refs);
    UntouchedAlways(vm, policy, store, refs);
    SoundResolve(r, store, NO_PAGE);
    if Found(r, NO_PAGE) {
      var f := r.tlb.frames[Find(r.tlb.pages, NO_PAGE)];
      if 0 <= f < |r.table| { assert HoldsPage(r.dram[f], r.table[f], store); }
    } else {
      ReadsOwnByte(r, policy, store, offset);
    }
  }

  lemma ReadsOwnByte(r: Vm, policy: Policy, store: seq<int>, offset: nat)
    requires WellFormed(r) && Sound(r, store) && !Found(r, NO_PAGE) && offset < FRAME_SIZE && offset < |store|
    ensures Translate(r, policy, store, NO_PAGE, offset).1 == Some(store[offset])
  {
    if NO_PAGE !in r.table { FindAppend(r.table, NO_PAGE, NO_PAGE); }
    SoundResolve(r, store, NO_PAGE);
    var resolved := Resolve(r, store, NO_PAGE).0;
    ReadsByte(resolved.table, resolved.dram, store, NO_PAGE, offset);
  }

  // ----- what it counts -----

  /** The pages in the slots of a FIFO buffer of `n` slots. */
  function FifoSlots(h: seq<int>, n: nat): (pages: seq<int>)
    requires n > 0
    ensures |pages| == n
  {
    if h == [] then seq(n, _ => NO_PAGE) else
      var before, k := FifoSlots(h[..|h| - 1], n), Filled(Fifo, n, h[..|h| - 1]);
      FifoArray(before, Find(before[..k], h[|h| - 1]), k, h[|h| - 1])
  }

  /** A page, or a slot that looks like it, is in the buffer after the references `h`. */
  predicate InBuffer(policy: Policy, n: nat, h: seq<int>, p: int)
    requires n > 0
  {
    match policy
    case Fifo => p in FifoSlots(h, n)
    case Lru => Kept(h, p, n)
  }

  lemma {:induction false} BufferAlways(vm: Vm, policy: Policy, store: seq<int>, refs: seq<Location>, p: int)
    requires Fresh(vm)
    ensures p in Run(vm, policy, store, refs).tlb.pages <==> InBuffer(policy, |vm.tlb.pages|, PagesOf(refs), p)
  {
    if policy == Fifo { FifoSlotsAlways(vm, store, refs); } else { LruRun(vm, store, refs); }
  }

  lemma {:induction false} FifoSlotsAlways(vm: Vm, store: seq<int>, refs: seq<Location>)
    requires Fresh(vm)
    ensures Run(vm, Fifo, store, refs).tlb.pages == FifoSlots(PagesOf(refs), |vm.tlb.pages|)
  {
    if refs == [] {
    } else {
      PagesStep(refs);
      FifoSlotsAlways(vm, store, Front(refs));
      WrittenIsFilled(vm, Fifo, store, Front(refs));
    }
  }

  /** The references `h` do not make a lookup of `p` find a frame: a test on them and on the `frames` that the buffer
      starts with. */
  predicate Missed(policy: Policy, frames: seq<int>, h: seq<int>, p: int)
    requires frames != []
  {
    !InBuffer(policy, |frames|, h, p) || (p == NO_PAGE && HitsMark(policy, frames, h))
  }

  /** Whether page 0 is in a written slot. */
  lemma EmptySlot(vm: Vm, policy: Policy, store: seq<int>, refs: seq<Location>)
    requires Fresh(vm)
    ensures var r := Run(vm, policy, store, refs);
            HitsMark(policy, vm.tlb.frames, PagesOf(refs)) <==> FindsMark(r)
  {
    var r := Run(vm, policy, store, refs);
    WrittenIsFilled(vm, policy, store, refs);
    UntouchedAlways(vm, policy, store, refs);
    SoundAlways(vm, policy, store, refs);
    if r.written < |r.tlb.pages| {
      assert r.tlb.pages[r.written] == NO_PAGE;
      if policy == Fifo && NO_PAGE in PagesOf(refs) {
        FifoHoldsAll(vm, store, refs, NO_PAGE);
      } else {
        if policy == Fifo { FifoHoldsOnly(vm, store, refs, NO_PAGE); }
        assert Find(r.tlb.pages, NO_PAGE) == r.written;
      }
    }
  }

  /** A written slot of a FIFO buffer holds a page that was referenced. */
  lemma {:induction false} FifoHoldsOnly(vm: Vm, store: seq<int>, refs: seq<Location>, p: int)
    requires Fresh(vm) && p !in PagesOf(refs)
    ensures p !in Run(vm, Fifo, store, refs).tlb.pages[..Run(vm, Fifo, store, refs).next]
  {
    if refs == [] {
    } else {
      PagesStep(refs);
      var before, page := Run(vm, Fifo, store, Front(refs)), Final(refs).page;
      assert p !in PagesOf(Front(refs)) && p != page;
      FifoHoldsOnly(vm, store, Front(refs), p);
      FifoAddsOne(before.tlb, before.next, page, Resolve(before, store, page).1, p);
    }
  }

  lemma FifoAddsOne(t: Table, next: nat, page: int, frame: int, p: int)
    requires Sized(t) && next <= |t.pages| && p !in t.pages[..next] && p != page
    ensures p !in FifoInsert(t, next, page, frame).pages[..FifoNext(next, |t.pages|)]
  {
    var n, r, i := |t.pages|, FifoInsert(t, next, page, frame).pages, Find(t.pages[..next], page);
    forall j | 0 <= j < FifoNext(next, n) ensures r[j] != p {
      FifoEntries(t.pages, i, next, page, j);
      var k := FifoOrigin(n, i, next, j);
      assert k != -1 ==> t.pages[k] == t.pages[..next][k];
    }
  }

  lemma MissedExactly(vm: Vm, policy: Policy, store: seq<int>, refs: seq<Location>, page: int)
    requires Fresh(vm)
    ensures Missed(policy, vm.tlb.frames, PagesOf(refs), page) <==> !Found(Run(vm, policy, store, refs), page)
  {
    var r := Run(vm, policy, store, refs);
    BufferAlways(vm, policy, store, refs, page);
    SoundAlways(vm, policy, store, refs);
    EmptySlot(vm, policy, store, refs);
    if page in r.tlb.pages {
      assert r.tlb.pages[Find(r.tlb.pages, page)] == page;
      assert Find(r.tlb.pages, page) < r.written || page == NO_PAGE;
    }
  }

  /** The pages whose lookups in the buffer find no frame, in order. */
  function MissedPages(policy: Policy, frames: seq<int>, h: seq<int>): seq<int>
    requires frames != []
  {
    if h == [] then [] else
      var front := h[..|h| - 1];
      MissedPages(policy, frames, front) + if Missed(policy, frames, front, h[|h| - 1]) then [h[|h| - 1]] else []
  }

  /** Over every run, safe or not: the page table lists the pages that the buffer missed in the order in which it first
      missed them, each of these faulted once, and every miss is counted. All of this is known from the references and
      the frame numbers that the buffer starts with. */
  lemma {:induction false} FaultsAlways(vm: Vm, policy: Policy, store: seq<int>, refs: seq<Location>)
    requires Fresh(vm)
    ensures var r, missed := Run(vm, policy, store, refs), MissedPages(policy, vm.tlb.frames, PagesOf(refs));
            r.table == FirstOccurrences(missed) && r.faults == |Elems(missed)| && r.misses == |missed|
  {
    if refs == [] {
    } else {
      var before, h, page := Run(vm, policy, store, Front(refs)), PagesOf(Front(refs)), Final(refs).page;
      PagesStep(refs);
      FaultsAlways(vm, policy, store, Front(refs));
      MissedExactly(vm, policy, store, Front(refs), page);
      TranslateCounts(before, policy, store, page, Final(refs).offset);
      var missed := MissedPages(policy, vm.tlb.frames, h);
      OneMoreMissed(missed, page);
      assert MissedPages(policy, vm.tlb.frames, PagesOf(refs))
             == missed + if Missed(policy, vm.tlb.frames, h, page) then [page] else [];
    }
    DistinctCardinality(FirstOccurrences(MissedPages(policy, vm.tlb.frames, PagesOf(refs))));
  }

  lemma OneMoreMissed(missed: seq<int>, page: int)
    ensures FirstOccurrences(missed + [page])
            == FirstOccurrences(missed) + if page in FirstOccurrences(missed) then [] else [page]
    ensures missed + [] == missed
  {
    assert (missed + [page])[..|missed|] == missed;
  }
}
