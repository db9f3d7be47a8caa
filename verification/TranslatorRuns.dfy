/** What the translator of PracticumV2/main.c does over whole sequences of addresses. */
module TranslatorRuns {
  import opened Sequences
  import opened Recency
  import opened Tlb
  import opened Translator

  ghost function Front<T>(s: seq<T>): seq<T>
    requires s != []
  {
    s[..|s| - 1]
  }

  ghost function Final<T>(s: seq<T>): T
    requires s != []
  {
    s[|s| - 1]
  }

  lemma PagesStep(refs: seq<Location>)
    requires refs != []
    ensures PagesOf(refs) == PagesOf(Front(refs)) + [Final(refs).page]
    ensures Front(PagesOf(refs)) == PagesOf(Front(refs))
  {
    PagesOfAppend(Front(refs), Final(refs));
    assert refs == Front(refs) + [Final(refs)];
  }

  // ----- when page 0 may be used -----

  /** How many slots of a buffer of `n` slots have been written after the references `pages`. */
  function Filled(policy: Policy, n: nat, pages: seq<int>): (k: nat)
    ensures k <= n
  {
    var used := if policy == Fifo then |pages| else Used(pages);
    if used < n then used else n
  }

  /** After `pages`, a lookup of page 0 takes for a hit the first slot that was never written. */
  predicate HitsEmpty(policy: Policy, n: nat, pages: seq<int>) {
    Filled(policy, n, pages) < n && !(policy == Fifo && NO_PAGE in pages)
  }

  /** A lookup of page 0 after `pages` finds the frame of page 0 even so: the slot's frame number, one of the `frames`
      that the buffer starts with, is the mark for none or happens to be right. */
  predicate ZeroFound(policy: Policy, frames: seq<int>, pages: seq<int>) {
    HitsEmpty(policy, |frames|, pages) ==>
      var frame := frames[Filled(policy, |frames|, pages)];
      frame == -1 || (NO_PAGE in pages && frame == Find(FirstOccurrences(pages), NO_PAGE))
  }

  /** Page 0 is referenced only where a lookup finds its frame: a test on the references and the frame numbers that the
      buffer starts with. */
  predicate SafePages(policy: Policy, frames: seq<int>, pages: seq<int>) {
    pages == [] || (SafePages(policy, frames, pages[..|pages| - 1])
                    && (pages[|pages| - 1] != NO_PAGE || ZeroFound(policy, frames, pages[..|pages| - 1])))
  }

  /** Page 0 is referenced only once every slot of the buffer has been written: a test on the references alone. */
  predicate ZeroWaits(policy: Policy, n: nat, pages: seq<int>) {
    pages == [] || (ZeroWaits(policy, n, pages[..|pages| - 1])
                    && (pages[|pages| - 1] != NO_PAGE || Filled(policy, n, pages[..|pages| - 1]) == n))
  }

  lemma {:induction false} ZeroMeansFilled(policy: Policy, n: nat, pages: seq<int>)
    requires ZeroWaits(policy, n, pages) && NO_PAGE in pages
    ensures Filled(policy, n, pages) == n
  {
    assert pages == Front(pages) + [Final(pages)];
    UsedStep(Front(pages), Final(pages));
    if Final(pages) != NO_PAGE { ZeroMeansFilled(policy, n, Front(pages)); }
  }

  /** To wait is always safe. If no frame number that the buffer starts with is the mark for none, nothing else is. */
  lemma {:induction false} WaitingIsSafe(policy: Policy, frames: seq<int>, pages: seq<int>)
    ensures ZeroWaits(policy, |frames|, pages) ==> SafePages(policy, frames, pages)
    ensures SafePages(policy, frames, pages) && -1 !in frames ==> ZeroWaits(policy, |frames|, pages)
  {
    if pages == [] {
    } else {
      var front := Front(pages);
      WaitingIsSafe(policy, frames, front);
      if ZeroWaits(policy, |frames|, front) && NO_PAGE in front { ZeroMeansFilled(policy, |frames|, front); }
    }
  }

  lemma {:induction false} SafeWithoutZero(policy: Policy, frames: seq<int>, pages: seq<int>)
    requires NO_PAGE !in pages
    ensures SafePages(policy, frames, pages)
  {
    if pages == [] {
    } else {
      SafeWithoutZero(policy, frames, Front(pages));
    }
  }

  // ----- the buffer over a run -----

  lemma LruTranslate(vm: Vm, store: seq<int>, h: seq<int>, page: nat, offset: nat)
    requires WellFormed(vm) && page < PAGES && offset < FRAME_SIZE && LruInv(vm.tlb, h, vm.written)
    ensures var r := Translate(vm, Lru, store, page, offset).0; LruInv(r.tlb, h + [page], r.written)
  {
    LruStep(vm.tlb, h, vm.written, page, Resolve(vm, store, page).1);
  }

  /** Over every run, contents and ages of the LRU buffer are those of the reference history. */
  lemma {:induction false} LruRun(vm: Vm, store: seq<int>, refs: seq<Location>)
    requires Fresh(vm)
    ensures LruInv(Run(vm, Lru, store, refs).tlb, PagesOf(refs), Run(vm, Lru, store, refs).written)
  {
    if refs == [] {
      assert Kept([], NO_PAGE, |vm.tlb.pages|) && vm.tlb.pages[0] == NO_PAGE;
    } else {
      PagesStep(refs);
      LruRun(vm, store, Front(refs));
      LruTranslate(Run(vm, Lru, store, Front(refs)), store, PagesOf(Front(refs)), Final(refs).page, Final(refs).offset);
    }
  }

  /** The FIFO buffer is the queue throughout exactly when every reference is a step it gets right. */
  lemma FifoQueueExactly(vm: Vm, store: seq<int>, refs: seq<Location>)
    requires Fresh(vm)
    ensures Throughout(vm, store, refs, |refs|) <==> QueueKept(PagesOf(refs), |vm.tlb.pages|)
  {
    QueueUpTo(vm, store, refs, |refs|);
    assert refs[..|refs|] == refs;
  }

  lemma {:induction false} QueueUpTo(vm: Vm, store: seq<int>, refs: seq<Location>, k: nat)
    requires Fresh(vm) && k <= |refs|
    ensures Throughout(vm, store, refs, k) <==> QueueKept(PagesOf(refs[..k]), |vm.tlb.pages|)
  {
    if k == 0 {
      QueueAtFirst(vm, store, refs);
    } else {
      OneStepLonger(vm, store, refs, k);
      QueueUpTo(vm, store, refs, k - 1);
      QueueNext(vm, store, refs, k);
    }
  }

  /** The slots in use hold the queue up to the first `k` references. */
  ghost predicate Throughout(vm: Vm, store: seq<int>, refs: seq<Location>, k: nat)
    requires WellFormed(vm) && k <= |refs|
  {
    forall m :: 0 <= m <= k ==> QueueAt(vm, store, refs, m)
  }

  lemma OneStepLonger(vm: Vm, store: seq<int>, refs: seq<Location>, k: nat)
    requires WellFormed(vm) && 0 < k <= |refs|
    ensures Throughout(vm, store, refs, k) <==> Throughout(vm, store, refs, k - 1) && QueueAt(vm, store, refs, k)
    ensures Throughout(vm, store, refs, k - 1) ==> QueueAt(vm, store, refs, k - 1)
  {
  }

  lemma QueueAtFirst(vm: Vm, store: seq<int>, refs: seq<Location>)
    requires Fresh(vm)
    ensures QueueAt(vm, store, refs, 0) && QueueKept(PagesOf(refs[..0]), |vm.tlb.pages|)
  {
    assert refs[..0] == [];
  }

  lemma QueueNext(vm: Vm, store: seq<int>, refs: seq<Location>, k: nat)
    requires Fresh(vm) && 0 < k <= |refs|
    ensures QueueAt(vm, store, refs, k - 1) ==>
              (QueueAt(vm, store, refs, k) && QueueKept(PagesOf(refs[..k - 1]), |vm.tlb.pages|)
               <==> QueueKept(PagesOf(refs[..k]), |vm.tlb.pages|))
    ensures QueueKept(PagesOf(refs[..k]), |vm.tlb.pages|) ==> QueueKept(PagesOf(refs[..k - 1]), |vm.tlb.pages|)
  {
    var now := refs[..k];
    assert Front(now) == refs[..k - 1];
    PagesStep(now);
    if QueueAt(vm, store, refs, k - 1) { FifoQueueStep(vm, store, now); }
  }

  /** After the first `m` references the slots in use hold the queue. */
  ghost predicate QueueAt(vm: Vm, store: seq<int>, refs: seq<Location>, m: nat)
    requires WellFormed(vm) && m <= |refs|
  {
    IsQueue(vm, store, refs[..m])
  }

  /** The slots in use hold the queue after the references. */
  ghost predicate IsQueue(vm: Vm, store: seq<int>, refs: seq<Location>)
    requires WellFormed(vm)
  {
    var r := Run(vm, Fifo, store, refs);
    r.tlb.pages[..r.next] == QueueAfter(PagesOf(refs), |vm.tlb.pages|)
  }

  lemma FifoQueueStep(vm: Vm, store: seq<int>, refs: seq<Location>)
    requires WellFormed(vm) && refs != [] && IsQueue(vm, store, Front(refs))
    ensures IsQueue(vm, store, refs)
            <==> QueueStep(QueueAfter(PagesOf(Front(refs)), |vm.tlb.pages|), Final(refs).page, |vm.tlb.pages|)
  {
    PagesStep(refs);
    var before := Run(vm, Fifo, store, Front(refs));
    FifoExactly(before.tlb, before.next, Final(refs).page, Resolve(before, store, Final(refs).page).1);
  }

  /** How many slots have been written, for every run. */
  lemma {:induction false} WrittenIsFilled(vm: Vm, policy: Policy, store: seq<int>, refs: seq<Location>)
    requires Fresh(vm)
    ensures Run(vm, policy, store, refs).written == Filled(policy, |vm.tlb.pages|, PagesOf(refs))
    ensures Tidy(Run(vm, policy, store, refs), policy)
  {
    if policy == Lru {
      LruRun(vm, store, refs);
    } else if refs == [] {
    } else {
      WrittenIsFilled(vm, policy, store, Front(refs));
    }
  }

  /** Slots not yet written keep what they held, and frames not yet mapped stay zero. */
  ghost predicate Untouched(start: Vm, r: Vm)
    requires WellFormed(start) && WellFormed(r)
  {
    && |r.tlb.pages| == |start.tlb.pages|
    && (forall i :: r.written <= i < |r.tlb.pages| ==> r.tlb.frames[i] == start.tlb.frames[i])
    && (forall f, o :: |r.table| <= f < FRAMES && 0 <= o < FRAME_SIZE ==> r.dram[f][o] == 0)
  }

  lemma UntouchedStep(start: Vm, r: Vm, policy: Policy, store: seq<int>, page: nat, offset: nat)
    requires WellFormed(start) && WellFormed(r) && Untouched(start, r) && page < PAGES && offset < FRAME_SIZE
    requires Tidy(r, policy)
    ensures Untouched(start, Translate(r, policy, store, page, offset).0)
  {
    var i := Find(r.tlb.pages[..r.next], page);
    var (resolved, frame) := Resolve(r, store, page);
    if policy == Fifo {
      forall j | 0 <= j < |r.tlb.pages| {
        FifoEntries(r.tlb.frames, i, r.next, frame, j);
      }
    }
  }

  lemma {:induction false} UntouchedAlways(vm: Vm, policy: Policy, store: seq<int>, refs: seq<Location>)
    requires Fresh(vm)
    ensures Untouched(vm, Run(vm, policy, store, refs))
  {
    if refs == [] {
    } else {
      UntouchedAlways(vm, policy, store, Front(refs));
      WrittenIsFilled(vm, policy, store, Front(refs));
      UntouchedStep(vm, Run(vm, policy, store, Front(refs)), policy, store, Final(refs).page, Final(refs).offset);
    }
  }

  /** While there is room, a FIFO insertion loses no page. */
  lemma FifoLosesNone(t: Table, next: nat, page: int, frame: int, p: int)
    requires Sized(t) && next < |t.pages| && (p in t.pages[..next] || p == page)
    ensures p in FifoInsert(t, next, page, frame).pages[..next + 1]
  {
    var i, r := Find(t.pages[..next], page), FifoInsert(t, next, page, frame).pages[..next + 1];
    FifoEntries(t.pages, i, next, page, next);
    assert r[next] == page;
    if p != page {
      var j :| 0 <= j < next && t.pages[j] == p;
      var k := if j < i then j else j - 1;
      FifoEntries(t.pages, i, next, page, k);
      assert r[k] == p;
    }
  }

  lemma {:induction false} FifoHoldsAll(vm: Vm, store: seq<int>, refs: seq<Location>, p: int)
    requires Fresh(vm) && |refs| <= |vm.tlb.pages| && p in PagesOf(refs)
    ensures Run(vm, Fifo, store, refs).next == |refs| && p in Run(vm, Fifo, store, refs).tlb.pages[..|refs|]
  {
    PagesStep(refs);
    var before, page := Run(vm, Fifo, store, Front(refs)), Final(refs).page;
    WrittenIsFilled(vm, Fifo, store, Front(refs));
    if p in PagesOf(Front(refs)) { FifoHoldsAll(vm, store, Front(refs), p); }
    FifoLosesNone(before.tlb, before.next, page, Resolve(before, store, page).1, p);
  }

  /** Which slot a lookup of page 0 hits that was never written. */
  lemma EmptyHit(vm: Vm, policy: Policy, store: seq<int>, refs: seq<Location>)
    requires Fresh(vm) && Coherent(Run(vm, policy, store, refs), store)
    requires Run(vm, policy, store, refs).table == FirstOccurrences(PagesOf(refs))
    ensures var t, i := Run(vm, policy, store, refs).tlb, Find(Run(vm, policy, store, refs).tlb.pages, NO_PAGE);
            var hits := HitsEmpty(policy, |vm.tlb.pages|, PagesOf(refs));
            && (hits <==> Run(vm, policy, store, refs).written <= i < |t.pages|)
            && (hits ==> i == Filled(policy, |vm.tlb.pages|, PagesOf(refs)) && t.frames[i] == vm.tlb.frames[i])
  {
    var r, pages := Run(vm, policy, store, refs), PagesOf(refs);
    WrittenIsFilled(vm, policy, store, refs);
    UntouchedAlways(vm, policy, store, refs);
    assert NO_PAGE in r.table <==> NO_PAGE in Elems(r.table);
    assert NO_PAGE in pages <==> NO_PAGE in Elems(pages);
    if r.written < |r.tlb.pages| {
      assert r.tlb.pages[r.written] == NO_PAGE;
      if policy == Fifo && NO_PAGE in pages {
        FifoHoldsAll(vm, store, refs, NO_PAGE);
      } else {
        assert Find(r.tlb.pages, NO_PAGE) == r.written;
      }
    }
  }

  /** After a run whose tables are coherent, page 0 may be looked up exactly when the test says so. */
  lemma SafeExactly(vm: Vm, policy: Policy, store: seq<int>, refs: seq<Location>)
    requires Fresh(vm) && Coherent(Run(vm, policy, store, refs), store)
    requires Run(vm, policy, store, refs).table == FirstOccurrences(PagesOf(refs))
    ensures Safe(Run(vm, policy, store, refs), NO_PAGE) <==> ZeroFound(policy, vm.tlb.frames, PagesOf(refs))
    ensures FindsMark(Run(vm, policy, store, refs)) <==> HitsMark(policy, vm.tlb.frames, PagesOf(refs))
  {
    EmptyHit(vm, policy, store, refs);
    var table := Run(vm, policy, store, refs).table;
    assert NO_PAGE in table <==> NO_PAGE in Elems(table);
    assert NO_PAGE in PagesOf(refs) <==> NO_PAGE in Elems(PagesOf(refs));
  }

  /** The lookup of page 0 hits a slot that was never written, and that holds the mark for no frame. */
  predicate FindsMark(vm: Vm)
    requires Sized(vm.tlb)
  {
    var i := Find(vm.tlb.pages, NO_PAGE);
    vm.written <= i < |vm.tlb.pages| && vm.tlb.frames[i] == -1
  }

  predicate HitsMark(policy: Policy, frames: seq<int>, pages: seq<int>) {
    HitsEmpty(policy, |frames|, pages) && frames[Filled(policy, |frames|, pages)] == -1
  }

  /** In a safe run the tables stay coherent, and the page table lists the pages in the order of first use. */
  lemma {:induction false} SafeRun(vm: Vm, policy: Policy, store: seq<int>, refs: seq<Location>)
    requires Fresh(vm) && SafePages(policy, vm.tlb.frames, PagesOf(refs))
    ensures Coherent(Run(vm, policy, store, refs), store)
    ensures Run(vm, policy, store, refs).table == FirstOccurrences(PagesOf(refs))
    decreases |refs|, 1
  {
    if refs == [] {
    } else {
      SafeBefore(vm, policy, store, refs);
      SafeState(Run(vm, policy, store, Front(refs)), policy, store, Final(refs).page, Final(refs).offset);
    }
  }

  /** What the last translation of a safe run finds. */
  lemma SafeBefore(vm: Vm, policy: Policy, store: seq<int>, refs: seq<Location>)
    requires Fresh(vm) && refs != [] && SafePages(policy, vm.tlb.frames, PagesOf(refs))
    ensures PagesOf(refs) == PagesOf(Front(refs)) + [Final(refs).page]
    ensures SafePages(policy, vm.tlb.frames, PagesOf(Front(refs)))
    ensures var before := Run(vm, policy, store, Front(refs));
            && Coherent(before, store) && Tidy(before, policy) && Safe(before, Final(refs).page)
            && before.table == FirstOccurrences(PagesOf(Front(refs)))
    decreases |refs|, 0
  {
    PagesStep(refs);
    SafeRun(vm, policy, store, Front(refs));
    WrittenIsFilled(vm, policy, store, Front(refs));
    SafeExactly(vm, policy, store, Front(refs));
  }

  /** The value that translating `l` after `refs` yields. */
  function ValueAt(vm: Vm, policy: Policy, store: seq<int>, refs: seq<Location>, l: Location): Option<int>
    requires WellFormed(vm)
  {
    Translate(Run(vm, policy, store, refs), policy, store, l.page, l.offset).1
  }

  function ByteOf(l: Location): (b: nat)
    ensures b < PAGES * FRAME_SIZE
  {
    ByteAt(l.page, l.offset)
  }

  /** Translation is transparent: the value is the byte of the store at the address, as far as the store goes. */
  lemma Transparent(vm: Vm, policy: Policy, store: seq<int>, refs: seq<Location>)
    requires Fresh(vm) && refs != [] && SafePages(policy, vm.tlb.frames, PagesOf(refs))
    requires ByteOf(Final(refs)) < |store|
    ensures ValueAt(vm, policy, store, Front(refs), Final(refs)) == Some(store[ByteOf(Final(refs))])
  {
    SafeBefore(vm, policy, store, refs);
    SafeValue(Run(vm, policy, store, Front(refs)), policy, store, Final(refs).page, Final(refs).offset);
  }

  /** All the values of a run, in order. */
  function Values(vm: Vm, policy: Policy, store: seq<int>, refs: seq<Location>): (values: seq<Option<int>>)
    requires WellFormed(vm)
    ensures |values| == |refs|
  {
    if refs == [] then [] else
      Values(vm, policy, store, refs[..|refs| - 1])
      + [ValueAt(vm, policy, store, refs[..|refs| - 1], refs[|refs| - 1])]
  }

  lemma ValueOf(vm: Vm, policy: Policy, store: seq<int>, refs: seq<Location>, i: nat)
    requires WellFormed(vm) && i < |refs|
    ensures Values(vm, policy, store, refs)[i] ==
            if i == |refs| - 1 then ValueAt(vm, policy, store, Front(refs), Final(refs))
            else Values(vm, policy, store, Front(refs))[i]
  {
  }

  lemma SafeFront(policy: Policy, frames: seq<int>, refs: seq<Location>)
    requires refs != [] && SafePages(policy, frames, PagesOf(refs))
    ensures SafePages(policy, frames, PagesOf(Front(refs)))
  {
    PagesStep(refs);
  }

  lemma LastValue(vm: Vm, policy: Policy, store: seq<int>, refs: seq<Location>)
    requires Fresh(vm) && refs != [] && SafePages(policy, vm.tlb.frames, PagesOf(refs))
    requires ByteOf(Final(refs)) < |store|
    ensures Values(vm, policy, store, refs)[|refs| - 1] == Some(store[ByteOf(Final(refs))])
  {
    Transparent(vm, policy, store, refs);
    ValueOf(vm, policy, store, refs, |refs| - 1);
  }

  lemma {:induction false} SafeValueAt(vm: Vm, policy: Policy, store: seq<int>, refs: seq<Location>, i: nat)
    requires Fresh(vm) && SafePages(policy, vm.tlb.frames, PagesOf(refs))
    requires i < |refs| && ByteOf(refs[i]) < |store|
    ensures Values(vm, policy, store, refs)[i] == Some(store[ByteOf(refs[i])])
  {
    if i == |refs| - 1 {
      LastValue(vm, policy, store, refs);
    } else {
      ValueOf(vm, policy, store, refs, i);
      SafeFront(policy, vm.tlb.frames, refs);
      SafeValueAt(vm, policy, store, Front(refs), i);
    }
  }

  /** All values of a safe run are right. */
  lemma SafeValues(vm: Vm, policy: Policy, store: seq<int>, refs: seq<Location>)
    requires Fresh(vm) && SafePages(policy, vm.tlb.frames, PagesOf(refs))
    ensures forall i :: 0 <= i < |refs| && ByteOf(refs[i]) < |store| ==>
              Values(vm, policy, store, refs)[i] == Some(store[ByteOf(refs[i])])
  {
    forall i | 0 <= i < |refs| && ByteOf(refs[i]) < |store|
      ensures Values(vm, policy, store, refs)[i] == Some(store[ByteOf(refs[i])])
    {
      SafeValueAt(vm, policy, store, refs, i);
    }
  }

  /** Every page faults once: the faults are the distinct pages referenced, never more than there are frames. */
  lemma FaultsAreDistinctPages(vm: Vm, policy: Policy, store: seq<int>, refs: seq<Location>)
    requires Fresh(vm) && SafePages(policy, vm.tlb.frames, PagesOf(refs))
    ensures var r := Run(vm, policy, store, refs);
            r.faults == |r.table| == |Elems(PagesOf(refs))| <= FRAMES
  {
    SafeRun(vm, policy, store, refs);
    DistinctCardinality(FirstOccurrences(PagesOf(refs)));
  }

  /** How many references to page 0 hit a slot that holds the mark for no frame. */
  function Doubled(policy: Policy, frames: seq<int>, pages: seq<int>): nat {
    if pages == [] then 0 else
      var front := pages[..|pages| - 1];
      Doubled(policy, frames, front) + if pages[|pages| - 1] == NO_PAGE && HitsMark(policy, frames, front) then 1 else 0
  }

  lemma {:induction false} NoneDoubled(policy: Policy, frames: seq<int>, pages: seq<int>)
    requires -1 !in frames || NO_PAGE !in pages
    ensures Doubled(policy, frames, pages) == 0
  {
    if pages == [] {
    } else {
      NoneDoubled(policy, frames, Front(pages));
    }
  }

  /** Every translation of a safe run is a hit or a miss, or both if its hit is a slot marked as holding no frame; and
      every fault is a miss. */
  lemma {:induction false} HitsAndMisses(vm: Vm, policy: Policy, store: seq<int>, refs: seq<Location>)
    requires Fresh(vm) && SafePages(policy, vm.tlb.frames, PagesOf(refs))
    ensures var r := Run(vm, policy, store, refs);
            r.hits + r.misses == |refs| + Doubled(policy, vm.tlb.frames, PagesOf(refs)) && r.faults <= r.misses
  {
    if refs == [] {
    } else {
      CountsLast(vm, policy, store, refs);
      HitsAndMisses(vm, policy, store, Front(refs));
    }
  }

  lemma CountsLast(vm: Vm, policy: Policy, store: seq<int>, refs: seq<Location>)
    requires Fresh(vm) && refs != [] && SafePages(policy, vm.tlb.frames, PagesOf(refs))
    ensures SafePages(policy, vm.tlb.frames, PagesOf(Front(refs)))
    ensures var before, r := Run(vm, policy, store, Front(refs)), Run(vm, policy, store, refs);
            && r.hits + r.misses - before.hits - before.misses - 1
               == Doubled(policy, vm.tlb.frames, PagesOf(refs)) - Doubled(policy, vm.tlb.frames, PagesOf(Front(refs)))
            && r.faults - before.faults <= r.misses - before.misses
  {
    SafeBefore(vm, policy, store, refs);
    SafeExactly(vm, policy, store, Front(refs));
    CountsStep(Run(vm, policy, store, Front(refs)), policy, store, Final(refs).page, Final(refs).offset);
    DoubledStep(policy, vm.tlb.frames, PagesOf(Front(refs)), Final(refs).page);
  }

  lemma DoubledStep(policy: Policy, frames: seq<int>, pages: seq<int>, page: int)
    ensures Doubled(policy, frames, pages + [page])
            == Doubled(policy, frames, pages) + if page == NO_PAGE && HitsMark(policy, frames, pages) then 1 else 0
  {
    assert (pages + [page])[..|pages|] == pages;
  }

  lemma CountsStep(vm: Vm, policy: Policy, store: seq<int>, page: nat, offset: nat)
    requires WellFormed(vm) && page < PAGES && offset < FRAME_SIZE && Coherent(vm, store) && Safe(vm, page)
    ensures var r := Translate(vm, policy, store, page, offset).0;
            && r.hits + r.misses == vm.hits + vm.misses + 1 + (if page == NO_PAGE && FindsMark(vm) then 1 else 0)
            && r.faults - vm.faults <= r.misses - vm.misses
  {
  }

  // ----- LRU against the reference history -----

  /** What an LRU lookup hits, for every run: page 0 while it lodges, and another page exactly when it was used before
      and fewer others, page 0 apart, than there is room for have been used since. */
  lemma LruHitsExactly(vm: Vm, store: seq<int>, refs: seq<Location>, page: nat)
    requires Fresh(vm)
    ensures var pages, h := Run(vm, Lru, store, refs).tlb.pages, PagesOf(refs);
            && (NO_PAGE in pages <==> Lodges(|pages|, h))
            && (page != NO_PAGE ==>
                  (page in pages <==>
                   page in h && |Elems(Since(h, page)) - {NO_PAGE}| < Room(|pages|, NO_PAGE in pages)))
  {
    LruRun(vm, store, refs);
    var h := PagesOf(refs);
    assert Kept(h, NO_PAGE, |vm.tlb.pages|) <==> Lodges(|vm.tlb.pages|, h);
    if page != NO_PAGE && page in h { DepthIsReuseDistance(h, page); }
  }

  /** The reuse-distance theorem: in a run that keeps the order, a lookup hits exactly when the page was used before and
      fewer other pages than the buffer has slots have been used since. (Slots left over look like page 0.) */
  lemma LruReuseDistance(vm: Vm, store: seq<int>, refs: seq<Location>, page: nat)
    requires Fresh(vm) && OrderKept(PagesOf(refs), |vm.tlb.pages|)
    ensures page in Run(vm, Lru, store, refs).tlb.pages
            <==> (page in PagesOf(refs) && |Elems(Since(PagesOf(refs), page))| < |vm.tlb.pages|)
                 || (page == NO_PAGE && page !in PagesOf(refs) && Used(PagesOf(refs)) < |vm.tlb.pages|)
  {
    var h, n := PagesOf(refs), |vm.tlb.pages|;
    LruRun(vm, store, refs);
    OrderExactly(h, n);
    assert h[..|h|] == h;
    assert page in Run(vm, Lru, store, refs).tlb.pages <==> MostRecent(h, page, n);
    if page in h { RankIsReuseDistance(h, page); }
  }

  /** The LRU buffer holds exactly the most recently used pages throughout the run precisely when every reference keeps
      the order. */
  lemma LruOrderExactly(vm: Vm, store: seq<int>, refs: seq<Location>)
    requires Fresh(vm)
    ensures (forall m :: 0 <= m <= |refs| ==> HoldsMostRecent(vm, store, refs[..m]))
            <==> OrderKept(PagesOf(refs), |vm.tlb.pages|)
  {
    var h, n := PagesOf(refs), |vm.tlb.pages|;
    OrderExactly(h, n);
    forall m | 0 <= m <= |refs| ensures HoldsMostRecent(vm, store, refs[..m]) <==> InOrder(h[..m], n) {
      HoldsInOrder(vm, store, refs, m);
    }
  }

  lemma HoldsInOrder(vm: Vm, store: seq<int>, refs: seq<Location>, m: nat)
    requires Fresh(vm) && m <= |refs|
    ensures HoldsMostRecent(vm, store, refs[..m]) <==> InOrder(PagesOf(refs)[..m], |vm.tlb.pages|)
  {
    LruRun(vm, store, refs[..m]);
    assert PagesOf(refs[..m]) == PagesOf(refs)[..m];
  }

  ghost predicate HoldsMostRecent(vm: Vm, store: seq<int>, refs: seq<Location>)
    requires WellFormed(vm)
  {
    forall p :: p in Run(vm, Lru, store, refs).tlb.pages <==> MostRecent(PagesOf(refs), p, |vm.tlb.pages|)
  }

  /** What a page that is not there displaces once all slots have been written: page 0 if it is there, and else the page
      whose last use is furthest back. */
  lemma LruEvictsLeastRecent(vm: Vm, store: seq<int>, refs: seq<Location>, page: nat)
    requires Fresh(vm)
    requires var r := Run(vm, Lru, store, refs); r.written == |r.tlb.pages| && page !in r.tlb.pages
    ensures var t, h := Run(vm, Lru, store, refs).tlb, PagesOf(refs);
            && (NO_PAGE in t.pages ==> t.pages[Victim(t, page)] == NO_PAGE)
            && (NO_PAGE !in t.pages ==>
                  forall i :: 0 <= i < |t.pages| && i != Victim(t, page) ==>
                    |Since(h, t.pages[i])| < |Since(h, t.pages[Victim(t, page)])|)
  {
    LruRun(vm, store, refs);
    var t, h := Run(vm, Lru, store, refs).tlb, PagesOf(refs);
    if NO_PAGE !in t.pages {
      var v := Victim(t, page);
      forall i | 0 <= i < |t.pages| && i != v ensures |Since(h, t.pages[i])| < |Since(h, t.pages[v])| {
        AgesDistinct(t, h, |t.pages|, i, v);
        assert Aged(t, page)[i] <= Aged(t, page)[v];
      }
    }
  }

  /** A larger buffer holds whatever a smaller one holds, at every step. */
  lemma LruInclusion(small: Vm, large: Vm, store: seq<int>, refs: seq<Location>, page: nat)
    requires Fresh(small) && Fresh(large) && |small.tlb.pages| <= |large.tlb.pages|
    ensures page in Run(small, Lru, store, refs).tlb.pages ==> page in Run(large, Lru, store, refs).tlb.pages
  {
    LruRun(small, store, refs);
    LruRun(large, store, refs);
    if Kept(PagesOf(refs), page, |small.tlb.pages|) {
      KeptGrows(PagesOf(refs), page, |small.tlb.pages|, |large.tlb.pages|);
    }
  }

  /** A translation counts a hit exactly when the page is in the buffer. */
  lemma HitsStep(vm: Vm, policy: Policy, store: seq<int>, refs: seq<Location>)
    requires WellFormed(vm) && refs != []
    ensures Run(vm, policy, store, refs).hits == Run(vm, policy, store, Front(refs)).hits
            + if Final(refs).page in Run(vm, policy, store, Front(refs)).tlb.pages then 1 else 0
  {
  }

  /** So the hit count never drops as the buffer grows. */
  lemma {:induction false} LruHitsGrow(small: Vm, large: Vm, store: seq<int>, refs: seq<Location>)
    requires Fresh(small) && Fresh(large) && |small.tlb.pages| <= |large.tlb.pages|
    ensures Run(small, Lru, store, refs).hits <= Run(large, Lru, store, refs).hits
  {
    if refs == [] {
    } else {
      PagesStep(refs);
      LruHitsGrow(small, large, store, Front(refs));
      LruInclusion(small, large, store, Front(refs), Final(refs).page);
      HitsStep(small, Lru, store, refs);
      HitsStep(large, Lru, store, refs);
    }
  }

  // ----- the policy does not matter -----

  /** What a safe translation does to memory depends on memory alone. */
  lemma SafeMemory(vm: Vm, policy: Policy, store: seq<int>, page: nat, offset: nat)
    requires WellFormed(vm) && page < PAGES && offset < FRAME_SIZE && Coherent(vm, store) && Safe(vm, page)
    ensures var r := Translate(vm, policy, store, page, offset).0;
            && r.buffer == (if page in vm.table then vm.buffer else Fetched(store, page, vm.buffer))
            && r.dram == (if page in vm.table then vm.dram
                          else vm.dram[|vm.table| := Fetched(store, page, vm.buffer)])
    ensures Translate(vm, policy, store, page, offset).1
            == Some(Translate(vm, policy, store, page, offset).0.dram[Find(WithPage(vm.table, page), page)][offset])
  {
    SafeResolve(vm, store, page);
  }

  ghost predicate SameMemory(r: Vm, s: Vm) {
    r.table == s.table && r.tableFrames == s.tableFrames && r.faults == s.faults && r.dram == s.dram && r.buffer == s.buffer
  }

  lemma SameStep(r: Vm, s: Vm, p: Policy, q: Policy, store: seq<int>, page: nat, offset: nat)
    requires WellFormed(r) && Coherent(r, store) && Safe(r, page) && Tidy(r, p)
    requires WellFormed(s) && Coherent(s, store) && Safe(s, page) && Tidy(s, q)
    requires page < PAGES && offset < FRAME_SIZE && SameMemory(r, s)
    ensures SameMemory(Translate(r, p, store, page, offset).0, Translate(s, q, store, page, offset).0)
    ensures Translate(r, p, store, page, offset).1 == Translate(s, q, store, page, offset).1
  {
    SafeMemory(r, p, store, page, offset);
    SafeMemory(s, q, store, page, offset);
    SafeState(r, p, store, page, offset);
    SafeState(s, q, store, page, offset);
    SameFrames(Translate(r, p, store, page, offset).0, Translate(s, q, store, page, offset).0);
  }

  lemma SameFrames(r: Vm, s: Vm)
    requires WellFormed(r) && WellFormed(s) && r.table == s.table
    ensures r.tableFrames == s.tableFrames && r.faults == s.faults
  {
  }

  /** Two runs over the same addresses, with whatever policies and buffer sizes, agree on page table, memory,
      fault count and values. */
  lemma {:induction false} PolicyIndependent(one: Vm, two: Vm, p: Policy, q: Policy, store: seq<int>, refs: seq<Location>)
    requires Fresh(one) && Fresh(two) && one.dram == two.dram && one.buffer == two.buffer
    requires SafePages(p, one.tlb.frames, PagesOf(refs)) && SafePages(q, two.tlb.frames, PagesOf(refs))
    ensures SameMemory(Run(one, p, store, refs), Run(two, q, store, refs))
    ensures refs != [] ==>
              ValueAt(one, p, store, Front(refs), Final(refs)) == ValueAt(two, q, store, Front(refs), Final(refs))
  {
    if refs == [] {
    } else {
      SafeBefore(one, p, store, refs);
      SafeBefore(two, q, store, refs);
      PolicyIndependent(one, two, p, q, store, Front(refs));
      SameStep(Run(one, p, store, Front(refs)), Run(two, q, store, Front(refs)), p, q, store,
               Final(refs).page, Final(refs).offset);
    }
  }

  // ----- exactly when translation is transparent -----

  /** Every value of the run is the byte of the store at its address. */
  ghost predicate AllRight(vm: Vm, policy: Policy, store: seq<int>, refs: seq<Location>)
    requires WellFormed(vm) && |store| == PAGES * FRAME_SIZE
  {
    forall i :: 0 <= i < |refs| ==> Values(vm, policy, store, refs)[i] == Some(store[ByteOf(refs[i])])
  }

  /** A store with a single byte that is not 0. */
  function OneByte(at: nat): (store: seq<int>)
    ensures |store| == PAGES * FRAME_SIZE
  {
    seq(PAGES * FRAME_SIZE, i => if i == at then 1 else 0)
  }

  /** Memory holds bytes of page 0 only in its own frame. */
  lemma ZeroMemory(start: Vm, r: Vm, offset: nat, f: nat)
    requires WellFormed(start) && WellFormed(r) && Untouched(start, r) && offset < FRAME_SIZE && f < FRAMES
    requires CoherentMemory(r.table, r.dram, OneByte(offset))
    requires NO_PAGE in r.table ==> f != Find(r.table, NO_PAGE)
    ensures r.dram[f][offset] == 0
  {
    if f < |r.table| {
      assert HoldsPage(r.dram[f], r.table[f], OneByte(offset));
      assert r.table[f] in r.table;
    }
  }

  lemma UnsafeValue(r: Vm, policy: Policy, store: seq<int>, offset: nat)
    requires WellFormed(r) && !Safe(r, NO_PAGE) && offset < FRAME_SIZE
    ensures var frame := r.tlb.frames[Find(r.tlb.pages, NO_PAGE)];
            Translate(r, policy, store, NO_PAGE, offset).1
            == if 0 <= frame < FRAMES then Some(r.dram[frame][offset]) else None
  {
    var frame := r.tlb.frames[Find(r.tlb.pages, NO_PAGE)];
    assert Resolve(r, store, NO_PAGE) == (r.(hits := r.hits + 1), frame);
  }

  /** A lookup of page 0 that is not safe takes an empty slot for a hit, and reads a frame that page 0 is not in. */
  lemma UnsafeReference(vm: Vm, policy: Policy, refs: seq<Location>, offset: nat)
    requires Fresh(vm) && SafePages(policy, vm.tlb.frames, PagesOf(refs)) && offset < FRAME_SIZE
    requires !ZeroFound(policy, vm.tlb.frames, PagesOf(refs))
    ensures Translate(Run(vm, policy, OneByte(offset), refs), policy, OneByte(offset), NO_PAGE, offset).1 != Some(1)
  {
    var store := OneByte(offset);
    var r := Run(vm, policy, store, refs);
    SafeRun(vm, policy, store, refs);
    SafeExactly(vm, policy, store, refs);
    UntouchedAlways(vm, policy, store, refs);
    var frame := r.tlb.frames[Find(r.tlb.pages, NO_PAGE)];
    UnsafeValue(r, policy, store, offset);
    if 0 <= frame < FRAMES { ZeroMemory(vm, r, offset, frame); }
  }

  /** All values are right for every store exactly when page 0 is referenced only where a lookup finds its frame. */
  lemma {:induction false} TransparentExactly(vm: Vm, policy: Policy, refs: seq<Location>)
    requires Fresh(vm)
    ensures (forall store: seq<int> :: |store| == PAGES * FRAME_SIZE ==> AllRight(vm, policy, store, refs))
            <==> SafePages(policy, vm.tlb.frames, PagesOf(refs))
  {
    if SafePages(policy, vm.tlb.frames, PagesOf(refs)) {
      forall store: seq<int> | |store| == PAGES * FRAME_SIZE ensures AllRight(vm, policy, store, refs) {
        SafeValues(vm, policy, store, refs);
      }
    } else {
      var store := WrongStore(vm, policy, refs);
    }
  }

  lemma WrongValue(vm: Vm, policy: Policy, refs: seq<Location>)
    requires Fresh(vm) && refs != [] && SafePages(policy, vm.tlb.frames, PagesOf(Front(refs)))
    requires Final(refs).page == NO_PAGE && !ZeroFound(policy, vm.tlb.frames, PagesOf(Front(refs)))
    ensures !AllRight(vm, policy, OneByte(Final(refs).offset), refs)
  {
    var offset := Final(refs).offset;
    UnsafeReference(vm, policy, Front(refs), offset);
    OneByteAt(offset);
    WrongLast(vm, policy, OneByte(offset), refs);
  }

  lemma OneByteAt(offset: nat)
    requires offset < FRAME_SIZE
    ensures OneByte(offset)[ByteAt(NO_PAGE, offset)] == 1
  {
  }

  lemma WrongLast(vm: Vm, policy: Policy, store: seq<int>, refs: seq<Location>)
    requires WellFormed(vm) && |store| == PAGES * FRAME_SIZE && refs != []
    requires ValueAt(vm, policy, store, Front(refs), Final(refs)) != Some(store[ByteOf(Final(refs))])
    ensures !AllRight(vm, policy, store, refs)
  {
    ValueOf(vm, policy, store, refs, |refs| - 1);
  }

  lemma {:induction false} WrongStore(vm: Vm, policy: Policy, refs: seq<Location>) returns (store: seq<int>)
    requires Fresh(vm) && !SafePages(policy, vm.tlb.frames, PagesOf(refs))
    ensures |store| == PAGES * FRAME_SIZE && !AllRight(vm, policy, store, refs)
  {
    PagesStep(refs);
    if SafePages(policy, vm.tlb.frames, PagesOf(Front(refs))) {
      store := OneByte(Final(refs).offset);
      WrongValue(vm, policy, refs);
    } else {
      store := WrongStore(vm, policy, Front(refs));
      StaysWrong(vm, policy, store, refs);
    }
  }

  lemma StaysWrong(vm: Vm, policy: Policy, store: seq<int>, refs: seq<Location>)
    requires WellFormed(vm) && |store| == PAGES * FRAME_SIZE && refs != []
    requires !AllRight(vm, policy, store, Front(refs))
    ensures !AllRight(vm, policy, store, refs)
  {
  }
}
