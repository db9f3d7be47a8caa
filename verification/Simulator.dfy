/** translateAddress, readFromStore and the reference loop of PracticumV2/main.c, over tables updated in place. */
module Simulator {
  import opened Sequences
  import opened Tlb
  import opened VmTables
  import opened Translator
  import opened TranslatorRuns

  class Machine {
    const policy: Policy
    const store: seq<int>
    const tlbTable: VmTable
    const pageTable: VmTable
    const dram: array2<int>
    const fileReadBuffer: array<int>
    var nextTLBentry: nat
    var nextPage: nat
    var nextFrame: nat
    ghost var written: nat

    ghost function Repr(): set<object>
      reads this
    {
      {this, tlbTable, tlbTable.pageNumArr, tlbTable.frameNumArr, tlbTable.entryAgeArr,
       pageTable, pageTable.pageNumArr, pageTable.frameNumArr, dram, fileReadBuffer}
    }

    /** All the parts are there and none is used twice. */
    ghost predicate Apart()
      reads this, tlbTable, pageTable
    {
      && tlbTable != pageTable && tlbTable.Valid() && pageTable.Valid()
      && pageTable.length == PAGES && fileReadBuffer.Length == FRAME_SIZE
      && dram.Length0 == FRAMES && dram.Length1 == FRAME_SIZE
      && {tlbTable.pageNumArr, tlbTable.frameNumArr, tlbTable.entryAgeArr}
         !! {pageTable.pageNumArr, pageTable.frameNumArr, fileReadBuffer}
      && pageTable.pageNumArr != fileReadBuffer && pageTable.frameNumArr != fileReadBuffer
      && nextPage == nextFrame == pageTable.pageFaultCount <= PAGES
    }

    ghost function Row(f: nat): seq<int>
      requires f < dram.Length0
      reads dram
    {
      seq(dram.Length1, o requires 0 <= o < dram.Length1 reads dram => dram[f, o])
    }

    ghost function Memory(): seq<seq<int>>
      reads dram
    {
      seq(dram.Length0, f requires 0 <= f < dram.Length0 reads dram => Row(f))
    }

    ghost function State(): Vm
      requires Apart()
      reads this, tlbTable, pageTable, Repr()
    {
      Vm(tlbTable.Content(), nextTLBentry, written, pageTable.pageNumArr[..nextPage], pageTable.frameNumArr[..nextPage],
         Memory(), fileReadBuffer[..], tlbTable.tlbHitCount, tlbTable.tlbMissCount, pageTable.pageFaultCount)
    }

    ghost predicate Valid()
      reads this, tlbTable, pageTable, Repr()
    {
      Apart() && WellFormed(State())
    }

    constructor (policy: Policy, store: seq<int>, tlbSize: nat)
      requires tlbSize > 0
      ensures Valid() && Fresh(State()) && this.policy == policy && this.store == store
      ensures tlbTable.length == tlbSize
    {
      this.policy, this.store := policy, store;
      tlbTable := new VmTable(tlbSize);
      pageTable := new VmTable(PAGES);
      dram := new int[FRAMES, FRAME_SIZE]((f, o) => 0);
      fileReadBuffer := new int[FRAME_SIZE](_ => 0);
      nextTLBentry, nextPage, nextFrame, written := 0, 0, 0, 0;
    }

    /** readFromStore, with the counting of the fault in translateAddress. */
    method FaultIn(page: nat)
      requires Valid() && page < PAGES && page !in State().table
      modifies this`nextPage, this`nextFrame, pageTable`pageFaultCount,
               pageTable.pageNumArr, pageTable.frameNumArr, dram, fileReadBuffer
      ensures Valid() && State() == ReadFromStore(old(State()), store, page)
    {
      ghost var before := State();
      RoomForPage(before.table, page, PAGES);
      pageTable.pageFaultCount := pageTable.pageFaultCount + 1;
      Fread(page);
      LoadFrame(nextFrame);
      pageTable.Put(nextPage, page, nextFrame);
      nextFrame := nextFrame + 1;
      nextPage := nextPage + 1;
      assert State() == ReadFromStore(before, store, page);
    }

    /** fread: as many bytes of the page as the store has; the rest of the buffer is left as it was. */
    method Fread(page: nat)
      requires fileReadBuffer.Length == FRAME_SIZE
      modifies fileReadBuffer
      ensures fileReadBuffer[..] == Fetched(store, page, old(fileReadBuffer[..]))
    {
      for i := 0 to FRAME_SIZE
        invariant forall j :: 0 <= j < i ==> fileReadBuffer[j] == Fetched(store, page, old(fileReadBuffer[..]))[j]
        invariant forall j :: i <= j < FRAME_SIZE ==> fileReadBuffer[j] == old(fileReadBuffer[j])
      {
        if ByteAt(page, i) < |store| {
          fileReadBuffer[i] := store[ByteAt(page, i)];
        }
      }
    }

    /** Copies the file buffer into a frame. */
    method LoadFrame(f: nat)
      requires f < dram.Length0 && dram.Length1 == fileReadBuffer.Length
      modifies dram
      ensures Memory() == old(Memory())[f := fileReadBuffer[..]]
    {
      for i := 0 to dram.Length1
        invariant forall o :: 0 <= o < i ==> dram[f, o] == fileReadBuffer[o]
        invariant forall g, o :: 0 <= g < dram.Length0 && 0 <= o < dram.Length1 && g != f ==> dram[g, o] == old(dram[g, o])
      {
        dram[f, i] := fileReadBuffer[i];
      }
      assert Row(f) == fileReadBuffer[..];
      forall g | 0 <= g < dram.Length0 && g != f ensures Row(g) == old(Row(g)) {
      }
    }

    /** The first half of translateAddress: the frame of a page. */
    method Lookup(page: nat) returns (frame: int)
      requires Valid() && page < PAGES
      modifies this`nextPage, this`nextFrame, tlbTable`tlbHitCount, tlbTable`tlbMissCount, pageTable`pageFaultCount,
               pageTable.pageNumArr, pageTable.frameNumArr, dram, fileReadBuffer
      ensures Valid() && (State(), frame) == Resolve(old(State()), store, page)
    {
      ghost var before := State();
      frame := SearchBuffer(page);
      ghost var searched := State();
      if frame == -1 {
        frame := WalkPageTable(page);
      }
      ghost var after := State();
      assert (after, frame) == Resolve(before, store, page);
    }

    method SearchBuffer(page: nat) returns (frame: int)
      requires Valid()
      modifies tlbTable`tlbHitCount
      ensures Valid()
      ensures var t := old(State()).tlb;
              && frame == (if page in t.pages then t.frames[Find(t.pages, page)] else -1)
              && State() == old(State()).(hits := if page in t.pages then old(State()).hits + 1 else old(State()).hits)
    {
      frame := -1;
      var i := tlbTable.Search(page, tlbTable.length);
      assert tlbTable.pageNumArr[..tlbTable.length] == tlbTable.pageNumArr[..];
      if i < tlbTable.length {
        frame := tlbTable.frameNumArr[i];
        tlbTable.tlbHitCount := tlbTable.tlbHitCount + 1;
      }
    }

    /** The walk of the page table after a miss, and the fault if the page is not there. */
    method WalkPageTable(page: nat) returns (frame: int)
      requires Valid() && page < PAGES
      modifies this`nextPage, this`nextFrame, tlbTable`tlbMissCount, pageTable`pageFaultCount,
               pageTable.pageNumArr, pageTable.frameNumArr, dram, fileReadBuffer
      ensures Valid()
      ensures var missed := old(State()).(misses := old(State()).misses + 1);
              && (page in missed.table ==> State() == missed && frame == missed.tableFrames[Find(missed.table, page)])
              && (page !in missed.table ==> State() == ReadFromStore(missed, store, page) && frame == |missed.table|)
    {
      tlbTable.tlbMissCount := tlbTable.tlbMissCount + 1;
      frame := -1;
      var k := pageTable.Search(page, nextPage);
      if k < nextPage {
        frame := pageTable.frameNumArr[k];
        assert frame == State().tableFrames[k];
      }
      if frame == -1 {
        FaultIn(page);
        frame := nextFrame - 1;
      }
    }

    /** The second half: the buffer takes the pair in, by the policy chosen. */
    method Remember(page: nat, frame: int)
      requires Valid()
      modifies this`nextTLBentry, this`written, tlbTable.pageNumArr, tlbTable.frameNumArr, tlbTable.entryAgeArr
      ensures Valid() && State() == Insert(old(State()), policy, page, frame)
    {
      ghost var t := tlbTable.Content();
      if policy == Fifo {
        nextTLBentry := tlbTable.InsertFifo(nextTLBentry, page, frame);
        written := nextTLBentry;
      } else {
        tlbTable.InsertLru(page, frame);
        written := LruWritten(t, page, written);
      }
    }

    /** translateAddress. The frame number of an empty slot may be no index into memory: then there is no value. */
    method TranslateAddress(page: nat, offset: nat) returns (value: Option<int>)
      requires Valid() && page < PAGES && offset < FRAME_SIZE
      modifies Repr()
      ensures Valid() && (State(), value) == Translate(old(State()), policy, store, page, offset)
    {
      var frame := Lookup(page);
      Remember(page, frame);
      if 0 <= frame < FRAMES {
        assert State().dram[frame][offset] == dram[frame, offset];
        value := Some(dram[frame, offset]);
      } else {
        value := None;
      }
    }

    /** The reference loop of main. Where page 0 is used safely, every value is the byte of the store. */
    method TranslateAll(addresses: seq<Address>) returns (values: seq<Option<int>>)
      requires Valid() && Fresh(State())
      modifies Repr()
      ensures Valid() && State() == Run(old(State()), policy, store, Locations(addresses))
      ensures |values| == |addresses|
      ensures SafePages(policy, old(State()).tlb.frames, PagesOf(Locations(addresses))) ==>
                forall i :: 0 <= i < |addresses| && (addresses[i] & 0xFFFF) as int < |store| ==>
                  values[i] == Some(store[(addresses[i] & 0xFFFF) as int])
    {
      ghost var start, refs := State(), Locations(addresses);
      values := TranslateEach(addresses);
      if SafePages(policy, start.tlb.frames, PagesOf(refs)) {
        SafeValues(start, policy, store, refs);
        forall i | 0 <= i < |addresses| ensures ByteOf(refs[i]) == (addresses[i] & 0xFFFF) as int {
          AddressSplit(addresses[i]);
        }
      }
    }

    method TranslateEach(addresses: seq<Address>) returns (values: seq<Option<int>>)
      requires Valid()
      modifies Repr()
      ensures Valid() && State() == Run(old(State()), policy, store, Locations(addresses))
      ensures values == Values(old(State()), policy, store, Locations(addresses))
    {
      values := [];
      ghost var start, refs := State(), Locations(addresses);
      for i := 0 to |addresses|
        invariant Valid() && State() == Run(start, policy, store, refs[..i])
        invariant values == Values(start, policy, store, refs[..i])
      {
        RunStep(start, policy, store, refs, i);
        var value := TranslateAddress(Page(addresses[i]), Offset(addresses[i]));
        values := values + [value];
      }
      assert refs[..|addresses|] == refs;
    }
  }

  lemma RunStep(start: Vm, policy: Policy, store: seq<int>, refs: seq<Location>, i: nat)
    requires WellFormed(start) && i < |refs|
    ensures var r := Translate(Run(start, policy, store, refs[..i]), policy, store, refs[i].page, refs[i].offset);
            && Run(start, policy, store, refs[..i + 1]) == r.0
            && Values(start, policy, store, refs[..i + 1]) == Values(start, policy, store, refs[..i]) + [r.1]
  {
    assert refs[..i + 1][..i] == refs[..i];
  }
}
