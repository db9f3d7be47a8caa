/** The tables of PracticumV2/main.c as arrays updated in place, with the two insert policies of the buffer. */
module VmTables {
  import opened Sequences
  import opened Tlb

  class VmTable {
    const length: nat
    const pageNumArr: array<int>
    const frameNumArr: array<int>
    const entryAgeArr: array<int>
    var pageFaultCount: nat
    var tlbHitCount: nat
    var tlbMissCount: nat

    ghost predicate Valid()
      reads this
    {
      && 0 < length == pageNumArr.Length == frameNumArr.Length == entryAgeArr.Length
      && pageNumArr != frameNumArr && pageNumArr != entryAgeArr && frameNumArr != entryAgeArr
    }

    ghost function Content(): (t: Table)
      requires Valid()
      reads this, pageNumArr, frameNumArr, entryAgeArr
      ensures Sized(t) && |t.pages| == length
    {
      Table(pageNumArr[..], frameNumArr[..], entryAgeArr[..])
    }

    /** createVMtable: only the page numbers are cleared. */
    constructor (length: nat)
      requires length > 0
      ensures Valid() && this.length == length && fresh(pageNumArr) && fresh(frameNumArr) && fresh(entryAgeArr)
      ensures forall i :: 0 <= i < length ==> pageNumArr[i] == NO_PAGE
      ensures pageFaultCount == tlbHitCount == tlbMissCount == 0
    {
      this.length := length;
      pageNumArr := new int[length](_ => NO_PAGE);
      frameNumArr := new int[length];
      entryAgeArr := new int[length];
      pageFaultCount, tlbHitCount, tlbMissCount := 0, 0, 0;
    }

    /** The first of the first `limit` entries that holds `page`, or `limit`. */
    method Search(page: int, limit: nat) returns (i: nat)
      requires Valid() && limit <= length
      ensures i == Find(pageNumArr[..limit], page)
    {
      i := 0;
      while i < limit && pageNumArr[i] != page
        invariant i <= limit && page !in pageNumArr[..i]
      {
        i := i + 1;
      }
      FindUnique(pageNumArr[..limit], page, i);
    }

    /** Moves the entries after `i` and before `k` down by one. */
    method ShiftEntries(i: nat, k: nat)
      requires Valid() && i < k <= length
      modifies pageNumArr, frameNumArr
      ensures pageNumArr[..] == Shifted(old(pageNumArr[..]), i, k)
      ensures frameNumArr[..] == Shifted(old(frameNumArr[..]), i, k)
    {
      ghost var p, f := pageNumArr[..], frameNumArr[..];
      for j := i to k - 1
        invariant forall m {:trigger pageNumArr[m]} :: i <= m < j ==> pageNumArr[m] == p[m + 1]
        invariant forall m {:trigger pageNumArr[m]} :: 0 <= m < i || j <= m < length ==> pageNumArr[m] == p[m]
        invariant forall m {:trigger frameNumArr[m]} :: i <= m < j ==> frameNumArr[m] == f[m + 1]
        invariant forall m {:trigger frameNumArr[m]} :: 0 <= m < i || j <= m < length ==> frameNumArr[m] == f[m]
      {
        pageNumArr[j] := pageNumArr[j + 1];
        frameNumArr[j] := frameNumArr[j + 1];
      }
      forall m | 0 <= m < length
        ensures pageNumArr[m] == Shifted(p, i, k)[m] && frameNumArr[m] == Shifted(f, i, k)[m]
      {
        ShiftedEntry(p, i, k, m);
        ShiftedEntry(f, i, k, m);
      }
    }

    /** Puts an entry into slot `i`. */
    method Put(i: nat, page: int, frame: int)
      requires Valid() && i < length
      modifies pageNumArr, frameNumArr
      ensures pageNumArr[..] == old(pageNumArr[..])[i := page]
      ensures frameNumArr[..] == old(frameNumArr[..])[i := frame]
    {
      pageNumArr[i] := page;
      frameNumArr[i] := frame;
    }

    /** tlbFIFOinsert; `next` is nextTLBentry. */
    method InsertFifo(next: nat, page: int, frame: int) returns (next': nat)
      requires Valid() && next <= length
      modifies pageNumArr, frameNumArr
      ensures Content() == FifoInsert(old(Content()), next, page, frame)
      ensures next' == FifoNext(next, length)
    {
      var i := Search(page, next);
      if i == next {
        if next < length {
          Put(next, page, frame);
        } else {
          Put(next - 1, page, frame);
          ShiftEntries(0, length);
        }
      } else {
        ShiftEntries(i, next);
        Put(if next < length then next else next - 1, page, frame);
      }
      next' := next;
      if next < length {
        next' := next + 1;
      }
    }

    /** getOldestEntry: the first of the oldest entries. */
    method GetOldestEntry() returns (index: nat)
      requires Valid()
      ensures index == Oldest(entryAgeArr[..])
    {
      var max := entryAgeArr[0];
      index := 0;
      for i := 1 to length
        invariant index < i && max == entryAgeArr[index]
        invariant index == Oldest(entryAgeArr[..i])
      {
        assert entryAgeArr[..i + 1][..i] == entryAgeArr[..i];
        if entryAgeArr[i] > max {
          index := i;
          max := entryAgeArr[i];
        }
      }
      assert entryAgeArr[..length] == entryAgeArr[..];
    }

    /** The pass of tlbLRUinsert over the table: entries age, and the slot to use is looked for. */
    method AgeEntries(page: int) returns (alreadyThere: bool, freeSpotFound: bool, replaceIndex: int)
      requires Valid()
      modifies entryAgeArr
      ensures entryAgeArr[..] == Aged(old(Content()), page)
      ensures alreadyThere == (page in pageNumArr[..])
      ensures freeSpotFound == (page != NO_PAGE && NO_PAGE in pageNumArr[..])
      ensures freeSpotFound ==> replaceIndex == Find(pageNumArr[..], NO_PAGE)
    {
      ghost var t := Content();
      alreadyThere, freeSpotFound, replaceIndex := false, false, -1;
      for i := 0 to length
        invariant forall j :: 0 <= j < length ==> entryAgeArr[j] == if j < i then Aged(t, page)[j] else t.ages[j]
        invariant alreadyThere == (Find(t.pages, page) < i)
        invariant freeSpotFound == (page != NO_PAGE && Find(t.pages, NO_PAGE) < i)
        invariant freeSpotFound ==> replaceIndex == Find(t.pages, NO_PAGE)
      {
        FindBy(t.pages, page, i);
        FindBy(t.pages, NO_PAGE, i);
        if pageNumArr[i] != page && pageNumArr[i] != NO_PAGE {
          entryAgeArr[i] := entryAgeArr[i] + 1;
        } else if pageNumArr[i] != page && pageNumArr[i] == NO_PAGE {
          if !freeSpotFound {
            replaceIndex := i;
            freeSpotFound := true;
          }
        } else if pageNumArr[i] == page {
          if !alreadyThere {
            entryAgeArr[i] := 0;
            alreadyThere := true;
          }
        }
      }
    }

    /** tlbLRUinsert. */
    method InsertLru(page: int, frame: int)
      requires Valid()
      modifies pageNumArr, frameNumArr, entryAgeArr
      ensures Content() == LruInsert(old(Content()), page, frame)
    {
      var alreadyThere, freeSpotFound, replaceIndex := AgeEntries(page);
      if alreadyThere {
        return;
      }
      if !freeSpotFound {
        replaceIndex := GetOldestEntry();
      }
      Put(replaceIndex, page, frame);
      entryAgeArr[replaceIndex] := 0;
    }
  }

  lemma FindBy(s: seq<int>, x: int, i: nat)
    requires i < |s|
    ensures Find(s, x) <= i <==> Find(s, x) < i || s[i] == x
    ensures Find(s, x) >= i && s[i] == x ==> Find(s, x) == i
  {
  }
}
