/**
 First-in first-out page replacement over a ring of `k` frames
 (Practicum/pagereplacement.c, with MAX_FRAMES generalised to `k`).
 */
module FifoPaging {
  import opened Sequences
  import opened Competitive

  const EMPTY := -1

  // ----- specification: the history of loaded pages -----

  /** The frame that takes load number `n`: `n` modulo the ring size, by going round. */
  function Slot(n: nat, k: nat): (j: nat)
    requires k > 0
    ensures j < k
  {
    if n < k then n else Slot(n - k, k)
  }

  /** Frame `j` holds the latest load whose slot is `j`. */
  function Ring(loads: seq<int>, k: nat): (frames: seq<int>)
    requires k > 0
    ensures |frames| == k
  {
    if loads == [] then seq(k, _ => EMPTY) else
      Ring(loads[..|loads| - 1], k)[Slot(|loads| - 1, k) := loads[|loads| - 1]]
  }

  /** The pages that fault, in order. */
  function Loads(refs: seq<int>, k: nat): (loads: seq<int>)
    requires k > 0
    ensures |loads| <= |refs|
  {
    if refs == [] then [] else
      var before := Loads(refs[..|refs| - 1], k);
      var page := refs[|refs| - 1];
      if page in Ring(before, k) then before else before + [page]
  }

  /** The last `k` elements of `s`, or all of it. */
  function Last(s: seq<int>, k: nat): seq<int> {
    s[if |s| <= k then 0 else |s| - k..]
  }

  // ----- the program -----

  method Advance(index: nat, k: nat) returns (next: nat)
    requires index < k
    ensures next == if index + 1 == k then 0 else index + 1
  {
    next := (index + 1) % k;
  }

  method Simulate(refs: seq<int>, k: nat) returns (pageTable: array<int>, numFaults: nat, oldest: nat)
    requires k > 0
    ensures numFaults == |Loads(refs, k)|
    ensures pageTable[..] == Ring(Loads(refs, k), k)
    ensures oldest == numFaults % k
  {
    pageTable, numFaults, oldest := ServeAll(refs, k);
    SlotIsRemainder(numFaults, k);
  }

  /** The loop over the references. */
  method ServeAll(refs: seq<int>, k: nat) returns (pageTable: array<int>, numFaults: nat, oldest: nat)
    requires k > 0
    ensures numFaults == |Loads(refs, k)|
    ensures pageTable[..] == Ring(Loads(refs, k), k)
    ensures oldest == Slot(numFaults, k)
  {
    pageTable := new int[k](_ => EMPTY);
    numFaults, oldest := 0, 0;
    ghost var loads := [];
    for i := 0 to |refs|
      invariant loads == Loads(refs[..i], k)
      invariant pageTable.Length == k && InStep(pageTable[..], numFaults, oldest, loads)
    {
      ServeOne(refs, k, i, loads);
      numFaults, oldest, loads := Serve(pageTable, oldest, numFaults, refs[i], loads);
    }
    assert refs[..|refs|] == refs;
  }

  /** The program's variables agree with the history of loads. */
  ghost predicate InStep(frames: seq<int>, numFaults: nat, oldest: nat, loads: seq<int>)
    requires frames != []
  {
    numFaults == |loads| && frames == Ring(loads, |frames|) && oldest == Slot(numFaults, |frames|)
  }

  /** Serves one reference: on a fault the oldest page gives up its frame. */
  method Serve(pageTable: array<int>, oldest: nat, numFaults: nat, page: int, ghost loads: seq<int>)
    returns (numFaults': nat, oldest': nat, ghost loads': seq<int>)
    requires pageTable.Length > 0 && InStep(pageTable[..], numFaults, oldest, loads)
    modifies pageTable
    ensures loads' == if page in Ring(loads, pageTable.Length) then loads else loads + [page]
    ensures InStep(pageTable[..], numFaults', oldest', loads')
  {
    var pageIndex := Search(pageTable, page);
    numFaults', oldest', loads' := numFaults, oldest, loads;
    if pageIndex == -1 {
      LoadOne(loads, page, pageTable.Length);
      pageTable[oldest] := page;
      numFaults' := numFaults + 1;
      oldest' := Advance(oldest, pageTable.Length);
      loads' := loads + [page];
    }
  }

  method Search(pageTable: array<int>, page: int) returns (pageIndex: int)
    ensures pageIndex == -1 <==> page !in pageTable[..]
    ensures pageIndex != -1 ==> 0 <= pageIndex < pageTable.Length && pageTable[pageIndex] == page
  {
    pageIndex := -1;
    for j := 0 to pageTable.Length
      invariant page !in pageTable[..j]
    {
      if pageTable[j] == page {
        return j;
      }
    }
  }

  /** What serving one more reference does to the history. */
  lemma ServeOne(refs: seq<int>, k: nat, i: nat, loads: seq<int>)
    requires k > 0 && i < |refs| && loads == Loads(refs[..i], k)
    ensures Loads(refs[..i + 1], k) == if refs[i] in Ring(loads, k) then loads else loads + [refs[i]]
  {
    assert refs[..i + 1][..i] == refs[..i];
  }

  lemma LoadOne(loads: seq<int>, page: int, k: nat)
    requires k > 0
    ensures Ring(loads + [page], k) == Ring(loads, k)[Slot(|loads|, k) := page]
    ensures Slot(|loads| + 1, k) == if Slot(|loads|, k) + 1 == k then 0 else Slot(|loads|, k) + 1
  {
    assert (loads + [page])[..|loads|] == loads;
    NextSlot(|loads|, k);
  }

  lemma RemainderOfTurn(n: nat, k: nat, q: nat, r: nat, q': nat, r': nat)
    requires k > 0 && r < k && r' < k
    requires n - k == q * k + r && n == q' * k + r'
    ensures r == r'
  {
    var d := q' - q - 1;
    assert d * k == r - r';
    assert d >= 1 ==> (d - 1) * k >= 0;
    assert d <= -1 ==> (-1 - d) * k >= 0;
  }

  lemma {:induction false} SlotIsRemainder(n: nat, k: nat)
    requires k > 0
    ensures Slot(n, k) == n % k
  {
    if n >= k {
      SlotIsRemainder(n - k, k);
      RemainderOfTurn(n, k, (n - k) / k, (n - k) % k, n / k, n % k);
    }
  }

  lemma {:induction false} NextSlot(n: nat, k: nat)
    requires k > 0
    ensures Slot(n + 1, k) == if Slot(n, k) + 1 == k then 0 else Slot(n, k) + 1
  {
    if n >= k {
      NextSlot(n - k, k);
    }
  }

  /** Two loads less than a full turn apart take different frames; a full turn apart, the same. */
  lemma {:induction false} SlotsApart(i: nat, n: nat, k: nat)
    requires k > 0 && i < n <= i + k
    ensures Slot(i, k) == Slot(n, k) <==> n == i + k
  {
    if i >= k {
      SlotsApart(i - k, n - k, k);
    }
  }

  // ----- the ring is a queue -----

  /** The load at position `i` stays in its frame until `k` more pages have been loaded. */
  lemma {:induction false} RingKeeps(loads: seq<int>, k: nat, i: nat)
    requires k > 0 && i < |loads| <= i + k
    ensures Ring(loads, k)[Slot(i, k)] == loads[i]
  {
    var n := |loads| - 1;
    if i < n {
      RingKeeps(loads[..n], k, i);
      SlotsApart(i, n, k);
    }
  }

  /** Every frame is empty or holds one of the last `k` loads. */
  lemma {:induction false} RingHolds(loads: seq<int>, k: nat, j: nat)
    requires k > 0 && j < k
    ensures |loads| <= j ==> Ring(loads, k)[j] == EMPTY
    ensures |loads| > j ==> exists i :: 0 <= i < |loads| <= i + k && Slot(i, k) == j && Ring(loads, k)[j] == loads[i]
  {
    if loads == [] {
    } else {
      var n := |loads| - 1;
      if |loads| <= j {
        RingHolds(loads[..n], k, j);
      } else if Slot(n, k) == j {
        assert 0 <= n < |loads| <= n + k && Slot(n, k) == j && Ring(loads, k)[j] == loads[n];
      } else {
        RingHolds(loads[..n], k, j);
        var i :| 0 <= i < n <= i + k && Slot(i, k) == j && Ring(loads[..n], k)[j] == loads[..n][i];
        SlotsApart(i, n, k);
        assert 0 <= i < |loads| <= i + k && Slot(i, k) == j && Ring(loads, k)[j] == loads[i];
      }
    }
  }

  /** A page other than the empty marker is resident exactly when it is among the last `k` loads. */
  lemma Resident(loads: seq<int>, k: nat, page: int)
    requires k > 0
    ensures page in Last(loads, k) ==> page in Ring(loads, k)
    ensures page in Ring(loads, k) && (page != EMPTY || |loads| >= k) ==> page in Last(loads, k)
  {
    var from := if |loads| <= k then 0 else |loads| - k;
    if page in Last(loads, k) {
      var i :| 0 <= i < |Last(loads, k)| && Last(loads, k)[i] == page;
      RingKeeps(loads, k, from + i);
    }
    if page in Ring(loads, k) && (page != EMPTY || |loads| >= k) {
      var j :| 0 <= j < k && Ring(loads, k)[j] == page;
      RingHolds(loads, k, j);
      var i :| 0 <= i < |loads| <= i + k && Slot(i, k) == j && Ring(loads, k)[j] == loads[i];
      assert Last(loads, k)[i - from] == page;
    }
  }

  /** Any `k + 1` consecutive faults load pairwise distinct pages. */
  lemma {:induction false} ConsecutiveLoadsDistinct(refs: seq<int>, k: nat, i: nat, j: nat)
    requires k > 0 && i < j < |Loads(refs, k)| && j <= i + k
    ensures Loads(refs, k)[i] != Loads(refs, k)[j]
  {
    var front := refs[..|refs| - 1];
    var before := Loads(front, k);
    if j < |before| {
      ConsecutiveLoadsDistinct(front, k, i, j);
    } else {
      RingKeeps(before, k, i);
    }
  }

  /** The marker is no page: a reference nobody made before faults unless it looks like an empty frame. */
  lemma FirstReferenceFaults(refs: seq<int>, page: int, k: nat)
    requires k > 0 && page !in refs
    ensures page !in Ring(Loads(refs, k), k) <==> page != EMPTY || |Loads(refs, k)| >= k
  {
    var loads := Loads(refs, k);
    Resident(loads, k, page);
    if page in Last(loads, k) {
      var i :| 0 <= i < |loads| && loads[i] == page;
      LoadsAreReferenced(refs, k, i);
    }
    if |loads| < k {
      RingHolds(loads, k, k - 1);
    }
  }

  /** The resident pages are distinct, so no page ever occupies two frames. */
  lemma ResidentDistinct(refs: seq<int>, k: nat, a: nat, b: nat)
    requires k > 0 && a < b < k
    requires Ring(Loads(refs, k), k)[a] == Ring(Loads(refs, k), k)[b]
    ensures Ring(Loads(refs, k), k)[b] == EMPTY
    ensures EMPTY !in refs ==> |Loads(refs, k)| <= a
  {
    var loads := Loads(refs, k);
    if |loads| > a {
      var i := LoadIn(loads, k, a);
      LoadsAreReferenced(refs, k, i);
      if |loads| > b {
        var j := LoadIn(loads, k, b);
        if i < j { ConsecutiveLoadsDistinct(refs, k, i, j); } else { ConsecutiveLoadsDistinct(refs, k, j, i); }
        assert false;
      }
    }
    RingHolds(loads, k, b);
  }

  lemma LoadIn(loads: seq<int>, k: nat, j: nat) returns (i: nat)
    requires k > 0 && j < k && |loads| > j
    ensures i < |loads| <= i + k && Slot(i, k) == j && Ring(loads, k)[j] == loads[i]
  {
    RingHolds(loads, k, j);
    i :| 0 <= i < |loads| <= i + k && Slot(i, k) == j && Ring(loads, k)[j] == loads[i];
  }

  lemma {:induction false} LoadsAreReferenced(refs: seq<int>, k: nat, i: nat)
    requires k > 0 && i < |Loads(refs, k)|
    ensures Loads(refs, k)[i] in refs
  {
    var front := refs[..|refs| - 1];
    assert refs == front + [refs[|refs| - 1]];
    if i < |Loads(front, k)| { LoadsAreReferenced(front, k, i); }
  }

  // ----- competitiveness -----

  /** The pages FIFO itself keeps in memory, before the first reference and after each one. */
  ghost function FifoCaches(refs: seq<int>, k: nat): (caches: seq<set<int>>)
    requires k > 0
    ensures |caches| == |refs| + 1
    ensures caches[|refs|] == Elems(Last(Loads(refs, k), k))
  {
    if refs == [] then [{}] else FifoCaches(refs[..|refs| - 1], k) + [Elems(Last(Loads(refs, k), k))]
  }

  /** FIFO is itself a schedule, and its faults are that schedule's cost. */
  lemma {:induction false} FifoIsSchedule(refs: seq<int>, k: nat)
    requires k > 0 && EMPTY !in refs
    ensures Schedule(refs, FifoCaches(refs, k), k)
    ensures Cost(FifoCaches(refs, k)) == |Loads(refs, k)|
  {
    if refs == [] {
    } else {
      var n := |refs| - 1;
      assert refs == refs[..n] + [refs[n]];
      FifoIsSchedule(refs[..n], k);
      assert FifoCaches(refs, k)[..n + 1] == FifoCaches(refs[..n], k);
      FifoCacheStep(refs, k);
    }
  }

  /** One reference changes FIFO's memory by the page it loads, if any. */
  lemma FifoCacheStep(refs: seq<int>, k: nat)
    requires k > 0 && refs != [] && EMPTY !in refs
    ensures refs[|refs| - 1] in Elems(Last(Loads(refs, k), k)) && |Elems(Last(Loads(refs, k), k))| <= k
    ensures |Elems(Last(Loads(refs, k), k)) - Elems(Last(Loads(refs[..|refs| - 1], k), k))|
            == |Loads(refs, k)| - |Loads(refs[..|refs| - 1], k)|
  {
    var page := refs[|refs| - 1];
    var before, loads := Loads(refs[..|refs| - 1], k), Loads(refs, k);
    Resident(before, k, page);
    LastDistinct(refs, k);
    DistinctCardinality(Last(loads, k));
    if loads == before {
      assert Elems(Last(loads, k)) - Elems(Last(before, k)) == {};
    } else {
      LastAppend(before, page, k);
    }
  }

  lemma LastAppend(s: seq<int>, x: int, k: nat)
    requires k > 0
    ensures x in Elems(Last(s + [x], k))
    ensures x !in Elems(Last(s, k)) ==> Elems(Last(s + [x], k)) - Elems(Last(s, k)) == {x}
  {
    var now := Last(s + [x], k);
    assert now[|now| - 1] == x;
    assert forall i :: 0 <= i < |now| - 1 ==> now[i] in Last(s, k);
  }

  lemma WindowDistinct(refs: seq<int>, k: nat, from: nat, to: nat)
    requires k > 0 && from <= to <= |Loads(refs, k)| && to <= from + k + 1
    ensures Distinct(Loads(refs, k)[from..to]) && |Elems(Loads(refs, k)[from..to])| == to - from
  {
    var window := Loads(refs, k)[from..to];
    forall i, j | 0 <= i < j < |window| ensures window[i] != window[j] {
      ConsecutiveLoadsDistinct(refs, k, from + i, from + j);
    }
    DistinctCardinality(window);
  }

  lemma LastDistinct(refs: seq<int>, k: nat)
    requires k > 0
    ensures Distinct(Last(Loads(refs, k), k))
  {
    var m := |Loads(refs, k)|;
    WindowDistinct(refs, k, if m <= k then 0 else m - k, m);
    LastSlice(Loads(refs, k), k);
  }

  lemma LastSlice(s: seq<int>, k: nat)
    ensures Last(s, k) == s[if |s| <= k then 0 else |s| - k..|s|]
  {
  }

  /** Which references fault. */
  ghost function FifoFaults(refs: seq<int>, k: nat): (faults: seq<bool>)
    requires k > 0
    ensures |faults| == |refs|
  {
    if refs == [] then [] else
      FifoFaults(refs[..|refs| - 1], k) + [refs[|refs| - 1] !in Ring(Loads(refs[..|refs| - 1], k), k)]
  }

  /** From reference `s` on, the faults load pages that are referenced there, one each. */
  ghost predicate LoadedFrom(refs: seq<int>, k: nat, s: nat)
    requires k > 0 && s <= |refs|
  {
    var loads, from := Loads(refs, k), |Loads(refs[..s], k)|;
    && |loads| == from + Count(FifoFaults(refs, k)[s..])
    && Elems(loads[from..]) <= Elems(refs[s..])
  }

  lemma {:induction false} LoadsBetween(refs: seq<int>, k: nat, s: nat)
    requires k > 0 && s <= |refs|
    ensures LoadedFrom(refs, k, s)
  {
    if s == |refs| {
      LoadedAtOnce(refs, k);
    } else {
      var before, page := refs[..|refs| - 1], refs[|refs| - 1];
      assert refs == before + [page];
      LoadsBetween(before, k, s);
      LoadedStep(before, k, s, page);
    }
  }

  lemma LoadedAtOnce(refs: seq<int>, k: nat)
    requires k > 0
    ensures LoadedFrom(refs, k, |refs|)
  {
    assert refs[..|refs|] == refs;
    assert Loads(refs, k)[|Loads(refs, k)|..] == [] && FifoFaults(refs, k)[|refs|..] == [];
  }

  lemma LoadedStep(refs: seq<int>, k: nat, s: nat, page: int)
    requires k > 0 && s <= |refs| && LoadedFrom(refs, k, s)
    ensures LoadedFrom(refs + [page], k, s)
  {
    assert (refs + [page])[..s] == refs[..s];
    assert (refs + [page])[s..] == refs[s..] + [page];
    OneMoreFault(refs, k, s, page);
    LoadedAfter(Loads(refs, k), Loads(refs + [page], k), |Loads(refs[..s], k)|, refs[s..], page);
  }

  lemma OneMoreFault(refs: seq<int>, k: nat, s: nat, page: int)
    requires k > 0 && s <= |refs|
    ensures |Loads(refs + [page], k)| - Count(FifoFaults(refs + [page], k)[s..])
            == |Loads(refs, k)| - Count(FifoFaults(refs, k)[s..])
    ensures Loads(refs + [page], k) == Loads(refs, k) || Loads(refs + [page], k) == Loads(refs, k) + [page]
  {
    var fault := page !in Ring(Loads(refs, k), k);
    assert (refs + [page])[..|refs|] == refs;
    assert (FifoFaults(refs, k) + [fault])[s..] == FifoFaults(refs, k)[s..] + [fault];
    CountAppend(FifoFaults(refs, k)[s..], fault);
  }

  lemma LoadedAfter(before: seq<int>, loads: seq<int>, from: nat, pages: seq<int>, page: int)
    requires loads == before || loads == before + [page]
    requires from <= |before| && Elems(before[from..]) <= Elems(pages)
    ensures Elems(loads[from..]) <= Elems(pages + [page])
  {
    forall x | x in Elems(loads[from..]) ensures x in Elems(pages + [page]) {
      assert x in Elems(before[from..]) || x == page;
      assert x in Elems(pages) || x == page;
    }
  }

  lemma {:induction false} FaultsOfPrefix(refs: seq<int>, k: nat, e: nat)
    requires k > 0 && e <= |refs|
    ensures FifoFaults(refs, k)[..e] == FifoFaults(refs[..e], k)
  {
    if e == |refs| {
      assert refs[..e] == refs;
    } else {
      FaultsOfPrefix(refs[..|refs| - 1], k, e);
      assert refs[..|refs| - 1][..e] == refs[..e];
    }
  }

  /** Where at most `k` different pages are referenced, FIFO loads each of them at most once. */
  lemma FifoFaultsBound(refs: seq<int>, k: nat, s: nat)
    requires k > 0 && s <= |refs| && |Elems(refs[s..])| <= k
    ensures Count(FifoFaults(refs, k)[s..]) <= |Elems(refs[s..])|
  {
    LoadsBetween(refs, k, s);
    var loads, from, d := Loads(refs, k), |Loads(refs[..s], k)|, |Elems(refs[s..])|;
    if |loads| - from > d {
      WindowDistinct(refs, k, from, from + d + 1);
      assert Elems(loads[from..from + d + 1]) <= Elems(loads[from..]);
      SubsetCardinality(Elems(loads[from..from + d + 1]), Elems(refs[s..]));
      assert false;
    }
  }

  lemma FifoConservative(refs: seq<int>, k: nat)
    requires k > 0
    ensures Conservative(refs, FifoFaults(refs, k), k)
    ensures Count(FifoFaults(refs, k)) == |Loads(refs, k)|
  {
    LoadsBetween(refs, k, 0);
    assert FifoFaults(refs, k)[0..] == FifoFaults(refs, k);
    forall s, e | 0 <= s <= e <= |refs| && |Elems(refs[s..e])| <= k
      ensures Count(FifoFaults(refs, k)[s..e]) <= |Elems(refs[s..e])|
    {
      FaultsOfPrefix(refs, k, e);
      assert refs[..e][s..] == refs[s..e] && FifoFaults(refs, k)[..e][s..] == FifoFaults(refs, k)[s..e];
      FifoFaultsBound(refs[..e], k, s);
    }
  }

  /** Serving any reference string from empty memory, FIFO with `k` frames faults at most
      k / (k - h + 1) times as often as any schedule with `h <= k` frames loads a page. */
  lemma FifoCompetitive(refs: seq<int>, caches: seq<set<int>>, k: nat, h: nat)
    requires 0 < h <= k
    requires Schedule(refs, caches, h)
    ensures WithinFactor(k, h, |Loads(refs, k)|, Cost(caches))
  {
    FifoConservative(refs, k);
    ConservativeCompetitive(refs, FifoFaults(refs, k), caches, k, h);
  }
}
