/** How often the LRU buffer of PracticumV2/main.c misses, compared with any other way of serving the same pages. */
module LruPaging {
  import opened Sequences
  import opened Recency
  import opened Tlb
  import opened Translator
  import opened TranslatorRuns
  import opened Competitive

  // ----- the order of use as a policy -----

  /** Which references are to a page that is not among the `n` most recently used. */
  ghost function LruFaults(h: seq<int>, n: nat): (faults: seq<bool>)
    ensures |faults| == |h|
  {
    if h == [] then [] else LruFaults(h[..|h| - 1], n) + [!Top(h[..|h| - 1], h[|h| - 1], n)]
  }

  lemma {:induction false} FaultsOfPrefix(h: seq<int>, n: nat, e: nat)
    requires e <= |h|
    ensures LruFaults(h, n)[..e] == LruFaults(h[..e], n)
  {
    if e == |h| {
      assert h[..e] == h;
    } else {
      FaultsOfPrefix(h[..|h| - 1], n, e);
      assert h[..|h| - 1][..e] == h[..e];
    }
  }

  /** A page used in the last stretch of a history has fewer pages ahead of it than that stretch has pages. */
  lemma {:induction false} RankWithin(h: seq<int>, s: nat, q: int)
    requires s <= |h| && q in h[s..]
    ensures Rank(h, q) < |Elems(h[s..])|
  {
    var before, x := h[..|h| - 1], h[|h| - 1];
    assert h == before + [x] && h[s..] == before[s..] + [x];
    ElemsAppend(before[s..], x);
    RankStep(before, x, q);
    if q != x {
      RankWithin(before, s, q);
      assert q in Elems(before[s..]);
      if x in before[s..] {
        RankWithin(before, s, x);
        if Rank(before, x) == Rank(before, q) { RankInjective(before, x, q); }
        assert Elems(h[s..]) == Elems(before[s..]);
      }
    }
  }

  lemma {:induction false} LruFaultsBound(h: seq<int>, n: nat, s: nat)
    requires s <= |h| && |Elems(h[s..])| <= n
    ensures Count(LruFaults(h, n)[s..]) <= |Elems(h[s..])|
  {
    if s == |h| {
      assert LruFaults(h, n)[s..] == [];
    } else {
      var before, x := h[..|h| - 1], h[|h| - 1];
      assert h == before + [x];
      LastFault(before, n, s, x);
      SubsetCardinality(Elems(before[s..]), Elems(h[s..]));
      LruFaultsBound(before, n, s);
      if x in before[s..] { RankWithin(before, s, x); }
    }
  }

  lemma LastFault(h: seq<int>, n: nat, s: nat, x: int)
    requires s <= |h|
    ensures Elems((h + [x])[s..]) == Elems(h[s..]) + {x}
    ensures Count(LruFaults(h + [x], n)[s..]) == Count(LruFaults(h, n)[s..]) + if Top(h, x, n) then 0 else 1
    ensures x in h[s..] <==> x in Elems(h[s..])
  {
    assert (h + [x])[..|h|] == h && (h + [x])[s..] == h[s..] + [x];
    ElemsAppend(h[s..], x);
    assert LruFaults(h + [x], n)[s..] == LruFaults(h, n)[s..] + [!Top(h, x, n)];
    CountAppend(LruFaults(h, n)[s..], !Top(h, x, n));
  }

  /** To keep the `n` most recently used pages is conservative. */
  lemma LruConservative(h: seq<int>, n: nat)
    ensures Conservative(h, LruFaults(h, n), n)
  {
    forall s, e | 0 <= s <= e <= |h| && |Elems(h[s..e])| <= n
      ensures Count(LruFaults(h, n)[s..e]) <= |Elems(h[s..e])|
    {
      FaultsOfPrefix(h, n, e);
      assert h[..e][s..] == h[s..e] && LruFaults(h, n)[..e][s..] == LruFaults(h, n)[s..e];
      LruFaultsBound(h[..e], n, s);
    }
  }

  // ----- the buffer -----

  /** While the order is kept, lookups that do not hit are references to pages that are not among the most recent ones;
      without page 0 there is no other difference. */
  lemma {:induction false} MissesAreFaults(vm: Vm, store: seq<int>, refs: seq<Location>)
    requires Fresh(vm) && OrderKept(PagesOf(refs), |vm.tlb.pages|)
    ensures var misses := |refs| - Run(vm, Lru, store, refs).hits;
            && misses <= Count(LruFaults(PagesOf(refs), |vm.tlb.pages|))
            && (NO_PAGE !in PagesOf(refs) ==> misses == Count(LruFaults(PagesOf(refs), |vm.tlb.pages|)))
  {
    if refs == [] {
    } else {
      var n, h, page := |vm.tlb.pages|, PagesOf(Front(refs)), Final(refs).page;
      PagesStep(refs);
      MissesAreFaults(vm, store, Front(refs));
      HitsStep(vm, Lru, store, refs);
      LruReuseDistance(vm, store, Front(refs), page);
      if page in h { RankIsReuseDistance(h, page); }
      CountAppend(LruFaults(h, n), !Top(h, page, n));
    }
  }

  /** On all references that keep the order, those without page 0 among them, an LRU buffer of `n` slots misses at most
      n / (n - h + 1) times as often as any schedule with `h <= n` slots loads a page. */
  lemma LruCompetitive(vm: Vm, store: seq<int>, refs: seq<Location>, caches: seq<set<int>>, h: nat)
    requires Fresh(vm) && OrderKept(PagesOf(refs), |vm.tlb.pages|) && 0 < h <= |vm.tlb.pages|
    requires Schedule(PagesOf(refs), caches, h)
    ensures Run(vm, Lru, store, refs).hits <= |refs|
    ensures WithinFactor(|vm.tlb.pages|, h, |refs| - Run(vm, Lru, store, refs).hits, Cost(caches))
  {
    MissesAreFaults(vm, store, refs);
    HitsBound(vm, store, refs);
    NewestCompetitive(PagesOf(refs), |vm.tlb.pages|, caches, h, |refs| - Run(vm, Lru, store, refs).hits);
  }

  /** The same for whatever misses no more often than a reference is to a page not among the `n` most recent. */
  lemma NewestCompetitive(pages: seq<int>, n: nat, caches: seq<set<int>>, h: nat, misses: nat)
    requires 0 < h <= n && Schedule(pages, caches, h) && misses <= Count(LruFaults(pages, n))
    ensures WithinFactor(n, h, misses, Cost(caches))
  {
    LruConservative(pages, n);
    ConservativeCompetitive(pages, LruFaults(pages, n), caches, n, h);
    FewerFaults(n, h, misses, Count(LruFaults(pages, n)), Cost(caches));
  }

  lemma {:induction false} HitsBound(vm: Vm, store: seq<int>, refs: seq<Location>)
    requires Fresh(vm)
    ensures Run(vm, Lru, store, refs).hits <= |refs|
  {
    if refs == [] {
    } else {
      HitsBound(vm, store, Front(refs));
      HitsStep(vm, Lru, store, refs);
    }
  }

  // ----- the order of use as a schedule -----

  /** The `n` most recently used pages. */
  ghost function Newest(h: seq<int>, n: nat): (pages: set<int>)
    ensures forall p :: p in pages <==> Top(h, p, n)
    ensures |pages| <= n
  {
    StackMembers(h);
    var newest := Stack(h)[..if |Stack(h)| < n then |Stack(h)| else n];
    DistinctCardinality(newest);
    forall p ensures p in Elems(newest) <==> Top(h, p, n) {
      if Top(h, p, n) { assert newest[Rank(h, p)] == p; }
      if p in newest {
        var i :| 0 <= i < |newest| && newest[i] == p;
        assert Stack(h)[i] == p && Rank(h, p) == i;
      }
    }
    Elems(newest)
  }

  ghost function LruCaches(h: seq<int>, n: nat): (caches: seq<set<int>>)
    ensures |caches| == |h| + 1 && caches[|h|] == Newest(h, n)
  {
    if h == [] then [Newest(h, n)] else LruCaches(h[..|h| - 1], n) + [Newest(h, n)]
  }

  lemma NewestStep(h: seq<int>, q: int, n: nat)
    requires n > 0
    ensures q in Newest(h + [q], n)
    ensures |Newest(h + [q], n) - Newest(h, n)| == if Top(h, q, n) then 0 else 1
  {
    RankStep(h, q, q);
    forall p ensures p in Newest(h + [q], n) - Newest(h, n) <==> p == q && !Top(h, q, n) {
      if Top(h, q, n) { TopHit(h, q, n, p); } else { TopMiss(h, q, n, p); }
    }
    assert Newest(h + [q], n) - Newest(h, n) == if Top(h, q, n) then {} else {q};
  }

  /** Keeping the `n` most recently used pages is itself a schedule, whose cost is the number of its faults. */
  lemma {:induction false} LruIsSchedule(h: seq<int>, n: nat)
    requires n > 0
    ensures Schedule(h, LruCaches(h, n), n)
    ensures Cost(LruCaches(h, n)) == Count(LruFaults(h, n))
  {
    if h == [] {
      assert Newest(h, n) == {};
    } else {
      var before, q := h[..|h| - 1], h[|h| - 1];
      assert h == before + [q];
      LruIsSchedule(before, n);
      NewestStep(before, q, n);
      assert LruCaches(h, n)[..|h|] == LruCaches(before, n);
      CountAppend(LruFaults(before, n), !Top(before, q, n));
    }
  }
}
