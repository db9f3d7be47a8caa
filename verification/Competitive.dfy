/**
 How often a paging policy faults compared with any other way of serving the same references, for every policy that
 is conservative.
 */
module Competitive {
  import opened Sequences

  // ----- schedules -----

  /** A way to serve `refs` with `h` frames: `caches[t]` is what is in memory before reference `t`.
      Pages may be loaded and dropped at any time; only the requested page must be there. */
  ghost predicate Schedule(refs: seq<int>, caches: seq<set<int>>, h: nat) {
    && |caches| == |refs| + 1
    && caches[0] == {}
    && forall t :: 0 <= t < |refs| ==> refs[t] in caches[t + 1] && |caches[t + 1]| <= h
  }

  /** How many pages a schedule loads. */
  ghost function Cost(caches: seq<set<int>>): nat {
    if |caches| <= 1 then 0 else
      Cost(caches[..|caches| - 1]) + |caches[|caches| - 1] - caches[|caches| - 2]|
  }

  /** With `k` frames, at most k / (k - h + 1) times as many faults as a rival with `h` frames pays for. */
  ghost predicate WithinFactor(k: nat, h: nat, faults: nat, cost: nat)
    requires 0 < h <= k
  {
    (k - h + 1) * faults <= k * cost
  }

  // ----- conservative policies -----

  /** How many references fault. */
  ghost function Count(faults: seq<bool>): (n: nat)
    ensures n <= |faults|
  {
    if faults == [] then 0 else Count(faults[..|faults| - 1]) + if faults[|faults| - 1] then 1 else 0
  }

  lemma CountAppend(faults: seq<bool>, x: bool)
    ensures Count(faults + [x]) == Count(faults) + if x then 1 else 0
  {
    assert (faults + [x])[..|faults|] == faults;
  }

  /** Where at most `k` different pages are referenced, there are no more faults than pages. */
  ghost predicate Conservative(refs: seq<int>, faults: seq<bool>, k: nat) {
    && |faults| == |refs|
    && forall s, e {:trigger refs[s..e]} :: 0 <= s <= e <= |refs| && |Elems(refs[s..e])| <= k ==>
         Count(faults[s..e]) <= |Elems(refs[s..e])|
  }

  lemma ConservativeFront(refs: seq<int>, faults: seq<bool>, k: nat)
    requires Conservative(refs, faults, k) && refs != []
    ensures Conservative(refs[..|refs| - 1], faults[..|refs| - 1], k)
  {
    var n := |refs| - 1;
    forall s, e | 0 <= s <= e <= n && |Elems(refs[..n][s..e])| <= k
      ensures Count(faults[..n][s..e]) <= |Elems(refs[..n][s..e])|
    {
      assert refs[..n][s..e] == refs[s..e] && faults[..n][s..e] == faults[s..e];
    }
  }

  // ----- windows -----

  /** `c * n`, added up, so that the proofs about windows stay linear. */
  ghost function Times(c: nat, n: nat): nat {
    if c == 0 then 0 else Times(c - 1, n) + n
  }

  lemma {:induction false} TimesIsProduct(c: nat, n: nat)
    ensures Times(c, n) == c * n
  {
    if c == 0 {
    } else {
      TimesIsProduct(c - 1, n);
    }
  }

  /** A cut of a run into windows of `k` faults, with what a rival schedule must have spent.
      `c` windows are complete; `base` is the rival's cache at the last cut, `spent` its cost since then and `loaded`
      the pages it has loaded since then. The window being counted begins at `from`, with the fault that closed the one
      before it. */
  datatype Cut = Cut(c: nat, paid: nat, spent: nat, base: set<int>, loaded: set<int>, from: nat)

  /** The faults before the window, which owns the fault that closed the one before it. */
  ghost function Before(c: nat, k: nat): (w: nat)
    requires k > 0
  {
    if c == 0 then 0 else Times(c, k) - 1
  }

  /** The window being counted may have just been filled. */
  ghost predicate OpenCut(u: Cut, refs: seq<int>, faults: seq<bool>, caches: seq<set<int>>, k: nat, h: nat)
    requires 0 < h <= k && |caches| > 0
  {
    && |refs| == |faults| && Counted(u.c, u.from, faults, k) && Paid(u, caches, k, h)
    && Elems(refs[u.from..]) <= u.base + u.loaded
  }

  ghost predicate Counted(c: nat, from: nat, faults: seq<bool>, k: nat)
    requires k > 0
  {
    && from <= |faults|
    && Times(c, k) <= Count(faults) <= Times(c, k) + k
    && Count(faults[from..]) == Count(faults) - Before(c, k)
  }

  ghost predicate Paid(u: Cut, caches: seq<set<int>>, k: nat, h: nat)
    requires 0 < h <= k && |caches| > 0
  {
    && Cost(caches) == u.paid + u.spent
    && |u.loaded| <= u.spent && |u.base| <= h
    && caches[|caches| - 1] <= u.base + u.loaded
    && (u.c == 0 ==> u.base == {} && u.paid == 0)
    && (u.c > 0 ==> u.paid >= Times(u.c, k - h + 1) + (h - 1))
  }

  ghost predicate GoodCut(u: Cut, refs: seq<int>, faults: seq<bool>, caches: seq<set<int>>, k: nat, h: nat)
    requires 0 < h <= k && |caches| > 0
  {
    OpenCut(u, refs, faults, caches, k, h) && Count(faults) < Times(u.c, k) + k
  }

  /** What a window costs the rival. */
  lemma WindowCost(u: Cut, refs: seq<int>, faults: seq<bool>, caches: seq<set<int>>, k: nat, h: nat)
    requires 0 < h <= k && |caches| > 0 && Conservative(refs, faults, k)
    requires OpenCut(u, refs, faults, caches, k, h)
    ensures Count(faults) - Before(u.c, k) <= (if u.c == 0 then 0 else h) + u.spent
  {
    var window := refs[u.from..];
    assert refs[u.from..|refs|] == window && faults[u.from..|refs|] == faults[u.from..];
    assert Count(faults[u.from..]) <= |Elems(window)|;
    SubsetCardinality(Elems(window), u.base + u.loaded);
    assert u.base + u.loaded == u.base + (u.loaded - u.base);
    SubsetCardinality(u.loaded - u.base, u.loaded);
  }

  lemma {:induction false} CutExists(refs: seq<int>, faults: seq<bool>, caches: seq<set<int>>, k: nat, h: nat)
    returns (u: Cut)
    requires 0 < h <= k && Conservative(refs, faults, k)
    requires Schedule(refs, caches, h)
    ensures GoodCut(u, refs, faults, caches, k, h)
  {
    if refs == [] {
      u := Cut(0, 0, 0, {}, {}, 0);
    } else {
      var n := |refs| - 1;
      ConservativeFront(refs, faults, k);
      var v := CutExists(refs[..n], faults[..n], caches[..n + 1], k, h);
      assert refs[..n] + [refs[n]] == refs;
      assert faults[..n] + [faults[n]] == faults;
      assert caches[..n + 1] + [caches[n + 1]] == caches;
      u := CutStep(v, refs[..n], faults[..n], caches[..n + 1], k, h, refs[n], faults[n], caches[n + 1]);
    }
  }

  /** One more reference, to `page`, after which the rival holds `cache`. */
  lemma CutStep(v: Cut, refs: seq<int>, faults: seq<bool>, caches: seq<set<int>>, k: nat, h: nat,
                page: int, fault: bool, cache: set<int>)
    returns (u: Cut)
    requires 0 < h <= k && |caches| > 0 && GoodCut(v, refs, faults, caches, k, h)
    requires Conservative(refs + [page], faults + [fault], k) && page in cache && |cache| <= h
    ensures GoodCut(u, refs + [page], faults + [fault], caches + [cache], k, h)
  {
    CountAppend(faults, fault);
    u := ExtendCut(v, refs, faults, caches, k, h, page, fault, cache);
    if Count(faults + [fault]) == Times(u.c, k) + k {
      u := CloseWindow(u, refs + [page], faults + [fault], caches + [cache], k, h);
    }
  }

  /** The window being counted takes it in. */
  lemma ExtendCut(v: Cut, refs: seq<int>, faults: seq<bool>, caches: seq<set<int>>, k: nat, h: nat,
                  page: int, fault: bool, cache: set<int>)
    returns (u: Cut)
    requires 0 < h <= k && |caches| > 0 && GoodCut(v, refs, faults, caches, k, h) && page in cache
    ensures OpenCut(u, refs + [page], faults + [fault], caches + [cache], k, h) && u.c == v.c
  {
    u := PayMore(v, caches, k, h, cache);
    CountMore(v.c, v.from, faults, fault, k);
    ReferMore(v.from, refs, page, v.base + v.loaded, cache, u.base + u.loaded);
  }

  lemma CountMore(c: nat, from: nat, faults: seq<bool>, fault: bool, k: nat)
    requires k > 0 && Counted(c, from, faults, k) && Count(faults) < Times(c, k) + k
    ensures Counted(c, from, faults + [fault], k)
  {
    assert (faults + [fault])[from..] == faults[from..] + [fault];
    CountAppend(faults, fault);
    CountAppend(faults[from..], fault);
  }

  lemma ReferMore(from: nat, refs: seq<int>, page: int, held: set<int>, cache: set<int>, held': set<int>)
    requires from <= |refs| && Elems(refs[from..]) <= held <= held' && page in cache && cache <= held'
    ensures Elems((refs + [page])[from..]) <= held'
  {
    assert (refs + [page])[from..] == refs[from..] + [page];
    ElemsAppend(refs[from..], page);
  }

  lemma PayMore(v: Cut, caches: seq<set<int>>, k: nat, h: nat, cache: set<int>) returns (u: Cut)
    requires 0 < h <= k && |caches| > 0 && Paid(v, caches, k, h)
    ensures Paid(u, caches + [cache], k, h)
    ensures u == v.(spent := u.spent, loaded := u.loaded) && cache <= u.base + u.loaded && v.loaded <= u.loaded
  {
    var fresh' := cache - caches[|caches| - 1];
    assert (caches + [cache])[..|caches|] == caches;
    u := v.(spent := v.spent + |fresh'|, loaded := v.loaded + fresh');
    assert v.loaded + fresh' == v.loaded + (fresh' - v.loaded);
    SubsetCardinality(fresh' - v.loaded, fresh');
  }

  lemma CloseWindow(v: Cut, refs: seq<int>, faults: seq<bool>, caches: seq<set<int>>, k: nat, h: nat) returns (u: Cut)
    requires 0 < h <= k && refs != [] && |caches| > 0 && Conservative(refs, faults, k)
    requires OpenCut(v, refs, faults, caches, k, h)
    requires refs[|refs| - 1] in caches[|caches| - 1] && |caches[|caches| - 1]| <= h
    requires Count(faults) == Times(v.c, k) + k && faults[|faults| - 1]
    ensures GoodCut(u, refs, faults, caches, k, h)
  {
    var n := |refs| - 1;
    WindowCost(v, refs, faults, caches, k, h);
    u := Cut(v.c + 1, v.paid + v.spent, 0, caches[|caches| - 1], {}, n);
    CountClosed(v.c, faults, k);
    PaidClosed(v, u, caches, k, h);
    assert refs[n..] == [refs[n]];
  }

  lemma CountClosed(c: nat, faults: seq<bool>, k: nat)
    requires k > 0 && faults != [] && faults[|faults| - 1] && Count(faults) == Times(c, k) + k
    ensures Counted(c + 1, |faults| - 1, faults, k)
  {
    assert faults[|faults| - 1..] == [true];
    assert [true][..0] == [] && Count([true]) == 1;
    assert Times(c + 1, k) == Times(c, k) + k;
  }

  lemma PaidClosed(v: Cut, u: Cut, caches: seq<set<int>>, k: nat, h: nat)
    requires 0 < h <= k && |caches| > 0 && Paid(v, caches, k, h) && |caches[|caches| - 1]| <= h
    requires Times(v.c, k) + k - Before(v.c, k) <= (if v.c == 0 then 0 else h) + v.spent
    requires u == Cut(v.c + 1, v.paid + v.spent, 0, caches[|caches| - 1], {}, u.from)
    ensures Paid(u, caches, k, h)
  {
    assert Times(u.c, k - h + 1) == Times(v.c, k - h + 1) + (k - h + 1);
  }

  /** Serving any references from empty memory, a conservative policy with `k` frames faults at most k / (k - h + 1)
      times as often as any schedule with `h <= k` frames loads a page. */
  lemma ConservativeCompetitive(refs: seq<int>, faults: seq<bool>, caches: seq<set<int>>, k: nat, h: nat)
    requires 0 < h <= k && Conservative(refs, faults, k)
    requires Schedule(refs, caches, h)
    ensures WithinFactor(k, h, Count(faults), Cost(caches))
  {
    var u := CutExists(refs, faults, caches, k, h);
    WindowCost(u, refs, faults, caches, k, h);
    TimesIsProduct(u.c, k);
    TimesIsProduct(u.c, k - h + 1);
    CompetitiveArithmetic(k, h, u.c, Count(faults) - Times(u.c, k), Cost(caches));
  }

  lemma Monotone(x: nat, y: nat, z: nat)
    requires x <= y
    ensures x * z <= y * z && z * x <= z * y
  {
    assert (y - x) * z >= 0;
  }

  lemma FewerFaults(k: nat, h: nat, x: nat, y: nat, cost: nat)
    requires 0 < h <= k && x <= y && WithinFactor(k, h, y, cost)
    ensures WithinFactor(k, h, x, cost)
  {
    Monotone(x, y, k - h + 1);
  }

  lemma Expand(g: nat, k: nat, c: nat, r: nat, m: nat)
    ensures g * (c * k + r) == c * g * k + g * r
    ensures k * (c * g + m) == c * g * k + k * m
  {
    assert g * (c * k) == c * g * k == k * (c * g);
  }

  lemma CompetitiveArithmetic(k: nat, h: nat, c: nat, r: nat, cost: nat)
    requires 0 < h <= k && r < k
    requires c == 0 ==> r <= cost
    requires c > 0 ==> c * (k - h + 1) + (h - 1) <= cost
    requires c > 0 ==> c * (k - h + 1) + r <= cost
    ensures (k - h + 1) * (c * k + r) <= k * cost
  {
    var g := k - h + 1;
    Monotone(g, k, r);
    if c == 0 {
      Monotone(r, cost, k);
    } else {
      var m := if r < h then h - 1 else r;
      Monotone(c * g + m, cost, k);
      Monotone(r, m, k);
      Expand(g, k, c, r, m);
    }
  }
}
