/**
 The translation lookaside buffer of PracticumV2/main.c with its two insert policies, and what LRU guarantees.
 The size of the buffer (TLB_SIZE) is the length of its three arrays.
 */
module Tlb {
  import opened Sequences
  import opened Recency

  /** The page number that marks an empty slot; it is also an ordinary page number. */
  const NO_PAGE := 0

  datatype Table = Table(pages: seq<int>, frames: seq<int>, ages: seq<int>)

  predicate Sized(t: Table) {
    |t.pages| == |t.frames| == |t.ages| > 0
  }

  // ----- first-in first-out -----

  /** Entries after `i` and before `k` move down by one; the entry before `k` is left in place. */
  function Shifted(s: seq<int>, i: nat, k: nat): (r: seq<int>)
    requires i < k <= |s|
    ensures |r| == |s|
  {
    s[..i] + s[i + 1..k] + s[k - 1..]
  }

  /** What FIFO insertion does to one array of the table, with the page found at `i` among the first `next`. */
  function FifoArray(s: seq<int>, i: nat, next: nat, x: int): (r: seq<int>)
    requires i <= next <= |s| && s != []
    ensures |r| == |s|
  {
    if i == next then
      if next < |s| then s[next := x] else Shifted(s[next - 1 := x], 0, next)
    else
      Shifted(s, i, next)[if next < |s| then next else next - 1 := x]
  }

  function FifoInsert(t: Table, next: nat, page: int, frame: int): (r: Table)
    requires Sized(t) && next <= |t.pages|
    ensures Sized(r) && |r.pages| == |t.pages|
  {
    var i := Find(t.pages[..next], page);
    Table(FifoArray(t.pages, i, next, page), FifoArray(t.frames, i, next, frame), t.ages)
  }

  function FifoNext(next: nat, n: nat): nat {
    if next < n then next + 1 else next
  }

  /** Where the content of slot `j` comes from: the slot it was in before, or -1 for the inserted entry. */
  function FifoOrigin(n: nat, i: nat, next: nat, j: nat): (k: int)
    requires i <= next <= n && j < n && n > 0
    ensures -1 <= k < n
    ensures next < n && j > next ==> k == j
    ensures j < FifoNext(next, n) ==> k < next
  {
    if next < n then
      if j == next then -1 else if i <= j < next - 1 then j + 1 else j
    else if j == n - 1 then -1
    else if i == next then (if j == n - 2 then -1 else j + 1)
    else if i <= j then j + 1
    else j
  }

  lemma ShiftedEntry(s: seq<int>, i: nat, k: nat, j: nat)
    requires i < k <= |s| && j < |s|
    ensures Shifted(s, i, k)[j] == if i <= j < k - 1 then s[j + 1] else s[j]
  {
  }

  lemma FifoEntries(s: seq<int>, i: nat, next: nat, x: int, j: nat)
    requires i <= next <= |s| && j < |s|
    ensures FifoArray(s, i, next, x)[j] ==
            if FifoOrigin(|s|, i, next, j) == -1 then x else s[FifoOrigin(|s|, i, next, j)]
  {
    if i < next {
      ShiftedEntry(s, i, next, j);
    } else if next == |s| {
      ShiftedEntry(s[next - 1 := x], 0, next, j);
    }
  }

  // ----- when that is a queue -----

  /** What the insertion is meant to do: a page that is there moves to the end, another is appended, and then the first
      gives way if there is no room. */
  function Queue(q: seq<int>, page: int, n: nat): (r: seq<int>)
    requires |q| <= n && n > 0
    ensures |r| <= n
  {
    if page in q then q[..Find(q, page)] + q[Find(q, page) + 1..] + [page]
    else if |q| < n then q + [page]
    else q[1..] + [page]
  }

  /** A step of the queue that the insertion gets right: a new page with room, a page that is there without, or a buffer
      of a single slot. */
  predicate QueueStep(q: seq<int>, page: int, n: nat) {
    (page in q) == (|q| == n) || n == 1
  }

  /** The queue after the references `h`. */
  function QueueAfter(h: seq<int>, n: nat): (q: seq<int>)
    requires n > 0
    ensures |q| <= n
  {
    if h == [] then [] else Queue(QueueAfter(h[..|h| - 1], n), h[|h| - 1], n)
  }

  /** All references are steps that the insertion gets right: a test on the references alone. */
  predicate QueueKept(h: seq<int>, n: nat)
    requires n > 0
  {
    h == [] || (QueueKept(h[..|h| - 1], n) && QueueStep(QueueAfter(h[..|h| - 1], n), h[|h| - 1], n))
  }

  /** One array of the table: what is there of a page at `i` moves to the end if the buffer is full. With room left the
      entries behind it move down, and the one before the end is then there twice. */
  lemma ArrayMoved(s: seq<int>, i: nat, next: nat, x: int)
    requires i < next <= |s|
    ensures next == |s| ==> FifoArray(s, i, next, x) == s[..i] + s[i + 1..] + [x]
    ensures next < |s| ==> FifoArray(s, i, next, x) == s[..i] + s[i + 1..next] + [s[next - 1], x] + s[next + 1..]
  {
  }

  /** What becomes of a page that is there, and of its frame: it moves to the end if the buffer is full; with room left
      it also moves to the end, but one slot further, and the entry that was last is then in two slots. */
  lemma FifoMoved(t: Table, next: nat, page: int, frame: int, i: nat)
    requires Sized(t) && i < next <= |t.pages| && t.pages[i] == page && page !in t.pages[..i]
    ensures var r, n := FifoInsert(t, next, page, frame), |t.pages|;
            && r.ages == t.ages
            && (next == n ==> r.pages == t.pages[..i] + t.pages[i + 1..] + [page]
                              && r.frames == t.frames[..i] + t.frames[i + 1..] + [frame])
            && (next < n ==>
                  && r.pages == t.pages[..i] + t.pages[i + 1..next] + [t.pages[next - 1], page] + t.pages[next + 1..]
                  && r.frames == t.frames[..i] + t.frames[i + 1..next] + [t.frames[next - 1], frame] + t.frames[next + 1..])
  {
    assert t.pages[..next][..i] == t.pages[..i];
    FindUnique(t.pages[..next], page, i);
    ArrayMoved(t.pages, i, next, page);
    ArrayMoved(t.frames, i, next, frame);
  }

  /** What becomes of another page: it is appended, or fills the last two slots of a full buffer. */
  lemma FifoAdded(t: Table, next: nat, page: int, frame: int)
    requires Sized(t) && next <= |t.pages| && page !in t.pages[..next]
    ensures var r, n := FifoInsert(t, next, page, frame), |t.pages|;
            && r.ages == t.ages
            && (next < n ==> r.pages == t.pages[next := page] && r.frames == t.frames[next := frame])
            && (next == n == 1 ==> r.pages == [page] && r.frames == [frame])
            && (next == n > 1 ==> r.pages == t.pages[1..n - 1] + [page, page]
                                  && r.frames == t.frames[1..n - 1] + [frame, frame])
  {
  }

  /** A page that is there moves to the end if the buffer is full; otherwise some page is left in two slots. */
  lemma FifoPresent(t: Table, next: nat, page: int, frame: int)
    requires Sized(t) && next <= |t.pages| && page in t.pages[..next]
    ensures var r, q := FifoInsert(t, next, page, frame).pages, t.pages[..next];
            var i := Find(q, page);
            && (next == |t.pages| ==> r == Queue(q, page, next))
            && (next < |t.pages| ==> r[..next + 1] == q[..i] + q[i + 1..] + [q[next - 1], page]
                                     && |Queue(q, page, |t.pages|)| == next)
            && (next < |t.pages| ==> exists i, j :: 0 <= i < j <= next && r[i] == r[j])
  {
    var i, r := Find(t.pages[..next], page), FifoInsert(t, next, page, frame).pages;
    FindUnique(t.pages[..next], page, i);
    assert t.pages[..next][..i] == t.pages[..i];
    FifoMoved(t, next, page, frame, i);
    if next == |t.pages| {
      assert t.pages[..next] == t.pages;
    } else if i < next - 1 {
      assert r[next - 2] == r[next - 1];
    } else {
      assert r[next - 1] == r[next];
    }
  }

  /** A page that comes into a full buffer takes the last two slots: the entry before the end is lost as well as the
      first. */
  lemma FifoDuplicates(t: Table, page: int, frame: int)
    requires Sized(t) && page !in t.pages
    ensures var n, r := |t.pages|, FifoInsert(t, |t.pages|, page, frame).pages;
            && r == (if n == 1 then [page] else t.pages[1..n - 1] + [page, page])
            && (r == Queue(t.pages, page, n) <==> n == 1)
  {
    var n, r := |t.pages|, FifoInsert(t, |t.pages|, page, frame).pages;
    assert t.pages[..n] == t.pages;
    assert r == t.pages[n - 1 := page][1..] + [page];
    if n > 1 {
      assert r[n - 2] == page && Queue(t.pages, page, n)[n - 2] == t.pages[n - 1];
    }
  }

  /** The insertion is a step of the queue exactly when the step is of the kind it gets right. */
  lemma FifoExactly(t: Table, next: nat, page: int, frame: int)
    requires Sized(t) && next <= |t.pages|
    ensures FifoInsert(t, next, page, frame).pages[..FifoNext(next, |t.pages|)] == Queue(t.pages[..next], page, |t.pages|)
            <==> QueueStep(t.pages[..next], page, |t.pages|)
  {
    var n, r := |t.pages|, FifoInsert(t, next, page, frame).pages;
    assert next == n ==> t.pages[..next] == t.pages && r[..n] == r;
    if page in t.pages[..next] {
      FifoPresent(t, next, page, frame);
    } else if next < n {
      assert r[..next + 1] == t.pages[..next] + [page];
    } else {
      FifoDuplicates(t, page, frame);
    }
  }

  // ----- least recently used -----

  /** The ages after the pass over the table: every other page is older by one, the page itself is new. */
  function Aged(t: Table, page: int): (ages: seq<int>)
    requires Sized(t)
    ensures |ages| == |t.ages|
  {
    seq(|t.ages|, i requires 0 <= i < |t.ages| =>
      if t.pages[i] == page then (if i == Find(t.pages, page) then 0 else t.ages[i])
      else if t.pages[i] != NO_PAGE then t.ages[i] + 1
      else t.ages[i])
  }

  /** The first of the oldest entries. */
  function Oldest(ages: seq<int>): (i: nat)
    requires ages != []
    ensures i < |ages|
    ensures forall j :: 0 <= j < |ages| ==> ages[j] <= ages[i]
    ensures forall j :: 0 <= j < i ==> ages[j] < ages[i]
  {
    var n := |ages| - 1;
    if n == 0 then 0 else
      var i := Oldest(ages[..n]);
      assert ages == ages[..n] + [ages[n]];
      if ages[n] > ages[i] then n else i
  }

  /** The slot for a page that is not there: the first empty one, else the oldest. */
  function Victim(t: Table, page: int): (i: nat)
    requires Sized(t) && page !in t.pages
    ensures i < |t.pages|
  {
    if NO_PAGE in t.pages then Find(t.pages, NO_PAGE) else Oldest(Aged(t, page))
  }

  function LruInsert(t: Table, page: int, frame: int): (r: Table)
    requires Sized(t)
    ensures Sized(r) && |r.pages| == |t.pages|
  {
    if page in t.pages then t.(ages := Aged(t, page)) else
      var i := Victim(t, page);
      Table(t.pages[i := page], t.frames[i := frame], Aged(t, page)[i := 0])
  }

  /** How many slots have been written, counting from the front, once `page` is in. */
  function LruWritten(t: Table, page: int, written: nat): (r: nat)
    requires Sized(t) && written <= |t.pages|
    ensures written <= r <= |t.pages|
  {
    if page in t.pages || Victim(t, page) < written then written else Victim(t, page) + 1
  }

  /** A page that is there: only ages change. Its first slot is new again, and the slots of other pages, page 0 apart,
      are older by one. */
  lemma LruPresent(t: Table, page: int, frame: int, j: nat)
    requires Sized(t) && page in t.pages && j < |t.pages|
    ensures var r := LruInsert(t, page, frame);
            && r.pages == t.pages && r.frames == t.frames
            && r.ages[j] == if t.pages[j] == page then (if page in t.pages[..j] then t.ages[j] else 0)
                            else if t.pages[j] == NO_PAGE then t.ages[j] else t.ages[j] + 1
  {
    assert page in t.pages[..j] <==> Find(t.pages, page) < j;
  }

  /** Another page takes the first slot that looks empty, or if there is none the first of the oldest; the slots of other
      pages, page 0 apart, are older by one. */
  lemma LruAdded(t: Table, page: int, frame: int) returns (v: nat)
    requires Sized(t) && page !in t.pages
    ensures v < |t.pages|
    ensures var r := LruInsert(t, page, frame);
            && r.pages == t.pages[v := page] && r.frames == t.frames[v := frame] && r.ages[v] == 0
            && forall j :: 0 <= j < |t.pages| && j != v ==>
                 r.ages[j] == if t.pages[j] == NO_PAGE then t.ages[j] else t.ages[j] + 1
    ensures NO_PAGE in t.pages ==> t.pages[v] == NO_PAGE && forall j :: 0 <= j < v ==> t.pages[j] != NO_PAGE
    ensures NO_PAGE !in t.pages ==> forall j :: 0 <= j < |t.pages| ==> t.ages[j] <= t.ages[v] && (j < v ==> t.ages[j] < t.ages[v])
  {
    v := Victim(t, page);
    if NO_PAGE !in t.pages {
      forall j | 0 <= j < |t.pages| ensures t.ages[j] <= t.ages[v] && (j < v ==> t.ages[j] < t.ages[v]) {
        assert Aged(t, page)[j] == t.ages[j] + 1 && Aged(t, page)[v] == t.ages[v] + 1;
      }
    }
  }

  // ----- what LRU keeps -----

  /** Page `p` has been used, and fewer than `n` others have been used since. */
  ghost predicate Top(h: seq<int>, p: int, n: nat) {
    p in h && Rank(h, p) < n
  }

  /** How many pages other than page 0 have been used. */
  function Used(h: seq<int>): (u: nat) {
    StackMembers(h);
    |Stack(h)| - if NO_PAGE in h then 1 else 0
  }

  /** How many other pages, page 0 apart, have been used more recently than `p`. */
  function Depth(h: seq<int>, p: int): nat {
    Rank(h, p) - if NO_PAGE in h && Rank(h, NO_PAGE) < Rank(h, p) then 1 else 0
  }

  /** Page 0 is in the buffer, or a slot that looks like it: at first, and from a reference to it until a page comes in
      for which there is no empty slot. */
  predicate Lodges(n: nat, h: seq<int>) {
    h == [] ||
    var before, q := h[..|h| - 1], h[|h| - 1];
    q == NO_PAGE ||
    if q in before && Depth(before, q) < Room(n, Lodges(n, before)) then Lodges(n, before) else Used(before) + 1 < n
  }

  /** The slots there are for pages other than page 0. */
  function Room(n: nat, lodges: bool): int {
    if lodges then n - 1 else n
  }

  /** What a buffer of `n` slots holds after the references `h`: the most recently used pages other than page 0, as many
      as there is room for, and page 0 while it lodges. */
  predicate Kept(h: seq<int>, p: int, n: nat) {
    if p == NO_PAGE then Lodges(n, h) else p in h && Depth(h, p) < Room(n, Lodges(n, h))
  }

  lemma UsedStep(h: seq<int>, q: int)
    ensures Used(h + [q]) == Used(h) + if q == NO_PAGE || q in h then 0 else 1
  {
    RankStep(h, q, q);
  }

  lemma DepthBound(h: seq<int>, p: int)
    requires p in h && p != NO_PAGE
    ensures Depth(h, p) < Used(h)
  {
    StackMembers(h);
    if NO_PAGE in h && Rank(h, NO_PAGE) == Rank(h, p) { RankInjective(h, p, NO_PAGE); }
  }

  lemma DepthInjective(h: seq<int>, p: int, q: int)
    requires p in h && q in h && p != NO_PAGE && q != NO_PAGE && Depth(h, p) == Depth(h, q)
    ensures p == q
  {
    if Rank(h, p) == Rank(h, q) { RankInjective(h, p, q); }
    if NO_PAGE in h && Rank(h, NO_PAGE) == Rank(h, p) { RankInjective(h, p, NO_PAGE); }
    if NO_PAGE in h && Rank(h, NO_PAGE) == Rank(h, q) { RankInjective(h, q, NO_PAGE); }
  }

  /** One more reference: page 0 leaves the depths alone, another page puts itself on top. */
  lemma DepthStep(h: seq<int>, q: int, p: int)
    requires p != NO_PAGE && (p in h || p == q)
    ensures q == NO_PAGE ==> Depth(h + [q], p) == Depth(h, p)
    ensures p == q ==> Depth(h + [q], p) == 0
    ensures q != NO_PAGE && p != q && q in h && Depth(h, q) < Depth(h, p) ==> Depth(h + [q], p) == Depth(h, p)
    ensures q != NO_PAGE && p != q && !(q in h && Depth(h, q) < Depth(h, p)) ==> Depth(h + [q], p) == Depth(h, p) + 1
  {
    RankStep(h, q, p);
    if NO_PAGE in h || q == NO_PAGE { RankStep(h, q, NO_PAGE); }
    if p in h && NO_PAGE in h && Rank(h, NO_PAGE) == Rank(h, p) { RankInjective(h, p, NO_PAGE); }
    if q in h && q != NO_PAGE && NO_PAGE in h && Rank(h, NO_PAGE) == Rank(h, q) { RankInjective(h, q, NO_PAGE); }
    if q in h && p in h && Rank(h, q) == Rank(h, p) { RankInjective(h, q, p); }
  }

  /** While there are slots left over, page 0 is seen in the buffer. */
  lemma {:induction false} LodgesAtFirst(n: nat, h: seq<int>)
    requires Used(h) < n
    ensures Lodges(n, h)
  {
    if h == [] {
    } else {
      var before, q := h[..|h| - 1], h[|h| - 1];
      assert h == before + [q];
      UsedStep(before, q);
      LodgesAtFirst(n, before);
      if q in before && q != NO_PAGE { DepthBound(before, q); }
    }
  }

  lemma LodgesStep(n: nat, h: seq<int>, q: int)
    ensures Lodges(n, h + [q]) <==> q == NO_PAGE || if Kept(h, q, n) then Lodges(n, h) else Used(h) + 1 < n
  {
    assert (h + [q])[..|h|] == h;
  }

  /** A reference to a page that is held leaves the same pages held. */
  lemma KeptHit(h: seq<int>, q: int, n: nat, p: int)
    requires Kept(h, q, n)
    ensures Kept(h + [q], p, n) <==> Kept(h, p, n)
  {
    LodgesStep(n, h, q);
    if p != NO_PAGE && p in h {
      DepthStep(h, q, p);
      if q != NO_PAGE && Depth(h, p) == Depth(h, q) { DepthInjective(h, p, q); }
    }
  }

  /** A page that comes in while page 0 lodges displaces no other page, and page 0 unless there are slots left over. */
  lemma KeptLodging(h: seq<int>, q: int, n: nat, p: int)
    requires n > 0 && !Kept(h, q, n) && Lodges(n, h)
    ensures Kept(h + [q], p, n) <==> p == q || (if p == NO_PAGE then Used(h) + 1 < n else Kept(h, p, n))
  {
    LodgesStep(n, h, q);
    if p != NO_PAGE && (p in h || p == q) {
      DepthStep(h, q, p);
      if p in h { DepthBound(h, p); }
    }
  }

  /** A page that comes in while page 0 does not lodge displaces the deepest page. */
  lemma KeptFull(h: seq<int>, q: int, n: nat, p: int)
    requires n > 0 && !Kept(h, q, n) && !Lodges(n, h)
    ensures Kept(h + [q], p, n) <==> p == q || (Kept(h, p, n) && Depth(h, p) != n - 1)
  {
    LodgesStep(n, h, q);
    if Used(h) < n { LodgesAtFirst(n, h); }
    if p != NO_PAGE && (p in h || p == q) { DepthStep(h, q, p); }
  }

  /** The depth of a page is its reuse distance, page 0 apart. */
  lemma DepthIsReuseDistance(h: seq<int>, p: int)
    requires p in h && p != NO_PAGE
    ensures Depth(h, p) == |Elems(Since(h, p)) - {NO_PAGE}|
  {
    RankIsReuseDistance(h, p);
    SinceWithin(h, p);
    if NO_PAGE in h { RankAndAge(h, NO_PAGE, p); }
    if NO_PAGE in Since(h, p) {
      assert Elems(Since(h, p)) == (Elems(Since(h, p)) - {NO_PAGE}) + {NO_PAGE};
    } else {
      assert Elems(Since(h, p)) - {NO_PAGE} == Elems(Since(h, p));
    }
  }

  /** Where page 0 lodges in a buffer, it lodges in every larger one. */
  lemma {:induction false} LodgesGrow(n: nat, m: nat, h: seq<int>)
    requires n < m && Lodges(n, h)
    ensures Lodges(m, h)
  {
    if h == [] {
    } else {
      var before, q := h[..|h| - 1], h[|h| - 1];
      assert h == before + [q];
      UsedStep(before, q);
      if q in before && Depth(before, q) < Room(n, Lodges(n, before)) {
        if q != NO_PAGE { LodgesGrow(n, m, before); }
      } else if q != NO_PAGE {
        LodgesAtFirst(m, h);
      }
    }
  }

  /** A larger buffer holds whatever a smaller one holds. */
  lemma KeptGrows(h: seq<int>, p: int, n: nat, m: nat)
    requires n <= m && Kept(h, p, n)
    ensures Kept(h, p, m)
  {
    if n < m && p == NO_PAGE { LodgesGrow(n, m, h); }
  }

  // ----- when that is least recently used -----

  /** Page `p` is one of the `n` most recently used, page 0 counted like any other; as long as page 0 has not been
      used, slots left over look like it. */
  ghost predicate MostRecent(h: seq<int>, p: int, n: nat) {
    Top(h, p, n) || (p == NO_PAGE && NO_PAGE !in h && Used(h) < n)
  }

  /** After `h` the buffer holds exactly the most recently used pages. */
  ghost predicate InOrder(h: seq<int>, n: nat) {
    forall p :: Kept(h, p, n) <==> MostRecent(h, p, n)
  }

  /** A reference that leaves the order alone: not one to a page outside the `n` most recently used while page 0 is
      among them but not the last of them. */
  predicate KeepsOrder(h: seq<int>, q: int, n: nat) {
    || |Stack(h)| < n
    || (q in h && Rank(h, q) < n)
    || !(NO_PAGE in h && Rank(h, NO_PAGE) < n - 1)
  }

  /** A reference to one of the most recent pages leaves the same pages most recent. */
  lemma TopHit(h: seq<int>, q: int, n: nat, p: int)
    requires Top(h, q, n)
    ensures Top(h + [q], p, n) <==> Top(h, p, n)
  {
    if p in h { RankStep(h, q, p); }
  }

  /** A reference to another page puts out the page of rank `n - 1`. */
  lemma TopMiss(h: seq<int>, q: int, n: nat, p: int)
    requires n > 0 && !Top(h, q, n)
    ensures Top(h + [q], p, n) <==> p == q || (Top(h, p, n) && Rank(h, p) != n - 1)
  {
    if p in h || p == q { RankStep(h, q, p); }
  }

  lemma OrderHit(h: seq<int>, q: int, n: nat)
    requires n > 0 && InOrder(h, n) && Kept(h, q, n)
    ensures InOrder(h + [q], n)
  {
    StackMembers(h);
    UsedStep(h, q);
    forall p ensures Kept(h + [q], p, n) <==> MostRecent(h + [q], p, n) {
      KeptHit(h, q, n, p);
      if Top(h, q, n) {
        TopHit(h, q, n, p);
      } else {
        TopMiss(h, q, n, p);
        if p in h { RankBound(h, p); }
      }
    }
  }

  lemma OrderLodging(h: seq<int>, q: int, n: nat)
    requires n > 0 && InOrder(h, n) && !Kept(h, q, n) && Lodges(n, h)
    ensures InOrder(h + [q], n) <==> KeepsOrder(h, q, n)
  {
    StackMembers(h);
    UsedStep(h, q);
    assert Kept(h, NO_PAGE, n) && q != NO_PAGE && !Top(h, q, n);
    if q in h { RankBound(h, q); }
    if KeepsOrder(h, q, n) {
      forall p ensures Kept(h + [q], p, n) <==> MostRecent(h + [q], p, n) {
        KeptLodging(h, q, n, p);
        TopMiss(h, q, n, p);
        if p in h { RankBound(h, p); }
        if NO_PAGE in h && p in h && Rank(h, p) == Rank(h, NO_PAGE) { RankInjective(h, p, NO_PAGE); }
      }
    } else {
      KeptLodging(h, q, n, NO_PAGE);
      TopMiss(h, q, n, NO_PAGE);
      assert Kept(h + [q], NO_PAGE, n) != Top(h + [q], NO_PAGE, n);
    }
  }

  lemma OrderFull(h: seq<int>, q: int, n: nat)
    requires n > 0 && InOrder(h, n) && !Kept(h, q, n) && !Lodges(n, h)
    ensures InOrder(h + [q], n) && KeepsOrder(h, q, n)
  {
    UsedStep(h, q);
    if Used(h) < n { LodgesAtFirst(n, h); }
    assert !Kept(h, NO_PAGE, n) && !Top(h, NO_PAGE, n);
    forall p ensures Kept(h + [q], p, n) <==> MostRecent(h + [q], p, n) {
      KeptFull(h, q, n, p);
      TopMiss(h, q, n, p);
    }
  }

  /** From an exact buffer, one more reference leaves it exact precisely when it keeps the order. */
  lemma OrderStep(h: seq<int>, q: int, n: nat)
    requires n > 0 && InOrder(h, n)
    ensures InOrder(h + [q], n) <==> KeepsOrder(h, q, n)
  {
    if Kept(h, q, n) {
      OrderHit(h, q, n);
      assert q != NO_PAGE ==> Top(h, q, n);
    } else if Lodges(n, h) {
      OrderLodging(h, q, n);
    } else {
      OrderFull(h, q, n);
    }
  }

  /** All references keep the order: a test on the references alone. */
  predicate OrderKept(h: seq<int>, n: nat) {
    h == [] || (OrderKept(h[..|h| - 1], n) && KeepsOrder(h[..|h| - 1], h[|h| - 1], n))
  }

  /** The buffer is least recently used throughout exactly when every reference keeps the order. */
  lemma {:induction false} OrderExactly(h: seq<int>, n: nat)
    requires n > 0
    ensures (forall m :: 0 <= m <= |h| ==> InOrder(h[..m], n)) <==> OrderKept(h, n)
  {
    if h == [] {
      assert h[..0] == [];
    } else {
      var before, q := h[..|h| - 1], h[|h| - 1];
      assert h[..|h|] == h == before + [q];
      assert forall m :: 0 <= m <= |before| ==> before[..m] == h[..m];
      OrderExactly(before, n);
      if InOrder(before[..|before|], n) {
        assert before[..|before|] == before;
        OrderStep(before, q, n);
      }
    }
  }

  /** Without page 0 every reference keeps the order. */
  lemma {:induction false} OrderWithoutZero(h: seq<int>, n: nat)
    requires NO_PAGE !in h
    ensures OrderKept(h, n)
  {
    if h == [] {
    } else {
      assert h == h[..|h| - 1] + [h[|h| - 1]];
      OrderWithoutZero(h[..|h| - 1], n);
    }
  }

  // ----- the buffer keeps it -----

  /** After the references `h` the first `k` slots have been filled, with distinct pages; the others look like page 0;
      and the buffer holds exactly the pages it should. */
  ghost predicate LruPages(pages: seq<int>, h: seq<int>, k: nat) {
    && k == (if Used(h) < |pages| then Used(h) else |pages|)
    && (forall i :: k <= i < |pages| ==> pages[i] == NO_PAGE)
    && (k < |pages| ==> forall i :: 0 <= i < k ==> pages[i] != NO_PAGE)
    && (forall i, j :: 0 <= i < j < k ==> pages[i] != pages[j])
    && (forall p :: p in pages <==> Kept(h, p, |pages|))
  }

  /** The age of a page other than page 0 is the number of references since it was last used. */
  ghost predicate LruAges(t: Table, h: seq<int>, k: nat)
    requires Sized(t) && k <= |t.pages|
  {
    forall i :: 0 <= i < k && t.pages[i] != NO_PAGE ==> t.ages[i] == |Since(h, t.pages[i])|
  }

  ghost predicate LruInv(t: Table, h: seq<int>, k: nat) {
    && Sized(t) && k <= |t.pages| && LruPages(t.pages, h, k) && LruAges(t, h, k)
  }

  /** No two pages of the buffer have the same age, page 0 apart. */
  lemma AgesDistinct(t: Table, h: seq<int>, k: nat, i: nat, j: nat)
    requires LruInv(t, h, k) && i < k && j < k && i != j && t.pages[i] != NO_PAGE && t.pages[j] != NO_PAGE
    ensures t.ages[i] != t.ages[j]
  {
    assert t.pages[i] in t.pages && t.pages[j] in t.pages;
    assert Kept(h, t.pages[i], |t.pages|) && Kept(h, t.pages[j], |t.pages|);
    RankAndAge(h, t.pages[i], t.pages[j]);
    RankAndAge(h, t.pages[j], t.pages[i]);
    if Rank(h, t.pages[i]) == Rank(h, t.pages[j]) { RankInjective(h, t.pages[i], t.pages[j]); }
  }

  lemma LruHit(t: Table, h: seq<int>, k: nat, q: int, frame: int)
    requires LruInv(t, h, k) && q in t.pages
    ensures LruInv(LruInsert(t, q, frame), h + [q], k)
  {
    var r := LruInsert(t, q, frame);
    assert Kept(h, q, |t.pages|);
    UsedStep(h, q);
    forall p ensures Kept(h + [q], p, |t.pages|) <==> Kept(h, p, |t.pages|) { KeptHit(h, q, |t.pages|, p); }
    forall i | 0 <= i < k && t.pages[i] != NO_PAGE ensures r.ages[i] == |Since(h + [q], r.pages[i])| {
      SinceStep(h, q, t.pages[i]);
    }
  }

  /** The ages once a page that was not there is in slot `v`. */
  lemma LruPut(t: Table, h: seq<int>, k: nat, q: int, frame: int, v: nat)
    requires LruInv(t, h, k) && q !in t.pages && v == Victim(t, q) && v <= k
    ensures LruAges(LruInsert(t, q, frame), h + [q], if v == k then k + 1 else k)
  {
    var r := LruInsert(t, q, frame);
    SinceStep(h, q, q);
    forall i | 0 <= i < k && i != v && t.pages[i] != NO_PAGE ensures r.ages[i] == |Since(h + [q], r.pages[i])| {
      SinceStep(h, q, t.pages[i]);
    }
  }

  lemma UpdateMembers(s: seq<int>, v: nat, q: int, p: int)
    requires v < |s|
    ensures p == q || (p in s && p != s[v]) ==> p in s[v := q]
    ensures p in s[v := q] ==> p == q || exists i :: 0 <= i < |s| && i != v && s[i] == p
  {
    var r := s[v := q];
    assert r[v] == q;
    if p in s && p != s[v] {
      var i :| 0 <= i < |s| && s[i] == p;
      assert r[i] == p;
    }
    if p in r && p != q {
      var i :| 0 <= i < |r| && r[i] == p;
      assert i != v && s[i] == p;
    }
  }

  /** A page that is not there fills the first slot left over. */
  lemma LruFill(t: Table, h: seq<int>, k: nat, q: int, frame: int)
    requires LruInv(t, h, k) && q !in t.pages && k < |t.pages|
    ensures LruInv(LruInsert(t, q, frame), h + [q], k + 1)
  {
    var n, r := |t.pages|, LruInsert(t, q, frame);
    assert t.pages[k] == NO_PAGE && Find(t.pages, NO_PAGE) == k;
    LodgesAtFirst(n, h);
    if q in h { DepthBound(h, q); }
    UsedStep(h, q);
    LruPut(t, h, k, q, frame, k);
    forall p ensures p in r.pages <==> Kept(h + [q], p, n) {
      KeptLodging(h, q, n, p);
      UpdateMembers(t.pages, k, q, p);
      if k + 1 < n { assert r.pages[k + 1] == NO_PAGE; }
    }
  }

  /** With all slots filled, a page that is not there takes the slot of page 0. */
  lemma LruEvictZero(t: Table, h: seq<int>, q: int, frame: int)
    requires LruInv(t, h, |t.pages|) && q !in t.pages && NO_PAGE in t.pages
    ensures LruInv(LruInsert(t, q, frame), h + [q], |t.pages|)
  {
    var n, r, v := |t.pages|, LruInsert(t, q, frame), Find(t.pages, NO_PAGE);
    UsedStep(h, q);
    LruPut(t, h, n, q, frame, v);
    forall p ensures p in r.pages <==> Kept(h + [q], p, n) {
      KeptLodging(h, q, n, p);
      UpdateMembers(t.pages, v, q, p);
    }
  }

  /** Among enough pages there is one of every depth. */
  lemma PageAtDepth(h: seq<int>, d: nat) returns (p: int)
    requires d < Used(h)
    ensures p in h && p != NO_PAGE && Depth(h, p) == d
  {
    StackMembers(h);
    var i := if NO_PAGE in h && Rank(h, NO_PAGE) <= d then d + 1 else d;
    p := Stack(h)[i];
    assert Rank(h, p) == i;
  }

  /** With all slots filled and page 0 not there, the oldest entry is the deepest page held. */
  lemma OldestIsDeepest(t: Table, h: seq<int>, q: int)
    requires LruInv(t, h, |t.pages|) && q !in t.pages && NO_PAGE !in t.pages
    ensures t.pages[Victim(t, q)] in h && Depth(h, t.pages[Victim(t, q)]) == |t.pages| - 1
  {
    var n := |t.pages|;
    var last := PageAtDepth(h, n - 1);
    assert Kept(h, last, n);
    var v, j := Victim(t, q), Find(t.pages, last);
    assert t.pages[v] in t.pages;
    assert Kept(h, t.pages[v], n);
    assert Aged(t, q)[j] <= Aged(t, q)[v];
    assert Aged(t, q)[j] == |Since(h, last)| + 1 && Aged(t, q)[v] == |Since(h, t.pages[v])| + 1;
    RankAndAge(h, t.pages[v], last);
  }

  lemma LruEvictOldest(t: Table, h: seq<int>, q: int, frame: int)
    requires LruInv(t, h, |t.pages|) && q !in t.pages && NO_PAGE !in t.pages
    ensures LruInv(LruInsert(t, q, frame), h + [q], |t.pages|)
  {
    var n, r, v := |t.pages|, LruInsert(t, q, frame), Victim(t, q);
    OldestIsDeepest(t, h, q);
    UsedStep(h, q);
    LruPut(t, h, n, q, frame, v);
    forall p ensures p in r.pages <==> Kept(h + [q], p, n) {
      KeptFull(h, q, n, p);
      UpdateMembers(t.pages, v, q, p);
      if Kept(h, p, n) && Depth(h, p) == n - 1 { DepthInjective(h, p, t.pages[v]); }
    }
  }

  /** LRU insertion of any page keeps the buffer exact. */
  lemma LruStep(t: Table, h: seq<int>, k: nat, q: int, frame: int)
    requires LruInv(t, h, k)
    ensures LruInv(LruInsert(t, q, frame), h + [q], LruWritten(t, q, k))
  {
    if q in t.pages {
      LruHit(t, h, k, q, frame);
    } else if k < |t.pages| {
      assert t.pages[k] == NO_PAGE && Find(t.pages, NO_PAGE) == k;
      LruFill(t, h, k, q, frame);
    } else if NO_PAGE in t.pages {
      LruEvictZero(t, h, q, frame);
    } else {
      LruEvictOldest(t, h, q, frame);
    }
  }

  /** Page 0 in a full buffer is taken for an empty slot: the next page to come in puts it out, however recent it is. */
  lemma PageZeroGoesFirst(t: Table, frame: int, q: int, frame': int)
    requires Sized(t) && NO_PAGE !in t.pages && q != NO_PAGE && q !in t.pages
    ensures NO_PAGE in LruInsert(t, NO_PAGE, frame).pages
    ensures q !in LruInsert(t, NO_PAGE, frame).pages ==>
              NO_PAGE !in LruInsert(LruInsert(t, NO_PAGE, frame), q, frame').pages
  {
    var v := Victim(t, NO_PAGE);
    var once := LruInsert(t, NO_PAGE, frame);
    assert once.pages == t.pages[v := NO_PAGE] && once.pages[v] == NO_PAGE;
    if q !in once.pages {
      assert Victim(once, q) == v;
    }
  }
}
