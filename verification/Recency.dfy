/**
 Reference histories: how recently, and how many references ago, each page was used.
 This is the yardstick for the least-recently-used policy; it knows nothing of caches.
 */
module Recency {
  import opened Sequences

  function Without(s: seq<int>, x: int): seq<int> {
    if s == [] then [] else if s[0] == x then Without(s[1..], x) else [s[0]] + Without(s[1..], x)
  }

  /** The pages referenced in `h`, the most recently used first. */
  function Stack(h: seq<int>): seq<int> {
    if h == [] then [] else [h[|h| - 1]] + Without(Stack(h[..|h| - 1]), h[|h| - 1])
  }

  /** How many other pages have been used more recently than `p`. */
  function Rank(h: seq<int>, p: int): nat {
    Find(Stack(h), p)
  }

  /** The references since the last one to `p`. */
  function Since(h: seq<int>, p: int): seq<int> {
    if h == [] || h[|h| - 1] == p then [] else Since(h[..|h| - 1], p) + [h[|h| - 1]]
  }

  lemma {:induction false} FindWithout(s: seq<int>, x: int, p: int)
    requires Distinct(s) && p != x
    ensures p in Without(s, x) <==> p in s
    ensures p in s ==> Find(Without(s, x), p) == if Find(s, x) < Find(s, p) then Find(s, p) - 1 else Find(s, p)
  {
    if s == [] {
    } else {
      assert s == [s[0]] + s[1..];
      FindWithout(s[1..], x, p);
      if s[0] == x { Absent(s[1..], x); }
      assert s[0] != x ==> Without(s, x)[1..] == Without(s[1..], x);
    }
  }

  lemma {:induction false} Absent(s: seq<int>, x: int)
    requires x !in s
    ensures Without(s, x) == s
  {
    if s == [] {
    } else {
      Absent(s[1..], x);
    }
  }

  lemma {:induction false} WithoutMembers(s: seq<int>, x: int)
    requires Distinct(s)
    ensures Distinct(Without(s, x)) && x !in Without(s, x)
    ensures forall p :: p in Without(s, x) ==> p in s
    ensures |Without(s, x)| == if x in s then |s| - 1 else |s|
  {
    if s == [] {
    } else {
      assert s == [s[0]] + s[1..];
      WithoutMembers(s[1..], x);
      assert s[0] !in s[1..];
      assert s[0] !in Without(s[1..], x);
    }
  }

  lemma {:induction false} StackMembers(h: seq<int>)
    ensures Distinct(Stack(h))
    ensures forall p :: p in Stack(h) <==> p in h
  {
    if h == [] {
    } else {
      var front, q := h[..|h| - 1], h[|h| - 1];
      assert h == front + [q];
      StackMembers(front);
      WithoutMembers(Stack(front), q);
      forall p | p != q ensures p in Stack(h) <==> p in h { FindWithout(Stack(front), q, p); }
    }
  }

  lemma StackStep(h: seq<int>, q: int)
    ensures Stack(h + [q]) == [q] + Without(Stack(h), q)
    ensures |Stack(h + [q])| == |Stack(h)| + if q in h then 0 else 1
  {
    assert (h + [q])[..|h|] == h;
    StackMembers(h);
    WithoutMembers(Stack(h), q);
  }

  lemma FindBehind(s: seq<int>, q: int, p: int)
    requires p != q
    ensures Find([q] + s, p) == Find(s, p) + 1
  {
    assert ([q] + s)[1..] == s;
  }

  /** One more reference, to `q`: `q` comes first and pages that were ahead of it fall behind by one. */
  lemma RankStep(h: seq<int>, q: int, p: int)
    requires p in h || p == q
    ensures Rank(h + [q], p) ==
            if p == q then 0 else if q in h && Rank(h, q) < Rank(h, p) then Rank(h, p) else Rank(h, p) + 1
    ensures |Stack(h + [q])| == |Stack(h)| + if q in h then 0 else 1
  {
    StackStep(h, q);
    if p != q {
      StackMembers(h);
      FindWithout(Stack(h), q, p);
      FindBehind(Without(Stack(h), q), q, p);
    }
  }

  lemma SinceStep(h: seq<int>, q: int, p: int)
    ensures Since(h + [q], p) == if p == q then [] else Since(h, p) + [q]
  {
    assert (h + [q])[..|h|] == h;
  }

  lemma RankBound(h: seq<int>, p: int)
    requires p in h
    ensures Rank(h, p) < |Stack(h)|
  {
    StackMembers(h);
  }

  lemma RankInjective(h: seq<int>, p: int, q: int)
    requires p in h && q in h && Rank(h, p) == Rank(h, q)
    ensures p == q
  {
    StackMembers(h);
  }

  /** The order of use and the time since the last use agree. */
  lemma {:induction false} RankAndAge(h: seq<int>, p: int, q: int)
    requires p in h && q in h
    ensures Rank(h, p) < Rank(h, q) <==> |Since(h, p)| < |Since(h, q)|
    ensures p != q ==> (p in Since(h, q) <==> Rank(h, p) < Rank(h, q))
  {
    if p != q {
      var front, x := h[..|h| - 1], h[|h| - 1];
      assert h == front + [x];
      RankStep(front, x, p);
      RankStep(front, x, q);
      SinceStep(front, x, p);
      SinceStep(front, x, q);
      if p != x && q != x {
        RankAndAge(front, p, q);
        if Rank(front, p) == Rank(front, q) { RankInjective(front, p, q); }
        if x in front && (Rank(front, x) == Rank(front, p)) { RankInjective(front, x, p); }
        if x in front && (Rank(front, x) == Rank(front, q)) { RankInjective(front, x, q); }
      }
    }
  }

  /** The rank of a page is its reuse distance: the number of distinct pages referenced since its last use. */
  lemma {:induction false} RankIsReuseDistance(h: seq<int>, p: int)
    requires p in h
    ensures Rank(h, p) == |Elems(Since(h, p))|
  {
    var front, q := h[..|h| - 1], h[|h| - 1];
    assert h == front + [q];
    RankStep(front, q, p);
    SinceStep(front, q, p);
    if p == q {
      assert Elems(Since(h, p)) == {};
    } else {
      RankIsReuseDistance(front, p);
      assert Elems(Since(h, p)) == Elems(Since(front, p)) + {q};
      if q in front {
        RankAndAge(front, q, p);
      } else {
        SinceWithin(front, p);
      }
    }
  }

  lemma {:induction false} SinceWithin(h: seq<int>, p: int)
    ensures forall x :: x in Since(h, p) ==> x in h
  {
    if h == [] {
    } else {
      SinceWithin(h[..|h| - 1], p);
    }
  }
}
