/**
 The first-fit allocator of A7/malloc.c as functions on lists of blocks.
 A block is a header of `H` bytes (sizeof(struct block)) at offset `at` of the heap, followed by `size` bytes of
 payload; the heap is `end` bytes long (HER).
 */
module Blocks {
  import opened Sequences

  datatype Block = Block(at: nat, size: nat, free: bool)

  // ----- layout -----

  /** The blocks cover the heap from `from` to `end` without gap or overlap, header and payload by turns. */
  ghost predicate Tiles(b: seq<Block>, from: nat, end: nat, H: nat) {
    if b == [] then from == end else b[0].at == from && Tiles(b[1..], from + H + b[0].size, end, H)
  }

  /** The space of headers and payloads together. */
  ghost function Space(b: seq<Block>, H: nat): nat {
    if b == [] then 0 else b[0].size + H + Space(b[1..], H)
  }

  lemma {:induction false} TilesSplit(a: seq<Block>, b: seq<Block>, from: nat, end: nat, H: nat)
    ensures Tiles(a + b, from, end, H) <==> Tiles(a, from, from + Space(a, H), H) && Tiles(b, from + Space(a, H), end, H)
  {
    if a == [] {
      assert a + b == b;
    } else {
      assert (a + b)[1..] == a[1..] + b;
      TilesSplit(a[1..], b, from + H + a[0].size, end, H);
    }
  }

  /** The sizes and headers of a tiling add up to the heap. */
  lemma {:induction false} TilesSpace(b: seq<Block>, from: nat, end: nat, H: nat)
    requires Tiles(b, from, end, H)
    ensures from + Space(b, H) == end
  {
    if b == [] {
    } else {
      TilesSpace(b[1..], from + H + b[0].size, end, H);
    }
  }

  lemma {:induction false} TilesWithin(b: seq<Block>, from: nat, end: nat, H: nat, i: nat)
    requires Tiles(b, from, end, H) && i < |b|
    ensures from <= b[i].at && b[i].at + H + b[i].size <= end
  {
    TilesSpace(b, from, end, H);
    if i == 0 {
    } else {
      TilesWithin(b[1..], from + H + b[0].size, end, H, i - 1);
    }
  }

  /** Two blocks of a tiling have nothing in common: the earlier one ends before the later one's header. */
  lemma {:induction false} TilesApart(b: seq<Block>, from: nat, end: nat, H: nat, i: nat, j: nat)
    requires Tiles(b, from, end, H) && i < j < |b|
    ensures b[i].at + H + b[i].size <= b[j].at
  {
    if i == 0 {
      TilesWithin(b[1..], from + H + b[0].size, end, H, j - 1);
    } else {
      TilesApart(b[1..], from + H + b[0].size, end, H, i - 1, j - 1);
    }
  }

  // ----- merging -----

  predicate NoAdjacentFree(b: seq<Block>) {
    forall i :: 0 <= i < |b| - 1 ==> !(b[i].free && b[i + 1].free)
  }

  function Joined(x: Block, y: Block, H: nat): Block {
    x.(size := x.size + y.size + H)
  }

  /** One pass over the list: two free neighbours become one, and the pass moves on past them. */
  function MergePass(b: seq<Block>, H: nat): (r: seq<Block>)
    ensures |r| <= |b| && (b != [] ==> r != [])
  {
    if |b| < 2 then b
    else if b[0].free && b[1].free then [Joined(b[0], b[1], H)] + MergePass(b[2..], H)
    else [b[0]] + MergePass(b[1..], H)
  }

  /** The pass consumes the whole list by a merge, so it steps off the end. */
  predicate StepsOff(b: seq<Block>) {
    if |b| < 2 then b == []
    else if b[0].free && b[1].free then StepsOff(b[2..])
    else StepsOff(b[1..])
  }

  /** One turn of the pass, with the part of the list done so far in front. */
  lemma PassTurn(done: seq<Block>, rest: seq<Block>, H: nat)
    requires |rest| >= 2
    ensures rest[0].free && rest[1].free ==>
              done + MergePass(rest, H) == done + [Joined(rest[0], rest[1], H)] + MergePass(rest[2..], H)
    ensures !(rest[0].free && rest[1].free) ==>
              done + MergePass(rest, H) == done + [rest[0]] + MergePass(rest[1..], H)
    ensures StepsOff(rest) == StepsOff(if rest[0].free && rest[1].free then rest[2..] else rest[1..])
  {
    if rest[0].free && rest[1].free {
      Regroup(done, [Joined(rest[0], rest[1], H)], MergePass(rest[2..], H));
    } else {
      Regroup(done, [rest[0]], MergePass(rest[1..], H));
    }
  }

  lemma Regroup(a: seq<Block>, b: seq<Block>, c: seq<Block>)
    ensures a + (b + c) == a + b + c
  {
  }

  /** The number of free blocks at the front. */
  function Run(b: seq<Block>): (k: nat)
    ensures k <= |b|
  {
    if b == [] || !b[0].free then 0 else 1 + Run(b[1..])
  }

  /** The number of free blocks at the back. */
  function TrailingRun(b: seq<Block>): (k: nat)
    ensures k <= |b|
  {
    if b == [] || !b[|b| - 1].free then 0 else 1 + TrailingRun(b[..|b| - 1])
  }

  function LongestRun(b: seq<Block>): (k: nat)
    decreases |b|
  {
    if b == [] then 0
    else if Run(b) == 0 then LongestRun(b[1..])
    else if Run(b) >= LongestRun(b[Run(b)..]) then Run(b) else LongestRun(b[Run(b)..])
  }

  /** A pass turns a run of `k` free blocks at the front into half as many, rounded up,
      and does to the rest what it would do without that run. */
  lemma {:induction false} PassOnRun(b: seq<Block>, H: nat)
    ensures Run(MergePass(b, H)) == (Run(b) + 1) / 2
    ensures MergePass(b, H)[(Run(b) + 1) / 2..] == MergePass(b[Run(b)..], H)
    decreases |b|
  {
    if |b| < 2 {
      if Run(b) == 1 { assert b[1..] == []; }
    } else if b[0].free && b[1].free {
      PassOnRun(b[2..], H);
      assert Run(b) == 2 + Run(b[2..]);
      assert b[2..][Run(b[2..])..] == b[Run(b)..];
    } else if b[0].free {
      assert Run(b) == 1 && Run(b[1..]) == 0;
      PassOnRun(b[1..], H);
    }
  }

  /** Where an allocated block separates two parts of the list, a pass does to each what it does to it alone. */
  lemma {:induction false} PassSplit(a: seq<Block>, c: seq<Block>, H: nat)
    requires a == [] || c == [] || !a[|a| - 1].free || !c[0].free
    ensures MergePass(a + c, H) == MergePass(a, H) + MergePass(c, H)
    ensures c != [] ==> (StepsOff(a + c) <==> StepsOff(c))
    decreases |a|
  {
    if a == [] {
      assert a + c == c;
    } else if c == [] {
      assert a + c == a;
    } else {
      var pair := |a| >= 2 && a[0].free && a[1].free;
      var k := if pair then 2 else 1;
      assert (a + c)[k..] == a[k..] + c;
      PassSplit(a[k..], c, H);
      var x := if pair then Joined(a[0], a[1], H) else a[0];
      assert MergePass(a, H) == [x] + MergePass(a[k..], H);
      assert MergePass(a + c, H) == [x] + MergePass(a[k..] + c, H);
      Regroup([x], MergePass(a[k..], H), MergePass(c, H));
    }
  }

  lemma {:induction false} PassOnFree(run: seq<Block>, H: nat)
    requires forall i :: 0 <= i < |run| ==> run[i].free
    ensures |MergePass(run, H)| == (|run| + 1) / 2
    ensures forall i :: 0 <= i < |MergePass(run, H)| ==> MergePass(run, H)[i].free
    decreases |run|
  {
    if |run| < 2 {
    } else {
      PassOnFree(run[2..], H);
    }
  }

  /** In a run of free blocks the pass joins the first two, the next two, and so on. */
  lemma {:induction false} PassPairs(run: seq<Block>, H: nat, j: nat)
    requires (forall i :: 0 <= i < |run| ==> run[i].free) && 2 * j < |run|
    ensures j < |MergePass(run, H)| && MergePass(run, H)[j].at == run[2 * j].at
    ensures MergePass(run, H)[j].size == run[2 * j].size + if 2 * j + 1 < |run| then H + run[2 * j + 1].size else 0
    decreases |run|
  {
    PassOnFree(run, H);
    if j > 0 {
      PassPairs(run[2..], H, j - 1);
      assert run[2..][2 * (j - 1)] == run[2 * j];
    }
  }

  /** A pass turns each maximal run of free blocks, wherever it is, into half as many, rounded up, and treats what comes
      before and after as if the run were not there. */
  lemma PassOnEveryRun(a: seq<Block>, run: seq<Block>, c: seq<Block>, H: nat)
    requires a == [] || !a[|a| - 1].free
    requires c == [] || !c[0].free
    requires forall i :: 0 <= i < |run| ==> run[i].free
    ensures MergePass(a + run + c, H) == MergePass(a, H) + MergePass(run, H) + MergePass(c, H)
    ensures |MergePass(run, H)| == (|run| + 1) / 2
    ensures forall i :: 0 <= i < |MergePass(run, H)| ==> MergePass(run, H)[i].free
  {
    PassSplit(a, run, H);
    PassSplit(a + run, c, H);
    PassOnFree(run, H);
  }

  function Allocated(b: seq<Block>): seq<Block> {
    if b == [] then [] else if b[0].free then Allocated(b[1..]) else [b[0]] + Allocated(b[1..])
  }

  /** A pass keeps the tiling and every allocated block, with its address and size. */
  lemma {:induction false} PassKeeps(b: seq<Block>, from: nat, end: nat, H: nat)
    requires Tiles(b, from, end, H)
    ensures Tiles(MergePass(b, H), from, end, H)
    ensures Allocated(MergePass(b, H)) == Allocated(b)
    decreases |b|
  {
    if |b| < 2 {
    } else {
      if b[0].free && b[1].free {
        PassKeeps(b[2..], from + H + b[0].size + H + b[1].size, end, H);
        assert b[1..][1..] == b[2..];
      } else {
        PassKeeps(b[1..], from + H + b[0].size, end, H);
      }
    }
  }

  lemma {:induction false} PassHalves(b: seq<Block>, H: nat)
    ensures LongestRun(MergePass(b, H)) == (LongestRun(b) + 1) / 2
    decreases |b|
  {
    if b == [] {
    } else {
      PassOnRun(b, H);
      if Run(b) == 0 {
        PassHalves(b[1..], H);
        assert MergePass(b, H)[1..] == MergePass(b[1..], H);
      } else {
        PassHalves(b[Run(b)..], H);
      }
    }
  }

  lemma {:induction false} ShortRuns(b: seq<Block>)
    ensures NoAdjacentFree(b) <==> LongestRun(b) <= 1
    decreases |b|
  {
    if b == [] {
    } else {
      ShortRuns(b[1..]);
      assert NoAdjacentFree(b) <==> NoAdjacentFree(b[1..]) && (|b| < 2 || !(b[0].free && b[1].free));
      if Run(b) > 0 {
        LongestWithoutFirst(b);
      }
    }
  }

  lemma LongestWithoutFirst(b: seq<Block>)
    requires Run(b) > 0
    ensures Run(b) == 1 ==> LongestRun(b[1..]) == LongestRun(b[Run(b)..])
    ensures Run(b) >= 2 ==> |b| >= 2 && b[0].free && b[1].free
    ensures Run(b) == 1 ==> |b| < 2 || !b[1].free
  {
  }

  function Passes(b: seq<Block>, m: nat, H: nat): seq<Block>
    decreases m
  {
    if m == 0 then b else Passes(MergePass(b, H), m - 1, H)
  }

  function Power2(m: nat): nat {
    if m == 0 then 1 else 2 * Power2(m - 1)
  }

  /** How many frees it takes: `m` passes leave no two free neighbours exactly when no run is longer than 2^m. */
  lemma {:induction false} PassesNeeded(b: seq<Block>, m: nat, H: nat)
    ensures NoAdjacentFree(Passes(b, m, H)) <==> LongestRun(b) <= Power2(m)
    decreases m
  {
    if m == 0 {
      ShortRuns(b);
    } else {
      PassHalves(b, H);
      PassesNeeded(MergePass(b, H), m - 1, H);
    }
  }

  /** A pass changes nothing exactly when there is nothing to merge. */
  lemma {:induction false} PassFixed(b: seq<Block>, H: nat)
    ensures MergePass(b, H) == b <==> NoAdjacentFree(b)
    ensures MergePass(b, H) != b ==> |MergePass(b, H)| < |b|
    decreases |b|
  {
    if |b| < 2 {
    } else {
      PassFixed(b[1..], H);
      if !(b[0].free && b[1].free) {
        assert b == [b[0]] + b[1..];
        assert NoAdjacentFree(b) <==> NoAdjacentFree(b[1..]);
      }
    }
  }

  /** The pass steps off the end exactly when the heap ends in a run of free blocks of even length. */
  lemma {:induction false} StepsOffExactly(b: seq<Block>)
    ensures StepsOff(b) <==> b == [] || (TrailingRun(b) > 0 && TrailingRun(b) % 2 == 0)
    decreases |b|
  {
    if |b| == 1 {
      assert b[..0] == [];
    } else if |b| >= 2 {
      var k := if b[0].free && b[1].free then 2 else 1;
      StepsOffExactly(b[k..]);
      TrailingOfTail(b, k);
      AllFree(b[k..]);
      assert b[..1][..0] == [] && (k == 2 ==> b[..2][..1] == b[..1]);
      assert TrailingRun(b[..1]) == if b[0].free then 1 else 0;
      assert k == 2 ==> TrailingRun(b[..k]) == 2;
    }
  }

  lemma {:induction false} AllFree(b: seq<Block>)
    ensures TrailingRun(b) == |b| && b != [] ==> b[0].free
  {
    if |b| <= 1 {
    } else {
      AllFree(b[..|b| - 1]);
    }
  }

  lemma {:induction false} TrailingOfTail(b: seq<Block>, k: nat)
    requires k <= |b|
    ensures TrailingRun(b[k..]) <= |b| - k
    ensures TrailingRun(b[k..]) < |b| - k ==> TrailingRun(b) == TrailingRun(b[k..])
    ensures TrailingRun(b[k..]) == |b| - k ==> TrailingRun(b) == TrailingRun(b[..k]) + |b| - k
  {
    if k == |b| {
      assert b[..k] == b;
    } else {
      var n := |b| - 1;
      assert b[k..][..n - k] == b[..n][k..] && b[..n][..k] == b[..k];
      TrailingOfTail(b[..n], k);
    }
  }

  // ----- allocation -----

  predicate Fits(x: Block, n: nat) {
    x.free && x.size >= n
  }

  predicate HasFit(b: seq<Block>, n: nat) {
    exists i :: 0 <= i < |b| && Fits(b[i], n)
  }

  /** Where the search for `n` bytes stops: at a block that fits, or at the last block. */
  function Pick(b: seq<Block>, n: nat): (i: nat)
    requires b != []
    ensures i < |b|
  {
    if |b| == 1 || Fits(b[0], n) then 0 else 1 + Pick(b[1..], n)
  }

  /** The search is first fit. */
  lemma {:induction false} PickIsFirstFit(b: seq<Block>, n: nat)
    requires b != []
    ensures forall j :: 0 <= j < Pick(b, n) ==> !Fits(b[j], n)
    ensures HasFit(b, n) ==> Fits(b[Pick(b, n)], n)
    ensures !HasFit(b, n) ==> Pick(b, n) == |b| - 1
  {
    if |b| > 1 && !Fits(b[0], n) {
      PickIsFirstFit(b[1..], n);
      assert forall j :: 0 < j < |b| ==> b[j] == b[1..][j - 1];
      if HasFit(b, n) {
        var i :| 0 <= i < |b| && Fits(b[i], n);
        assert b[1..][i - 1] == b[i];
      }
    }
  }

  /** The number of values of size_t. */
  const WORD := 0x1_0000_0000_0000_0000

  type Size = n: nat | n < WORD

  /** The test for room, in machine words of `limit` values. */
  predicate LooksRoomy(size: nat, n: nat, H: nat, limit: nat)
    requires limit > 0
  {
    size > (n + H) % limit
  }

  /** The blocks after a request, and the payload address it returns. */
  datatype Outcome = Outcome(blocks: seq<Block>, result: Option<nat>)

  /** Hands out block `i`, whole or split, without asking whether it is free. Sizes are machine words: where the request
      and a header wrap around, so do the place and the size of what is left over. */
  function Place(b: seq<Block>, i: nat, n: nat, H: nat): Outcome
    requires i < |b|
  {
    var x := b[i];
    if x.size == n then
      Outcome(b[i := x.(free := false)], Some(x.at + H))
    else if LooksRoomy(x.size, n, H, WORD) then
      var used := (n + H) % WORD;
      Outcome(b[..i] + [Block(x.at, n, false), Block(x.at + used, x.size - used, true)] + b[i + 1..], Some(x.at + H))
    else
      Outcome(b, None)
  }

  function Fresh(end: nat, H: nat): seq<Block>
    requires H <= end
  {
    [Block(0, end - H, true)]
  }

  /** The blocks that a request finds: a first block of size 0 is taken for a heap that was never set up. */
  function Ready(b: seq<Block>, end: nat, H: nat): (r: seq<Block>)
    requires b != [] && H <= end
    ensures r != []
  {
    if b[0].size == 0 then Fresh(end, H) else b
  }

  /** A request for `n` bytes. */
  function Malloc(b: seq<Block>, n: nat, end: nat, H: nat): Outcome
    requires b != [] && H <= end
  {
    var ready := Ready(b, end, H);
    Place(ready, Pick(ready, n), n, H)
  }

  /** Freeing block `i`. */
  function Free(b: seq<Block>, i: nat, H: nat): seq<Block>
    requires i < |b|
  {
    MergePass(b[i := b[i].(free := true)], H)
  }

  lemma {:induction false} UpdateSpace(b: seq<Block>, i: nat, x: Block, from: nat, end: nat, H: nat)
    requires Tiles(b, from, end, H) && i < |b| && x.at == b[i].at && x.size == b[i].size
    ensures Tiles(b[i := x], from, end, H)
  {
    if i > 0 {
      UpdateSpace(b[1..], i - 1, x, from + H + b[0].size, end, H);
      assert b[i := x][1..] == b[1..][i - 1 := x];
    } else {
      assert b[i := x][1..] == b[1..];
    }
  }

  /** Two blocks may take the place of one if they fill the same space. */
  lemma SplitTiles(a: seq<Block>, x: Block, c: seq<Block>, y: Block, z: Block, end: nat, H: nat)
    requires Tiles(a + ([x] + c), 0, end, H)
    requires y.at == x.at && z.at == x.at + H + y.size && y.size + H + z.size == x.size
    ensures Tiles(a + ([y, z] + c), 0, end, H)
  {
    TilesSplit(a, [x] + c, 0, end, H);
    assert ([x] + c)[1..] == c;
    assert ([y, z] + c)[1..] == [z] + c && ([z] + c)[1..] == c;
    TilesSplit(a, [y, z] + c, 0, end, H);
  }

  /** Block `i` cut down to `n` bytes, with a free block behind it. */
  function SplitAt(b: seq<Block>, i: nat, n: nat, H: nat): (r: seq<Block>)
    requires i < |b| && b[i].size > n + H
  {
    b[..i] + [Block(b[i].at, n, false), Block(b[i].at + n + H, b[i].size - n - H, true)] + b[i + 1..]
  }

  lemma PlaceSplits(b: seq<Block>, i: nat, n: nat, H: nat)
    requires i < |b| && n + H < WORD && b[i].size != n
    ensures b[i].size > n + H ==> Place(b, i, n, H) == Outcome(SplitAt(b, i, n, H), Some(b[i].at + H))
    ensures b[i].size <= n + H ==> Place(b, i, n, H) == Outcome(b, None)
  {
    assert (n + H) % WORD == n + H;
  }

  lemma SplitAtTiles(b: seq<Block>, i: nat, n: nat, end: nat, H: nat)
    requires i < |b| && b[i].size > n + H && Tiles(b, 0, end, H)
    ensures Tiles(SplitAt(b, i, n, H), 0, end, H)
  {
    var x, rest := b[i], b[i + 1..];
    var y, z := Block(x.at, n, false), Block(x.at + n + H, x.size - n - H, true);
    assert b == b[..i] + ([x] + rest);
    SplitTiles(b[..i], x, rest, y, z, end, H);
    assert SplitAt(b, i, n, H) == b[..i] + ([y, z] + rest);
  }

  /** Without wrap-around, splitting, exact fits and refusals all keep the heap covered. */
  lemma PlaceTiles(b: seq<Block>, i: nat, n: nat, end: nat, H: nat)
    requires i < |b| && Tiles(b, 0, end, H) && n + H < WORD
    ensures Tiles(Place(b, i, n, H).blocks, 0, end, H)
  {
    if b[i].size == n {
      UpdateSpace(b, i, b[i].(free := false), 0, end, H);
    } else {
      PlaceSplits(b, i, n, H);
      if b[i].size > n + H { SplitAtTiles(b, i, n, end, H); }
    }
  }

  /** A request so large that size and header wrap around, and the test lets it split the last block, which is too
      small for it. */
  predicate Overruns(b: seq<Block>, n: nat, end: nat, H: nat)
    requires b != [] && H <= end
  {
    Misjudged(Ready(b, end, H), n, H)
  }

  predicate Misjudged(b: seq<Block>, n: nat, H: nat)
    requires b != []
  {
    n + H >= WORD && LooksRoomy(b[|b| - 1].size, n, H, WORD)
  }

  /** No block is large enough for a request that wraps around, so the search ends at the last block, and the request
      should fail. */
  lemma HugeRequest(b: seq<Block>, n: nat, end: nat, H: nat)
    requires b != [] && end < WORD <= n + H && Tiles(b, 0, end, H)
    ensures !HasFit(b, n) && Pick(b, n) == |b| - 1 && b[|b| - 1].size < n
    ensures Place(b, |b| - 1, n, H).result.Some? <==> LooksRoomy(b[|b| - 1].size, n, H, WORD)
  {
    PickIsFirstFit(b, n);
    forall i | 0 <= i < |b| ensures b[i].size < n { TilesWithin(b, 0, end, H, i); }
  }

  lemma ReadyTiles(b: seq<Block>, end: nat, H: nat)
    requires b != [] && H < end && (Tiles(b, 0, end, H) || b[0].size == 0)
    ensures Tiles(Ready(b, end, H), 0, end, H)
  {
    assert Fresh(end, H)[1..] == [] && Tiles(Fresh(end, H)[1..], end, end, H);
  }

  /** A request keeps the heap covered exactly when it does not overrun the last block. */
  lemma MallocTiles(b: seq<Block>, n: Size, end: nat, H: nat)
    requires b != [] && H < end < WORD && (Tiles(b, 0, end, H) || b[0].size == 0)
    ensures Tiles(Malloc(b, n, end, H).blocks, 0, end, H) <==> !Overruns(b, n, end, H)
  {
    var ready := Ready(b, end, H);
    ReadyTiles(b, end, H);
    if n + H < WORD {
      PlaceTiles(ready, Pick(ready, n), n, end, H);
    } else {
      HugeRequest(ready, n, end, H);
      var r := Malloc(b, n, end, H).blocks;
      if Overruns(b, n, end, H) && Tiles(r, 0, end, H) {
        assert r[|ready| - 1].size == n;
        TilesWithin(r, 0, end, H, |ready| - 1);
        assert false;
      }
    }
  }

  lemma FreeTiles(b: seq<Block>, i: nat, end: nat, H: nat)
    requires i < |b| && Tiles(b, 0, end, H)
    ensures Tiles(Free(b, i, H), 0, end, H)
  {
    UpdateSpace(b, i, b[i].(free := true), 0, end, H);
    PassKeeps(b[i := b[i].(free := true)], 0, end, H);
  }

  // ----- what a call changes -----

  /** A heap that has not been set up, or whose first block has size 0, is set up: as one free block, which serves every
      request that leaves room for its header. */
  lemma SetUp(b: seq<Block>, n: nat, end: nat, H: nat)
    requires b != [] && b[0].size == 0 && H < end
    ensures Malloc(b, n, end, H) == Malloc([Block(0, end - H, true)], n, end, H)
    ensures Ready(b, end, H) == [Block(0, end - H, true)]
    ensures HasFit(Ready(b, end, H), n) <==> n <= end - H
  {
    assert n <= end - H ==> Fits(Ready(b, end, H)[0], n);
  }

  /** What a request changes: nothing if it fails, and otherwise only the block where the search stops. That block is
      handed out whole if it has the size asked for; if not, a free block with what is left over comes behind it. */
  lemma MallocEffect(b: seq<Block>, n: Size, end: nat, H: nat)
    requires b != [] && b[0].size != 0 && 0 < H < end < WORD
    ensures var r, i := Malloc(b, n, end, H), Pick(b, n);
            && (r.result.None? ==> r.blocks == b)
            && (r.result.Some? && b[i].size == n ==> r.blocks == b[..i] + [Block(b[i].at, n, false)] + b[i + 1..])
            && (r.result.Some? && b[i].size != n ==>
                  exists rest :: Leftover(rest, b[i], n, H)
                                 && r.blocks == b[..i] + [Block(b[i].at, n, false), rest] + b[i + 1..])
  {
    var r, i, used := Malloc(b, n, end, H), Pick(b, n), (n + H) % WORD;
    assert b[i := Block(b[i].at, n, false)] == b[..i] + [Block(b[i].at, n, false)] + b[i + 1..];
    if r.result.Some? && b[i].size != n {
      assert used == if n + H < WORD then n + H else n + H - WORD;
      assert Leftover(Block(b[i].at + used, b[i].size - used, true), b[i], n, H);
    }
  }

  /** A free block that begins behind header and payload, in machine words, and ends with the block `x`. */
  predicate Leftover(rest: Block, x: Block, n: nat, H: nat) {
    && rest.free && rest.at + rest.size == x.at + x.size
    && (if n + H < WORD then rest.at == x.at + n + H else rest.at + WORD == x.at + n + H)
  }

  /** So every other block stays, free or not. */
  lemma OthersStay(b: seq<Block>, n: Size, end: nat, H: nat, x: Block)
    requires b != [] && b[0].size != 0 && 0 < H < end < WORD && x in b && x != b[Pick(b, n)]
    ensures x in Malloc(b, n, end, H).blocks
  {
    MallocEffect(b, n, end, H);
    var i := Pick(b, n);
    assert b == b[..i] + [b[i]] + b[i + 1..];
  }

  /** A release halves the longest run of free blocks that there is with the block released, rounding up. */
  lemma FreeHalves(b: seq<Block>, i: nat, H: nat)
    requires i < |b|
    ensures LongestRun(Free(b, i, H)) == (LongestRun(b[i := Block(b[i].at, b[i].size, true)]) + 1) / 2
  {
    PassHalves(b[i := Block(b[i].at, b[i].size, true)], H);
  }

  /** A release turns the run of free blocks around the block released into half as many, rounded up; the parts before
      and behind it fare as in a pass of their own. */
  lemma FreeRun(a: seq<Block>, l: seq<Block>, x: Block, r: seq<Block>, c: seq<Block>, H: nat)
    returns (run: seq<Block>)
    requires a == [] || !a[|a| - 1].free
    requires c == [] || !c[0].free
    requires (forall k :: 0 <= k < |l| ==> l[k].free) && (forall k :: 0 <= k < |r| ==> r[k].free)
    ensures Free(a + (l + [x] + r) + c, |a| + |l|, H) == MergePass(a, H) + run + MergePass(c, H)
    ensures |run| == (|l| + 1 + |r| + 1) / 2 && forall k :: 0 <= k < |run| ==> run[k].free
  {
    var y := Block(x.at, x.size, true);
    UpdateMiddle(a, l, x, y, r, c);
    PassOnEveryRun(a, l + [y] + r, c, H);
    run := MergePass(l + [y] + r, H);
  }

  lemma UpdateMiddle(a: seq<Block>, l: seq<Block>, x: Block, y: Block, r: seq<Block>, c: seq<Block>)
    ensures (a + (l + [x] + r) + c)[|a| + |l|] == x
    ensures (a + (l + [x] + r) + c)[|a| + |l| := y] == a + (l + [y] + r) + c
  {
  }

  // ----- whole runs -----

  /** A call of the allocator: a request, or a release of a payload address. */
  datatype Call = Request(n: Size) | Release(ptr: int)

  ghost predicate IsPayload(b: seq<Block>, ptr: int, i: nat, H: nat) {
    i < |b| && ptr == b[i].at + H
  }

  /** An address inside the heap must be the payload of a block; addresses outside are refused. */
  ghost predicate Legal(b: seq<Block>, c: Call, end: nat, H: nat) {
    c.Release? && 0 <= c.ptr <= end ==> exists i: nat :: IsPayload(b, c.ptr, i, H)
  }

  ghost function Step(b: seq<Block>, c: Call, end: nat, H: nat): (r: seq<Block>)
    requires b != [] && H <= end && Legal(b, c, end, H)
    ensures r != []
  {
    match c
    case Request(n) => Malloc(b, n, end, H).blocks
    case Release(ptr) =>
      if 0 <= ptr <= end then
        var i: nat :| IsPayload(b, ptr, i, H);
        Free(b, i, H)
      else b
  }

  ghost predicate LegalRun(b: seq<Block>, calls: seq<Call>, end: nat, H: nat)
    requires b != [] && H <= end
    decreases |calls|
  {
    calls == [] || (Legal(b, calls[0], end, H)
                    && LegalRun(Step(b, calls[0], end, H), calls[1..], end, H))
  }

  ghost function After(b: seq<Block>, calls: seq<Call>, end: nat, H: nat): seq<Block>
    requires b != [] && H <= end && LegalRun(b, calls, end, H)
    decreases |calls|
  {
    if calls == [] then b else After(Step(b, calls[0], end, H), calls[1..], end, H)
  }

  /** The blocks cover the heap, now and after each of the calls. */
  ghost predicate StaysTiled(b: seq<Block>, calls: seq<Call>, end: nat, H: nat)
    requires b != [] && H <= end && LegalRun(b, calls, end, H)
    decreases |calls|
  {
    Tiles(b, 0, end, H) && (calls == [] || StaysTiled(Step(b, calls[0], end, H), calls[1..], end, H))
  }

  /** No request overruns the last block that it finds. */
  ghost predicate NeverOverruns(b: seq<Block>, calls: seq<Call>, end: nat, H: nat)
    requires b != [] && H <= end && LegalRun(b, calls, end, H)
    decreases |calls|
  {
    calls == [] || ((calls[0].Request? ==> !Overruns(b, calls[0].n, end, H))
                    && NeverOverruns(Step(b, calls[0], end, H), calls[1..], end, H))
  }

  lemma StepTiles(b: seq<Block>, c: Call, end: nat, H: nat)
    requires b != [] && H < end < WORD && Tiles(b, 0, end, H) && Legal(b, c, end, H)
    ensures Tiles(Step(b, c, end, H), 0, end, H) <==> c.Release? || !Overruns(b, c.n, end, H)
  {
    match c
    case Request(n) => MallocTiles(b, n, end, H);
    case Release(ptr) =>
      forall i: nat | IsPayload(b, ptr, i, H) ensures Tiles(Free(b, i, H), 0, end, H) {
        FreeTiles(b, i, end, H);
      }
  }

  /** Over a run of requests and releases, the blocks cover the heap throughout exactly when no request overruns the
      last block. */
  lemma {:induction false} RunTiles(b: seq<Block>, calls: seq<Call>, end: nat, H: nat)
    requires b != [] && H < end < WORD && Tiles(b, 0, end, H) && LegalRun(b, calls, end, H)
    ensures StaysTiled(b, calls, end, H) <==> NeverOverruns(b, calls, end, H)
    ensures StaysTiled(b, calls, end, H) ==>
              Tiles(After(b, calls, end, H), 0, end, H) && Space(After(b, calls, end, H), H) == end
    decreases |calls|
  {
    if calls == [] {
      TilesSpace(b, 0, end, H);
    } else {
      var next := Step(b, calls[0], end, H);
      StepTiles(b, calls[0], end, H);
      if Tiles(next, 0, end, H) { RunTiles(next, calls[1..], end, H); }
    }
  }

  // ----- isolation -----

  /** Every live block is still there and still live, and its payload is not what the request returned. */
  ghost predicate Isolated(b: seq<Block>, r: Outcome, H: nat) {
    forall x :: x in b && !x.free ==> x in r.blocks && r.result != Some(x.at + H)
  }

  /** What a caller can check beforehand: no live block sits behind an empty first block, and if no free block fits,
      the last block is free or has no size that the allocator would hand out, in machine words. */
  predicate Safe(b: seq<Block>, n: nat, H: nat)
    requires b != []
  {
    var last := b[|b| - 1];
    && (b[0].size == 0 ==> forall x :: x in b ==> x.free)
    && (HasFit(b, n) || last.free || (last.size != n && !LooksRoomy(last.size, n, H, WORD)))
  }

  lemma OnlyOneAt(b: seq<Block>, end: nat, H: nat, i: nat, j: nat)
    requires H > 0 && Tiles(b, 0, end, H) && i < |b| && j < |b| && b[i].at == b[j].at
    ensures i == j
  {
    if i < j { TilesApart(b, 0, end, H, i, j); }
    if j < i { TilesApart(b, 0, end, H, j, i); }
  }

  /** A safe request respects every live block. */
  lemma SafeIsIsolated(b: seq<Block>, n: nat, end: nat, H: nat)
    requires b != [] && 0 < H < end && Tiles(b, 0, end, H) && Safe(b, n, H)
    ensures Isolated(b, Malloc(b, n, end, H), H)
  {
    PickIsFirstFit(b, n);
    if b[0].size != 0 {
      forall x | x in b && !x.free
        ensures x in Malloc(b, n, end, H).blocks && Malloc(b, n, end, H).result != Some(x.at + H)
      {
        LiveKept(b, Pick(b, n), n, end, H, x);
      }
    }
  }

  /** Any other request loses or hands out a live block. */
  lemma UnsafeIsNotIsolated(b: seq<Block>, n: nat, end: nat, H: nat)
    requires b != [] && 0 < H < end && Tiles(b, 0, end, H) && !Safe(b, n, H)
    ensures !Isolated(b, Malloc(b, n, end, H), H)
  {
    PickIsFirstFit(b, n);
    if b[0].size != 0 {
      LiveLost(b, Pick(b, n), n, end, H);
    }
  }

  /** A request respects every live block exactly when it is `Safe`. */
  lemma IsolationExactly(b: seq<Block>, n: nat, end: nat, H: nat)
    requires b != [] && 0 < H < end && Tiles(b, 0, end, H)
    ensures Isolated(b, Malloc(b, n, end, H), H) <==> Safe(b, n, H)
  {
    if Safe(b, n, H) { SafeIsIsolated(b, n, end, H); } else { UnsafeIsNotIsolated(b, n, end, H); }
  }

  lemma LiveKept(b: seq<Block>, i: nat, n: nat, end: nat, H: nat, x: Block)
    requires H > 0 && Tiles(b, 0, end, H) && i < |b| && x in b && !x.free
    requires b[i].free || Place(b, i, n, H).result.None?
    ensures x in Place(b, i, n, H).blocks && Place(b, i, n, H).result != Some(x.at + H)
  {
    var j :| 0 <= j < |b| && b[j] == x;
    var r := Place(b, i, n, H);
    if r.result.Some? {
      if x.at == b[i].at { OnlyOneAt(b, end, H, i, j); }
      if b[i].size == n {
        assert r.blocks[j] == x;
      } else {
        assert r.blocks[if j < i then j else j + 1] == x;
      }
    }
  }

  lemma LiveLost(b: seq<Block>, i: nat, n: nat, end: nat, H: nat)
    requires H > 0 && Tiles(b, 0, end, H) && i < |b|
    requires !b[i].free && Place(b, i, n, H).result.Some?
    ensures !Isolated(b, Place(b, i, n, H), H)
  {
    assert b[i] in b;
  }

  /** Requests that are not safe: when one request takes the whole heap, repeating it returns the same payload;
      and when the first request is for 0 bytes, the next one forgets every block. */
  lemma UnsafeRequests(end: nat, H: nat, n: nat)
    requires 0 < H && n + 2 * H < end < WORD
    ensures var once := Malloc(Fresh(end, H), end - H, end, H);
            Malloc(once.blocks, end - H, end, H).result == once.result == Some(H)
    ensures var none := Malloc(Fresh(end, H), 0, end, H);
            Malloc(none.blocks, n, end, H) == Malloc(Fresh(end, H), n, end, H)
  {
  }

  /** Where one request has taken the whole heap, one for all the bytes of the machine less a header gets the same
      payload, which is far too small, and leaves no tiling. */
  lemma OverrunRequest(end: nat, H: nat)
    requires 0 < H < end < WORD
    ensures var once, n := Malloc(Fresh(end, H), end - H, end, H).blocks, WORD - H;
            && Overruns(once, n, end, H) && !Safe(once, n, H)
            && Malloc(once, n, end, H) == Outcome([Block(0, n, false), Block(0, end - H, true)], Some(H))
            && !Tiles(Malloc(once, n, end, H).blocks, 0, end, H) && !Isolated(once, Malloc(once, n, end, H), H)
  {
    var once, n := Malloc(Fresh(end, H), end - H, end, H).blocks, WORD - H;
    assert once == [Block(0, end - H, false)];
    assert (n + H) % WORD == 0;
    ReadyTiles(once, end, H);
    assert once[1..] == [] && Tiles(once[1..], end, end, H);
    MallocTiles(once, n, end, H);
    IsolationExactly(once, n, end, H);
  }

  // ----- isolation over whole runs -----

  ghost predicate SafeRun(b: seq<Block>, calls: seq<Call>, end: nat, H: nat)
    requires b != [] && H <= end && LegalRun(b, calls, end, H)
    decreases |calls|
  {
    calls == [] || ((calls[0].Request? ==> Safe(b, calls[0].n, H) && !Overruns(b, calls[0].n, end, H))
                    && SafeRun(Step(b, calls[0], end, H), calls[1..], end, H))
  }

  lemma {:induction false} AllocatedMembers(b: seq<Block>)
    ensures forall x :: x in Allocated(b) <==> x in b && !x.free
  {
    if b == [] {
    } else {
      AllocatedMembers(b[1..]);
      assert b == [b[0]] + b[1..];
    }
  }

  lemma LiveSurvivesFree(b: seq<Block>, i: nat, end: nat, H: nat, x: Block)
    requires i < |b| && Tiles(b, 0, end, H) && x in b && !x.free && x != b[i]
    ensures x in Free(b, i, H)
  {
    var freed := b[i := b[i].(free := true)];
    UpdateSpace(b, i, freed[i], 0, end, H);
    PassKeeps(freed, 0, end, H);
    var j :| 0 <= j < |b| && b[j] == x;
    assert freed[j] == x;
    AllocatedMembers(freed);
    AllocatedMembers(MergePass(freed, H));
  }

  /** In a run of safe requests, a live block keeps its address, size and flag until its own payload is released. */
  lemma {:induction false} LiveUntilReleased(b: seq<Block>, calls: seq<Call>, end: nat, H: nat, x: Block)
    requires b != [] && 0 < H < end < WORD && Tiles(b, 0, end, H)
    requires LegalRun(b, calls, end, H) && SafeRun(b, calls, end, H)
    requires x in b && !x.free && Release(x.at + H) !in calls
    ensures x in After(b, calls, end, H)
    decreases |calls|
  {
    if calls == [] {
    } else {
      var next := Step(b, calls[0], end, H);
      match calls[0] {
        case Request(n) =>
          SafeIsIsolated(b, n, end, H);
          MallocTiles(b, n, end, H);
        case Release(ptr) =>
          forall i: nat | IsPayload(b, ptr, i, H) ensures Tiles(Free(b, i, H), 0, end, H) && x in Free(b, i, H) {
            FreeTiles(b, i, end, H);
            LiveSurvivesFree(b, i, end, H, x);
          }
      }
      LiveUntilReleased(next, calls[1..], end, H, x);
    }
  }

  /** On success the payload starts at the header of a block that is not free and has the size asked for. It lies within
      the heap exactly when the request does not overrun the last block, and then no other block shares it; otherwise
      what is left over has its header within that of the block. */
  lemma PayloadOwned(b: seq<Block>, n: Size, end: nat, H: nat, j: nat)
    requires b != [] && 0 < H < end < WORD && (Tiles(b, 0, end, H) || b[0].size == 0)
    requires Malloc(b, n, end, H).result.Some? && j < |Malloc(b, n, end, H).blocks|
    ensures var r, i := Malloc(b, n, end, H), Pick(Ready(b, end, H), n);
            && r.blocks[i].size == n && !r.blocks[i].free && r.result == Some(r.blocks[i].at + H)
            && (r.result.value + n <= end <==> !Overruns(b, n, end, H))
            && (Overruns(b, n, end, H) ==>
                  i + 1 < |r.blocks| && r.blocks[i].at <= r.blocks[i + 1].at < r.blocks[i].at + H)
            && (j != i && !Overruns(b, n, end, H) ==>
                  r.result.value + n <= r.blocks[j].at || r.blocks[j].at + H + r.blocks[j].size <= r.result.value - H)
  {
    var r, i := Malloc(b, n, end, H), Pick(Ready(b, end, H), n);
    MallocTiles(b, n, end, H);
    PlacedAt(Ready(b, end, H), i, n, H);
    if Overruns(b, n, end, H) {
      ReadyTiles(b, end, H);
      PlaceOverruns(Ready(b, end, H), n, end, H);
    } else {
      TilesWithin(r.blocks, 0, end, H, i);
      if i < j { TilesApart(r.blocks, 0, end, H, i, j); }
      if j < i { TilesApart(r.blocks, 0, end, H, j, i); }
    }
  }

  lemma PlacedAt(b: seq<Block>, i: nat, n: nat, H: nat)
    requires i < |b| && Place(b, i, n, H).result.Some?
    ensures var r := Place(b, i, n, H);
            i < |r.blocks| && r.blocks[i] == Block(b[i].at, n, false) && r.result == Some(b[i].at + H)
  {
  }

  /** Where the request overruns the last block, what is left over has its header within that of the block. */
  lemma PlaceOverruns(b: seq<Block>, n: Size, end: nat, H: nat)
    requires b != [] && 0 < H < end < WORD && Tiles(b, 0, end, H) && Misjudged(b, n, H)
    ensures var r, i := Place(b, Pick(b, n), n, H).blocks, Pick(b, n);
            && i + 1 < |r| && r[i].size == n && r[i].at <= r[i + 1].at < r[i].at + H
            && r[i].at + H + n > end
            && r[i + 1].at + WORD == r[i].at + n + H && r[i + 1].at + r[i + 1].size == b[i].at + b[i].size && r[i + 1].free
  {
    HugeRequest(b, n, end, H);
    assert (n + H) % WORD == n + H - WORD;
  }

  /** When safe requests fail: nothing fits, and the test does not take the last block for larger than it is; or the
      first block that fits has room left over but not for a header. */
  lemma FailsExactly(b: seq<Block>, n: Size, end: nat, H: nat)
    requires b != [] && H <= end < WORD && Tiles(b, 0, end, H) && b[0].size != 0 && Safe(b, n, H)
    ensures Malloc(b, n, end, H).result.None?
            <==> (!HasFit(b, n) && !Overruns(b, n, end, H)) || (HasFit(b, n) && 1 <= b[Pick(b, n)].size - n <= H)
  {
    PickIsFirstFit(b, n);
    if n + H >= WORD { HugeRequest(b, n, end, H); }
  }

  // ----- allocation undone by free -----

  /** Freeing what was just allocated restores the list of blocks, whether the block was split or fitted exactly;
      the merging pass steps off the end exactly when the last block had been split. */
  lemma AllocationUndone(b: seq<Block>, n: Size, end: nat, H: nat)
    requires b != [] && H <= end < WORD && Tiles(b, 0, end, H) && b[0].size != 0 && NoAdjacentFree(b) && HasFit(b, n)
    requires Malloc(b, n, end, H).result.Some?
    ensures Undone(b, Malloc(b, n, end, H), Pick(b, n), n, H)
  {
    PickIsFirstFit(b, n);
    if n + H >= WORD { HugeRequest(b, n, end, H); }
    PlaceUndone(b, Pick(b, n), n, H);
  }

  /** The request returned block `i` of `r`; freeing that gives `b` back; and the merging pass then steps off the end
      exactly when the request had split the last block. */
  predicate Undone(b: seq<Block>, r: Outcome, i: nat, n: nat, H: nat)
    requires i < |b|
  {
    && i < |r.blocks| && r.result == Some(r.blocks[i].at + H)
    && Free(r.blocks, i, H) == b
    && (StepsOff(r.blocks[i := r.blocks[i].(free := true)]) <==> i == |b| - 1 && b[i].size > n + H)
  }

  lemma PlaceUndone(b: seq<Block>, i: nat, n: nat, H: nat)
    requires i < |b| && b[i].free && NoAdjacentFree(b) && n + H < WORD && Place(b, i, n, H).result.Some?
    ensures Undone(b, Place(b, i, n, H), i, n, H)
  {
    if b[i].size == n {
      assert b[i := b[i].(free := false)][i := b[i]] == b;
      NothingToMerge(b, H);
    } else {
      PlaceSplits(b, i, n, H);
      SplitUndone(b, i, n, H);
    }
  }

  lemma SplitUndone(b: seq<Block>, i: nat, n: nat, H: nat)
    requires i < |b| && b[i].free && NoAdjacentFree(b) && b[i].size > n + H && n + H < WORD
    ensures Undone(b, Place(b, i, n, H), i, n, H)
  {
    PlaceSplits(b, i, n, H);
    var r := SplitAt(b, i, n, H);
    var halves := [Block(b[i].at, n, true), Block(b[i].at + n + H, b[i].size - n - H, true)];
    assert r[i := r[i].(free := true)] == b[..i] + (halves + b[i + 1..]);
    HalvesRejoined(b, i, n, H);
  }

  lemma HalvesRejoined(b: seq<Block>, i: nat, n: nat, H: nat)
    requires i < |b| && NoAdjacentFree(b) && b[i].free && b[i].size > n + H
    ensures var halves := [Block(b[i].at, n, true), Block(b[i].at + n + H, b[i].size - n - H, true)];
            && MergePass(b[..i] + (halves + b[i + 1..]), H) == b
            && (StepsOff(b[..i] + (halves + b[i + 1..])) <==> i == |b| - 1)
  {
    var x, y := Block(b[i].at, n, true), Block(b[i].at + n + H, b[i].size - n - H, true);
    NoAdjacentSlice(b, 0, i);
    NoAdjacentSlice(b, i + 1, |b|);
    assert b[..i] == b[0..i];
    assert i > 0 ==> !b[i - 1].free;
    PairRejoins(b[..i], x, y, b[i + 1..], H);
    assert b == b[..i] + ([b[i]] + b[i + 1..]);
  }

  lemma PairRejoins(front: seq<Block>, x: Block, y: Block, rest: seq<Block>, H: nat)
    requires x.free && y.free && NoAdjacentFree(front) && NoAdjacentFree(rest)
    requires front == [] || !front[|front| - 1].free
    ensures MergePass(front + ([x, y] + rest), H) == front + ([Joined(x, y, H)] + rest)
    ensures StepsOff(front + ([x, y] + rest)) <==> rest == []
  {
    PairMerges(x, y, rest, H);
    PassSplit(front, [x, y] + rest, H);
    NothingToMerge(front, H);
  }

  lemma PairMerges(x: Block, y: Block, rest: seq<Block>, H: nat)
    requires x.free && y.free && NoAdjacentFree(rest)
    ensures MergePass([x, y] + rest, H) == [Joined(x, y, H)] + rest
    ensures StepsOff([x, y] + rest) <==> rest == []
  {
    assert ([x, y] + rest)[2..] == rest;
    NothingToMerge(rest, H);
  }

  lemma NoAdjacentSlice(b: seq<Block>, i: nat, j: nat)
    requires i <= j <= |b| && NoAdjacentFree(b)
    ensures NoAdjacentFree(b[i..j])
  {
    forall k | 0 <= k < j - i - 1 ensures !(b[i..j][k].free && b[i..j][k + 1].free) {
      assert !(b[i + k].free && b[i + k + 1].free);
    }
  }

  lemma {:induction false} NothingToMerge(b: seq<Block>, H: nat)
    requires NoAdjacentFree(b)
    ensures MergePass(b, H) == b
    ensures StepsOff(b) <==> b == []
  {
    if |b| < 2 {
    } else {
      assert !(b[0].free && b[0 + 1].free);
      NoAdjacentSlice(b, 1, |b|);
      NothingToMerge(b[1..], H);
    }
  }

  // ----- machine arithmetic -----

  /** In machine words the test for room is right, for every size, exactly when `n + H` does not wrap around. If it does,
      the test compares with what is over. */
  lemma RoomTestExactly(n: nat, H: nat, limit: nat)
    requires 0 < H < limit - 1 && n < limit
    ensures (forall size: nat :: size < limit ==> (LooksRoomy(size, n, H, limit) <==> size > n + H)) <==> n + H < limit
    ensures n + H >= limit ==> forall size: nat :: LooksRoomy(size, n, H, limit) <==> size + limit > n + H
  {
    if n + H < limit {
      assert (n + H) % limit == n + H;
    } else {
      assert (n + H) % limit == n + H - limit;
      var size: nat := n - 1;
      assert LooksRoomy(size, n, H, limit) && size < n;
    }
  }
}
