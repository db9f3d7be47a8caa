/**
 The allocator itself (A7/malloc.c): headers are rewritten in place inside the heap, and the list of blocks is what
 one finds by following their links. Offsets into the heap stand for pointers.
 */
module Allocator {
  import opened Sequences
  import opened Blocks

  datatype Header = Header(size: nat, free: bool, next: Option<nat>)

  function Next(b: seq<Block>, i: nat): Option<nat>
    requires i < |b|
  {
    if i + 1 < |b| then Some(b[i + 1].at) else None
  }

  /** The header of each block sits at its offset, and the links visit the blocks in order. */
  ghost predicate Represents(mem: seq<Header>, b: seq<Block>, H: nat) {
    && b != [] && b[0].at == 0
    && forall i {:trigger b[i].size} :: 0 <= i < |b| ==>
         b[i].at + H <= |mem| && b[i].at < |mem| && mem[b[i].at] == Header(b[i].size, b[i].free, Next(b, i))
  }

  /** The header at `slot` claims `n` bytes and links to where word arithmetic puts the next one. */
  predicate Overrun(mem: seq<Header>, slot: nat, n: nat, H: nat) {
    slot < |mem| && mem[slot] == Header(n, false, Some(slot + (n + H) % WORD))
  }

  class Heap {
    const H: nat
    const mem: array<Header>
    ghost var blocks: seq<Block>

    /** The links are sound, and either the blocks tile the heap or nothing has been set up yet. */
    ghost predicate Valid()
      reads this, mem
    {
      && 0 < H < mem.Length < WORD
      && Represents(mem[..], blocks, H)
      && (Tiled() || blocks == [Block(0, 0, false)])
    }

    ghost predicate Tiled()
      reads this
    {
      Tiles(blocks, 0, mem.Length, H)
    }

    /** A zeroed heap. */
    constructor (H: nat, HER: nat)
      requires 0 < H < HER < WORD
      ensures Valid() && this.H == H && mem.Length == HER && blocks == [Block(0, 0, false)]
      ensures fresh(mem)
    {
      this.H := H;
      mem := new Header[HER](_ => Header(0, false, None));
      blocks := [Block(0, 0, false)];
    }

    method Init()
      requires 0 < H < mem.Length < WORD
      modifies this, mem
      ensures Valid() && Tiled() && blocks == Fresh(mem.Length, H)
    {
      mem[0] := Header(mem.Length - H, true, None);
      blocks := Fresh(mem.Length, H);
      assert blocks[1..] == [] && Tiles(blocks[1..], mem.Length, mem.Length, H);
    }

    /** Cuts the block at `slot` down to `n` bytes and puts a free block behind it. Where `n` and a header wrap around,
        that block comes to lie on the one cut down, and the list no longer tiles the heap. */
    method Frag(slot: nat, n: Size, ghost i: nat)
      requires Valid() && Tiled() && i < |blocks| && blocks[i].at == slot && blocks[i].size != n
      requires LooksRoomy(blocks[i].size, n, H, WORD) && (n + H >= WORD ==> blocks[i].size < n)
      modifies this, mem
      ensures blocks == Place(old(blocks), i, n, H).blocks
      ensures n + H < WORD ==> Valid() && Tiled()
      ensures n + H >= WORD ==> Overrun(mem[..], slot, n, H)
    {
      ghost var b := blocks;
      assert b[i].size == b[i].size;
      TilesWithin(b, 0, mem.Length, H, i);
      var used := (n + H) % WORD;
      var fresh' := slot + used;
      mem[fresh'] := Header(mem[slot].size - used, true, mem[slot].next);
      mem[slot] := Header(n, false, Some(fresh'));
      blocks := Place(b, i, n, H).blocks;
      if n + H < WORD {
        FragRepresented(old(mem[..]), mem[..], b, i, n, H);
      }
    }

    /** A request for `n` bytes. The list stays sound exactly when the request does not overrun the last block; if it
        does, the header of that block claims `n` bytes and links to a place within itself. */
    method PmMalloc(n: Size) returns (res: Option<nat>)
      requires Valid()
      modifies this, mem
      ensures Outcome(blocks, res) == Malloc(old(blocks), n, mem.Length, H)
      ensures Valid() <==> !Overruns(old(blocks), n, mem.Length, H)
      ensures Valid() ==> Tiled()
      ensures !Valid() ==> res.Some? && res.value >= H && Overrun(mem[..], res.value - H, n, H)
    {
      assert blocks[0].size == mem[0].size;
      MallocTiles(blocks, n, mem.Length, H);
      if mem[0].size == 0 {
        Init();
      }
      res := FindRoom(n);
    }

    /** The search and the three cases of its outcome. */
    method FindRoom(n: Size) returns (res: Option<nat>)
      requires Valid() && Tiled()
      modifies this, mem
      ensures Outcome(blocks, res) == Place(old(blocks), Pick(old(blocks), n), n, H)
      ensures Misjudged(old(blocks), n, H) || (Valid() && Tiled())
      ensures Misjudged(old(blocks), n, H) ==>
                res.Some? && res.value >= H && Overrun(mem[..], res.value - H, n, H)
    {
      var current, i := Search(n);
      res := None;
      if n + H >= WORD { HugeRequest(blocks, n, mem.Length, H); }
      if mem[current].size == n {
        SetFree(current, false, i);
        res := Some(current + H);
      } else if mem[current].size > (n + H) % WORD {
        Frag(current, n, i);
        res := Some(current + H);
      }
    }

    /** Walks the list to the first free block of `n` bytes or more, or to the last block. */
    method Search(n: nat) returns (current: nat, ghost i: nat)
      requires Valid()
      ensures i == Pick(blocks, n) && current == blocks[i].at
      ensures current < mem.Length && mem[current] == Header(blocks[i].size, blocks[i].free, Next(blocks, i))
    {
      assert blocks[0].size == blocks[0].size && blocks[0..] == blocks;
      current, i := 0, 0;
      while (mem[current].size < n || !mem[current].free) && mem[current].next.Some?
        invariant i < |blocks| && current == blocks[i].at
        invariant current < mem.Length && mem[current] == Header(blocks[i].size, blocks[i].free, Next(blocks, i))
        invariant Pick(blocks, n) == i + Pick(blocks[i..], n)
        decreases |blocks| - i
      {
        current := mem[current].next.value;
        assert blocks[i..][1..] == blocks[i + 1..];
        i := i + 1;
        assert blocks[i].size == blocks[i].size;
      }
    }

    /** Rewrites the flag of block `i`. */
    method SetFree(slot: nat, free: bool, ghost i: nat)
      requires Valid() && Tiled() && i < |blocks| && blocks[i].at == slot
      modifies this, mem
      ensures Valid() && Tiled() && blocks == old(blocks)[i := old(blocks)[i].(free := free)]
    {
      ghost var b := blocks;
      ghost var x := b[i].(free := free);
      UpdateSpace(b, i, x, 0, mem.Length, H);
      HeadersApart(b, mem.Length, H, i);
      assert b[i].size == x.size;
      mem[slot] := mem[slot].(free := free);
      blocks := b[i := x];
      FlagRepresented(old(mem[..]), mem[..], b, i, free, H);
    }

    /** Joins free neighbours in one pass. `ok` is false when the pass has stepped off the end of the list,
        where the program would go on to read through a null pointer. */
    method MergeFrag() returns (ok: bool)
      requires Valid() && Tiled()
      modifies this, mem
      ensures Valid() && Tiled() && blocks == MergePass(old(blocks), H)
      ensures ok == !StepsOff(old(blocks))
    {
      ghost var done: seq<Block>, rest: seq<Block> := [], blocks;
      var curr := Some(0);
      assert blocks[0].size == blocks[0].size && done + rest == blocks;
      while curr.Some? && mem[curr.value].next.Some?
        invariant Valid() && Tiled() && blocks == done + rest
        invariant MergePass(old(blocks), H) == done + MergePass(rest, H)
        invariant StepsOff(old(blocks)) == StepsOff(rest)
        invariant curr == if rest == [] then None else Some(rest[0].at)
        invariant curr.Some? ==> curr.value < mem.Length && mem[curr.value].next == Next(rest, 0)
        decreases |rest|
      {
        PassTurn(done, rest, H);
        curr, done, rest := MergeStep(curr.value, done, rest);
      }
      ok := curr.Some?;
    }

    /** One turn of the pass, at the first block of `rest`. */
    method MergeStep(c: nat, ghost done: seq<Block>, ghost rest: seq<Block>)
      returns (curr: Option<nat>, ghost done': seq<Block>, ghost rest': seq<Block>)
      requires Valid() && Tiled() && blocks == done + rest && |rest| >= 2 && c == rest[0].at
      modifies this, mem
      ensures Valid() && Tiled() && blocks == done' + rest' && |rest'| < |rest|
      ensures done' == done + [if rest[0].free && rest[1].free then Joined(rest[0], rest[1], H) else rest[0]]
      ensures rest' == if rest[0].free && rest[1].free then rest[2..] else rest[1..]
      ensures curr == if rest' == [] then None else Some(rest'[0].at)
      ensures curr.Some? ==> curr.value < mem.Length && mem[curr.value].next == Next(rest', 0)
    {
      ghost var i := |done|;
      assert blocks[i] == rest[0] && blocks[i + 1] == rest[1];
      assert blocks[i].size == rest[0].size && blocks[i + 1].size == rest[1].size;
      var next := mem[c].next.value;
      if mem[c].free && mem[next].free {
        Join(c, next, i);
        done', rest' := done + [Joined(rest[0], rest[1], H)], rest[2..];
      } else {
        done', rest' := done + [rest[0]], rest[1..];
      }
      curr := mem[c].next;
      assert rest' != [] ==> blocks[i + 1] == rest'[0] && blocks[i + 1].size == rest'[0].size;
      assert |rest'| > 1 ==> blocks[i + 2] == rest'[1];
    }

    /** Makes one block of block `i` and its successor. */
    method Join(slot: nat, next: nat, ghost i: nat)
      requires Valid() && Tiled() && i + 1 < |blocks| && blocks[i].at == slot && blocks[i + 1].at == next
      modifies this, mem
      ensures Valid() && Tiled() && blocks == JoinAt(old(blocks), i, H)
      ensures slot < mem.Length && mem[slot].next == Next(old(blocks), i + 1)
    {
      ghost var b := blocks;
      assert b[i].size == b[i].size && b[i + 1].size == b[i + 1].size;
      JoinTiles(b, i, mem.Length, H);
      HeadersApart(b, mem.Length, H, i);
      mem[slot] := mem[slot].(size := mem[slot].size + mem[next].size + H, next := mem[next].next);
      blocks := JoinAt(b, i, H);
      JoinRepresented(old(mem[..]), mem[..], b, i, H);
    }

    /** Releases the payload at `ptr`, which must be a block's unless it lies outside the heap.
        As for `MergeFrag`, `ok` is false when the program would read through a null pointer. */
    method PmFree(ptr: int, ghost i: nat) returns (ok: bool)
      requires Valid()
      requires 0 <= ptr <= mem.Length ==> Tiled() && IsPayload(blocks, ptr, i, H)
      modifies this, mem
      ensures Valid()
      ensures 0 <= ptr <= mem.Length ==> Tiled()
      ensures 0 <= ptr <= mem.Length ==> i < |old(blocks)| && blocks == Free(old(blocks), i, H)
      ensures 0 <= ptr <= mem.Length ==> ok == !StepsOff(old(blocks)[i := old(blocks)[i].(free := true)])
      ensures !(0 <= ptr <= mem.Length) ==> ok && blocks == old(blocks)
    {
      ok := true;
      if 0 <= ptr <= mem.Length {
        SetFree(ptr - H, true, i);
        ok := MergeFrag();
      }
    }
  }

  function JoinAt(b: seq<Block>, i: nat, H: nat): (r: seq<Block>)
    requires i + 1 < |b|
  {
    b[..i] + [Joined(b[i], b[i + 1], H)] + b[i + 2..]
  }

  lemma JoinTiles(b: seq<Block>, i: nat, end: nat, H: nat)
    requires i + 1 < |b| && Tiles(b, 0, end, H)
    ensures Tiles(JoinAt(b, i, H), 0, end, H)
  {
    var s, tail := Space(b[..i], H), [Joined(b[i], b[i + 1], H)] + b[i + 2..];
    assert b == b[..i] + b[i..];
    TilesSplit(b[..i], b[i..], 0, end, H);
    PairTiles(b[i..], s, end, H);
    assert b[i..][2..] == b[i + 2..];
    TilesSplit(b[..i], tail, 0, end, H);
    assert JoinAt(b, i, H) == b[..i] + tail;
  }

  lemma PairTiles(b: seq<Block>, from: nat, end: nat, H: nat)
    requires |b| >= 2 && Tiles(b, from, end, H)
    ensures Tiles([Joined(b[0], b[1], H)] + b[2..], from, end, H)
  {
    assert ([Joined(b[0], b[1], H)] + b[2..])[1..] == b[2..] == b[1..][1..];
  }

  lemma JoinRepresented(m: seq<Header>, m': seq<Header>, b: seq<Block>, i: nat, H: nat)
    requires Represents(m, b, H) && i + 1 < |b| && |m'| == |m| && b[i].at < |m|
    requires forall j {:trigger b[j]} :: 0 <= j < |b| && j != i ==> b[j].at != b[i].at
    requires m' == m[b[i].at := Header(b[i].size + b[i + 1].size + H, b[i].free, Next(b, i + 1))]
    ensures Represents(m', JoinAt(b, i, H), H)
  {
    var r := JoinAt(b, i, H);
    forall j {:trigger r[j].size} | 0 <= j < |r|
      ensures r[j].at + H <= |m'| && r[j].at < |m'| && m'[r[j].at] == Header(r[j].size, r[j].free, Next(r, j))
    {
      if j <= i {
        assert b[j].size == b[j].size;
      } else {
        assert r[j] == b[j + 1] && b[j + 1].size == r[j].size;
      }
    }
  }

  /** No other block has its header inside block `i`. */
  lemma HeadersApart(b: seq<Block>, end: nat, H: nat, i: nat)
    requires H > 0 && Tiles(b, 0, end, H) && i < |b|
    ensures forall j {:trigger b[j]} :: 0 <= j < |b| && j != i ==> b[j].at < b[i].at || b[j].at >= b[i].at + H + b[i].size
  {
    forall j {:trigger b[j]} | 0 <= j < |b| && j != i
      ensures b[j].at < b[i].at || b[j].at >= b[i].at + H + b[i].size
    {
      if i < j { TilesApart(b, 0, end, H, i, j); } else { TilesApart(b, 0, end, H, j, i); }
    }
  }

  /** The header of one block is in place. */
  ghost predicate Placed(mem: seq<Header>, b: seq<Block>, i: nat, H: nat)
    requires i < |b|
  {
    b[i].at + H <= |mem| && b[i].at < |mem| && mem[b[i].at] == Header(b[i].size, b[i].free, Next(b, i))
  }

  lemma FragRepresented(m: seq<Header>, m': seq<Header>, b: seq<Block>, i: nat, n: nat, H: nat)
    requires Represents(m, b, H) && 0 < H && i < |b| && b[i].size > n + H && n + H < WORD && |m'| == |m|
    requires Tiles(b, 0, |m|, H) && b[i].at + H + b[i].size <= |m|
    requires m' == m[b[i].at + n + H := Header(b[i].size - n - H, true, Next(b, i))]
                    [b[i].at := Header(n, false, Some(b[i].at + n + H))]
    ensures Represents(m', Place(b, i, n, H).blocks, H) && Tiles(Place(b, i, n, H).blocks, 0, |m|, H)
  {
    PlaceTiles(b, i, n, |m|, H);
    HeadersApart(b, |m|, H, i);
    PlaceSplits(b, i, n, H);
    SplitRepresented(m, m', b, i, n, H);
  }

  lemma SplitRepresented(m: seq<Header>, m': seq<Header>, b: seq<Block>, i: nat, n: nat, H: nat)
    requires Represents(m, b, H) && H > 0 && i < |b| && b[i].size > n + H && |m'| == |m|
    requires b[i].at + H + b[i].size <= |m|
    requires forall j {:trigger b[j]} :: 0 <= j < |b| && j != i ==>
               b[j].at < b[i].at || b[j].at >= b[i].at + H + b[i].size
    requires m' == m[b[i].at + n + H := Header(b[i].size - n - H, true, Next(b, i))]
                    [b[i].at := Header(n, false, Some(b[i].at + n + H))]
    ensures Represents(m', SplitAt(b, i, n, H), H)
  {
    var r := SplitAt(b, i, n, H);
    forall j {:trigger r[j].size} | 0 <= j < |r| ensures Placed(m', r, j, H) {
      SplitHeader(m, m', b, i, n, H, j);
    }
  }

  lemma SplitHeader(m: seq<Header>, m': seq<Header>, b: seq<Block>, i: nat, n: nat, H: nat, j: nat)
    requires Represents(m, b, H) && H > 0 && i < |b| && b[i].size > n + H && |m'| == |m| && j < |b| + 1
    requires b[i].at + H + b[i].size <= |m|
    requires forall j {:trigger b[j]} :: 0 <= j < |b| && j != i ==>
               b[j].at < b[i].at || b[j].at >= b[i].at + H + b[i].size
    requires m' == m[b[i].at + n + H := Header(b[i].size - n - H, true, Next(b, i))]
                    [b[i].at := Header(n, false, Some(b[i].at + n + H))]
    ensures Placed(m', SplitAt(b, i, n, H), j, H)
  {
    var r := SplitAt(b, i, n, H);
    if j < i {
      assert r[j] == b[j] && b[j].size == r[j].size;
    } else if j > i + 1 {
      assert r[j] == b[j - 1] && b[j - 1].size == r[j].size;
    }
  }

  lemma FlagRepresented(m: seq<Header>, m': seq<Header>, b: seq<Block>, i: nat, free: bool, H: nat)
    requires Represents(m, b, H) && i < |b| && |m'| == |m| && b[i].at < |m|
    requires forall j {:trigger b[j]} :: 0 <= j < |b| && j != i ==> b[j].at != b[i].at
    requires m' == m[b[i].at := m[b[i].at].(free := free)]
    ensures Represents(m', b[i := b[i].(free := free)], H)
  {
    var r := b[i := b[i].(free := free)];
    forall j {:trigger r[j].size} | 0 <= j < |r|
      ensures r[j].at + H <= |m'| && r[j].at < |m'| && m'[r[j].at] == Header(r[j].size, r[j].free, Next(r, j))
    {
      assert b[j].size == r[j].size;
    }
  }
}
