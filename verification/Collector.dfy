/**
 Mark-and-sweep collection over a linked list of objects (Practicum/myA8.c).
 An object has two outgoing references, and there are two roots.
 */
module Collector {
  import opened Sequences

  class Object {
    var marked: bool
    var next: Object?
    var field1: Object?
    var field2: Object?

    constructor (next: Object?)
      ensures !marked && this.next == next && field1 == null && field2 == null
    {
      marked, this.next, field1, field2 := false, next, null, null;
    }
  }

  // ----- reachability -----

  ghost predicate PointsTo(a: Object, b: Object)
    reads a`field1, a`field2
  {
    a.field1 == b || a.field2 == b
  }

  /** `world` has no reference that leads out of it. */
  ghost predicate Closed(world: set<Object>)
    reads world`field1, world`field2
  {
    forall o :: o in world ==> (o.field1 != null ==> o.field1 in world) && (o.field2 != null ==> o.field2 in world)
  }

  /** `n` references lead from `a` to `b` without touching an object of `blocked`. */
  ghost predicate Steps(world: set<Object>, blocked: set<Object>, a: Object?, b: Object, n: nat)
    reads world`field1, world`field2
  {
    b in world && b !in blocked &&
    if n == 0 then a == b else exists m :: m in world && Steps(world, blocked, a, m, n - 1) && PointsTo(m, b)
  }

  ghost function Reach(world: set<Object>, blocked: set<Object>, a: Object?): set<Object>
    reads world`field1, world`field2
  {
    set b | b in world && exists n: nat :: Steps(world, blocked, a, b, n)
  }

  ghost function Marked(world: set<Object>): set<Object>
    reads world`marked
  {
    set o | o in world && o.marked
  }

  /** A path that starts one reference earlier. */
  lemma {:induction false} Prepend(world: set<Object>, blocked: set<Object>, a: Object, c: Object, b: Object, n: nat)
    requires a in world && a !in blocked && PointsTo(a, c)
    requires Steps(world, blocked + {a}, c, b, n)
    ensures Steps(world, blocked, a, b, n + 1)
  {
    if n == 0 {
      assert Steps(world, blocked, a, a, 0);
    } else {
      var m :| m in world && Steps(world, blocked + {a}, c, m, n - 1) && PointsTo(m, b);
      Prepend(world, blocked, a, c, m, n - 1);
    }
  }

  /** A larger obstacle reaches less. */
  lemma {:induction false} Widen(world: set<Object>, blocked: set<Object>, more: set<Object>, a: Object?, b: Object, n: nat)
    requires blocked <= more && Steps(world, more, a, b, n)
    ensures Steps(world, blocked, a, b, n)
  {
    if n == 0 {
    } else {
      var m :| m in world && Steps(world, more, a, m, n - 1) && PointsTo(m, b);
      Widen(world, blocked, more, a, m, n - 1);
    }
  }

  /** A set that contains `a` (or an obstacle there) and, outside the obstacles, everything its members point to
      contains all that `a` reaches. */
  lemma {:induction false} ClosureContains(world: set<Object>, blocked: set<Object>, a: Object?, b: Object, n: nat, s: set<Object>)
    requires Steps(world, blocked, a, b, n)
    requires a != null && a !in blocked ==> a in s
    requires forall x, y :: x in s && x in world && x !in blocked && y in world && PointsTo(x, y) ==> y in s
    ensures b in s
  {
    if n == 0 {
    } else {
      var m :| m in world && Steps(world, blocked, a, m, n - 1) && PointsTo(m, b);
      ClosureContains(world, blocked, a, m, n - 1, s);
    }
  }

  // ----- mark -----

  method Mark(obj: Object?, ghost world: set<Object>)
    requires Closed(world) && (obj != null ==> obj in world)
    modifies world`marked
    ensures Marked(world) == old(Marked(world)) + Reach(world, old(Marked(world)), obj)
    decreases world - Marked(world)
  {
    if obj != null && !obj.marked {
      ghost var before := Marked(world);
      obj.marked := true;
      ghost var m1 := Marked(world);
      assert m1 == before + {obj};
      Mark(obj.field1, world);
      ghost var m2 := Marked(world);
      Mark(obj.field2, world);
      MarkedExactly(world, before, obj, m2, Marked(world));
    } else {
      NothingToReach(world, Marked(world), obj);
    }
  }

  lemma {:induction false} NothingToReach(world: set<Object>, blocked: set<Object>, a: Object?)
    requires a == null || a in blocked
    ensures Reach(world, blocked, a) == {}
  {
    forall b, n: nat | b in world && Steps(world, blocked, a, b, n) ensures false {
      ClosureContains(world, blocked, a, b, n, {});
    }
  }

  /** Marking `obj`, then what its first field reaches, then what its second field still reaches,
      is marking what `obj` reaches. */
  lemma MarkedExactly(world: set<Object>, before: set<Object>, obj: Object, m2: set<Object>, m3: set<Object>)
    requires Closed(world) && obj in world && obj !in before && before <= world
    requires m2 == before + {obj} + Reach(world, before + {obj}, obj.field1)
    requires m3 == m2 + Reach(world, m2, obj.field2)
    ensures m3 == before + Reach(world, before, obj)
  {
    var m1 := before + {obj};
    assert Steps(world, before, obj, obj, 0);
    forall b | b in Reach(world, m1, obj.field1) ensures b in Reach(world, before, obj) {
      var n: nat :| Steps(world, m1, obj.field1, b, n);
      SourceExists(world, m1, obj.field1, b, n);
      Prepend(world, before, obj, obj.field1, b, n);
    }
    forall b | b in Reach(world, m2, obj.field2) ensures b in Reach(world, before, obj) {
      var n: nat :| Steps(world, m2, obj.field2, b, n);
      SourceExists(world, m2, obj.field2, b, n);
      Widen(world, m1, m2, obj.field2, b, n);
      Prepend(world, before, obj, obj.field2, b, n);
    }
    forall x, y | x in m3 && x !in before && y in world && PointsTo(x, y) ensures y in m3 {
      if x == obj {
        StartReached(world, m1, obj.field1);
        StartReached(world, m2, obj.field2);
      } else if x in m2 {
        ReachStep(world, m1, obj.field1, x, y);
      } else {
        ReachStep(world, m2, obj.field2, x, y);
      }
    }
    forall b | b in Reach(world, before, obj) ensures b in m3 {
      var n: nat :| Steps(world, before, obj, b, n);
      ClosureContains(world, before, obj, b, n, m3);
    }
  }

  lemma {:induction false} SourceExists(world: set<Object>, blocked: set<Object>, a: Object?, b: Object, n: nat)
    requires Steps(world, blocked, a, b, n)
    ensures a != null && a in world && a !in blocked
  {
    if n == 0 {
    } else {
      var m :| m in world && Steps(world, blocked, a, m, n - 1) && PointsTo(m, b);
      SourceExists(world, blocked, a, m, n - 1);
    }
  }

  lemma StartReached(world: set<Object>, blocked: set<Object>, a: Object?)
    ensures a != null && a in world && a !in blocked ==> a in Reach(world, blocked, a)
  {
    if a != null && a in world && a !in blocked {
      assert Steps(world, blocked, a, a, 0);
    }
  }

  lemma ReachStep(world: set<Object>, blocked: set<Object>, a: Object?, x: Object, y: Object)
    requires x in Reach(world, blocked, a) && y in world && PointsTo(x, y)
    ensures y in blocked || y in Reach(world, blocked, a)
  {
    if y !in blocked {
      var n: nat :| Steps(world, blocked, a, x, n);
      assert Steps(world, blocked, a, y, n + 1);
    }
  }

  /** What is marked once marking is done: what was marked before, and what the roots reach around that. */
  ghost function Live(world: set<Object>, marked: set<Object>, root1: Object?, root2: Object?): set<Object>
    reads world`field1, world`field2
  {
    marked + Reach(world, marked, root1) + Reach(world, marked, root2)
  }

  /** A set has everything that the roots start with, and everything that its members point to, except that what was
      marked beforehand is not followed. */
  ghost predicate Covers(world: set<Object>, marked: set<Object>, root1: Object?, root2: Object?, s: set<Object>)
    reads world`field1, world`field2
  {
    && marked <= s && (root1 != null ==> root1 in s) && (root2 != null ==> root2 in s)
    && forall x :: x in s && x in world && x !in marked ==>
         (x.field1 != null ==> x.field1 in s) && (x.field2 != null ==> x.field2 in s)
  }

  /** The live objects are the least such set. */
  lemma LiveIsLeast(world: set<Object>, marked: set<Object>, root1: Object?, root2: Object?, s: set<Object>)
    requires Closed(world)
    requires (root1 != null ==> root1 in world) && (root2 != null ==> root2 in world)
    ensures Covers(world, marked, root1, root2, Live(world, marked, root1, root2))
    ensures Covers(world, marked, root1, root2, s) ==> Live(world, marked, root1, root2) <= s
  {
    var live := Live(world, marked, root1, root2);
    StartReached(world, marked, root1);
    StartReached(world, marked, root2);
    forall x, y | x in live && x in world && x !in marked && y in world && PointsTo(x, y) ensures y in live {
      if x in Reach(world, marked, root1) {
        ReachStep(world, marked, root1, x, y);
      } else {
        ReachStep(world, marked, root2, x, y);
      }
    }
    forall x | x in live && x in world && x !in marked
      ensures (x.field1 != null ==> x.field1 in live) && (x.field2 != null ==> x.field2 in live)
    {
      assert x.field1 != null ==> PointsTo(x, x.field1);
      assert x.field2 != null ==> PointsTo(x, x.field2);
    }
    if Covers(world, marked, root1, root2, s) {
      ReachWithin(world, marked, root1, s);
      ReachWithin(world, marked, root2, s);
    }
  }

  lemma ReachWithin(world: set<Object>, marked: set<Object>, a: Object?, s: set<Object>)
    requires a != null ==> a in s
    requires forall x :: x in s && x in world && x !in marked ==>
               (x.field1 != null ==> x.field1 in s) && (x.field2 != null ==> x.field2 in s)
    ensures Reach(world, marked, a) <= s
  {
    forall b, n: nat | b in world && Steps(world, marked, a, b, n) ensures b in s {
      ClosureContains(world, marked, a, b, n, s);
    }
  }

  /** What the first root's objects hide from the second root is live already. */
  lemma BothRoots(world: set<Object>, marked: set<Object>, root1: Object?, root2: Object?)
    ensures var first := marked + Reach(world, marked, root1);
            first + Reach(world, first, root2) == Live(world, marked, root1, root2)
  {
    var first := marked + Reach(world, marked, root1);
    var both := first + Reach(world, first, root2);
    forall b | b in Reach(world, first, root2) ensures b in Reach(world, marked, root2) {
      var n: nat :| Steps(world, first, root2, b, n);
      Widen(world, marked, first, root2, b, n);
    }
    forall b | b in Reach(world, marked, root2) ensures b in both {
      var n: nat :| Steps(world, marked, root2, b, n);
      SourceExists(world, marked, root2, b, n);
      StartReached(world, first, root2);
      forall x, y | x in both && x in world && x !in marked && y in world && PointsTo(x, y) ensures y in both {
        if x in first { ReachStep(world, marked, root1, x, y); } else { ReachStep(world, first, root2, x, y); }
      }
      ClosureContains(world, marked, root2, b, n, both);
    }
  }

  lemma LiveClosed(world: set<Object>, root1: Object?, root2: Object?)
    requires Closed(world)
    ensures Closed(Live(world, {}, root1, root2))
  {
    forall x, y | x in Live(world, {}, root1, root2) && y in world && PointsTo(x, y)
      ensures y in Live(world, {}, root1, root2)
    {
      if x in Reach(world, {}, root1) { ReachStep(world, {}, root1, x, y); } else { ReachStep(world, {}, root2, x, y); }
    }
  }

  /** The marking half of garbage_collect, with the two roots. */
  method MarkRoots(root1: Object?, root2: Object?, ghost world: set<Object>)
    requires Closed(world)
    requires (root1 != null ==> root1 in world) && (root2 != null ==> root2 in world)
    modifies world`marked
    ensures Marked(world) == Live(world, old(Marked(world)), root1, root2)
  {
    ghost var marked := Marked(world);
    Mark(root1, world);
    ghost var first := Marked(world);
    assert first == marked + Reach(world, marked, root1);
    Mark(root2, world);
    BothRoots(world, marked, root1, root2);
  }

  // ----- the heap list -----

  /** The members of `s` that are in `keep`, in their order. */
  ghost function Kept(s: seq<Object>, keep: set<Object>): seq<Object> {
    if s == [] then [] else if s[0] in keep then [s[0]] + Kept(s[1..], keep) else Kept(s[1..], keep)
  }

  lemma {:induction false} KeptMembers(s: seq<Object>, keep: set<Object>)
    ensures Elems(Kept(s, keep)) == Elems(s) * keep
    ensures Distinct(s) ==> Distinct(Kept(s, keep))
  {
    if s == [] {
    } else {
      KeptMembers(s[1..], keep);
      var r := Kept(s[1..], keep);
      assert s == [s[0]] + s[1..];
      assert Elems(s) == {s[0]} + Elems(s[1..]);
      assert Elems([s[0]] + r) == {s[0]} + Elems(r);
      assert Distinct(s) ==> s[0] !in Elems(s[1..]);
      assert forall x :: x in r ==> x in Elems(r);
    }
  }

  /** Two members that are kept stay in the order in which they were. */
  lemma {:induction false} KeptInOrder(s: seq<Object>, keep: set<Object>, i: nat, j: nat) returns (k: nat, l: nat)
    requires i < j < |s| && s[i] in keep && s[j] in keep
    ensures k < l < |Kept(s, keep)| && Kept(s, keep)[k] == s[i] && Kept(s, keep)[l] == s[j]
  {
    if i == 0 {
      KeptMembers(s[1..], keep);
      assert s[1..][j - 1] == s[j] && s[j] in Elems(Kept(s[1..], keep));
      var m :| 0 <= m < |Kept(s[1..], keep)| && Kept(s[1..], keep)[m] == s[j];
      k, l := 0, m + 1;
    } else {
      k, l := KeptInOrder(s[1..], keep, i - 1, j - 1);
      if s[0] in keep { k, l := k + 1, l + 1; }
    }
  }

  lemma KeptShift(kept: seq<Object>, rest: seq<Object>, keep: set<Object>)
    requires rest != []
    ensures rest[0] in rest && forall o :: o in rest <==> o == rest[0] || o in rest[1..]
    ensures kept + Kept(rest, keep) == (if rest[0] in keep then kept + [rest[0]] else kept) + Kept(rest[1..], keep)
  {
  }

  /** What the link of member `i` of the list `objs` holds; -1 stands for the list head. */
  ghost function Successor(objs: seq<Object>, i: int): Object?
    requires -1 <= i < |objs|
  {
    if i + 1 < |objs| then objs[i + 1] else null
  }

  /** `objs` is the list that starts at `head` and ends with a null link. */
  ghost predicate Linked(head: Object?, objs: seq<Object>)
    reads objs
  {
    && head == Successor(objs, -1)
    && (forall i {:trigger objs[i].next} :: 0 <= i < |objs| ==> objs[i].next == Successor(objs, i))
    && Distinct(objs)
  }

  ghost function Final(s: seq<Object>): Object? {
    if s == [] then null else s[|s| - 1]
  }

  /** Of the objects `all`, those still marked are the ones to keep in the part not yet visited. */
  ghost predicate MarksLeft(all: seq<Object>, rest: seq<Object>, keep: set<Object>)
    reads all`marked
  {
    forall o :: o in all ==> (o.marked <==> o in rest && o in keep)
  }

  /** The space that `n` objects of `unit` bytes take. */
  ghost function Bytes(n: nat, unit: nat): nat {
    if n == 0 then 0 else Bytes(n - 1, unit) + unit
  }

  lemma {:induction false} BytesIsProduct(n: nat, unit: nat)
    ensures Bytes(n, unit) == n * unit
  {
    if n == 0 {
    } else {
      BytesIsProduct(n - 1, unit);
    }
  }

  lemma KeptLive(s: seq<Object>, live: set<Object>)
    ensures Kept(s, Elems(s) * live) == Kept(s, live)
    ensures live <= Elems(s) ==> Elems(Kept(s, live)) == live && live - Elems(s) == {}
  {
    KeptWithin(s, Elems(s) * live, live);
    KeptMembers(s, live);
  }

  lemma CollectedExactly(world: set<Object>, marked: set<Object>, root1: Object?, root2: Object?, s: seq<Object>)
    requires Closed(world)
    ensures Kept(s, Elems(s) * Live(world, marked, root1, root2)) == Kept(s, Live(world, marked, root1, root2))
    ensures marked == {} && Live(world, marked, root1, root2) <= Elems(s) ==>
              && Live(world, marked, root1, root2) - Elems(s) == {}
              && Elems(Kept(s, Live(world, marked, root1, root2))) == Live(world, marked, root1, root2)
              && Closed(Elems(Kept(s, Live(world, marked, root1, root2))))
  {
    KeptLive(s, Live(world, marked, root1, root2));
    LiveClosed(world, root1, root2);
  }

  /** Only what `keep` says about members matters. */
  lemma {:induction false} KeptWithin(s: seq<Object>, keep: set<Object>, keep': set<Object>)
    requires forall o :: o in s ==> (o in keep <==> o in keep')
    ensures Kept(s, keep) == Kept(s, keep')
  {
    if s == [] {
    } else {
      KeptWithin(s[1..], keep, keep');
    }
  }

  class Heap {
    const objectSize: nat
    var head: Object?
    var size: int
    ghost var objs: seq<Object>

    /** The heap is the list `list`, and accounts for its space. */
    ghost predicate Holds(list: seq<Object>)
      reads this`head, this`size, list
    {
      Linked(head, list) && size == Bytes(|list|, objectSize)
    }

    ghost predicate Valid()
      reads this, objs
    {
      Holds(objs)
    }

    constructor (objectSize: nat)
      ensures Valid() && objs == [] && this.objectSize == objectSize
    {
      this.objectSize := objectSize;
      head, size, objs := null, 0, [];
    }

    method NewObject() returns (obj: Object)
      requires Valid()
      modifies this
      ensures Valid() && fresh(obj) && objs == [obj] + old(objs)
      ensures !obj.marked && obj.field1 == null && obj.field2 == null
    {
      obj := new Object(head);
      head := obj;
      size := size + objectSize;
      objs := [obj] + objs;
    }

    /** The middle of a sweep over the objects `all`: the list is `kept`, which is done, and then `rest`, whose first
        object is `cur`; `prev` is the last object kept. */
    ghost predicate Sweeping(prev: Object?, cur: Object?, kept: seq<Object>, rest: seq<Object>,
                             all: seq<Object>, keep: set<Object>)
      reads this`head, this`size, kept + rest, all`marked
    {
      && Holds(kept + rest)
      && Kept(all, keep) == kept + Kept(rest, keep)
      && prev == Final(kept) && cur == Successor(rest, -1)
      && (forall o :: o in kept ==> o in all) && (forall o :: o in rest ==> o in all)
      && MarksLeft(all, rest, keep)
    }

    method Sweep()
      requires Valid()
      modifies this, objs`marked, objs`next
      ensures Valid()
      ensures objs == Kept(old(objs), old(Marked(Elems(objs))))
      ensures forall o :: o in old(objs) ==> !o.marked
    {
      ghost var all, keep := objs, Marked(Elems(objs));
      ghost var kept: seq<Object>, rest: seq<Object> := [], all;
      var prev: Object?, cur := null, head;
      assert kept + rest == all && kept + Kept(rest, keep) == Kept(all, keep);
      while cur != null
        invariant Sweeping(prev, cur, kept, rest, all, keep)
        decreases |rest|
      {
        prev, cur, kept, rest := SweepOne(prev, cur, kept, rest, all, keep);
      }
      assert kept + rest == kept && kept + Kept(rest, keep) == kept;
      objs := kept;
    }

    /** One whole collection. `world` is every object that references may lead to. What is neither marked beforehand
        nor reached is unlinked; marks stay only on live objects that are not on the list. So from clear marks, with
        everything reachable on the list, the list is left with exactly the reachable objects, and no marks. */
    method GarbageCollect(root1: Object?, root2: Object?, ghost world: set<Object>)
      requires Valid() && Elems(objs) <= world && Closed(world)
      requires (root1 != null ==> root1 in world) && (root2 != null ==> root2 in world)
      modifies this, world`marked, objs`next
      ensures Valid()
      ensures objs == Kept(old(objs), Live(world, old(Marked(world)), root1, root2))
      ensures Marked(world) == Live(world, old(Marked(world)), root1, root2) - old(Elems(objs))
      ensures old(Marked(world)) == {} && Live(world, {}, root1, root2) <= old(Elems(objs)) ==>
                Marked(world) == {} && Elems(objs) == Live(world, {}, root1, root2) && Closed(Elems(objs))
      ensures size == |objs| * objectSize
    {
      ghost var before, marked := objs, Marked(world);
      ghost var live := Live(world, marked, root1, root2);
      MarkRoots(root1, root2, world);
      assert Marked(Elems(objs)) == Elems(before) * live;
      Sweep();
      CollectedExactly(world, marked, root1, root2, before);
      BytesIsProduct(|objs|, objectSize);
    }

    /** One turn of the sweep: an unmarked object is unlinked, a marked one stays and loses its mark. */
    method SweepOne(prev: Object?, cur: Object, ghost kept: seq<Object>, ghost rest: seq<Object>,
                    ghost all: seq<Object>, ghost keep: set<Object>)
      returns (prev': Object?, cur': Object?, ghost kept': seq<Object>, ghost rest': seq<Object>)
      requires Sweeping(prev, cur, kept, rest, all, keep)
      modifies this`head, this`size, all`marked, all`next
      ensures Sweeping(prev', cur', kept', rest', all, keep) && |rest'| < |rest|
    {
      Visit(head, kept, rest);
      KeptShift(kept, rest, keep);
      assert cur in all && (prev != null ==> prev in kept);
      cur', rest' := cur.next, rest[1..];
      if !cur.marked {
        Unlink(prev, cur, kept, rest);
        prev', kept' := prev, kept;
      } else {
        cur.marked := false;
        prev', kept' := cur, kept + [cur];
      }
    }

    /** Takes the unreached object `cur` off the list: the link that led to it now skips it. */
    method Unlink(prev: Object?, cur: Object, ghost kept: seq<Object>, ghost rest: seq<Object>)
      requires Holds(kept + rest) && rest != [] && cur == rest[0] && prev == Final(kept)
      modifies this`head, this`size, (if prev == null then {} else {prev})`next
      ensures Holds(kept + rest[1..])
    {
      ghost var s, t := kept + rest, kept + rest[1..];
      assert s[|kept|] == cur && forall i :: 0 <= i < |t| ==> t[i] == s[if i < |kept| then i else i + 1];
      assert prev != null ==> prev == s[|kept| - 1];
      if prev == null {
        head := cur.next;
      } else {
        prev.next := cur.next;
      }
      size := size - objectSize;
      forall i | 0 <= i < |t| ensures t[i].next == Successor(t, i) {
        assert s[i].next == if i == |kept| - 1 then Successor(s, i + 1) else Successor(s, i);
        assert i >= |kept| ==> s[i + 1].next == Successor(s, i + 1);
      }
    }
  }

  /** Moving on to the next object of a list. */
  lemma Visit(head: Object?, kept: seq<Object>, rest: seq<Object>)
    requires Linked(head, kept + rest) && rest != []
    ensures rest[0].next == Successor(rest[1..], -1)
    ensures kept + rest == kept + [rest[0]] + rest[1..]
    ensures rest[0] !in kept && rest[0] !in rest[1..]
  {
    var s := kept + rest;
    assert s[|kept|] == rest[0] && s[|kept|].next == Successor(s, |kept|);
    assert forall i :: 0 <= i < |kept| ==> s[i] == kept[i];
    assert forall i :: 0 < i < |rest| ==> s[|kept| + i] == rest[i];
  }
}
