/**
 * The masked byte ring between the copy thread and user space. On the source the thread puts at wptr
 * and user space takes at rptr; on the target user space puts at wptr and the thread takes at rptr.
 */
module MigRing {
  import opened Arith
  import opened Bytes

  datatype Ring = Ring(data: seq<byte>, put: nat, get: nat) {
    /** One page always stays free, so a full ring is never mistaken for an empty one. */
    predicate Ok(page: nat) {
      && 0 < page && 2 * page <= |data|
      && put < |data| && get < |data|
      && Fill() <= |data| - page
    }

    function Fill(): nat
      requires put < |data| && get < |data|
    {
      if put >= get then put - get else put + |data| - get
    }

    function Contents(): (s: seq<byte>)
      requires put < |data| && get < |data|
      ensures |s| == Fill()
    {
      seq(Fill(), i requires 0 <= i < Fill() => data[Wrap(get + i, |data|)])
    }

    function Put(s: seq<byte>): (r: Ring)
      requires put < |data| && |s| < |data|
      ensures |r.data| == |data| && r.get == get && r.put < |data|
    {
      Ring(seq(|data|, j requires 0 <= j < |data| =>
               if Back(j, put, |data|) < |s| then s[Back(j, put, |data|)] else data[j]),
           Wrap(put + |s|, |data|), get)
    }

    function Take(n: nat): (r: Ring)
      requires get < |data| && n < |data|
      ensures r.data == data && r.put == put && r.get < |data|
    {
      Ring(data, put, Wrap(get + n, |data|))
    }
  }

  /** x & (size - 1) for a pointer that passed the end at most once. */
  function Wrap(x: nat, size: nat): (r: nat)
    requires x < 2 * size
    ensures r < size
  {
    if x < size then x else x - size
  }

  lemma WrapMod(x: nat, size: nat)
    requires x < 2 * size
    ensures x % size == Wrap(x, size)
  {
    DivIs(x, size, if x < size then 0 else 1);
  }

  /** How far j lies behind `from`, going round. */
  function Back(j: nat, from: nat, size: nat): (d: nat)
    requires j < size && from < size
    ensures d < size && Wrap(from + d, size) == j
  {
    if j >= from then j - from else j + size - from
  }

  lemma PutContents(r: Ring, s: seq<byte>, page: nat)
    requires r.Ok(page) && |s| <= |r.data| - page - r.Fill()
    ensures r.Put(s).Ok(page)
    ensures r.Put(s).Contents() == r.Contents() + s
  {
    var q, size := r.Put(s), |r.data|;
    forall i | 0 <= i < q.Fill()
      ensures q.Contents()[i] == (r.Contents() + s)[i]
    {
      var j := Wrap(r.get + i, size);
      if i < r.Fill() {
        assert Back(j, r.put, size) >= |s|;
      } else {
        assert Back(j, r.put, size) == i - r.Fill();
      }
    }
  }

  lemma TakeContents(r: Ring, n: nat, page: nat)
    requires r.Ok(page) && n <= r.Fill()
    ensures r.Take(n).Ok(page)
    ensures r.Contents() == r.Contents()[..n] + r.Take(n).Contents()
  {
    var q, size := r.Take(n), |r.data|;
    forall i | 0 <= i < q.Fill()
      ensures q.Contents()[i] == r.Contents()[n + i]
    {
      assert Wrap(q.get + i, size) == Wrap(r.get + (n + i), size);
    }
  }

  // ---- the space formulas of the source, with the mask as a remainder ----

  /** Source thread: (size + rptr - wptr - page) & mask */
  function SourceThreadSpace(r: Ring, page: nat): int
    requires |r.data| > 0
  {
    (|r.data| + r.get - r.put - page) % |r.data|
  }

  /** Source user and target thread: (wptr + size - rptr) & mask */
  function PendingSpace(r: Ring): int
    requires |r.data| > 0
  {
    (r.put + |r.data| - r.get) % |r.data|
  }

  /** Target user: (size - page + rptr - wptr) & mask */
  function TargetUserSpace(r: Ring, page: nat): int
    requires |r.data| > 0
  {
    (|r.data| - page + r.get - r.put) % |r.data|
  }

  /** On every reachable ring the masked formulas give exactly the fill and the free room. */
  lemma SpaceFormulas(r: Ring, page: nat)
    requires r.Ok(page)
    ensures PendingSpace(r) == r.Fill()
    ensures SourceThreadSpace(r, page) == TargetUserSpace(r, page) == |r.data| - page - r.Fill()
  {
    var size := |r.data|;
    if r.put >= r.get {
      DivIs(r.put + size - r.get, size, 1);
      DivIs(size + r.get - r.put - page, size, 0);
    } else {
      DivIs(r.put + size - r.get, size, 0);
      DivIs(size + r.get - r.put - page, size, 1);
    }
  }

  // ---- what the two ends do with the ring, in the order the code does it ----

  /** Bytes one thread call works on: the enabled room up to the end of the buffer, in whole pages. */
  function ThreadRoom(r: Ring, page: nat, isTarget: bool): (n: nat)
    requires r.Ok(page)
  {
    var space, ptr := if isTarget then r.Fill() else |r.data| - page - r.Fill(), if isTarget then r.get else r.put;
    var upToEnd := if space < |r.data| - ptr then space else |r.data| - ptr;
    Rounddown(upToEnd, page)
  }

  function Rounddown(x: nat, m: nat): (r: nat)
    requires m > 0
    ensures r <= x && (x >= m ==> r > 0) && Mult(r, m)
  {
    RoundDown(x, m);
    x - x % m
  }

  /** The space, less what wraps past the end, rounded down to whole pages. */
  lemma RoomFormula(r: Ring, page: nat, isTarget: bool)
    requires r.Ok(page)
    ensures var space, ptr := if isTarget then PendingSpace(r) else SourceThreadSpace(r, page), if isTarget then r.get else r.put;
            var wrapped := if space + ptr > |r.data| then space + ptr - |r.data| else 0;
            && space == (if isTarget then r.Fill() else |r.data| - page - r.Fill())
            && ThreadRoom(r, page, isTarget) == Rounddown(space - wrapped, page)
  {
    SpaceFormulas(r, page);
    hide PendingSpace, SourceThreadSpace;
  }

  lemma RoomFacts(r: Ring, page: nat, isTarget: bool)
    requires r.Ok(page) && Mult(|r.data|, page) && Mult(if isTarget then r.get else r.put, page)
    requires page <= if isTarget then r.Fill() else |r.data| - page - r.Fill()
    ensures var n, ptr := ThreadRoom(r, page, isTarget), if isTarget then r.get else r.put;
            && n > 0 && Mult(n, page) && ptr + n <= |r.data|
            && n <= if isTarget then r.Fill() else |r.data| - page - r.Fill()
  {
    var space, ptr := if isTarget then r.Fill() else |r.data| - page - r.Fill(), if isTarget then r.get else r.put;
    StepWithin(ptr, |r.data|, page);
  }

  lemma RoundDown(x: nat, m: nat)
    requires m > 0
    ensures 0 <= x - x % m <= x && (x >= m ==> x - x % m > 0) && Mult(x - x % m, m)
  {
    MultMod(x, m);
    QuotBounds(x, m);
    MultTimes(Quot(x, m), m);
    DivIs(x, m, Quot(x, m));
    if x >= m {
      MulMono(1, Quot(x, m), m);
    }
  }

  /** A write that stays before the end of the buffer is one block copy. */
  lemma PutIsPatch(r: Ring, s: seq<byte>)
    requires r.put < |r.data| && r.put + |s| <= |r.data| && |s| < |r.data|
    ensures r.Put(s).data == Patch(r.data, r.put, s)
  {
  }

  lemma TakeIsSlice(r: Ring, n: nat)
    requires r.put < |r.data| && r.get < |r.data| && n <= r.Fill() && r.get + n <= |r.data|
    ensures r.Contents()[..n] == r.data[r.get..r.get + n]
  {
    TakeIsTwoSlices(r, n, 0);
  }

  /** A write across the end is two block copies, the second at the start. */
  lemma PutIsTwoPatches(r: Ring, a: seq<byte>, b: seq<byte>)
    requires r.put < |r.data| && |a + b| < |r.data| && r.put + |a| <= |r.data|
    requires |b| > 0 ==> r.put + |a| == |r.data|
    ensures r.Put(a + b).data == Patch(Patch(r.data, r.put, a), 0, b)
  {
  }

  lemma TakeIsTwoSlices(r: Ring, n: nat, m: nat)
    requires r.put < |r.data| && r.get < |r.data| && n + m <= r.Fill() && r.get + n <= |r.data|
    requires m > 0 ==> r.get + n == |r.data|
    ensures m <= |r.data| && r.Contents()[..n + m] == r.data[r.get..r.get + n] + r.data[..m]
  {
    forall i | 0 <= i < n + m
      ensures r.Contents()[i] == (r.data[r.get..r.get + n] + r.data[..m])[i]
    {
      assert r.Contents()[i] == r.data[Wrap(r.get + i, |r.data|)];
    }
  }

  lemma {:induction false} PutTwice(r: Ring, a: seq<byte>, b: seq<byte>)
    requires r.put < |r.data| && |a| + |b| < |r.data|
    ensures r.Put(a).Put(b) == r.Put(a + b)
  {
  }

  // ---- user space's side of the ring ----

  /** Bytes user space may move: what is pending on the source, what is free on the target. */
  function UserRoom(r: Ring, page: nat, isTarget: bool): (n: nat)
    requires r.Ok(page)
    ensures n < |r.data|
  {
    if isTarget then |r.data| - page - r.Fill() else r.Fill()
  }

  /** n bytes moved between user buffer and ring, from the start of the buffer; ptr is user space's pointer now. */
  ghost predicate UserMoved(isTarget: bool, r: Ring, buf0: seq<byte>, n: nat, ring: seq<byte>, ptr: nat, buf: seq<byte>)
    requires r.put < |r.data| && r.get < |r.data| && n <= |buf0| && n < |r.data| && (!isTarget ==> n <= r.Fill())
  {
    if isTarget then Ring(ring, ptr, r.get) == r.Put(buf0[..n]) && buf == buf0
    else Ring(ring, r.put, ptr) == r.Take(n) && buf == Patch(buf0, 0, r.Contents()[..n])
  }

  lemma NoneMoved(isTarget: bool, r: Ring, buf: seq<byte>)
    requires r.put < |r.data| && r.get < |r.data|
    ensures UserMoved(isTarget, r, buf, 0, r.data, if isTarget then r.put else r.get, buf)
  {
  }

  lemma SegmentsMoved(isTarget: bool, r: Ring, buf0: seq<byte>, a: nat, b: nat, ring: seq<byte>, buf: seq<byte>)
    requires r.put < |r.data| && r.get < |r.data| && a + b <= |buf0| && a + b < |r.data| && (!isTarget ==> a + b <= r.Fill())
    requires var ptr := if isTarget then r.put else r.get; ptr + a <= |r.data| && (b > 0 ==> ptr + a == |r.data|)
    requires isTarget ==> buf == buf0 && ring == Patch(Patch(r.data, r.put, buf0[0..a]), 0, buf0[a..a + b])
    requires !isTarget ==> ring == r.data && buf == Patch(Patch(buf0, 0, r.data[r.get..r.get + a]), a, r.data[0..b])
    ensures UserMoved(isTarget, r, buf0, a + b, ring, Wrap((if isTarget then r.put else r.get) + a + b, |r.data|), buf)
  {
    if isTarget {
      assert buf0[..a + b] == buf0[0..a] + buf0[a..a + b];
      PutIsTwoPatches(r, buf0[0..a], buf0[a..a + b]);
    } else {
      TakeIsTwoSlices(r, a, b);
      var x, y := r.data[r.get..r.get + a], r.data[0..b];
      assert Patch(Patch(buf0, 0, x), a, y) == Patch(buf0, 0, x + y);
    }
  }

  /** After a whole turn nothing more can be moved unless the request was already met. */
  lemma RoomAfter(isTarget: bool, r: Ring, buf0: seq<byte>, n: nat, ring: seq<byte>, ptr: nat, buf: seq<byte>, page: nat)
    requires r.Ok(page) && n <= |buf0| && n <= UserRoom(r, page, isTarget) && UserMoved(isTarget, r, buf0, n, ring, ptr, buf)
    ensures var q := if isTarget then Ring(ring, ptr, r.get) else Ring(ring, r.put, ptr);
            q.Ok(page) && UserRoom(q, page, isTarget) == UserRoom(r, page, isTarget) - n
  {
    if isTarget {
      PutContents(r, buf0[..n], page);
    } else {
      TakeContents(r, n, page);
    }
  }
}
