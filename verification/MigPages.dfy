/**
 * The dirty-page enumeration of gim_mig.c: which framebuffer page comes next, what the source sends
 * for it and where the target puts it. A framebuffer is a flat byte sequence of |bits| pages.
 */
module MigPages {
  import opened Arith
  import opened Bytes
  import opened Bitmap

  // ---- pages of a framebuffer ----

  predicate FbOk(fb: seq<byte>, bits: seq<bool>, page: nat) {
    |fb| == |bits| * page
  }

  lemma PageInside(n: nat, page: nat, p: nat, cnt: nat)
    requires p + cnt <= n
    ensures p * page + cnt * page <= n * page
  {
    assert (p + cnt) * page == p * page + cnt * page;
    MulMono(p + cnt, n, page);
  }

  function PageOf(fb: seq<byte>, page: nat, p: nat): (r: seq<byte>)
    requires p * page + page <= |fb|
    ensures |r| == page
  {
    fb[p * page..p * page + page]
  }

  function WritePage(fb: seq<byte>, page: nat, p: nat, data: seq<byte>): (r: seq<byte>)
    requires p * page + page <= |fb| && |data| == page
    ensures |r| == |fb|
  {
    fb[..p * page] + data + fb[p * page + page..]
  }

  lemma WritePageAt(fb: seq<byte>, page: nat, p: nat, data: seq<byte>, q: nat)
    requires p * page + page <= |fb| && q * page + page <= |fb| && |data| == page
    ensures PageOf(WritePage(fb, page, p, data), page, q) == if q == p then data else PageOf(fb, page, q)
  {
    PageOrder(p, q, page);
    PageOrder(q, p, page);
    Spliced(fb, p * page, data, q * page);
  }

  lemma PageOrder(p: nat, q: nat, page: nat)
    ensures p < q ==> p * page + page <= q * page
  {
    if p < q {
      NextPage(p, page);
      MulMono(p + 1, q, page);
    }
  }

  lemma NextPage(p: nat, page: nat)
    ensures (p + 1) * page == p * page + page
  {
  }

  lemma Spliced(fb: seq<byte>, a: nat, data: seq<byte>, b: nat)
    requires a + |data| <= |fb| && b + |data| <= |fb| && (a == b || a + |data| <= b || b + |data| <= a)
    ensures var r := fb[..a] + data + fb[a + |data|..];
            a != b ==> r[b..b + |data|] == fb[b..b + |data|]
    ensures var r := fb[..a] + data + fb[a + |data|..];
            a == b ==> r[b..b + |data|] == data
  {
  }

  // ---- what a round sends and where it lands, one page at a time ----

  /** The bitmap after the first k dirty pages were taken. */
  function Drop(bits: seq<bool>, k: nat): (r: seq<bool>)
    ensures |r| == |bits|
    decreases k
  {
    var p := NextBit(bits, 0);
    if k == 0 || p == |bits| then bits else Drop(bits[p := false], k - 1)
  }

  /** The bytes of the first k dirty pages, in the order the source reads them. */
  function Stream(bits: seq<bool>, fb: seq<byte>, page: nat, k: nat): (r: seq<byte>)
    requires FbOk(fb, bits, page)
    decreases k
  {
    var p := NextBit(bits, 0);
    if k == 0 || p == |bits| then [] else
      PageInside(|bits|, page, p, 1);
      PageOf(fb, page, p) + Stream(bits[p := false], fb, page, k - 1)
  }

  /** The framebuffer after the target stored `data`, page by page, at its next dirty positions. */
  function Apply(bits: seq<bool>, fb: seq<byte>, page: nat, data: seq<byte>): (r: seq<byte>)
    requires FbOk(fb, bits, page)
    ensures |r| == |fb|
    decreases |data|
  {
    var p := NextBit(bits, 0);
    if page == 0 || |data| < page || p == |bits| then fb else
      PageInside(|bits|, page, p, 1);
      Apply(bits[p := false], WritePage(fb, page, p, data[..page]), page, data[page..])
  }

  lemma {:induction false} DropCount(bits: seq<bool>, k: nat)
    requires k <= Count(bits)
    ensures Count(Drop(bits, k)) == Count(bits) - k
    ensures forall i :: 0 <= i < |bits| && Drop(bits, k)[i] ==> bits[i]
    decreases k
  {
    var p := NextBit(bits, 0);
    if k > 0 {
      if p == |bits| {
        CountEmpty(bits);
      } else {
        CountClear(bits, p);
        DropCount(bits[p := false], k - 1);
      }
    }
  }

  lemma {:induction false} DropSplit(bits: seq<bool>, a: nat, b: nat)
    ensures Drop(bits, a + b) == Drop(Drop(bits, a), b)
    decreases a
  {
    var p := NextBit(bits, 0);
    if a > 0 && p < |bits| {
      DropSplit(bits[p := false], a - 1, b);
    }
  }

  lemma {:induction false} StreamLength(bits: seq<bool>, fb: seq<byte>, page: nat, k: nat)
    requires FbOk(fb, bits, page) && k <= Count(bits)
    ensures |Stream(bits, fb, page, k)| == k * page
    decreases k
  {
    var p := NextBit(bits, 0);
    if k > 0 {
      if p == |bits| {
        CountEmpty(bits);
      } else {
        CountClear(bits, p);
        PageInside(|bits|, page, p, 1);
        StreamLength(bits[p := false], fb, page, k - 1);
        assert k * page == page + (k - 1) * page;
      }
    }
  }

  lemma {:induction false} StreamSplit(bits: seq<bool>, fb: seq<byte>, page: nat, a: nat, b: nat)
    requires FbOk(fb, bits, page)
    ensures Stream(bits, fb, page, a + b) == Stream(bits, fb, page, a) + Stream(Drop(bits, a), fb, page, b)
    decreases a
  {
    var p := NextBit(bits, 0);
    if a > 0 && p < |bits| {
      StreamSplit(bits[p := false], fb, page, a - 1, b);
    }
  }

  lemma {:induction false} ApplySplit(bits: seq<bool>, fb: seq<byte>, page: nat, k: nat, a: seq<byte>, b: seq<byte>)
    requires FbOk(fb, bits, page) && page > 0 && |a| == k * page
    ensures Apply(bits, fb, page, a + b) == Apply(Drop(bits, k), Apply(bits, fb, page, a), page, b)
    decreases k
  {
    var p := NextBit(bits, 0);
    if k == 0 {
      assert a + b == b;
    } else {
      assert k * page == page + (k - 1) * page;
      if p < |bits| {
        PageInside(|bits|, page, p, 1);
        var fb1 := WritePage(fb, page, p, a[..page]);
        assert (a + b)[..page] == a[..page];
        assert (a + b)[page..] == a[page..] + b;
        ApplySplit(bits[p := false], fb1, page, k - 1, a[page..], b);
      }
    }
  }

  // ---- a run of consecutive dirty pages behaves like one block copy ----

  lemma NextIs(bits: seq<bool>, p: nat)
    requires p < |bits| && bits[p] && (forall i :: 0 <= i < p ==> !bits[i])
    ensures NextBit(bits, 0) == p
  {
  }

  predicate RunAt(bits: seq<bool>, p: nat, cnt: nat) {
    p + cnt <= |bits| && (forall i :: 0 <= i < p ==> !bits[i]) && (forall i :: p <= i < p + cnt ==> bits[i])
  }

  lemma {:induction false} RunDrop(bits: seq<bool>, p: nat, cnt: nat)
    requires RunAt(bits, p, cnt)
    ensures Drop(bits, cnt) == ClearRange(bits, p, cnt)
    ensures cnt <= Count(bits)
    decreases cnt
  {
    if cnt > 0 {
      NextIs(bits, p);
      RunDrop(bits[p := false], p + 1, cnt - 1);
      CountClear(bits, p);
    }
  }

  lemma RunStream(bits: seq<bool>, fb: seq<byte>, page: nat, p: nat, cnt: nat)
    requires RunAt(bits, p, cnt) && FbOk(fb, bits, page)
    ensures p * page + cnt * page <= |fb|
    ensures Stream(bits, fb, page, cnt) == fb[p * page..p * page + cnt * page]
  {
    hide Stream, RunAt, FbOk;
    RunBound(bits, p, cnt);
    RunInside(bits, fb, page, p, cnt);
    RunFrom(bits, fb, page, p, cnt, p * page, cnt * page);
  }

  predicate Times(a: nat, p: nat, page: nat) {
    a == p * page
  }

  lemma {:induction false} RunFrom(bits: seq<bool>, fb: seq<byte>, page: nat, p: nat, cnt: nat, a: nat, n: nat)
    requires RunAt(bits, p, cnt) && FbOk(fb, bits, page) && Times(a, p, page) && Times(n, cnt, page) && a + n <= |fb|
    ensures Stream(bits, fb, page, cnt) == fb[a..a + n]
    decreases cnt
  {
    hide Stream, RunAt, NextBit, FbOk, Times;
    RunBound(bits, p, cnt);
    if cnt > 0 {
      StreamStep(bits, fb, page, p, cnt, a);
      OneTime(a, p, n, cnt, page);
      SameSize(bits, fb, page, p);
      RunFrom(bits[p := false], fb, page, p + 1, cnt - 1, a + page, n - page);
      JoinRun(fb, a, page, n);
    } else {
      NoStream(bits, fb, page, n);
    }
  }

  lemma OneTime(a: nat, p: nat, n: nat, cnt: nat, page: nat)
    requires Times(a, p, page) && Times(n, cnt, page) && cnt > 0
    ensures page <= n && Times(a + page, p + 1, page) && Times(n - page, cnt - 1, page)
  {
    NextPage(p, page);
    NextPage(cnt - 1, page);
  }

  lemma SameSize(bits: seq<bool>, fb: seq<byte>, page: nat, p: nat)
    requires FbOk(fb, bits, page) && p < |bits|
    ensures FbOk(fb, bits[p := false], page)
  {
  }

  lemma RunInside(bits: seq<bool>, fb: seq<byte>, page: nat, p: nat, cnt: nat)
    requires FbOk(fb, bits, page) && p + cnt <= |bits|
    ensures p * page + cnt * page <= |fb| && (p < |bits| ==> FbOk(fb, bits[p := false], page))
  {
    PageInside(|bits|, page, p, cnt);
  }

  lemma RunBound(bits: seq<bool>, p: nat, cnt: nat)
    requires RunAt(bits, p, cnt)
    ensures p + cnt <= |bits| && (cnt > 0 ==> RunAt(bits[p := false], p + 1, cnt - 1))
  {
  }

  /** The first page of a run comes first. */
  lemma StreamStep(bits: seq<bool>, fb: seq<byte>, page: nat, p: nat, cnt: nat, a: nat)
    requires RunAt(bits, p, cnt) && cnt > 0 && FbOk(fb, bits, page) && Times(a, p, page) && p < |bits|
    ensures FbOk(fb, bits[p := false], page) && a + page <= |fb|
    ensures Stream(bits, fb, page, cnt) == fb[a..a + page] + Stream(bits[p := false], fb, page, cnt - 1)
  {
    NextIs(bits, p);
    PageInside(|bits|, page, p, 1);
  }

  lemma NoStream(bits: seq<bool>, fb: seq<byte>, page: nat, n: nat)
    requires FbOk(fb, bits, page) && Times(n, 0, page)
    ensures n == 0 && Stream(bits, fb, page, 0) == []
  {
  }

  lemma JoinRun(fb: seq<byte>, a: nat, m: nat, n: nat)
    requires m <= n && a + n <= |fb|
    ensures fb[a..a + m] + fb[a + m..a + m + (n - m)] == fb[a..a + n]
  {
  }

  lemma {:induction false} RunApply(bits: seq<bool>, fb: seq<byte>, page: nat, p: nat, cnt: nat, data: seq<byte>)
    requires RunAt(bits, p, cnt) && FbOk(fb, bits, page) && page > 0 && |data| == cnt * page
    ensures p * page + cnt * page <= |fb|
    ensures Apply(bits, fb, page, data) == fb[..p * page] + data + fb[p * page + cnt * page..]
    decreases cnt
  {
    hide Apply, RunAt, NextBit;
    RunBound(bits, p, cnt);
    PageInside(|bits|, page, p, cnt);
    if cnt > 0 {
      NextPage(p, page);
      NextPage(cnt - 1, page);
      ApplyStep(bits, fb, page, p, cnt, data);
      var fb1 := WritePage(fb, page, p, data[..page]);
      RunApply(bits[p := false], fb1, page, p + 1, cnt - 1, data[page..]);
      SpliceMore(fb, p * page, data, page);
    } else {
      NoApply(bits, fb, page);
      assert fb == fb[..p * page] + data + fb[p * page..];
    }
  }

  /** The first page of a run is stored first. */
  lemma ApplyStep(bits: seq<bool>, fb: seq<byte>, page: nat, p: nat, cnt: nat, data: seq<byte>)
    requires RunAt(bits, p, cnt) && cnt > 0 && FbOk(fb, bits, page) && 0 < page <= |data|
    ensures p * page + page <= |fb|
    ensures Apply(bits, fb, page, data) == Apply(bits[p := false], WritePage(fb, page, p, data[..page]), page, data[page..])
  {
    NextIs(bits, p);
    PageInside(|bits|, page, p, 1);
  }

  lemma NoApply(bits: seq<bool>, fb: seq<byte>, page: nat)
    requires FbOk(fb, bits, page) && page > 0
    ensures Apply(bits, fb, page, []) == fb
  {
  }

  /** Two writes behind each other are one. */
  lemma SpliceMore(fb: seq<byte>, a: nat, data: seq<byte>, n: nat)
    requires n <= |data| && a + |data| <= |fb|
    ensures var f := fb[..a] + data[..n] + fb[a + n..];
            f[..a + n] + data[n..] + f[a + |data|..] == fb[..a] + data + fb[a + |data|..]
  {
    var f := fb[..a] + data[..n] + fb[a + n..];
    assert f[..a + n] == fb[..a] + data[..n];
    assert f[a + |data|..] == fb[a + |data|..];
    assert data == data[..n] + data[n..];
  }

  // ---- the round as a whole ----

  /** Sending every dirty page of `sfb` and storing what arrives copies exactly the dirty pages. */
  lemma {:induction false} RoundDelivers(bits: seq<bool>, sfb: seq<byte>, tfb: seq<byte>, page: nat, q: nat)
    requires FbOk(sfb, bits, page) && FbOk(tfb, bits, page) && page > 0 && q < |bits|
    ensures q * page + page <= |sfb|
    ensures PageOf(Apply(bits, tfb, page, Stream(bits, sfb, page, Count(bits))), page, q)
            == PageOf(if bits[q] then sfb else tfb, page, q)
    decreases Count(bits)
  {
    hide PageOf, WritePage;
    PageInside(|bits|, page, q, 1);
    var p := NextBit(bits, 0);
    CountEmpty(bits);
    if p < |bits| {
      CountClear(bits, p);
      PageInside(|bits|, page, p, 1);
      var d := PageOf(sfb, page, p);
      var rest := Stream(bits[p := false], sfb, page, Count(bits) - 1);
      assert (d + rest)[..page] == d && (d + rest)[page..] == rest;
      RoundDelivers(bits[p := false], sfb, WritePage(tfb, page, p, d), page, q);
      WritePageAt(tfb, page, p, d, q);
    }
  }
}
