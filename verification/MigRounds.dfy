/**
 * The byte accounting of the migration file. The length of a round is picked up from the first bytes copied when
 * nothing is left of the last one, and every copy by user space is subtracted from what is left.
 */
module MigRounds {
  import opened Arith
  import opened Bytes
  import opened Bitmap
  import opened MigPages
  import opened MigMessage
  import opened MigRing
  import opened MigTransfer
  import opened MigSystem

  /** Where the length field of the message header ends. */
  const LENGTH_END: nat := 16

  /** hdr->length */
  function LengthAt(bytes: seq<byte>): nat
    requires |bytes| >= LENGTH_END
  {
    Long(U32At(bytes, 8), U32At(bytes, 12))
  }

  /** left_bytes_fd and total_bytes_fd */
  datatype Account = Account(left: int, total: nat)

  /** After a block was copied: with nothing left a new round starts here, if the block reaches behind the length field. */
  function Seen(a: Account, block: seq<byte>): Account {
    if a.left != 0 then a
    else
      var total := if |block| >= LENGTH_END then LengthAt(block) else a.total;
      Account(total, total)
  }

  /** The length field ends at byte 16 of the header: a block that long is enough, a shorter one leaves the old total. */
  lemma SeenIff(a: Account, block: seq<byte>)
    requires a.left == 0
    ensures Seen(a, block).total == (if |block| >= 16 then U32At(block, 8) + 0x1_0000_0000 * U32At(block, 12) else a.total)
    ensures Seen(a, block).left == Seen(a, block).total
  {
  }

  /** One copy by user space: the block up to the end of the ring, the block behind it, and the subtraction. */
  function Counted(a: Account, one: seq<byte>, two: seq<byte>): Account {
    var b := Seen(Seen(a, one), two);
    b.(left := b.left - |one| - |two|)
  }

  /** The next n bytes of what is in the ring, starting at slot `at`. */
  function Step(a: Account, at: nat, size: nat, bytes: seq<byte>, n: nat): Account
    requires n <= |bytes| && at < size
  {
    var one := if n <= size - at then n else size - at;
    Counted(a, bytes[..one], bytes[one..n])
  }

  // ---- what the account should say ----

  function Flat(rounds: seq<seq<byte>>): seq<byte> {
    if rounds == [] then [] else rounds[0] + Flat(rounds[1..])
  }

  /** A copy goes to the end of the round it starts in or stops before; a new round starts when the last one is finished. */
  datatype Place = Place(rest: seq<byte>, rounds: seq<seq<byte>>) {
    function Bytes(): seq<byte> {
      rest + Flat(rounds)
    }
  }

  function Skip(p: Place, n: nat): (q: Place)
    requires n <= |p.Bytes()|
    decreases |p.rounds|
  {
    if n <= |p.rest| then Place(p.rest[n..], p.rounds)
    else
      assert p.Bytes() == p.rest + (p.rounds[0] + Flat(p.rounds[1..]));
      Skip(Place(p.rounds[0], p.rounds[1..]), n - |p.rest|)
  }

  lemma {:induction false} SkipBytes(p: Place, n: nat)
    requires n <= |p.Bytes()|
    ensures Skip(p, n).Bytes() == p.Bytes()[n..]
    decreases |p.rounds|
  {
    if n > |p.rest| {
      assert p.Bytes() == p.rest + (p.rounds[0] + Flat(p.rounds[1..]));
      SkipBytes(Place(p.rounds[0], p.rounds[1..]), n - |p.rest|);
      assert p.Bytes()[n..] == (p.rounds[0] + Flat(p.rounds[1..]))[n - |p.rest|..];
    }
  }

  /** After every copy the account holds the number of bytes left in the round. */
  predicate Accounts(a: Account, at: nat, size: nat, p: Place, ns: seq<nat>)
    requires at < size
    decreases |ns|
  {
    ns == [] ||
    (ns[0] <= |p.Bytes()| && ns[0] < size &&
     var b, q := Step(a, at, size, p.Bytes(), ns[0]), Skip(p, ns[0]);
     b.left == |q.rest| && Accounts(b, Wrap(at + ns[0], size), size, q, ns[1..]))
  }

  /** The copies user space can make: each moves something and less than the ring. */
  predicate Copies(size: nat, avail: nat, ns: seq<nat>)
    decreases |ns|
  {
    ns == [] || (0 < ns[0] < size && ns[0] <= avail && Copies(size, avail - ns[0], ns[1..]))
  }

  /**
   * What user space has to respect: no copy goes past the end of a round, and the first of a round takes in the length
   * field, unless the round is as long as the one before.
   */
  predicate Respects(left: nat, total: nat, lens: seq<nat>, ns: seq<nat>)
    decreases |ns|
  {
    ns == [] ||
      if left > 0 then ns[0] <= left && Respects(left - ns[0], total, lens, ns[1..])
      else
        && lens != [] && ns[0] <= lens[0] && (LENGTH_END <= ns[0] || total == lens[0])
        && Respects(lens[0] - ns[0], lens[0], lens[1..], ns[1..])
  }

  /** A round is whole pages and begins with a header that announces its length. */
  predicate IsRound(page: nat, r: seq<byte>) {
    0 < page && Mult(|r|, page) && LENGTH_END <= |r| == LengthAt(r)
  }

  predicate AllRounds(page: nat, rounds: seq<seq<byte>>) {
    forall i :: 0 <= i < |rounds| ==> IsRound(page, rounds[i])
  }

  function Lengths(rounds: seq<seq<byte>>): seq<nat> {
    if rounds == [] then [] else [|rounds[0]|] + Lengths(rounds[1..])
  }

  /** Between copies: the ring slot and the rest of the round end on a page, and the account is right. */
  predicate At(a: Account, at: nat, size: nat, page: nat, p: Place) {
    && LENGTH_END <= page && Mult(size, page) && at < size && Mult(at + |p.rest|, page)
    && a.left == |p.rest| && AllRounds(page, p.rounds)
  }

  /** At the start of a round the block before the end of the ring holds the first page. */
  lemma StartsOnPage(at: nat, size: nat, page: nat)
    requires 0 < page && Mult(at, page) && Mult(size, page) && at < size
    ensures size - at >= page
  {
    MultDiff(size, at, page);
  }

  lemma LengthInFront(r: seq<byte>, more: seq<byte>, n: nat)
    requires LENGTH_END <= n <= |r + more| && |r| >= LENGTH_END
    ensures LengthAt((r + more)[..n]) == LengthAt(r)
  {
    var t := (r + more)[..n];
    assert forall i :: 0 <= i < LENGTH_END ==> t[i] == r[i];
  }

  /** The first copy of a round: the account is right afterwards iff it stays in the round and sees the length or needs none. */
  lemma FirstCopy(a: Account, at: nat, size: nat, page: nat, p: Place, n: nat)
    requires At(a, at, size, page, p) && p.rest == [] && 0 < n < size && n <= |p.Bytes()|
    ensures p.rounds != []
    ensures var b := Step(a, at, size, p.Bytes(), n);
            var len := |p.rounds[0]|;
            var q := Skip(p, n);
            && (b.left == |q.rest| <==> n <= len && (LENGTH_END <= n || a.total == len))
            && (b.left == |q.rest| ==> b.total == len && q == Place(p.rounds[0][n..], p.rounds[1..]))
  {
    hide LengthAt;
    var r, more := p.rounds[0], Flat(p.rounds[1..]);
    assert p.Bytes() == r + more;
    assert IsRound(page, r);
    StartsOnPage(at, size, page);
    MultAtLeast(|r|, page);
    assert Skip(p, n) == Skip(Place(r, p.rounds[1..]), n);
    var one := if n <= size - at then n else size - at;
    if n >= LENGTH_END {
      LengthInFront(r, more, one);
      assert Seen(a, p.Bytes()[..one]) == Account(|r|, |r|);
    } else {
      assert one == n;
      assert p.Bytes()[n..n] == [];
    }
  }

  lemma MultAtLeast(x: nat, m: nat)
    requires 0 < x && m > 0 && Mult(x, m)
    ensures x >= m
  {
  }

  /** Inside a round: right afterwards iff the copy stays in it. */
  lemma NextCopy(a: Account, at: nat, size: nat, page: nat, p: Place, n: nat)
    requires At(a, at, size, page, p) && p.rest != [] && 0 < n < size && n <= |p.Bytes()|
    ensures var b := Step(a, at, size, p.Bytes(), n);
            var q := Skip(p, n);
            && b == a.(left := a.left - n)
            && (b.left == |q.rest| <==> n <= |p.rest|)
            && (n <= |p.rest| ==> q == Place(p.rest[n..], p.rounds))
  {
  }

  lemma {:induction false} SlotAfter(at: nat, size: nat, page: nat, whole: nat, n: nat)
    requires 0 < page && Mult(size, page) && at < size && n < size && n <= whole && Mult(at + whole, page)
    ensures Mult(Wrap(at + n, size) + (whole - n), page)
  {
    if at + n >= size {
      MultDiff(at + whole, size, page);
    }
  }

  /**
   * Over any number of rounds and copies in pieces of any size, the account is right after every copy iff user space
   * respects the ends of the rounds and takes in each length field at once.
   */
  lemma {:induction false} AccountsIff(a: Account, at: nat, size: nat, page: nat, p: Place, ns: seq<nat>)
    requires At(a, at, size, page, p) && Copies(size, |p.Bytes()|, ns)
    ensures Accounts(a, at, size, p, ns) <==> Respects(|p.rest|, a.total, Lengths(p.rounds), ns)
    decreases |ns|
  {
    hide Step, Skip, LengthAt;
    if ns != [] {
      var n := ns[0];
      var b, q := Step(a, at, size, p.Bytes(), n), Skip(p, n);
      SkipBytes(p, n);
      if p.rest == [] {
        FirstCopy(a, at, size, page, p, n);
        if b.left == |q.rest| {
          assert IsRound(page, p.rounds[0]);
          MultSum(at, |p.rounds[0]|, page);
          SlotAfter(at, size, page, |p.rounds[0]|, n);
        }
      } else {
        NextCopy(a, at, size, page, p, n);
        if n <= |p.rest| {
          SlotAfter(at, size, page, |p.rest|, n);
        }
      }
      if b.left == |q.rest| {
        AccountsIff(b, Wrap(at + n, size), size, page, q, ns[1..]);
      }
    }
  }

  // ---- when it is not: reads are refused while left_bytes_fd is negative ----

  /** The check at the start of gim_migf_save_read. */
  predicate Refused(a: Account) {
    a.left < 0
  }

  /** While the account is right no read is refused. */
  lemma RightIsServed(a: Account, at: nat, size: nat, page: nat, p: Place)
    requires At(a, at, size, page, p)
    ensures !Refused(a)
  {
  }

  /** A read that goes past the end of a round ends the session: every later one is refused. */
  lemma OverreadRefuses(a: Account, at: nat, size: nat, page: nat, p: Place, n: nat)
    requires At(a, at, size, page, p) && 0 < n < size && n <= |p.Bytes()|
    requires n > if p.rest == [] then |p.rounds[0]| else |p.rest|
    ensures Refused(Step(a, at, size, p.Bytes(), n))
  {
    hide LengthAt;
    if p.rest == [] {
      var r, more := p.rounds[0], Flat(p.rounds[1..]);
      assert p.Bytes() == r + more;
      assert IsRound(page, r);
      StartsOnPage(at, size, page);
      MultAtLeast(|r|, page);
      LengthInFront(r, more, if n <= size - at then n else size - at);
    }
  }

  /** So does a first read of a session that stops inside the length field. */
  lemma ShortStartRefuses(at: nat, size: nat, page: nat, rounds: seq<seq<byte>>, n: nat)
    requires At(Account(0, 0), at, size, page, Place([], rounds)) && rounds != [] && 0 < n < LENGTH_END
    ensures n < size && n <= |Place([], rounds).Bytes()|
    ensures Refused(Step(Account(0, 0), at, size, Place([], rounds).Bytes(), n))
  {
    hide LengthAt;
    assert IsRound(page, rounds[0]);
    StartsOnPage(at, size, page);
    assert Place([], rounds).Bytes() == rounds[0] + Flat(rounds[1..]);
  }

  // ---- gim_mig_get_remaining_bytes ----

  /** The message part and the page part of what is left. */
  function Remaining(a: Account, msg: nat): (int, int) {
    if a.left <= 0 then (0, 0)
    else if msg > a.total - a.left then (msg - (a.total - a.left), a.left - (msg - (a.total - a.left)))
    else (0, a.left)
  }

  /** With a right account they are what is left of the message and of the pages behind it. */
  lemma RemainingIs(a: Account, msg: nat, pages: nat, moved: nat)
    requires a == Account(msg + pages - moved, msg + pages) && moved <= msg + pages
    ensures var (initial, dirty) := Remaining(a, msg);
            && (moved <= msg && a.left > 0 ==> initial == msg - moved && dirty == pages)
            && (moved > msg ==> initial == 0 && dirty == msg + pages - moved)
            && initial >= 0 && dirty >= 0 && initial + dirty == a.left
  {
  }

  // ---- the rounds of a session are such rounds ----

  /** The header of an exported message announces the length of its round. */
  lemma HeaderAnnounces(c: Cfg, secs: set<Section>, pay: Payload, seqNo: nat)
    requires c.Valid() && pay.Fits(c) && seqNo < TWO64
    ensures |Export(c, secs, pay, seqNo)| >= HDR_LEN > LENGTH_END
    ensures LengthAt(Export(c, secs, pay, seqNo)) == RoundLength(c, secs, pay.shadow)
  {
    var msg := Export(c, secs, pay, seqNo);
    ExportWords(c, secs, pay, seqNo);
    hide Export, SealedHeader, HeaderWords, RoundLength;
    assert HeaderOf(WordsAt(msg)).length == Long(WordsAt(msg)[2], WordsAt(msg)[3]);
    SealedLength(c, secs, pay, seqNo);
  }

  lemma SealedLength(c: Cfg, secs: set<Section>, pay: Payload, seqNo: nat)
    requires c.Valid() && pay.Fits(c) && seqNo < TWO64
    ensures SealedHeader(c, secs, pay.shadow, seqNo).length == RoundLength(c, secs, pay.shadow)
  {
    hide HeaderWords, RoundLength, Checksum;
  }

  lemma RoundIsPages(c: Cfg, secs: set<Section>, shadow: seq<bool>)
    requires c.Valid() && |shadow| == c.bits
    ensures Mult(RoundLength(c, secs, shadow), c.page)
  {
    MultTimes(Count(shadow), c.page);
    if FbBitmap in secs {
      MultSum(c.MsgSize(), c.page * Count(shadow), c.page);
    }
  }

  // ---- and user space reads all of each ----

  predicate NoStart(es: seq<Event>) {
    forall i :: 0 <= i < |es| ==> !es[i].SourceStart?
  }

  /** What the source's ring holds. */
  function Held(s: Sys): seq<byte> {
    if s.srcRing.put < |s.srcRing.data| && s.srcRing.get < |s.srcRing.data| then s.srcRing.Contents() else []
  }

  /** What a step hands to user space. */
  function ReadOf(s: Sys, e: Event): seq<byte> {
    if e.UserRead? && e.n <= |Held(s)| then Held(s)[..e.n] else []
  }

  ghost function ReadStream(c: Cfg, s: Sys, es: seq<Event>): seq<byte>
    requires CanRun(c, s, es)
    decreases |es|
  {
    if es == [] then [] else ReadOf(s, es[0]) + ReadStream(c, Next(c, s, es[0]), es[1..])
  }

  /** What a step puts into the source's ring, with the count kept in step. */
  lemma StepReads(c: Cfg, s: Sys, e: Event) returns (put: seq<byte>)
    requires WellFormed(c, s) && Enabled(c, s, e) && !e.SourceStart? && WellFormed(c, Next(c, s, e))
    ensures var s' := Next(c, s, e);
            && Held(s) + put == ReadOf(s, e) + Held(s')
            && s'.sent == s.sent + |put| && s'.secs == s.secs && s'.pay == s.pay
  {
    hide Export, Absorb, EmitSide;
    SpaceFormulas(s.srcRing, c.page);
    put := [];
    if e.SourcePage? {
      put := EmitBytes(c, s.src, s.srcFb);
      PutContents(s.srcRing, put, c.page);
    } else if e.UserRead? {
      TakeContents(s.srcRing, e.n, c.page);
    }
  }

  /** What is in the ring, and what the source puts behind it, is what user space reads and what stays in the ring. */
  lemma {:induction false} RunReads(c: Cfg, s: Sys, es: seq<Event>) returns (put: seq<byte>)
    requires CanRun(c, s, es) && NoStart(es)
    ensures WellFormed(c, s) && WellFormed(c, Run(c, s, es))
    ensures var s' := Run(c, s, es);
            && Held(s) + put == ReadStream(c, s, es) + Held(s')
            && s'.sent == s.sent + |put| && s'.secs == s.secs && s'.pay == s.pay
    decreases |es|
  {
    hide WellFormed, Enabled, Next, ReadOf, Held;
    put := [];
    if es != [] {
      var s1 := Next(c, s, es[0]);
      var one := StepReads(c, s, es[0]);
      var more := RunReads(c, s1, es[1..]);
      put := one + more;
      Chain(Held(s), one, more, ReadOf(s, es[0]), Held(s1), ReadStream(c, s1, es[1..]),
            Held(Run(c, s, es)));
    }
  }

  lemma Chain(a: seq<byte>, x: seq<byte>, y: seq<byte>, r: seq<byte>, b: seq<byte>, q: seq<byte>, d: seq<byte>)
    requires a + x == r + b && b + y == q + d
    ensures a + (x + y) == (r + q) + d
  {
    assert a + (x + y) == (a + x) + y;
    assert (r + b) + y == r + (b + y);
    assert r + (q + d) == (r + q) + d;
  }

  /**
   * From a message started on an empty ring to the point where its last page is sent and the ring is empty again, the
   * bytes user space reads, in whatever pieces, are a round: they begin with a header that announces their number.
   */
  lemma ReadsAreRound(c: Cfg, s: Sys, pay: Payload, es: seq<Event>)
    requires Inv(c, s) && Enabled(c, s, SourceStart(pay)) && Held(s) == []
    requires CanRun(c, Next(c, s, SourceStart(pay)), es) && NoStart(es)
    ensures var s1 := Next(c, s, SourceStart(pay));
            var s' := Run(c, s1, es);
            && WellFormed(c, s')
            && (s'.src.Exhausted(c) && Held(s') == [] ==>
                  && IsRound(c.page, ReadStream(c, s1, es))
                  && |ReadStream(c, s1, es)| == RoundLength(c, s.nextMask, pay.shadow))
  {
    hide Inv, Enabled, Next, Run, IsRound, RoundLength, LengthAt, Held;
    InvParts(c, s);
    var s1 := Next(c, s, SourceStart(pay));
    NextInv(c, s, SourceStart(pay));
    RunInv(c, s1, es);
    var s' := Run(c, s1, es);
    var put := RunReads(c, s1, es);
    InvParts(c, s');
    if s'.src.Exhausted(c) && Held(s') == [] {
      ExhaustedSent(c, s');
      StartContents(c, s, pay);
      assert ReadStream(c, s1, es) == Held(s1) + put;
      RoundOfPages(c, s, pay, put);
    }
  }

  lemma InvParts(c: Cfg, s: Sys)
    requires Inv(c, s)
    ensures WellFormed(c, s) && MessageOk(c, s)
  {
  }

  /** The first page of the message is what the ring holds then. */
  lemma StartContents(c: Cfg, s: Sys, pay: Payload)
    requires WellFormed(c, s) && Enabled(c, s, SourceStart(pay)) && Held(s) == []
    requires WellFormed(c, Next(c, s, SourceStart(pay)))
    ensures c.page <= c.MsgSize()
    ensures var s1 := Next(c, s, SourceStart(pay));
            && Held(s1) == Export(c, s.nextMask, pay, s.seqNo)[..c.page]
            && s1.sent == c.page && s1.secs == s.nextMask && s1.pay == pay
  {
    hide Export, Ring.Put, Ring.Fill, Ring.Contents, SourceThreadSpace, EmitSide;
    StepInside(c, 0);
    FirstPut(s.srcRing, Export(c, s.nextMask, pay, s.seqNo)[..c.page], c.page);
  }

  lemma FirstPut(r: Ring, data: seq<byte>, page: nat)
    requires r.Ok(page) && r.Contents() == [] && |data| == page
    ensures r.Put(data).Contents() == data
  {
    PutContents(r, data, page);
  }

  lemma RoundOfPages(c: Cfg, s: Sys, pay: Payload, put: seq<byte>)
    requires WellFormed(c, s) && pay.Fits(c) && c.page <= c.MsgSize()
    requires c.page + |put| == RoundLength(c, s.nextMask, pay.shadow)
    ensures IsRound(c.page, Export(c, s.nextMask, pay, s.seqNo)[..c.page] + put)
  {
    hide Export, RoundLength, LengthAt, WellFormed;
    assert c.Valid() && s.seqNo < TWO64 by { SizesOf(c, s); }
    var msg := Export(c, s.nextMask, pay, s.seqNo);
    HeaderAnnounces(c, s.nextMask, pay, s.seqNo);
    RoundIsPages(c, s.nextMask, pay.shadow);
    PageHoldsLength(c);
    assert msg[..c.page] + msg[c.page..] == msg;
    LengthInFront(msg, [], c.page);
    assert msg + [] == msg;
    LengthInFront(msg[..c.page], put, |msg[..c.page] + put|);
    assert (msg[..c.page] + put)[..|msg[..c.page] + put|] == msg[..c.page] + put;
  }

  lemma SizesOf(c: Cfg, s: Sys)
    requires WellFormed(c, s)
    ensures c.Valid() && s.seqNo < TWO64
  {
  }

  lemma PageHoldsLength(c: Cfg)
    requires c.Valid()
    ensures LENGTH_END <= c.page
  {
  }
}
