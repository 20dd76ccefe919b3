/**
 * The user-space loops around the ring when the copy thread moves its pointer while they run: each turn
 * sees some space, given here as a sequence. Both loops keep their promise exactly when one turn suffices.
 */
module MigUser {
  import opened Bytes

  function Min(a: nat, b: nat): nat {
    if a < b then a else b
  }

  // ---- gim_mig_ringbuffer_data_copy_user: copied_size is assigned, not added to ----

  datatype Tally = Tally(moved: nat, reported: nat)

  function UserLoop(len: nat, t: Tally, spaces: seq<nat>): Tally
    decreases |spaces|
  {
    if t.reported >= len || spaces == [] || spaces[0] == 0 then t else
      var n := Min(spaces[0], len - t.reported);
      UserLoop(len, Tally(t.moved + n, n), spaces[1..])
  }

  lemma {:induction false} ShortfallStays(len: nat, t: Tally, spaces: seq<nat>)
    requires t.moved > t.reported
    ensures UserLoop(len, t, spaces).moved > UserLoop(len, t, spaces).reported
    decreases |spaces|
  {
    if !(t.reported >= len || spaces == [] || spaces[0] == 0) {
      var n := Min(spaces[0], len - t.reported);
      if t.moved > 0 {
        ShortfallStays(len, Tally(t.moved + n, n), spaces[1..]);
      }
    }
  }

  /** The returned count is the number of bytes moved iff the first turn met the request or no second turn moved anything. */
  lemma CountIsRightIff(len: nat, spaces: seq<nat>)
    ensures var t := UserLoop(len, Tally(0, 0), spaces);
            t.reported == t.moved
            <==> len == 0 || |spaces| < 2 || spaces[0] == 0 || spaces[0] >= len || spaces[1] == 0
  {
    if len > 0 && |spaces| > 0 && spaces[0] > 0 {
      var n := Min(spaces[0], len);
      var rest := spaces[1..];
      if n < len && rest != [] && rest[0] > 0 {
        var m := Min(rest[0], len - n);
        ShortfallStays(len, Tally(n + m, m), rest[1..]);
      }
    }
  }

  // ---- gim_migf_resume_write: every turn copies from the start of the buffer ----

  /** What reaches the ring when `copied` bytes went through before. */
  function Sent(buf: seq<byte>, copied: nat, spaces: seq<nat>): seq<byte>
    decreases |spaces|
  {
    if copied >= |buf| || spaces == [] then [] else
      var n := Min(spaces[0], |buf| - copied);
      buf[..n] + Sent(buf, copied + n, spaces[1..])
  }

  /** The turn that first finds space. */
  function FirstSpace(spaces: seq<nat>): nat {
    if spaces == [] then 0 else if spaces[0] > 0 then spaces[0] else FirstSpace(spaces[1..])
  }

  function Sum(spaces: seq<nat>): nat {
    if spaces == [] then 0 else spaces[0] + Sum(spaces[1..])
  }

  lemma {:induction false} SentInOneGo(buf: seq<byte>, spaces: seq<nat>)
    requires FirstSpace(spaces) >= |buf| > 0
    ensures Sent(buf, 0, spaces) == buf
    decreases |spaces|
  {
    if spaces[0] == 0 {
      SentInOneGo(buf, spaces[1..]);
      assert buf[..0] == [];
    } else {
      assert buf[..|buf|] == buf;
    }
  }

  /** A first turn that falls short: the second piece starts over at the first byte. */
  lemma {:induction false} SentRestarts(buf: seq<byte>, spaces: seq<nat>)
    requires 0 < FirstSpace(spaces) < |buf| <= Sum(spaces)
    ensures |Sent(buf, 0, spaces)| > FirstSpace(spaces) && Sent(buf, 0, spaces)[FirstSpace(spaces)] == buf[0]
    decreases |spaces|
  {
    if spaces[0] == 0 {
      SentRestarts(buf, spaces[1..]);
      assert buf[..0] == [];
    } else {
      SentGoesOn(buf, spaces[0], spaces[1..]);
    }
  }

  lemma {:induction false} SentGoesOn(buf: seq<byte>, copied: nat, spaces: seq<nat>)
    requires copied < |buf| && Sum(spaces) > 0
    ensures |Sent(buf, copied, spaces)| > 0 && Sent(buf, copied, spaces)[0] == buf[0]
    decreases |spaces|
  {
    if spaces[0] == 0 {
      SentGoesOn(buf, copied, spaces[1..]);
      assert buf[..0] == [];
    }
  }

  /**
   * A write that runs to completion delivers every buffer of its length unchanged iff the first turn that
   * finds any room finds room for all of it.
   */
  lemma WriteIntactIff(len: nat, spaces: seq<nat>)
    requires 0 < len <= Sum(spaces)
    ensures (forall buf: seq<byte> :: |buf| == len ==> Sent(buf, 0, spaces) == buf) <==> FirstSpace(spaces) >= len
  {
    FirstOfSum(spaces);
    if FirstSpace(spaces) >= len {
      forall buf: seq<byte> | |buf| == len
        ensures Sent(buf, 0, spaces) == buf
      {
        SentInOneGo(buf, spaces);
      }
    } else {
      var n := FirstSpace(spaces);
      var buf: seq<byte> := seq(len, i => if i == n then 1 else 0);
      SentRestarts(buf, spaces);
      assert Sent(buf, 0, spaces)[n] != buf[n];
    }
  }

  lemma {:induction false} FirstOfSum(spaces: seq<nat>)
    requires Sum(spaces) > 0
    ensures FirstSpace(spaces) > 0
    decreases |spaces|
  {
    if spaces[0] == 0 {
      FirstOfSum(spaces[1..]);
    }
  }
}
