/** When what an uninitialised variable happens to hold shows in the options after a configuration file was parsed. */
module ConfigJunk {
  import opened ConfigText
  import opened Config

  /** The parse as if a number that cannot be read were skipped, and the options whose last effective line was such a one. */
  datatype Reading = Reading(out: Outcome, unread: set<nat>)

  ghost function Read(table: seq<Def>, toks: seq<string>, opts: seq<Opt>, unread: set<nat>): (r: Reading)
    requires Shaped(table, opts) && Scalars(table, unread)
    ensures |r.out.opts| == |table| && Scalars(table, r.unread)
    ensures r.out.Parsed? ==> Shaped(table, r.out.opts)
    ensures r.out.Truncated? ==> r.unread == {}
    decreases |toks|
  {
    SearchInside(table, if toks == [] then [] else toks[0], 0);
    if toks == [] then Reading(Parsed(opts), unread) else
      match SearchFrom(table, toks[0], 0)
      case None => Reading(Truncated(Reset(table, opts)), {})
      case Some(i) =>
        if |toks| == 1 then Reading(Parsed(opts), unread)
        else if table[i].isArray then Read(table, toks[2..], opts[i := ArrayOpt(table[i], toks[1])], unread)
        else if !table[i].persistent then Reading(Truncated(Reset(table, opts)), {})
        else
          match KStrToInt(toks[1])
          case None => Read(table, toks[2..], opts, unread + {i})
          case Some(v) =>
            if table[i].Valid(v) then Read(table, toks[2..], opts[i := SetFirst(opts[i], v)], unread - {i})
            else Read(table, toks[2..], opts, unread)
  }

  ghost predicate Scalars(table: seq<Def>, s: set<nat>) {
    forall i :: i in s ==> i < |table| && !table[i].isArray
  }

  /** The options with the junk in those places, where their ranges let it in. */
  ghost function Soiled(table: seq<Def>, opts: seq<Opt>, unread: set<nat>, junk: int): (r: seq<Opt>)
    requires Shaped(table, opts)
    ensures Shaped(table, r)
  {
    seq(|opts|, i requires 0 <= i < |opts| => if i in unread && table[i].Valid(junk) then SetFirst(opts[i], junk) else opts[i])
  }

  ghost function SoiledOutcome(table: seq<Def>, r: Reading, junk: int): Outcome
    requires |r.out.opts| == |table| && (r.out.Parsed? ==> Shaped(table, r.out.opts))
  {
    match r.out
    case Parsed(opts) => Parsed(Soiled(table, opts, r.unread, junk))
    case Truncated(opts) => r.out
  }

  lemma SoiledArray(table: seq<Def>, opts: seq<Opt>, unread: set<nat>, junk: int, i: nat, o: Opt)
    requires Shaped(table, opts) && Scalars(table, unread) && i < |table| && table[i].isArray && |o.value| == GPUS
    ensures Soiled(table, opts, unread, junk)[i := o] == Soiled(table, opts[i := o], unread, junk)
  {
  }

  lemma SoiledReset(table: seq<Def>, opts: seq<Opt>, unread: set<nat>, junk: int)
    requires Shaped(table, opts) && Scalars(table, unread)
    ensures Reset(table, Soiled(table, opts, unread, junk)) == Reset(table, opts)
  {
    var s := Soiled(table, opts, unread, junk);
    forall i | 0 <= i < |table|
      ensures Reset(table, s)[i] == Reset(table, opts)[i]
    {
      if i in unread {
        assert s[i].value[0 := table[i].def] == opts[i].value[0 := table[i].def];
      }
    }
  }

  lemma SoiledScalar(table: seq<Def>, opts: seq<Opt>, unread: set<nat>, junk: int, i: nat, token: string)
    requires Shaped(table, opts) && i < |table| && !table[i].isArray
    ensures var s := Soiled(table, opts, unread, junk);
            s[i := ScalarOpt(table[i], s[i], token, junk)]
            == match KStrToInt(token)
               case None => Soiled(table, opts, unread + {i}, junk)
               case Some(v) =>
                 if table[i].Valid(v) then Soiled(table, opts[i := SetFirst(opts[i], v)], unread - {i}, junk) else s
  {
    hide KStrToInt;
    var s := Soiled(table, opts, unread, junk);
    OneScalar(table[i], opts[i], i in unread, token, junk);
    var t := match KStrToInt(token)
             case None => Soiled(table, opts, unread + {i}, junk)
             case Some(v) => if table[i].Valid(v) then Soiled(table, opts[i := SetFirst(opts[i], v)], unread - {i}, junk) else s;
    forall k | 0 <= k < |table|
      ensures s[i := ScalarOpt(table[i], s[i], token, junk)][k] == t[k]
    {
    }
  }

  /** The same on one option. */
  lemma OneScalar(d: Def, o: Opt, unread: bool, token: string, junk: int)
    requires |o.value| == GPUS
    ensures var s := if unread && d.Valid(junk) then SetFirst(o, junk) else o;
            ScalarOpt(d, s, token, junk)
            == match KStrToInt(token)
               case None => if d.Valid(junk) then SetFirst(o, junk) else o
               case Some(v) => if d.Valid(v) then SetFirst(o, v) else s
  {
    hide KStrToInt;
    Overwrite(o, junk, junk);
    if KStrToInt(token).Some? {
      Overwrite(o, junk, KStrToInt(token).value);
    }
  }

  lemma Overwrite(o: Opt, n: int, m: int)
    requires |o.value| == GPUS
    ensures SetFirst(SetFirst(o, n), m) == SetFirst(o, m)
  {
    assert o.value[0 := n][0 := m] == o.value[0 := m];
  }

  /** The parser's result is that reading with the junk put in. */
  lemma {:induction false} ParseIsSoiled(table: seq<Def>, toks: seq<string>, opts: seq<Opt>, unread: set<nat>, junk: int)
    requires Shaped(table, opts) && Scalars(table, unread)
    ensures Parse(table, toks, Soiled(table, opts, unread, junk), junk) == SoiledOutcome(table, Read(table, toks, opts, unread), junk)
    decreases |toks|
  {
    hide Soiled, ArrayOpt, ScalarOpt, Reset, KStrToInt, Def.Valid, SetFirst, KeyMatches;
    SoiledReset(table, opts, unread, junk);
    if |toks| > 1 {
      SearchInside(table, toks[0], 0);
      if SearchFrom(table, toks[0], 0).Some? {
        var i := SearchFrom(table, toks[0], 0).value;
        if table[i].isArray {
          SoiledArray(table, opts, unread, junk, i, ArrayOpt(table[i], toks[1]));
          ParseIsSoiled(table, toks[2..], opts[i := ArrayOpt(table[i], toks[1])], unread, junk);
        } else if table[i].persistent {
          SoiledScalar(table, opts, unread, junk, i, toks[1]);
          match KStrToInt(toks[1])
          case None => ParseIsSoiled(table, toks[2..], opts, unread + {i}, junk);
          case Some(v) =>
            if table[i].Valid(v) {
              ParseIsSoiled(table, toks[2..], opts[i := SetFirst(opts[i], v)], unread - {i}, junk);
            } else {
              ParseIsSoiled(table, toks[2..], opts, unread, junk);
            }
        }
      }
    }
  }

  lemma NothingSoiled(table: seq<Def>, opts: seq<Opt>, junk: int)
    requires Shaped(table, opts)
    ensures Soiled(table, opts, {}, junk) == opts
  {
  }

  /** Two values of the junk can be told apart in an option that otherwise has the value v. */
  predicate Shows(d: Def, v: int) {
    d.min < d.max || (d.min == d.max && v != d.min)
  }

  ghost predicate Independent(table: seq<Def>, toks: seq<string>, opts: seq<Opt>)
    requires Shaped(table, opts)
  {
    forall j: int, k: int :: Parse(table, toks, opts, j) == Parse(table, toks, opts, k)
  }

  /**
   * The result does not depend on what the uninitialised variable holds iff no scalar option keeps, as its last line with
   * an effect, one whose value is no number, or its range leaves no room for a difference.
   */
  lemma JunkMattersIff(table: seq<Def>, toks: seq<string>, opts: seq<Opt>)
    requires Shaped(table, opts)
    ensures var r := Read(table, toks, opts, {});
            Independent(table, toks, opts)
            <==> forall i :: i in r.unread ==> |r.out.opts[i].value| == GPUS && !Shows(table[i], r.out.opts[i].value[0])
  {
    hide Read, Parse, Reset;
    var r := Read(table, toks, opts, {});
    forall j: int
      ensures Parse(table, toks, opts, j) == SoiledOutcome(table, r, j)
    {
      NothingSoiled(table, opts, j);
      ParseIsSoiled(table, toks, opts, {}, j);
    }
    if r.out.Parsed? {
      if i :| i in r.unread && Shows(table[i], r.out.opts[i].value[0]) {
        var j := table[i].min;
        var k := if table[i].min < table[i].max then table[i].max else j - 1;
        assert Soiled(table, r.out.opts, r.unread, j)[i].value[0] != Soiled(table, r.out.opts, r.unread, k)[i].value[0];
        assert Parse(table, toks, opts, j) != Parse(table, toks, opts, k);
        assert !Independent(table, toks, opts);
      } else {
        forall j: int, k: int
          ensures Parse(table, toks, opts, j) == Parse(table, toks, opts, k)
        {
          NoneShows(table, r, j);
          NoneShows(table, r, k);
        }
      }
    }
  }

  lemma NoneShows(table: seq<Def>, r: Reading, junk: int)
    requires Scalars(table, r.unread) && r.out.Parsed? && Shaped(table, r.out.opts)
    requires forall i :: i in r.unread ==> !Shows(table[i], r.out.opts[i].value[0])
    ensures Soiled(table, r.out.opts, r.unread, junk) == r.out.opts
  {
    forall i | 0 <= i < |table|
      ensures Soiled(table, r.out.opts, r.unread, junk)[i] == r.out.opts[i]
    {
      var o := r.out.opts[i];
      assert o.value[0 := o.value[0]] == o.value;
    }
  }
}
