/** The configuration printer and parser (gim_config.c), for any option table and for the one that is built in. */
module Config {
  import opened ConfigText

  const GPUS: nat := 32
  const FILE_LIMIT: nat := 1024
  const VF_NUMBER: nat := 0

  datatype Def = Def(name: string, min: int, max: int, def: int, isArray: bool, persistent: bool) {
    /** gim_conf_valid_opt */
    predicate Valid(v: int) {
      min <= v <= max
    }
  }

  /** The values of one option; those from `repeat` on repeat the last one given. */
  datatype Opt = Opt(value: seq<int>, repeat: nat)

  // ---- the printer ----

  function Printed(o: Opt): (vs: seq<int>)
    requires |o.value| == GPUS
    ensures |vs| > 0
  {
    o.value[..if o.repeat < 1 then 1 else if o.repeat < GPUS then o.repeat else GPUS]
  }

  function Line(d: Def, o: Opt): string
    requires |o.value| == GPUS
  {
    d.name + ['='] + (if d.isArray then Join(Printed(o)) else Dec(o.value[0])) + ['\n']
  }

  /** A line as it stands in the file. */
  lemma SampleLine(more: seq<int>)
    requires |more| == 30
    ensures Line(Def("vf_num", 1, 31, 1, true, true), Opt([4, -7] + more, 2)) == "vf_num=4,-7\n"
  {
    var o := Opt([4, -7] + more, 2);
    assert Printed(o) == [4, -7];
    assert Dec(4) == "4" && DecNat(7) == "7" && Dec(-7) == "-7";
    assert [4, -7][1..] == [-7];
    assert Join([-7]) == "-7";
    assert Join([4, -7]) == "4,-7";
  }

  ghost predicate Shaped(table: seq<Def>, opts: seq<Opt>) {
    |opts| == |table| && forall i :: 0 <= i < |opts| ==> |opts[i].value| == GPUS
  }

  /** What gim_conf_save prints of the first n options. */
  ghost function SaveText(table: seq<Def>, opts: seq<Opt>, n: nat): string
    requires Shaped(table, opts) && n <= |table|
  {
    if n == 0 then [] else
      SaveText(table, opts, n - 1) + (if table[n - 1].persistent then Line(table[n - 1], opts[n - 1]) else [])
  }

  // ---- the parser ----

  /** gim_conf_search_config_key: the first option whose name starts the key, letter case aside. */
  function SearchFrom(table: seq<Def>, key: string, i: nat): Option<nat>
    requires i <= |table|
    decreases |table| - i
  {
    if i == |table| then None else if KeyMatches(table[i].name, key) then Some(i) else SearchFrom(table, key, i + 1)
  }

  function FieldValue(d: Def, field: string): int {
    var v := KStrToInt(field);
    if v.Some? && d.Valid(v.value) then v.value else d.def
  }

  /** gim_handle_array_token: the fields in order, a bad one replaced by the default, the last one repeated. */
  function ArrayOpt(d: Def, token: string): (o: Opt)
    ensures |o.value| == GPUS
  {
    var fs := Fields(token);
    var n := if |fs| < GPUS then |fs| else GPUS;
    Opt(seq(GPUS, i requires 0 <= i < GPUS => FieldValue(d, fs[if i < n then i else n - 1])), n)
  }

  /** All options at their defaults, as after gim_conf_trunc_conf_file; scalars have one value, repeat counts stay. */
  function Reset(table: seq<Def>, opts: seq<Opt>): (r: seq<Opt>)
    requires |opts| == |table|
    ensures |r| == |opts|
  {
    seq(|opts|, i requires 0 <= i < |opts| =>
          opts[i].(value := if table[i].isArray then seq(GPUS, _ => table[i].def)
                            else if |opts[i].value| > 0 then opts[i].value[0 := table[i].def] else []))
  }

  datatype Outcome = Parsed(opts: seq<Opt>) | Truncated(opts: seq<Opt>)

  /** A scalar token; `junk` is what the uninitialised variable holds when the token is no number. */
  function ScalarOpt(d: Def, o: Opt, token: string, junk: int): (r: Opt)
    requires |o.value| == GPUS
    ensures |r.value| == GPUS
  {
    var v := KStrToInt(token);
    var n := if v.Some? then v.value else junk;
    if d.Valid(n) then o.(value := o.value[0 := n]) else o
  }

  /** gim_conf_parse_conf_file on the tokens of the file: key, value, key, value. */
  ghost function Parse(table: seq<Def>, toks: seq<string>, opts: seq<Opt>, junk: int): (r: Outcome)
    requires Shaped(table, opts)
    ensures r.Parsed? ==> Shaped(table, r.opts)
    decreases |toks|
  {
    if toks == [] then Parsed(opts) else
      match SearchFrom(table, toks[0], 0)
      case None => Truncated(Reset(table, opts))
      case Some(i) =>
        if i >= |table| || |toks| == 1 then Parsed(opts)
        else if table[i].isArray then Parse(table, toks[2..], opts[i := ArrayOpt(table[i], toks[1])], junk)
        else if !table[i].persistent then Truncated(Reset(table, opts))
        else Parse(table, toks[2..], opts[i := ScalarOpt(table[i], opts[i], toks[1], junk)], junk)
  }

  lemma SearchInside(table: seq<Def>, key: string, i: nat)
    requires i <= |table|
    ensures SearchFrom(table, key, i).Some? ==> i <= SearchFrom(table, key, i).value < |table|
    decreases |table| - i
  {
    if i < |table| && !KeyMatches(table[i].name, key) {
      SearchInside(table, key, i + 1);
    }
  }

  // ---- printing and parsing undo each other ----

  /** Names are words, a persistent option is found under its own name, and its range is one of ints. */
  ghost predicate Good(table: seq<Def>) {
    forall i :: 0 <= i < |table| && table[i].persistent ==>
      && IsWord(table[i].name) && SearchFrom(table, table[i].name, 0) == Some(i)
      && INT_MIN <= table[i].min <= table[i].def <= table[i].max <= INT_MAX
  }

  /** A state of the options as initialisation leaves them. */
  ghost predicate OptOk(d: Def, o: Opt) {
    && |o.value| == GPUS && 1 <= o.repeat <= GPUS
    && (if d.isArray then
          && (forall i :: 0 <= i < GPUS ==> d.Valid(o.value[i]))
          && (forall i :: o.repeat <= i < GPUS ==> o.value[i] == o.value[o.repeat - 1])
        else d.Valid(o.value[0]))
  }

  ghost predicate Ok(table: seq<Def>, opts: seq<Opt>) {
    Shaped(table, opts) && forall i :: 0 <= i < |table| && table[i].persistent ==> OptOk(table[i], opts[i])
  }

  /** All that is asked of the values when only the ranges count. */
  ghost predicate Ranged(table: seq<Def>, opts: seq<Opt>) {
    Shaped(table, opts) && forall i :: 0 <= i < |table| && table[i].persistent ==> OptRanged(table[i], opts[i])
  }

  ghost predicate OptRanged(d: Def, o: Opt)
    requires |o.value| == GPUS
  {
    d.Valid(o.value[0]) && (d.isArray ==> forall i :: 0 <= i < GPUS ==> d.Valid(o.value[i]))
  }

  function SetFirst(o: Opt, v: int): (r: Opt)
    requires |o.value| == GPUS
    ensures |r.value| == GPUS
  {
    o.(value := o.value[0 := v])
  }

  /** Reading an option's own text back: an array comes back whole, a scalar in its first value. */
  lemma ArrayComesBack(d: Def, o: Opt)
    requires OptOk(d, o) && d.isArray && INT_MIN <= d.min && d.max <= INT_MAX
    ensures ArrayOpt(d, Join(Printed(o))) == o
  {
    hide Join, Fields, FieldValue;
    var vs := Printed(o);
    FieldsOfJoin(vs);
    var r := ArrayOpt(d, Join(vs));
    forall i | 0 <= i < GPUS
      ensures r.value[i] == o.value[i]
    {
      var k := if i < o.repeat then i else o.repeat - 1;
      FieldComesBack(d, vs[k]);
    }
    assert r.value == o.value;
  }

  lemma FieldComesBack(d: Def, v: int)
    requires d.Valid(v) && INT_MIN <= d.min && d.max <= INT_MAX
    ensures FieldValue(d, Dec(v)) == v
  {
    hide Dec, KStrToInt;
    DecRoundTrip(v);
  }

  lemma LineTokens(d: Def, o: Opt)
    requires |o.value| == GPUS && IsWord(d.name)
    ensures Tokens(Line(d, o)) == [d.name, if d.isArray then Join(Printed(o)) else Dec(o.value[0])]
  {
    var v := if d.isArray then Join(Printed(o)) else Dec(o.value[0]);
    assert Line(d, o) == d.name + ['='] + (v + ['\n'] + []);
    assert IsWord(v);
    TokensFront(d.name, '=', v + ['\n'] + []);
    TokensFront(v, '\n', []);
    TokensNone();
  }

  lemma {:induction false} ParseAppend(table: seq<Def>, a: seq<string>, b: seq<string>, opts: seq<Opt>, junk: int)
    requires Shaped(table, opts) && |a| % 2 == 0 && Parse(table, a, opts, junk).Parsed?
    ensures Parse(table, a + b, opts, junk) == Parse(table, b, Parse(table, a, opts, junk).opts, junk)
    decreases |a|
  {
    hide ArrayOpt, ScalarOpt, Reset;
    if a == [] {
      assert a + b == b;
    } else {
      assert (a + b)[0] == a[0] && (a + b)[1] == a[1] && (a + b)[2..] == a[2..] + b;
      SearchInside(table, a[0], 0);
      if SearchFrom(table, a[0], 0).Some? {
        var i := SearchFrom(table, a[0], 0).value;
        if table[i].isArray {
          ParseAppend(table, a[2..], b, opts[i := ArrayOpt(table[i], a[1])], junk);
        } else if table[i].persistent {
          ParseAppend(table, a[2..], b, opts[i := ScalarOpt(table[i], opts[i], a[1], junk)], junk);
        }
      }
    }
  }

  /** Exactly the states initialisation leaves survive printing and reading; any valid range of ints. */
  lemma ArrayComesBackIff(d: Def, o: Opt)
    requires d.isArray && INT_MIN <= d.min <= d.def <= d.max <= INT_MAX
    requires |o.value| == GPUS && forall i :: 0 <= i < GPUS ==> INT_MIN <= o.value[i] <= INT_MAX
    ensures ArrayOpt(d, Join(Printed(o))) == o <==> OptOk(d, o)
  {
    hide Join, Fields, FieldValue;
    if OptOk(d, o) {
      ArrayComesBack(d, o);
    } else {
      var vs := Printed(o);
      FieldsOfJoin(vs);
      forall k | 0 <= k < |vs|
        ensures FieldValue(d, Dec(vs[k])) == if d.Valid(vs[k]) then vs[k] else d.def
      {
        FieldRead(d, vs[k]);
      }
    }
  }

  lemma FieldRead(d: Def, v: int)
    requires INT_MIN <= v <= INT_MAX
    ensures FieldValue(d, Dec(v)) == if d.Valid(v) then v else d.def
  {
    hide Dec, KStrToInt;
    DecRoundTrip(v);
  }

  /** gim_conf_set_opt writes the first value only; an array option then survives unless that value was the repeated one. */
  lemma SetFirstComesBackIff(d: Def, o: Opt, v: int)
    requires INT_MIN <= d.min <= d.def <= d.max <= INT_MAX && OptOk(d, o) && d.isArray && d.Valid(v)
    ensures var n := SetFirst(o, v);
            ArrayOpt(d, Join(Printed(n))) == n <==> o.repeat > 1 || v == o.value[0]
  {
    hide ArrayOpt, Join, Printed;
    var n := SetFirst(o, v);
    ArrayComesBackIff(d, n);
    if o.repeat == 1 && v != o.value[0] {
      assert n.value[1] != n.value[0];
    }
  }

  // ---- every way of setting options keeps their states well formed ----

  function ValueOrDefault(d: Def, v: int): int {
    if d.Valid(v) then v else d.def
  }

  /** set_array_value: a command-line argument; bad values become the default, the last one repeats. */
  function ArgOpt(d: Def, vals: seq<int>): (o: Opt)
    requires |vals| > 0
    ensures |o.value| == GPUS
  {
    var n := if |vals| < GPUS then |vals| else GPUS;
    Opt(seq(GPUS, i requires 0 <= i < GPUS => ValueOrDefault(d, vals[if i < n then i else n - 1])), n)
  }

  /** What each value given on the command line becomes: itself if it is in range, else the default; the last one repeats. */
  ghost predicate HoldsArgs(d: Def, vals: seq<int>, o: Opt) {
    && |o.value| == GPUS && o.repeat == (if |vals| < 32 then |vals| else 32) && 0 < o.repeat
    && (forall k :: 0 <= k < o.repeat ==> o.value[k] == if d.min <= vals[k] <= d.max then vals[k] else d.def)
    && (forall k :: o.repeat <= k < GPUS ==> o.value[k] == o.value[o.repeat - 1])
  }

  /** What each field of a token becomes: its number if it is one and in range, else the default; the last one repeats. */
  ghost predicate HoldsFields(d: Def, fields: seq<string>, o: Opt) {
    && |o.value| == GPUS && o.repeat == (if |fields| < 32 then |fields| else 32) && 0 < o.repeat
    && (forall k :: 0 <= k < o.repeat ==> HoldsField(d, fields[k], o.value[k]))
    && (forall k :: o.repeat <= k < GPUS ==> o.value[k] == o.value[o.repeat - 1])
  }

  ghost predicate HoldsField(d: Def, field: string, v: int) {
    match KStrToInt(field)
    case Some(n) => v == if d.min <= n <= d.max then n else d.def
    case None => v == d.def
  }

  lemma ArgOptHolds(d: Def, vals: seq<int>)
    requires |vals| > 0
    ensures HoldsArgs(d, vals, ArgOpt(d, vals))
  {
    var o := ArgOpt(d, vals);
    forall k | 0 <= k < o.repeat
      ensures o.value[k] == if d.min <= vals[k] <= d.max then vals[k] else d.def
    {
      assert o.value[k] == ValueOrDefault(d, vals[k]);
    }
    forall k | o.repeat <= k < GPUS
      ensures o.value[k] == o.value[o.repeat - 1]
    {
      assert o.value[k] == ValueOrDefault(d, vals[o.repeat - 1]);
    }
  }

  lemma ArrayOptHolds(d: Def, token: string)
    ensures HoldsFields(d, Fields(token), ArrayOpt(d, token))
  {
    hide KStrToInt, Fields;
    var o, fs := ArrayOpt(d, token), Fields(token);
    forall k | 0 <= k < o.repeat
      ensures HoldsField(d, fs[k], o.value[k])
    {
      assert o.value[k] == FieldValue(d, fs[k]);
    }
    forall k | o.repeat <= k < GPUS
      ensures o.value[k] == o.value[o.repeat - 1]
    {
      assert o.value[k] == FieldValue(d, fs[o.repeat - 1]);
    }
  }

  /** Every value a reader can see is v: the first one of a scalar, all of an array. */
  predicate AllAt(d: Def, o: Opt, v: int) {
    |o.value| == GPUS && if d.isArray then forall k :: 0 <= k < GPUS ==> o.value[k] == v else o.value[0] == v
  }

  /** The persistent options but the first at their maxima or defaults; the others as they were, and all repeat counts. */
  lemma RefilledIs(table: seq<Def>, opts: seq<Opt>, most: bool, i: nat)
    requires Shaped(table, opts) && i < |table|
    ensures var o := Refilled(table, opts, most)[i];
            && o.repeat == opts[i].repeat
            && (i == 0 || !table[i].persistent ==> o == opts[i])
            && (i != 0 && table[i].persistent ==> AllAt(table[i], o, if most then table[i].max else table[i].def))
  {
  }

  function Filled(d: Def, o: Opt, v: int): (r: Opt)
    requires |o.value| == GPUS
    ensures |r.value| == GPUS
  {
    o.(value := if d.isArray then seq(GPUS, _ => v) else o.value[0 := v])
  }

  /** The persistent options but the number of VFs at their defaults, or at their maxima when no file existed. */
  function Refilled(table: seq<Def>, opts: seq<Opt>, most: bool): (r: seq<Opt>)
    requires |opts| == |table| && forall i :: 0 <= i < |opts| ==> |opts[i].value| == GPUS
    ensures |r| == |table| && forall i :: 0 <= i < |r| ==> |r[i].value| == GPUS
  {
    seq(|opts|, i requires 0 <= i < |opts| =>
          if i == VF_NUMBER || !table[i].persistent then opts[i]
          else Filled(table[i], opts[i], if most then table[i].max else table[i].def))
  }

  lemma RefilledOk(table: seq<Def>, opts: seq<Opt>, most: bool)
    requires Good(table) && Ok(table, opts)
    ensures Ok(table, Refilled(table, opts, most))
  {
  }

  lemma ResetOk(table: seq<Def>, opts: seq<Opt>)
    requires Good(table) && Ok(table, opts)
    ensures Ok(table, Reset(table, opts))
  {
  }

  lemma ArrayOptOk(d: Def, token: string)
    requires d.isArray && d.Valid(d.def)
    ensures OptOk(d, ArrayOpt(d, token))
  {
    hide Fields, KStrToInt;
    var o, fs := ArrayOpt(d, token), Fields(token);
    forall i | 0 <= i < GPUS
      ensures d.Valid(o.value[i])
    {
      assert o.value[i] == FieldValue(d, fs[if i < o.repeat then i else o.repeat - 1]);
    }
  }

  lemma ArgOptOk(d: Def, vals: seq<int>)
    requires d.isArray && d.Valid(d.def) && |vals| > 0
    ensures OptOk(d, ArgOpt(d, vals))
  {
    var o := ArgOpt(d, vals);
    forall i | 0 <= i < GPUS
      ensures d.Valid(o.value[i])
    {
      assert o.value[i] == ValueOrDefault(d, vals[if i < o.repeat then i else o.repeat - 1]);
    }
  }

  lemma ScalarOptOk(d: Def, o: Opt, token: string, junk: int)
    requires !d.isArray && OptOk(d, o)
    ensures OptOk(d, ScalarOpt(d, o, token, junk))
  {
    hide KStrToInt;
  }

  lemma OneChangedOk(table: seq<Def>, opts: seq<Opt>, i: nat, o: Opt)
    requires Ok(table, opts) && i < |table| && |o.value| == GPUS && (table[i].persistent ==> OptOk(table[i], o))
    ensures Ok(table, opts[i := o])
  {
    hide OptOk;
  }

  /** Whatever stands in the file, and whatever the uninitialised variable holds, parsing leaves well-formed options. */
  lemma {:induction false} ParseKeepsOk(table: seq<Def>, toks: seq<string>, opts: seq<Opt>, junk: int)
    requires Good(table) && Ok(table, opts)
    ensures Ok(table, Parse(table, toks, opts, junk).opts)
    decreases |toks|
  {
    hide ArrayOpt, ScalarOpt, Reset, OptOk, Def.Valid;
    if toks != [] {
      SearchInside(table, toks[0], 0);
      ResetOk(table, opts);
      if SearchFrom(table, toks[0], 0).Some? && |toks| > 1 {
        var i := SearchFrom(table, toks[0], 0).value;
        if table[i].isArray {
          if table[i].persistent {
            DefaultValid(table, i);
            ArrayOptOk(table[i], toks[1]);
          }
          OneChangedOk(table, opts, i, ArrayOpt(table[i], toks[1]));
          ParseKeepsOk(table, toks[2..], opts[i := ArrayOpt(table[i], toks[1])], junk);
        } else if table[i].persistent {
          ScalarOptOk(table[i], opts[i], toks[1], junk);
          OneChangedOk(table, opts, i, ScalarOpt(table[i], opts[i], toks[1], junk));
          ParseKeepsOk(table, toks[2..], opts[i := ScalarOpt(table[i], opts[i], toks[1], junk)], junk);
        }
      }
    }
  }

  lemma DefaultValid(table: seq<Def>, i: nat)
    requires Good(table) && i < |table| && table[i].persistent
    ensures table[i].Valid(table[i].def)
  {
  }

  /** `from` with every persistent option among the first n as in `saved`. */
  ghost function Restored(table: seq<Def>, saved: seq<Opt>, from: seq<Opt>, n: nat): (r: seq<Opt>)
    requires Shaped(table, saved) && Shaped(table, from)
    ensures Shaped(table, r)
  {
    seq(|from|, i requires 0 <= i < |from| =>
          if i >= n || !table[i].persistent then from[i]
          else if table[i].isArray then saved[i]
          else from[i].(value := from[i].value[0 := saved[i].value[0]]))
  }

  lemma {:induction false} SavedParses(table: seq<Def>, saved: seq<Opt>, from: seq<Opt>, n: nat, junk: int)
    requires Good(table) && Ok(table, saved) && Shaped(table, from) && n <= |table|
    ensures |Tokens(SaveText(table, saved, n))| % 2 == 0
    ensures SaveText(table, saved, n) == [] || IsDelim(SaveText(table, saved, n)[|SaveText(table, saved, n)| - 1])
    ensures Parse(table, Tokens(SaveText(table, saved, n)), from, junk) == Parsed(Restored(table, saved, from, n))
    decreases n
  {
    hide *;
    if n == 0 {
      NothingSaved(table, saved, from, junk);
    } else {
      SavedParses(table, saved, from, n - 1, junk);
      SavedMore(table, saved, n - 1);
      if table[n - 1].persistent {
        SaveStep(table, saved, from, n - 1, SaveText(table, saved, n - 1), junk);
      }
      RestoredNext(table, saved, from, n - 1);
    }
  }

  lemma NothingSaved(table: seq<Def>, saved: seq<Opt>, from: seq<Opt>, junk: int)
    requires Ok(table, saved) && Shaped(table, from)
    ensures SaveText(table, saved, 0) == [] && |Tokens([])| % 2 == 0
    ensures Parse(table, Tokens([]), from, junk) == Parsed(Restored(table, saved, from, 0))
  {
    assert Restored(table, saved, from, 0) == from;
  }

  lemma SavedMore(table: seq<Def>, saved: seq<Opt>, n: nat)
    requires Good(table) && Ok(table, saved) && n < |table|
    ensures |saved[n].value| == GPUS && Shaped(table, saved)
    ensures SaveText(table, saved, n + 1)
            == if table[n].persistent then SaveText(table, saved, n) + Line(table[n], saved[n]) else SaveText(table, saved, n)
  {
    hide Line;
    assert SaveText(table, saved, n) + [] == SaveText(table, saved, n);
  }

  /** One more line behind text that parsed well. */
  lemma SaveStep(table: seq<Def>, saved: seq<Opt>, from: seq<Opt>, n: nat, text: string, junk: int)
    requires Good(table) && Ok(table, saved) && Shaped(table, from) && n < |table| && table[n].persistent
    requires |Tokens(text)| % 2 == 0 && (text == [] || IsDelim(text[|text| - 1]))
    requires Parse(table, Tokens(text), from, junk) == Parsed(Restored(table, saved, from, n))
    ensures |saved[n].value| == GPUS
    ensures var all := text + Line(table[n], saved[n]);
            var st := Restored(table, saved, from, n);
            && all != [] && IsDelim(all[|all| - 1]) && |Tokens(all)| % 2 == 0
            && Parse(table, Tokens(all), from, junk) == Parsed(st[n := RestoreOne(table[n], saved[n], st[n])])
  {
    hide Tokens, Line, ArrayOpt, ScalarOpt, Parse, Restored, RestoreOne, IsDelim;
    var d, o := table[n], saved[n];
    LineTokens(d, o);
    LineEnds(d, o);
    TokensAppend(text, Line(d, o));
    ParseAppend(table, Tokens(text), Tokens(Line(d, o)), from, junk);
    LineParses(table, saved, n, Restored(table, saved, from, n), junk);
  }

  lemma LineEnds(d: Def, o: Opt)
    requires |o.value| == GPUS
    ensures Line(d, o) != [] && IsDelim(Line(d, o)[|Line(d, o)| - 1])
  {
  }

  ghost function RestoreOne(d: Def, saved: Opt, from: Opt): Opt
    requires |saved.value| == GPUS && |from.value| == GPUS
  {
    if d.isArray then saved else from.(value := from.value[0 := saved.value[0]])
  }

  lemma LineParses(table: seq<Def>, saved: seq<Opt>, i: nat, opts: seq<Opt>, junk: int)
    requires Good(table) && Ok(table, saved) && Shaped(table, opts) && i < |table| && table[i].persistent
    ensures Parse(table, Tokens(Line(table[i], saved[i])), opts, junk) == Parsed(opts[i := RestoreOne(table[i], saved[i], opts[i])])
  {
    hide Tokens, Line, Join, Printed;
    var d, o := table[i], saved[i];
    LineTokens(d, o);
    var v := if d.isArray then Join(Printed(o)) else Dec(o.value[0]);
    var toks := [d.name, v];
    assert toks[2..] == [];
    if d.isArray {
      ArrayComesBack(d, o);
    } else {
      DecRoundTrip(o.value[0]);
    }
  }

  lemma RestoredNext(table: seq<Def>, saved: seq<Opt>, from: seq<Opt>, n: nat)
    requires Shaped(table, saved) && Shaped(table, from) && n < |table|
    ensures var st := Restored(table, saved, from, n);
            Restored(table, saved, from, n + 1)
            == if table[n].persistent then st[n := RestoreOne(table[n], saved[n], st[n])] else st
  {
  }

  /**
   * Whatever the options were before, parsing what gim_conf_save printed gives back every persistent option,
   * repeated tail and repeat count of arrays included, and leaves the others alone.
   */
  lemma SaveParseRoundTrip(table: seq<Def>, saved: seq<Opt>, from: seq<Opt>, junk: int)
    requires Good(table) && Ok(table, saved) && Shaped(table, from)
    ensures Parse(table, Tokens(SaveText(table, saved, |table|)), from, junk) == Parsed(Restored(table, saved, from, |table|))
  {
    SavedParses(table, saved, from, |table|, junk);
  }

  // ---- the file is opened without truncation ----

  /** The file after a write at its start without truncation: what the text does not cover stays. */
  function Overwritten(was: string, text: string): string {
    text + (if |was| > |text| then was[|text|..] else [])
  }

  /** What a longer older file leaves behind is parsed on top of what was saved. */
  lemma StaleTailDecides(table: seq<Def>, saved: seq<Opt>, was: string, from: seq<Opt>, junk: int)
    requires Good(table) && Ok(table, saved) && Shaped(table, from)
    ensures var text := SaveText(table, saved, |table|);
            var tail := if |was| > |text| then was[|text|..] else [];
            Parse(table, Tokens(Overwritten(was, text)), from, junk)
            == Parse(table, Tokens(tail), Restored(table, saved, from, |table|), junk)
  {
    hide Tokens, Parse, SaveText, Restored, IsDelim;
    var text := SaveText(table, saved, |table|);
    var tail := if |was| > |text| then was[|text|..] else [];
    SavedParses(table, saved, from, |table|, junk);
    TokensAppend(text, tail);
    ParseAppend(table, Tokens(text), Tokens(tail), from, junk);
  }
}
