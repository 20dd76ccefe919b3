/** The option state of gim_config.c with its file: parsing and printing as the code does them, character by character. */
module ConfigFile {
  import opened ConfigText
  import opened Config

  class GimConf {
    const table: seq<Def>
    /** What the parser's uninitialised local happens to hold. */
    const junk: int
    var opts: seq<Opt>
    /** Whether the command line changed the number of VFs. */
    var changed: bool
    var file: Option<string>

    ghost predicate Valid()
      reads this`opts
    {
      Shaped(table, opts)
    }

    /** The module as loaded: every option at its default. */
    constructor (table: seq<Def>, junk: int, file: Option<string>)
      ensures Valid() && this.table == table && this.junk == junk && this.file == file && !changed
      ensures opts == Loaded(table)
    {
      this.table, this.junk, this.file, changed := table, junk, file, false;
      opts := Loaded(table);
    }

    /** gim_conf_search_config_key */
    method SearchConfigKey(key: string) returns (r: Option<nat>)
      ensures r == SearchFrom(table, key, 0) && (r.Some? ==> r.value < |table|)
    {
      var i := 0;
      while i < |table|
        invariant i <= |table| && SearchFrom(table, key, 0) == SearchFrom(table, key, i)
      {
        if KeyMatches(table[i].name, key) {
          return Some(i);
        }
        i := i + 1;
      }
      r := None;
    }

    /** gim_handle_array_token: up to thirty-two fields, the rest filled with the last value. */
    method HandleArrayToken(token: string, index: nat)
      requires Valid() && index < |table|
      modifies this`opts
      ensures Valid() && opts == old(opts)[index := ArrayOpt(table[index], token)]
      ensures HoldsFields(table[index], Fields(token), opts[index])
    {
      hide Fields, FieldValue, HoldsFields;
      ArrayOptHolds(table[index], token);
      var d := table[index];
      var rest, more, i, value, values := token, true, 0, d.def, [];
      ghost var fs := Fields(token);
      assert fs[0..] == fs;
      while i < GPUS && more
        invariant opts == old(opts) && i <= GPUS && i == |values| <= |fs| && (more <==> i < |fs|)
        invariant more ==> fs[i..] == Fields(rest)
        invariant forall k :: 0 <= k < i ==> values[k] == FieldValue(d, fs[k])
        invariant i > 0 ==> value == values[i - 1]
        decreases GPUS - i
      {
        var n := FieldEnd(rest);
        FieldsStep(rest);
        var field := rest[..n];
        value := FieldOrDefault(d, field);
        assert fs[i] == fs[i..][0] == field;
        values := values + [value];
        if n < |rest| {
          rest := rest[n + 1..];
          assert fs[i + 1..] == fs[i..][1..];
        } else {
          more := false;
          assert |fs[i..]| == 1;
        }
        i := i + 1;
      }
      assert values + seq(GPUS - i, _ => value) == ArrayOpt(d, token).value;
      opts := opts[index := Opt(values + seq(GPUS - i, _ => value), i)];
    }

    method FieldOrDefault(d: Def, field: string) returns (value: int)
      ensures value == FieldValue(d, field)
    {
      var v := KStrToInt(field);
      if v.None? || !d.Valid(v.value) {
        value := d.def;
      } else {
        value := v.value;
      }
    }

    /** strsep until a token is not empty. */
    method NextToken(data: string, pos: nat) returns (found: bool, token: string, next: nat)
      requires pos <= |data|
      ensures pos <= next <= |data| && (found ==> next > pos)
      ensures Tokens(data[pos..]) == if found then [token] + Tokens(data[next..]) else []
    {
      hide Tokens, WordEnd;
      next := pos;
      while next < |data|
        invariant pos <= next <= |data| && Tokens(data[pos..]) == Tokens(data[next..])
      {
        var n := WordEnd(data[next..]);
        TokensStep(data[next..]);
        token := data[next..][..n];
        if next + n == |data| {
          assert data[|data|..] == [];
          TokensNone();
          return true, token, |data|;
        }
        assert data[next..][n + 1..] == data[next + n + 1..];
        next := next + n + 1;
        if n > 0 {
          return true, token, next;
        }
      }
      assert data[next..] == [];
      TokensNone();
      found, token := false, [];
    }

    /**
     * gim_conf_trunc_conf_file with defaults filled in; the file exists, as it has been read. Every value a reader of
     * the options can see is the default then, whatever it was; the repeat counts stay.
     */
    method TruncConfFile()
      requires Valid()
      modifies this`opts, this`file
      ensures Valid() && file == Some([]) && opts == Reset(table, old(opts))
      ensures forall i :: 0 <= i < |table| ==> AtDefault(table[i], opts[i]) && opts[i].repeat == old(opts)[i].repeat
      ensures forall i :: 0 <= i < |table| && !table[i].isArray ==> opts[i].value[1..] == old(opts)[i].value[1..]
    {
      file := Some([]);
      ghost var was := opts;
      var index := 0;
      while index < |table|
        invariant index <= |table| && Valid() && file == Some([])
        invariant forall i :: 0 <= i < |table| ==> opts[i] == if i < index then Reset(table, was)[i] else was[i]
      {
        var d, o := table[index], opts[index];
        if d.isArray {
          var id, values := 0, o.value;
          while id < GPUS
            invariant id <= GPUS && |values| == GPUS
            invariant forall k :: 0 <= k < id ==> values[k] == d.def
          {
            values := values[id := d.def];
            id := id + 1;
          }
          assert values == seq(GPUS, _ => d.def);
          o := o.(value := values);
        } else {
          o := SetFirst(o, d.def);
        }
        opts := opts[index := o];
        index := index + 1;
      }
      assert opts == Reset(table, was);
      ResetFacts(table, was);
    }

    /** gim_conf_parse_conf_file */
    method ParseConfFile(data: string)
      requires Valid()
      modifies this`opts, this`file
      ensures Valid()
      ensures var r := Parse(table, Tokens(data), old(opts), junk);
              opts == r.opts && file == if r.Truncated? then Some([]) else old(file)
    {
      hide Tokens, ArrayOpt, ScalarOpt, Reset;
      var pos, more := 0, true;
      assert data[0..] == data;
      ghost var r := Parse(table, Tokens(data), opts, junk);
      while more
        invariant Valid() && pos <= |data| && file == old(file)
        invariant if more then r == Parse(table, Tokens(data[pos..]), opts, junk) else r == Parsed(opts)
        decreases more, |data| - pos
      {
        var found, key, next := NextToken(data, pos);
        if !found {
          more := false;
        } else {
          var index := SearchConfigKey(key);
          if index.None? {
            TruncConfFile();
            return;
          }
          var hasValue, value, after := NextToken(data, next);
          PairOf(key, hasValue, value, Tokens(data[next..]), Tokens(data[after..]));
          if !hasValue {
            more := false;
          } else if table[index.value].isArray {
            HandleArrayToken(value, index.value);
          } else if !table[index.value].persistent {
            TruncConfFile();
            return;
          } else {
            opts := opts[index.value := ScalarOpt(table[index.value], opts[index.value], value, junk)];
          }
          pos := after;
        }
      }
    }

    /** gim_conf_save, the text: one line per persistent option. */
    method Print() returns (text: string)
      requires Valid() && |SaveText(table, opts, |table|)| < FILE_LIMIT
      ensures text == SaveText(table, opts, |table|)
    {
      hide Line;
      var index := 0;
      text := [];
      while index < |table| && |text| < FILE_LIMIT
        invariant index <= |table| && text == SaveText(table, opts, index)
      {
        if table[index].persistent {
          var line := LineText(table[index], opts[index]);
          text := text + line;
        }
        index := index + 1;
      }
      SavePrefix(table, opts, index, |table|);
    }

    /** One line: the first value, then the others up to the repeat count, each behind a comma. */
    method LineText(d: Def, o: Opt) returns (s: string)
      requires |o.value| == GPUS
      ensures s == Line(d, o)
    {
      hide Dec;
      s := d.name + ['='] + Dec(o.value[0]);
      if d.isArray {
        var i := 1;
        ghost var vs := Printed(o);
        assert vs[..1] == [o.value[0]];
        while i < GPUS && i < o.repeat
          invariant 1 <= i <= |vs| && (i < |vs| ==> i < GPUS && i < o.repeat)
          invariant s == d.name + ['='] + Join(vs[..i])
        {
          JoinSnoc(vs[..i], vs[i]);
          assert vs[..i + 1] == vs[..i] + [vs[i]];
          s := s + [','] + Dec(o.value[i]);
          assert s == d.name + ['='] + (Join(vs[..i]) + [','] + Dec(vs[i]));
          i := i + 1;
        }
        assert vs[..i] == vs;
      }
      s := s + ['\n'];
    }

    /** gim_conf_save with gim_conf_write_conf_file: nothing is created and nothing is cut off. */
    method Save()
      requires Valid() && |SaveText(table, opts, |table|)| < FILE_LIMIT
      modifies this`file
      ensures file == if old(file).None? then None else Some(Overwritten(old(file).value, SaveText(table, opts, |table|)))
    {
      var text := Print();
      if file.Some? {
        file := Some(Overwritten(file.value, text));
      }
    }

    /** set_array_value */
    method SetArrayValue(index: nat, vals: seq<int>)
      requires Valid() && index < |table| && |vals| > 0
      modifies this`opts, this`changed
      ensures Valid() && opts == old(opts)[index := ArgOpt(table[index], vals)]
      ensures HoldsArgs(table[index], vals, opts[index])
      ensures changed == (old(changed) || (index == VF_NUMBER && Differs(old(opts)[index], opts[index], |vals|)))
    {
      hide HoldsArgs;
      ArgOptHolds(table[index], vals);
      var d, value, i, values, differs := table[index], 0, 0, [], false;
      while i < |vals| && i < GPUS
        invariant opts == old(opts) && i <= GPUS && i <= |vals| && |values| == i
        invariant forall k :: 0 <= k < i ==> values[k] == ValueOrDefault(d, vals[k])
        invariant i > 0 ==> value == values[i - 1]
        invariant differs <==> exists k :: 0 <= k < i && opts[index].value[k] != values[k]
      {
        value := vals[i];
        if !d.Valid(value) {
          value := d.def;
        }
        if value != opts[index].value[i] {
          differs := true;
        }
        values := values + [value];
        i := i + 1;
      }
      ghost var o := ArgOpt(d, vals);
      assert values + seq(GPUS - i, _ => value) == o.value;
      assert forall k :: 0 <= k < i ==> o.value[k] == values[k];
      opts := opts[index := Opt(values + seq(GPUS - i, _ => value), i)];
      if index == VF_NUMBER && differs {
        changed := true;
      }
    }

    /** gim_conf_set_opt: the first value is set, and a persistent option is written out. */
    method SetOpt(index: nat, value: int) returns (ok: bool)
      requires Ranged(table, opts) && Fits(table) && index < |table|
      modifies this`opts, this`file
      ensures Ranged(table, opts) && ok == table[index].Valid(value)
      ensures opts == if ok then old(opts)[index := SetFirst(old(opts)[index], value)] else old(opts)
      ensures file == if ok && table[index].persistent && old(file).Some?
                      then Some(Overwritten(old(file).value, SaveText(table, opts, |table|))) else old(file)
    {
      ok := table[index].Valid(value);
      if ok {
        opts := opts[index := SetFirst(opts[index], value)];
        if table[index].persistent {
          Save();
        }
      }
    }

    /** gim_conf_init_persist_config, and gim_conf_clear_saved_persist_config where it resets. */
    method Refill(most: bool)
      requires Valid()
      modifies this`opts
      ensures Valid() && opts == Refilled(table, old(opts), most)
      ensures forall i :: 0 <= i < |table| ==>
                if i == 0 || !table[i].persistent then opts[i] == old(opts)[i]
                else AllAt(table[i], opts[i], if most then table[i].max else table[i].def)
    {
      hide AllAt;
      var index, done := 0, opts;
      while index < |table|
        invariant index <= |table| && Shaped(table, done)
        invariant opts == old(opts)
        invariant forall k :: 0 <= k < |table| ==> done[k] == if k < index then Refilled(table, opts, most)[k] else opts[k]
      {
        if index != VF_NUMBER && table[index].persistent {
          done := done[index := Filled(table[index], done[index], if most then table[index].max else table[index].def)];
        }
        index := index + 1;
      }
      assert done == Refilled(table, opts, most);
      forall i | 0 <= i < |table|
        ensures if i == 0 || !table[i].persistent then done[i] == opts[i]
                else AllAt(table[i], done[i], if most then table[i].max else table[i].def)
      {
        RefilledIs(table, opts, most, i);
      }
      opts := done;
    }

    /**
     * gim_conf_init: the file if there is one, the array arguments of the command line over it, and the result
     * written back. It leaves exactly the kind of state that printing and parsing preserve.
     */
    method Init(args: seq<(nat, seq<int>)>)
      requires opts == Loaded(table) && !changed
      requires Good(table) && Fits(table)
      requires forall a :: 0 <= a < |args| ==> args[a].0 < |table| && table[args[a].0].isArray && |args[a].1| > 0
      modifies this
      ensures Ok(table, opts) && file.Some? && !changed
      ensures opts == Initialised(table, old(file), args, junk)
      ensures forall i :: 0 <= i < |table| ==> Settled(table, old(file), args, junk, i, opts[i])
      ensures var text := SaveText(table, opts, |table|);
              |text| < FILE_LIMIT && file.value == Overwritten(LeftByReading(table, old(file), junk), text)
    {
      LoadedOk(table);
      var created := false;
      if file.None? {
        file, created := Some([]), true;
        Refill(true);
        RefilledOk(table, Loaded(table), true);
      } else {
        ParseKeepsOk(table, Tokens(file.value), opts, junk);
        ParseConfFile(file.value);
      }
      Arguments(args);
      if created {
        changed := false;
      }
      if changed {
        RefilledOk(table, opts, false);
        Refill(false);
        changed := false;
      }
      assert opts == Initialised(table, old(file), args, junk);
      forall i | 0 <= i < |table|
        ensures Settled(table, old(file), args, junk, i, opts[i])
      {
        InitialisedSettled(table, old(file), args, junk, i);
      }
      Save();
    }

    method Arguments(args: seq<(nat, seq<int>)>)
      requires Good(table) && Ok(table, opts)
      requires forall a :: 0 <= a < |args| ==> args[a].0 < |table| && table[args[a].0].isArray && |args[a].1| > 0
      modifies this`opts, this`changed
      ensures Ok(table, opts) && (opts, changed) == Applied(table, (old(opts), old(changed)), args, |args|)
    {
      hide Good, OptOk, ArgOpt, Differs;
      var a := 0;
      while a < |args|
        invariant a <= |args| && Ok(table, opts)
        invariant (opts, changed) == Applied(table, (old(opts), old(changed)), args, a)
      {
        var (index, vals) := args[a];
        if table[index].persistent {
          DefaultValid(table, index);
          ArgOptOk(table[index], vals);
        }
        OneChangedOk(table, opts, index, ArgOpt(table[index], vals));
        SetArrayValue(index, vals);
        a := a + 1;
      }
    }
  }

  /** The first n arguments over the options, each noting whether it changes the number of VFs. */
  ghost function Applied(table: seq<Def>, st: (seq<Opt>, bool), args: seq<(nat, seq<int>)>, n: nat): (r: (seq<Opt>, bool))
    requires Shaped(table, st.0) && n <= |args|
    requires forall a :: 0 <= a < |args| ==> args[a].0 < |table| && |args[a].1| > 0
    ensures Shaped(table, r.0)
  {
    if n == 0 then st else
      var (opts, changed) := Applied(table, st, args, n - 1);
      var (index, vals) := args[n - 1];
      var o := ArgOpt(table[index], vals);
      (opts[index := o], changed || (index == VF_NUMBER && Differs(opts[index], o, |vals|)))
  }

  /** What gim_conf_init makes of a file and a command line. */
  ghost function Initialised(table: seq<Def>, file: Option<string>, args: seq<(nat, seq<int>)>, junk: int): seq<Opt>
    requires forall a :: 0 <= a < |args| ==> args[a].0 < |table| && |args[a].1| > 0
  {
    var base := FromFile(table, file, junk);
    if !Shaped(table, base) then base else
      var (opts, changed) := Applied(table, (base, false), args, |args|);
      if file.Some? && changed then Refilled(table, opts, false) else opts
  }

  // ---- what an option holds after initialisation, without the order of the steps ----

  ghost predicate ArgsOk(table: seq<Def>, args: seq<(nat, seq<int>)>) {
    forall a :: 0 <= a < |args| ==> args[a].0 < |table| && |args[a].1| > 0
  }

  ghost predicate Named(args: seq<(nat, seq<int>)>, n: nat, i: nat)
    requires n <= |args|
  {
    exists a :: 0 <= a < n && args[a].0 == i
  }

  /** Argument a is the last of the first n that names option i. */
  ghost predicate LastNamed(args: seq<(nat, seq<int>)>, n: nat, a: nat, i: nat)
    requires n <= |args|
  {
    a < n && args[a].0 == i && forall b :: a < b < n ==> args[b].0 != i
  }

  /** The options before the command line: from the file, or, without one, the persistent ones but the first at their maxima. */
  ghost function FromFile(table: seq<Def>, file: Option<string>, junk: int): (r: seq<Opt>) {
    if file.None? then Refilled(table, Loaded(table), true) else Parse(table, Tokens(file.value), Loaded(table), junk).opts
  }

  /** Option i holds what its last argument says, and without one what it held before. */
  ghost predicate HoldsLast(table: seq<Def>, base: seq<Opt>, args: seq<(nat, seq<int>)>, n: nat, i: nat, o: Opt)
    requires n <= |args| && i < |table| && i < |base|
  {
    && (forall a: nat :: LastNamed(args, n, a, i) ==> HoldsArgs(table[i], args[a].1, o))
    && (!Named(args, n, i) ==> o == base[i])
  }

  /** Some argument gave the number of VFs a value other than what it was before. */
  ghost predicate VfsChange(table: seq<Def>, base: seq<Opt>, args: seq<(nat, seq<int>)>, n: nat)
    requires Shaped(table, base) && n <= |args| && ArgsOk(table, args)
  {
    exists a :: 0 <= a < n && args[a].0 == 0 && Changes(table, base, args, a)
  }

  ghost predicate Changes(table: seq<Def>, base: seq<Opt>, args: seq<(nat, seq<int>)>, a: nat)
    requires Shaped(table, base) && a < |args| && ArgsOk(table, args) && args[a].0 == 0
  {
    exists was: Opt, now: Opt, k: nat ::
      && HoldsLast(table, base, args, a, 0, was) && HoldsArgs(table[0], args[a].1, now) && |was.value| == |now.value| == GPUS
      && k < |args[a].1| && k < GPUS && was.value[k] != now.value[k]
  }

  /**
   * Option i after initialisation: what its last argument says, else what the file or its absence says; but where a file
   * was read and the number of VFs changed, the other persistent options are all at their defaults.
   */
  ghost predicate Settled(table: seq<Def>, file: Option<string>, args: seq<(nat, seq<int>)>, junk: int, i: nat, o: Opt)
    requires i < |table| && ArgsOk(table, args)
  {
    var base := FromFile(table, file, junk);
    Shaped(table, base) &&
      if file.Some? && i != 0 && table[i].persistent && VfsChange(table, base, args, |args|) then AllAt(table[i], o, table[i].def)
      else HoldsLast(table, base, args, |args|, i, o)
  }

  lemma {:induction false} AppliedHolds(table: seq<Def>, base: seq<Opt>, args: seq<(nat, seq<int>)>, n: nat, i: nat)
    requires Shaped(table, base) && n <= |args| && ArgsOk(table, args) && i < |table|
    ensures HoldsLast(table, base, args, n, i, Applied(table, (base, false), args, n).0[i])
    decreases n
  {
    hide HoldsArgs, HoldsLast, ArgOpt, Differs;
    if n > 0 {
      AppliedHolds(table, base, args, n - 1, i);
      ArgOptHolds(table[args[n - 1].0], args[n - 1].1);
      HoldsNext(table, base, args, n - 1, i, Applied(table, (base, false), args, n - 1).0[i], ArgOpt(table[args[n - 1].0], args[n - 1].1));
    } else {
      HoldsFirst(table, base, args, i);
    }
  }

  lemma HoldsFirst(table: seq<Def>, base: seq<Opt>, args: seq<(nat, seq<int>)>, i: nat)
    requires i < |table| && i < |base|
    ensures HoldsLast(table, base, args, 0, i, base[i])
  {
  }

  lemma HoldsNext(table: seq<Def>, base: seq<Opt>, args: seq<(nat, seq<int>)>, n: nat, i: nat, o: Opt, given: Opt)
    requires n < |args| && i < |table| && i < |base| && args[n].0 < |table| && HoldsLast(table, base, args, n, i, o)
    requires HoldsArgs(table[args[n].0], args[n].1, given)
    ensures HoldsLast(table, base, args, n + 1, i, if args[n].0 == i then given else o)
  {
    hide HoldsArgs;
    forall a: nat | LastNamed(args, n + 1, a, i)
      ensures HoldsArgs(table[i], args[a].1, if args[n].0 == i then given else o)
    {
      if a < n {
        assert LastNamed(args, n, a, i);
      }
    }
    if Named(args, n, i) {
      var a :| 0 <= a < n && args[a].0 == i;
      assert Named(args, n + 1, i);
    }
    if args[n].0 == i {
      assert Named(args, n + 1, i);
    }
  }

  /** Two options that hold the same values are the same as far as they were given. */
  lemma HoldsSame(d: Def, vals: seq<int>, a: Opt, b: Opt)
    requires HoldsArgs(d, vals, a) && HoldsArgs(d, vals, b)
    ensures a == b
  {
    forall k | 0 <= k < GPUS
      ensures a.value[k] == b.value[k]
    {
    }
    assert a.value == b.value;
  }

  lemma LastOf(args: seq<(nat, seq<int>)>, n: nat, i: nat) returns (a: nat)
    requires n <= |args| && Named(args, n, i)
    ensures LastNamed(args, n, a, i)
    decreases n
  {
    if args[n - 1].0 == i {
      a := n - 1;
    } else {
      assert Named(args, n - 1, i);
      a := LastOf(args, n - 1, i);
    }
  }

  lemma HoldsOne(table: seq<Def>, base: seq<Opt>, args: seq<(nat, seq<int>)>, n: nat, i: nat, x: Opt, y: Opt)
    requires n <= |args| && i < |table| && i < |base|
    requires HoldsLast(table, base, args, n, i, x) && HoldsLast(table, base, args, n, i, y)
    ensures x == y
  {
    hide HoldsArgs;
    if Named(args, n, i) {
      var a := LastOf(args, n, i);
      HoldsSame(table[i], args[a].1, x, y);
    }
  }

  /** The note taken along the way is that the number of VFs changed. */
  lemma {:induction false} AppliedChanges(table: seq<Def>, base: seq<Opt>, args: seq<(nat, seq<int>)>, n: nat)
    requires Shaped(table, base) && n <= |args| && ArgsOk(table, args)
    ensures Applied(table, (base, false), args, n).1 <==> VfsChange(table, base, args, n)
    decreases n
  {
    hide HoldsArgs, ArgOpt, Changes, Differs;
    if n > 0 {
      AppliedChanges(table, base, args, n - 1);
      if args[n - 1].0 == 0 {
        OneChanges(table, base, args, n - 1);
      }
      var c, b := VfsChange(table, base, args, n), VfsChange(table, base, args, n - 1);
      if c {
        var a :| 0 <= a < n && args[a].0 == 0 && Changes(table, base, args, a);
        assert b || a == n - 1;
      }
    }
  }

  lemma OneChanges(table: seq<Def>, base: seq<Opt>, args: seq<(nat, seq<int>)>, a: nat)
    requires Shaped(table, base) && a < |args| && ArgsOk(table, args) && args[a].0 == 0
    ensures Changes(table, base, args, a)
            <==> Differs(Applied(table, (base, false), args, a).0[0], ArgOpt(table[0], args[a].1), |args[a].1|)
  {
    hide HoldsArgs, HoldsLast, ArgOpt;
    var x, y := Applied(table, (base, false), args, a).0[0], ArgOpt(table[0], args[a].1);
    AppliedHolds(table, base, args, a, 0);
    ArgOptHolds(table[0], args[a].1);
    if was: Opt, now: Opt, k: nat :| HoldsLast(table, base, args, a, 0, was) && HoldsArgs(table[0], args[a].1, now)
                                     && |was.value| == |now.value| == GPUS && k < |args[a].1| && k < GPUS && was.value[k] != now.value[k] {
      HoldsOne(table, base, args, a, 0, was, x);
      HoldsSame(table[0], args[a].1, now, y);
    }
    if Differs(x, y, |args[a].1|) {
      var k: nat :| k < |args[a].1| && k < GPUS && x.value[k] != y.value[k];
    }
  }

  lemma InitialisedSettled(table: seq<Def>, file: Option<string>, args: seq<(nat, seq<int>)>, junk: int, i: nat)
    requires i < |table| && ArgsOk(table, args) && Good(table)
    ensures |Initialised(table, file, args, junk)| == |table| && Settled(table, file, args, junk, i, Initialised(table, file, args, junk)[i])
  {
    hide HoldsArgs, ArgOpt, Differs, VfsChange, HoldsLast, Parse, AllAt, Refilled, Good;
    var base := FromFile(table, file, junk);
    FileShaped(table, file, junk);
    AppliedHolds(table, base, args, |args|, i);
    AppliedChanges(table, base, args, |args|);
    RefilledIs(table, Applied(table, (base, false), args, |args|).0, false, i);
  }

  lemma FileShaped(table: seq<Def>, file: Option<string>, junk: int)
    requires Good(table)
    ensures Shaped(table, FromFile(table, file, junk))
  {
    hide Parse, Good, Tokens;
    LoadedOk(table);
    if file.Some? {
      ParseKeepsOk(table, Tokens(file.value), Loaded(table), junk);
    }
  }

  /** Without a file and an argument, a persistent option but the first is at its maximum and any other at its default. */
  lemma FirstStart(table: seq<Def>, args: seq<(nat, seq<int>)>, junk: int, i: nat, o: Opt)
    requires i < |table| && ArgsOk(table, args) && Settled(table, None, args, junk, i, o) && !Named(args, |args|, i)
    ensures AllAt(table[i], o, if i != 0 && table[i].persistent then table[i].max else table[i].def)
  {
    hide Refilled, HoldsArgs;
    RefilledIs(table, Loaded(table), true, i);
  }

  /** What getters return: the first value of a scalar, any value of an array. */
  predicate AtDefault(d: Def, o: Opt) {
    AllAt(d, o, d.def)
  }

  lemma ResetFacts(table: seq<Def>, was: seq<Opt>)
    requires Shaped(table, was)
    ensures var r := Reset(table, was);
            forall i :: 0 <= i < |table| ==>
              && AtDefault(table[i], r[i]) && r[i].repeat == was[i].repeat
              && (!table[i].isArray ==> r[i].value[1..] == was[i].value[1..])
  {
  }

  /** With the file emptied a later start finds every option at its default again. */
  lemma EmptyFileLoads(table: seq<Def>, junk: int)
    ensures Parse(table, Tokens([]), Loaded(table), junk) == Parsed(Loaded(table))
    ensures forall i :: 0 <= i < |table| ==> AtDefault(table[i], Loaded(table)[i])
  {
    TokensNone();
  }

  function Loaded(table: seq<Def>): (r: seq<Opt>)
    ensures |r| == |table| && forall i :: 0 <= i < |r| ==> |r[i].value| == GPUS
  {
    seq(|table|, i requires 0 <= i < |table| =>
          Opt(seq(GPUS, k => if table[i].isArray || k == 0 then table[i].def else 0), 1))
  }

  lemma LoadedOk(table: seq<Def>)
    requires Good(table)
    ensures Ok(table, Loaded(table))
  {
  }

  /** Options with all values in their ranges are printed in less than the buffer holds. */
  ghost predicate Fits(table: seq<Def>) {
    forall opts :: Ranged(table, opts) ==> |SaveText(table, opts, |table|)| < FILE_LIMIT
  }

  /** What is in the file before it is saved again. */
  ghost function LeftByReading(table: seq<Def>, file: Option<string>, junk: int): string {
    if file.None? || Parse(table, Tokens(file.value), Loaded(table), junk).Truncated? then [] else file.value
  }

  /** Whether one of the first n values is another. */
  ghost predicate Differs(a: Opt, b: Opt, n: nat)
    requires |a.value| == |b.value| == GPUS
  {
    exists k :: 0 <= k < n && k < GPUS && a.value[k] != b.value[k]
  }

  lemma FieldsStep(s: string)
    ensures var n := FieldEnd(s); Fields(s) == if n == |s| then [s[..n]] else [s[..n]] + Fields(s[n + 1..])
  {
    hide FieldEnd;
    if FieldEnd(s) == |s| {
      assert s[..|s|] == s;
    }
  }

  lemma TokensStep(s: string)
    requires s != []
    ensures var n := WordEnd(s);
            n <= |s| && (n == |s| ==> n > 0)
            && Tokens(s) == (if n == 0 then [] else [s[..n]]) + (if n == |s| then [] else Tokens(s[n + 1..]))
  {
    assert s[..|s|] == s;
  }

  /** The first two tokens of a list put together from a token and the tokens behind it. */
  lemma PairOf(key: string, hasValue: bool, value: string, behind: seq<string>, after: seq<string>)
    requires behind == if hasValue then [value] + after else []
    ensures var toks := [key] + behind;
            if hasValue then |toks| > 1 && toks[1] == value && toks[2..] == after else |toks| == 1
  {
  }

  lemma {:induction false} SavePrefix(table: seq<Def>, opts: seq<Opt>, i: nat, n: nat)
    requires Shaped(table, opts) && i <= n <= |table|
    ensures SaveText(table, opts, i) <= SaveText(table, opts, n)
    decreases n
  {
    hide Line;
    if i < n {
      SavePrefix(table, opts, i, n - 1);
    }
  }

  lemma {:induction false} JoinSnoc(vs: seq<int>, v: int)
    requires |vs| > 0
    ensures Join(vs + [v]) == Join(vs) + [','] + Dec(v)
    decreases |vs|
  {
    hide Dec;
    if |vs| == 1 {
      assert (vs + [v])[1..] == [v];
    } else {
      assert (vs + [v])[1..] == vs[1..] + [v];
      JoinSnoc(vs[1..], v);
    }
  }
}
