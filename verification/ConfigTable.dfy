/** The option table that is built in, and what becomes of a configuration file that is written over a longer one. */
module ConfigTable {
  import opened ConfigText
  import opened Config
  import opened ConfigFile

  const NAMES: seq<string> := [
    "vf_num", "ip_discovery_load_type", "fw_load_type", "log_level", "guard", "sch_policy", "fullaccess_timeout",
    "perf_mon_enable", "skip_check_bgpu", "power_saving_mode", "mm_policy", "hangdump_timeout", "fb_sharing_mode",
    "accelerator_partition_mode", "memory_partition_mode", "cc_mode", "per_partition_fullaccess_enable",
    "debug_dump_reserve_size", "hang_detection_mode", "deferred_full_live_update", "asymmetric_fb_mode", "bp_mode",
    "pf_fb_size", "bad_page_record_threshold", "ras_vf_telemetry_policy", "max_cper_count", "debug_mode",
    "sentinel_mode", "enable_live_migration", "thermal_throttle_rate_limit", "vf_hbm_mgmt_mode", "enable_uniras",
    "shader_hash_mode"]

  /** The first three letters of the names. */
  predicate IsHead(a: char, b: char, c: char) {
    || (a == 'a' && ((b == 'c' && c == 'c') || (b == 's' && c == 'y')))
    || (a == 'b' && ((b == 'a' && c == 'd') || (b == 'p' && c == '_')))
    || (a == 'c' && ((b == 'c' && c == '_')))
    || (a == 'd' && ((b == 'e' && c == 'b') || (b == 'e' && c == 'f')))
    || (a == 'e' && ((b == 'n' && c == 'a')))
    || (a == 'f' && ((b == 'b' && c == '_') || (b == 'u' && c == 'l') || (b == 'w' && c == '_')))
    || (a == 'g' && ((b == 'u' && c == 'a')))
    || (a == 'h' && ((b == 'a' && c == 'n')))
    || (a == 'i' && ((b == 'p' && c == '_')))
    || (a == 'l' && ((b == 'o' && c == 'g')))
    || (a == 'm' && ((b == 'a' && c == 'x') || (b == 'e' && c == 'm') || (b == 'm' && c == '_')))
    || (a == 'p' && ((b == 'e' && c == 'r') || (b == 'f' && c == '_') || (b == 'o' && c == 'w')))
    || (a == 'r' && ((b == 'a' && c == 's')))
    || (a == 's' && ((b == 'c' && c == 'h') || (b == 'e' && c == 'n') || (b == 'h' && c == 'a') || (b == 'k' && c == 'i')))
    || (a == 't' && ((b == 'h' && c == 'e')))
    || (a == 'v' && ((b == 'f' && c == '_')))
  }

  const ACCELERATOR: nat := 13
  const MEMORY: nat := 14
  const CONFIDENTIAL: nat := 15

  predicate Kept(i: nat) {
    i == VF_NUMBER || i == ACCELERATOR || i == MEMORY || i == CONFIDENTIAL
  }

  /** The rows of conf_opts that are persistent, and the names of all of them. */
  ghost predicate BuiltIn(table: seq<Def>) {
    && |table| == 33
    && (forall i :: 0 <= i < 33 ==> table[i].name == NAMES[i])
    && (forall i :: 0 <= i < 33 ==> (table[i].persistent <==> Kept(i)))
    && table[VF_NUMBER] == Def("vf_num", 1, 31, 1, true, true)
    && table[ACCELERATOR] == Def("accelerator_partition_mode", 0, 9, 0, false, true)
    && table[MEMORY] == Def("memory_partition_mode", 0, 9, 0, false, true)
    && table[CONFIDENTIAL] == Def("cc_mode", 0, 3, 3, false, true)
  }

  /** There is such a table, whatever the ranges of the other options. */
  lemma BuiltInExists(others: seq<Def>) returns (table: seq<Def>)
    requires |others| == 33 && forall i :: 0 <= i < 33 ==> others[i].name == NAMES[i] && !others[i].persistent
    ensures BuiltIn(table) && forall i :: 0 <= i < 33 && !Kept(i) ==> table[i] == others[i]
  {
    FourNames();
    hide NAMES;
    table := others[VF_NUMBER := Def("vf_num", 1, 31, 1, true, true)]
                   [ACCELERATOR := Def("accelerator_partition_mode", 0, 9, 0, false, true)]
                   [MEMORY := Def("memory_partition_mode", 0, 9, 0, false, true)]
                   [CONFIDENTIAL := Def("cc_mode", 0, 3, 3, false, true)];
  }

  lemma FourNames()
    ensures |NAMES| == 33 && NAMES[VF_NUMBER] == "vf_num" && NAMES[ACCELERATOR] == "accelerator_partition_mode"
    ensures NAMES[MEMORY] == "memory_partition_mode" && NAMES[CONFIDENTIAL] == "cc_mode"
  {
  }

  // ---- which keys are known ----

  predicate Headed(name: string) {
    |name| >= 5 && IsHead(name[0], name[1], name[2])
  }

  lemma NamesHeaded(i: nat)
    requires i < 33
    ensures Headed(NAMES[i])
  {
    if i < 16 {
      if i < 8 { NamesHeaded0(i); } else { NamesHeaded1(i); }
    } else {
      if i < 24 { NamesHeaded2(i); } else { NamesHeaded3(i); }
    }
  }

  lemma NamesHeaded0(i: nat)
    requires i < 8
    ensures Headed(NAMES[i])
  {
  }

  lemma NamesHeaded1(i: nat)
    requires 8 <= i < 16
    ensures Headed(NAMES[i])
  {
  }

  lemma NamesHeaded2(i: nat)
    requires 16 <= i < 24
    ensures Headed(NAMES[i])
  {
  }

  lemma NamesHeaded3(i: nat)
    requires 24 <= i < 33
    ensures Headed(NAMES[i])
  {
  }

  /** Keys too short, or not beginning as a name does. */
  predicate Strange(key: string) {
    || |key| < 5
    || !('a' <= Lower(key[0]) <= 'z')
    || !IsHead(Lower(key[0]), Lower(key[1]), Lower(key[2]))
  }

  lemma StrangeMatchesNone(name: string, key: string)
    requires Headed(name) && Strange(key)
    ensures !KeyMatches(name, key)
  {
  }

  lemma {:induction false} StrangeUnknown(table: seq<Def>, key: string, i: nat)
    requires BuiltIn(table) && Strange(key) && i <= 33
    ensures SearchFrom(table, key, i).None?
    decreases 33 - i
  {
    hide KeyMatches, Headed, Strange, IsHead;
    if i < 33 {
      NamesHeaded(i);
      StrangeMatchesNone(table[i].name, key);
      StrangeUnknown(table, key, i + 1);
    }
  }

  lemma NamesBefore0(i: nat)
    requires i < 8
    ensures |NAMES[i]| >= 5 && NAMES[i][0] != 'a' && NAMES[i][0] != 'm' && NAMES[i][0] != 'c'
  {
  }

  lemma NamesBefore1(i: nat)
    requires 8 <= i < 16
    ensures |NAMES[i]| >= 5
    ensures (NAMES[i][0] == 'a' ==> i == ACCELERATOR) && (NAMES[i][0] == 'c' ==> i == CONFIDENTIAL)
    ensures NAMES[i][0] == 'm' && NAMES[i][1] == 'e' ==> i == MEMORY
  {
  }

  lemma NotBefore(i: nat)
    requires i < 16
    ensures |NAMES[i]| >= 5
    ensures KeyMatches(NAMES[i], "accelerator_partition_mode") ==> i >= ACCELERATOR
    ensures KeyMatches(NAMES[i], "memory_partition_mode") ==> i >= MEMORY
    ensures KeyMatches(NAMES[i], "cc_mode") ==> i >= CONFIDENTIAL
  {
    NamesHeaded(i);
    if i < 8 { NamesBefore0(i); } else { NamesBefore1(i); }
  }

  lemma {:induction false} FoundFirst(table: seq<Def>, key: string, i: nat, j: nat)
    requires j <= i < |table| && KeyMatches(table[i].name, key)
    requires forall k :: j <= k < i ==> !KeyMatches(table[k].name, key)
    ensures SearchFrom(table, key, j) == Some(i)
    decreases i - j
  {
    hide KeyMatches;
    if j < i {
      FoundFirst(table, key, i, j + 1);
    }
  }

  /** What the built-in rows say, without the list of names. */
  lemma Rows(table: seq<Def>, i: nat)
    requires BuiltIn(table) && i < 33
    ensures |table| == 33 && table[i].name == NAMES[i]
    ensures table[i].persistent <==> Kept(i)
    ensures table[VF_NUMBER] == Def("vf_num", 1, 31, 1, true, true)
    ensures table[ACCELERATOR] == Def("accelerator_partition_mode", 0, 9, 0, false, true)
    ensures table[MEMORY] == Def("memory_partition_mode", 0, 9, 0, false, true)
    ensures table[CONFIDENTIAL] == Def("cc_mode", 0, 3, 3, false, true)
  {
  }

  lemma RowGood(table: seq<Def>, i: nat)
    requires BuiltIn(table) && i < 33 && table[i].persistent
    ensures |table| == 33 && SearchFrom(table, table[i].name, 0) == Some(i)
  {
    hide KeyMatches, BuiltIn, NAMES, SearchFrom;
    Rows(table, i);
    forall k | 0 <= k < i
      ensures !KeyMatches(table[k].name, table[i].name)
    {
      Rows(table, k);
      NotBefore(k);
    }
    SameMatches(table[i].name);
    FoundFirst(table, table[i].name, i, 0);
  }

  lemma RowRange(table: seq<Def>, i: nat)
    requires BuiltIn(table) && i < 33 && table[i].persistent
    ensures |table| == 33 && INT_MIN <= table[i].min <= table[i].def <= table[i].max <= INT_MAX
    ensures IsWord(table[i].name)
  {
    hide BuiltIn, NAMES, IsWord;
    Rows(table, i);
    Words();
  }

  lemma Words()
    ensures IsWord("vf_num") && IsWord("accelerator_partition_mode") && IsWord("memory_partition_mode") && IsWord("cc_mode")
  {
  }

  /** The table that is built in is one printing and parsing work for. */
  lemma BuiltInGood(table: seq<Def>)
    requires BuiltIn(table)
    ensures Good(table)
  {
    hide BuiltIn, NAMES, SearchFrom, IsWord;
    Rows(table, 0);
    forall i | 0 <= i < |table| && table[i].persistent
      ensures IsWord(table[i].name) && SearchFrom(table, table[i].name, 0) == Some(i)
      ensures INT_MIN <= table[i].min <= table[i].def <= table[i].max <= INT_MAX
    {
      RowGood(table, i);
      RowRange(table, i);
    }
  }

  lemma SameMatches(name: string)
    ensures KeyMatches(name, name)
  {
  }

  // ---- the text ----

  ghost function Value(d: Def, o: Opt): (v: string)
    requires |o.value| == GPUS
    ensures Line(d, o) == d.name + ['='] + v + ['\n'] && IsWord(v)
  {
    if d.isArray then Join(Printed(o)) else Dec(o.value[0])
  }

  ghost function LineOf(table: seq<Def>, opts: seq<Opt>, i: nat): string
    requires Shaped(table, opts) && i < |table|
  {
    Line(table[i], opts[i])
  }

  /** The last line, the last two, and the last three. */
  ghost function Rest(table: seq<Def>, opts: seq<Opt>, i: nat): string
    requires Shaped(table, opts) && |table| == 33
  {
    if i == VF_NUMBER then LineOf(table, opts, ACCELERATOR) + LineOf(table, opts, MEMORY) + LineOf(table, opts, CONFIDENTIAL)
    else if i == ACCELERATOR then LineOf(table, opts, MEMORY) + LineOf(table, opts, CONFIDENTIAL)
    else if i == MEMORY then LineOf(table, opts, CONFIDENTIAL)
    else []
  }

  lemma {:induction false} SaveSkip(table: seq<Def>, opts: seq<Opt>, i: nat, n: nat)
    requires Shaped(table, opts) && i <= n <= |table|
    requires forall k :: i <= k < n ==> !table[k].persistent
    ensures SaveText(table, opts, n) == SaveText(table, opts, i)
    decreases n
  {
    hide Line;
    if i < n {
      SaveSkip(table, opts, i, n - 1);
      assert SaveText(table, opts, n - 1) + [] == SaveText(table, opts, n - 1);
    }
  }

  lemma NotPersistent(table: seq<Def>, i: nat, n: nat)
    requires BuiltIn(table) && i <= n <= 33
    requires forall k :: i <= k < n ==> !Kept(k)
    ensures |table| == 33 && forall k :: i <= k < n ==> !table[k].persistent
  {
    hide BuiltIn, NAMES;
    Rows(table, 0);
    forall k | i <= k < n
      ensures !table[k].persistent
    {
      Rows(table, k);
    }
  }

  lemma Persistent(table: seq<Def>)
    requires BuiltIn(table)
    ensures |table| == 33 && table[VF_NUMBER].persistent && table[ACCELERATOR].persistent && table[MEMORY].persistent
    ensures table[CONFIDENTIAL].persistent
  {
    hide NAMES;
  }

  lemma SaveOne(table: seq<Def>, opts: seq<Opt>, i: nat, n: nat)
    requires BuiltIn(table) && Shaped(table, opts) && i < n <= 33
    requires |table| == 33 && table[i].persistent
    requires forall k :: i < k < n ==> !Kept(k)
    ensures SaveText(table, opts, n) == SaveText(table, opts, i) + LineOf(table, opts, i)
  {
    hide BuiltIn, Line, NAMES;
    NotPersistent(table, i + 1, n);
    SaveSkip(table, opts, i + 1, n);
  }

  /** The file has four lines, in this order. */
  lemma BuiltInText(table: seq<Def>, opts: seq<Opt>)
    requires BuiltIn(table) && Shaped(table, opts)
    ensures |table| == 33
    ensures SaveText(table, opts, |table|) == LineOf(table, opts, VF_NUMBER) + Rest(table, opts, VF_NUMBER)
  {
    hide BuiltIn, LineOf, NAMES, SaveText;
    Persistent(table);
    SaveOne(table, opts, VF_NUMBER, ACCELERATOR);
    SaveOne(table, opts, ACCELERATOR, MEMORY);
    SaveOne(table, opts, MEMORY, CONFIDENTIAL);
    SaveOne(table, opts, CONFIDENTIAL, 33);
    NothingYet(table, opts);
    var a, b, c, d := LineOf(table, opts, VF_NUMBER), LineOf(table, opts, ACCELERATOR), LineOf(table, opts, MEMORY), LineOf(table, opts, CONFIDENTIAL);
    assert [] + a + b + c + d == a + (b + c + d);
  }

  lemma NothingYet(table: seq<Def>, opts: seq<Opt>)
    requires Shaped(table, opts)
    ensures SaveText(table, opts, 0) == []
  {
  }

  lemma DigitShort(v: int)
    requires 0 <= v <= 9
    ensures |Dec(v)| == 1
  {
  }

  lemma TwoDigitsShort(v: int)
    requires 0 <= v <= 99
    ensures |Dec(v)| <= 2
  {
    DecShort(v, 2);
  }

  lemma VfLineShort(table: seq<Def>, opts: seq<Opt>)
    requires BuiltIn(table) && Ranged(table, opts)
    ensures |table| == 33 && 9 <= |LineOf(table, opts, VF_NUMBER)| <= 103
  {
    hide BuiltIn, NAMES, Dec;
    Persistent(table);
    Rows(table, VF_NUMBER);
    var d, o := table[VF_NUMBER], opts[VF_NUMBER];
    assert OptRanged(d, o);
    var vs := Printed(o);
    forall k | 0 <= k < |vs|
      ensures |Dec(vs[k])| <= 2
    {
      TwoDigitsShort(vs[k]);
    }
    JoinShort(vs);
  }

  lemma ScalarLineLong(table: seq<Def>, opts: seq<Opt>, i: nat)
    requires BuiltIn(table) && Ranged(table, opts) && (i == ACCELERATOR || i == MEMORY || i == CONFIDENTIAL)
    ensures |table| == 33
    ensures |LineOf(table, opts, i)| == if i == ACCELERATOR then 29 else if i == MEMORY then 24 else 10
  {
    hide BuiltIn, NAMES, Dec;
    Persistent(table);
    Rows(table, i);
    assert OptRanged(table[i], opts[i]);
    DigitShort(opts[i].value[0]);
  }

  lemma RestLong(table: seq<Def>, opts: seq<Opt>, i: nat)
    requires BuiltIn(table) && Ranged(table, opts)
    requires Kept(i)
    ensures |table| == 33
    ensures |Rest(table, opts, i)| == if i == VF_NUMBER then 63 else if i == ACCELERATOR then 34 else if i == MEMORY then 10 else 0
  {
    hide BuiltIn, LineOf, NAMES;
    Persistent(table);
    ScalarLineLong(table, opts, ACCELERATOR);
    ScalarLineLong(table, opts, MEMORY);
    ScalarLineLong(table, opts, CONFIDENTIAL);
  }

  /** The buffer of 1024 characters is always long enough. */
  lemma BuiltInFits(table: seq<Def>, opts: seq<Opt>)
    requires BuiltIn(table) && Ranged(table, opts)
    ensures |SaveText(table, opts, |table|)| <= 166 < FILE_LIMIT
  {
    hide BuiltIn, NAMES, SaveText, LineOf, Rest;
    BuiltInText(table, opts);
    VfLineShort(table, opts);
    RestLong(table, opts, VF_NUMBER);
  }

  lemma BuiltInAlwaysFits(table: seq<Def>)
    requires BuiltIn(table)
    ensures Fits(table)
  {
    hide BuiltIn, SaveText, OptRanged;
    forall opts: seq<Opt> | Ranged(table, opts)
      ensures |SaveText(table, opts, |table|)| < FILE_LIMIT
    {
      BuiltInFits(table, opts);
    }
  }

  // ---- a file that starts in the middle of a line ----

  lemma AcceleratorPieces(m: nat)
    requires 1 <= m < 26
    ensures Strange("accelerator_partition_mode"[m..])
  {
    hide IsHead;
    if m < 12 { AcceleratorHeads0(m); } else if m < 24 { AcceleratorHeads1(m); }
  }

  lemma AcceleratorHeads0(m: nat)
    requires 1 <= m < 12
    ensures var s := "accelerator_partition_mode"; !IsHead(Lower(s[m]), Lower(s[m + 1]), Lower(s[m + 2]))
  {
  }

  lemma AcceleratorHeads1(m: nat)
    requires 12 <= m < 24
    ensures var s := "accelerator_partition_mode"; !IsHead(Lower(s[m]), Lower(s[m + 1]), Lower(s[m + 2]))
  {
  }

  lemma MemoryPieces(m: nat)
    requires 1 <= m < 21
    ensures Strange("memory_partition_mode"[m..])
  {
    hide IsHead;
    if m < 19 { MemoryHeads(m); }
  }

  lemma MemoryHeads(m: nat)
    requires 1 <= m < 19
    ensures var s := "memory_partition_mode"; !IsHead(Lower(s[m]), Lower(s[m + 1]), Lower(s[m + 2]))
  {
  }

  lemma OtherPieces(m: nat)
    requires m > 0
    ensures m < 7 ==> Strange("cc_mode"[m..])
    ensures m < 6 ==> Strange("vf_num"[m..])
  {
  }

  /** No proper end of a persistent option's name is taken for a key. */
  lemma NamePieces(table: seq<Def>, i: nat, m: nat)
    requires BuiltIn(table) && Kept(i) && |table| == 33 && 0 < m < |table[i].name|
    ensures Strange(table[i].name[m..])
  {
    hide BuiltIn, NAMES, Strange;
    Rows(table, i);
    if i == ACCELERATOR {
      AcceleratorPieces(m);
    } else if i == MEMORY {
      MemoryPieces(m);
    } else {
      OtherPieces(m);
    }
  }

  predicate NumberLike(v: string) {
    forall k :: 0 <= k < |v| ==> IsDigit(v[k]) || v[k] == '-' || v[k] == ','
  }

  lemma {:induction false} JoinNumberLike(vs: seq<int>)
    requires |vs| > 0
    ensures NumberLike(Join(vs))
    decreases |vs|
  {
    hide Dec;
    if |vs| > 1 {
      JoinNumberLike(vs[1..]);
    }
  }

  /** Nor is any end of a value. */
  lemma ValuePieces(d: Def, o: Opt, m: nat)
    requires |o.value| == GPUS && m < |Value(d, o)|
    ensures Strange(Value(d, o)[m..])
  {
    hide Dec, Join;
    if d.isArray {
      JoinNumberLike(Printed(o));
    }
    assert NumberLike(Value(d, o));
    NotALetter(Value(d, o), m);
  }

  lemma NotALetter(v: string, m: nat)
    requires NumberLike(v) && m < |v|
    ensures Strange(v[m..])
  {
    hide IsHead;
    assert v[m..][0] == v[m];
  }

  /** What is left of the first word of a line cut off at m. */
  ghost function Piece(n: string, v: string, m: nat): string
    requires m <= |n| + |v|
  {
    if m < |n| then n[m..] else if m == |n| then v else v[m - |n| - 1..]
  }

  lemma CutToken(n: string, v: string, m: nat, rest: string)
    requires IsWord(n) && IsWord(v) && m <= |n| + |v|
    ensures var toks := Tokens((n + ['='] + v + ['\n'])[m..] + rest); |toks| > 0 && toks[0] == Piece(n, v, m)
  {
    hide Tokens, IsDelim;
    var line := n + ['='] + v + ['\n'];
    Delims();
    if m < |n| {
      assert line[m..] + rest == n[m..] + ['='] + (v + ['\n'] + rest);
      TokensFront(n[m..], '=', v + ['\n'] + rest);
    } else if m == |n| {
      assert line[m..] + rest == [] + ['='] + (v + ['\n'] + rest);
      TokensSplit([], '=', v + ['\n'] + rest);
      TokensFront(v, '\n', rest);
    } else {
      assert line[m..] + rest == v[m - |n| - 1..] + ['\n'] + rest;
      TokensFront(v[m - |n| - 1..], '\n', rest);
    }
  }

  lemma Delims()
    ensures IsDelim('=') && IsDelim('\n')
  {
  }

  lemma CutNewline(rest: string)
    ensures Tokens(['\n'] + rest) == Tokens(rest)
  {
    hide Tokens;
    assert ['\n'] + rest == [] + ['\n'] + rest;
    TokensSplit([], '\n', rest);
  }

  lemma PieceStrange(table: seq<Def>, opts: seq<Opt>, i: nat, m: nat)
    requires BuiltIn(table) && Shaped(table, opts) && Kept(i) && |table| == 33
    requires var v := Value(table[i], opts[i]); 0 < m <= |table[i].name| + |v|
    ensures Strange(Piece(table[i].name, Value(table[i], opts[i]), m))
  {
    hide BuiltIn, NAMES, Strange, Value;
    var n := table[i].name;
    if m < |n| {
      NamePieces(table, i, m);
    } else {
      ValuePieces(table[i], opts[i], if m == |n| then 0 else m - |n| - 1);
      assert Value(table[i], opts[i])[0..] == Value(table[i], opts[i]);
    }
  }

  /** A line cut off anywhere but at its newline makes the parser give up and reset everything. */
  lemma CutLineParses(table: seq<Def>, older: seq<Opt>, i: nat, m: nat, rest: string, st: seq<Opt>, junk: int)
    requires BuiltIn(table) && Shaped(table, older) && Shaped(table, st) && Kept(i) && |table| == 33
    requires 0 < m < |LineOf(table, older, i)|
    ensures Parse(table, Tokens(LineOf(table, older, i)[m..] + rest), st, junk)
            == if m == |LineOf(table, older, i)| - 1 then Parse(table, Tokens(rest), st, junk) else Truncated(Reset(table, st))
  {
    hide BuiltIn, NAMES, Strange, Value, Tokens, Line, Piece, Reset;
    var n, v := table[i].name, Value(table[i], older[i]);
    var line := LineOf(table, older, i);
    assert line == n + ['='] + v + ['\n'];
    if m == |line| - 1 {
      assert line[m..] == ['\n'];
      CutNewline(rest);
    } else {
      Persistent(table);
      RowRange(table, i);
      CutToken(n, v, m, rest);
      PieceStrange(table, older, i, m);
      StrangeUnknown(table, Piece(n, v, m), 0);
    }
  }

  // ---- reading back a file that was written over a longer one ----

  /** The options once the lines behind that of option i have been read, as an older state wrote them. */
  ghost function Behind(table: seq<Def>, older: seq<Opt>, st: seq<Opt>, i: nat): (r: seq<Opt>)
    requires Shaped(table, older) && Shaped(table, st) && |table| == 33
    ensures Shaped(table, r)
  {
    var a := if i == VF_NUMBER then Put(table, older, st, ACCELERATOR) else st;
    var b := if i == VF_NUMBER || i == ACCELERATOR then Put(table, older, a, MEMORY) else a;
    if i == CONFIDENTIAL then b else Put(table, older, b, CONFIDENTIAL)
  }

  ghost function Put(table: seq<Def>, older: seq<Opt>, st: seq<Opt>, i: nat): (r: seq<Opt>)
    requires Shaped(table, older) && Shaped(table, st) && |table| == 33 && i < 33
    ensures Shaped(table, r)
  {
    st[i := RestoreOne(table[i], older[i], st[i])]
  }

  lemma WholeLineParses(table: seq<Def>, older: seq<Opt>, i: nat, rest: string, st: seq<Opt>, junk: int)
    requires BuiltIn(table) && Ok(table, older) && Shaped(table, st) && Kept(i) && |table| == 33
    ensures Parse(table, Tokens(LineOf(table, older, i) + rest), st, junk)
            == Parse(table, Tokens(rest), Put(table, older, st, i), junk)
  {
    hide BuiltIn, NAMES, Line, Tokens, IsDelim, Parse, RestoreOne, Good, OptOk;
    BuiltInGood(table);
    Persistent(table);
    var line := LineOf(table, older, i);
    LineTokens1(table, older, i);
    LineEnds(table[i], older[i]);
    TokensAppend(line, rest);
    LineParses(table, older, i, st, junk);
    ParseAppend(table, Tokens(line), Tokens(rest), st, junk);
  }

  lemma LineTokens1(table: seq<Def>, older: seq<Opt>, i: nat)
    requires BuiltIn(table) && Shaped(table, older) && Kept(i) && |table| == 33
    ensures |Tokens(LineOf(table, older, i))| == 2
  {
    hide BuiltIn, NAMES, Line, Tokens;
    Persistent(table);
    RowRange(table, i);
    LineTokens(table[i], older[i]);
  }

  lemma BehindStep(table: seq<Def>, older: seq<Opt>, st: seq<Opt>, junk: int)
    requires Shaped(table, older) && Shaped(table, st) && |table| == 33
    ensures Behind(table, older, st, CONFIDENTIAL) == st && Rest(table, older, CONFIDENTIAL) == []
    ensures Parse(table, Tokens([]), st, junk) == Parsed(st)
    ensures forall i :: i == VF_NUMBER || i == ACCELERATOR || i == MEMORY ==>
              && Behind(table, older, st, i) == Behind(table, older, Put(table, older, st, Next(i)), Next(i))
              && Rest(table, older, i) == LineOf(table, older, Next(i)) + Rest(table, older, Next(i))
  {
    hide LineOf, Put, Parse;
    var b, c, d := LineOf(table, older, ACCELERATOR), LineOf(table, older, MEMORY), LineOf(table, older, CONFIDENTIAL);
    assert b + c + d == b + (c + d) && d + [] == d;
    TokensNone();
    NoTokens(table, st, junk);
  }

  lemma NoTokens(table: seq<Def>, st: seq<Opt>, junk: int)
    requires Shaped(table, st)
    ensures Parse(table, [], st, junk) == Parsed(st)
  {
  }

  function Next(i: nat): (n: nat)
    ensures n < 33
  {
    if i == VF_NUMBER then ACCELERATOR else if i == ACCELERATOR then MEMORY else CONFIDENTIAL
  }

  lemma {:induction false} RestParses(table: seq<Def>, older: seq<Opt>, i: nat, st: seq<Opt>, junk: int)
    requires BuiltIn(table) && Ok(table, older) && Shaped(table, st) && Kept(i) && |table| == 33
    ensures Parse(table, Tokens(Rest(table, older, i)), st, junk) == Parsed(Behind(table, older, st, i))
    decreases CONFIDENTIAL - i
  {
    hide BuiltIn, NAMES, Tokens, Parse, Behind, Rest, LineOf, Put, Ok;
    OkShaped(table, older);
    BehindStep(table, older, st, junk);
    if i != CONFIDENTIAL {
      WholeLineParses(table, older, Next(i), Rest(table, older, Next(i)), st, junk);
      RestParses(table, older, Next(i), Put(table, older, st, Next(i)), junk);
    }
  }

  lemma OkShaped(table: seq<Def>, opts: seq<Opt>)
    requires Ok(table, opts)
    ensures Shaped(table, opts) && Ranged(table, opts)
  {
  }

  /** The line the last k characters of a file begin in. */
  function CutLine(k: nat): (i: nat)
    ensures Kept(i)
  {
    if k <= 10 then CONFIDENTIAL else if k <= 34 then MEMORY else if k <= 63 then ACCELERATOR else VF_NUMBER
  }

  /** How many characters that line and the lines behind it have, if it is not the first. */
  function From(i: nat): nat {
    if i == CONFIDENTIAL then 10 else if i == MEMORY then 34 else 63
  }

  lemma TailIs(table: seq<Def>, older: seq<Opt>, k: nat)
    requires BuiltIn(table) && Ranged(table, older) && |table| == 33
    requires 0 < k < |SaveText(table, older, 33)|
    ensures var was, i := SaveText(table, older, 33), CutLine(k);
            var line, rest := LineOf(table, older, i), Rest(table, older, i);
            var m := |line| + |rest| - k;
            && 0 <= m < |line| && |rest| < k
            && |rest| == (if i == CONFIDENTIAL then 0 else if i == MEMORY then 10 else if i == ACCELERATOR then 34 else 63)
            && (i != VF_NUMBER ==> |line| + |rest| == From(i))
            && was[|was| - k..] == line[m..] + rest
  {
    hide BuiltIn, NAMES, SaveText, LineOf, Ranged, Line;
    OkRest(table, older);
    BuiltInText(table, older);
    VfLineShort(table, older);
    RestLong(table, older, VF_NUMBER);
    RestLong(table, older, ACCELERATOR);
    RestLong(table, older, MEMORY);
    ScalarLineLong(table, older, ACCELERATOR);
    ScalarLineLong(table, older, MEMORY);
    ScalarLineLong(table, older, CONFIDENTIAL);
    var a, b, c, d := LineOf(table, older, VF_NUMBER), LineOf(table, older, ACCELERATOR), LineOf(table, older, MEMORY), LineOf(table, older, CONFIDENTIAL);
    FourParts(a, b, c, d, k);
  }

  lemma OkRest(table: seq<Def>, opts: seq<Opt>)
    requires Ranged(table, opts)
    ensures Shaped(table, opts)
  {
  }

  lemma FourParts(a: string, b: string, c: string, d: string, k: nat)
    requires 0 < k < |a| + |b| + |c| + |d|
    ensures var was := a + (b + c + d);
            was[|was| - k..] ==
            if k <= |d| then d[|d| - k..] + []
            else if k <= |c| + |d| then c[|c| + |d| - k..] + d
            else if k <= |b| + |c| + |d| then b[|b| + |c| + |d| - k..] + (c + d)
            else a[|a| + |b| + |c| + |d| - k..] + (b + c + d)
  {
    var was := a + (b + c + d);
    assert was == (a + b + c) + d == (a + b) + (c + d) == a + (b + c + d);
  }

  /**
   * Reading back a file that was written, without truncation, over a longer one that an earlier save left, k characters
   * longer: if k is one of 0, 1, 10, 11, 34, 35, 63 and 64 the last lines of the older file override what was saved, and
   * with 0 and 1 there is no such line; with any other k the parser meets half a word, and every option is reset.
   */
  lemma OverwrittenReadsBackIff(table: seq<Def>, saved: seq<Opt>, older: seq<Opt>, from: seq<Opt>, junk: int)
    requires BuiltIn(table) && Ok(table, saved) && Ok(table, older) && Shaped(table, from)
    ensures |table| == 33
    ensures var text, was := SaveText(table, saved, 33), SaveText(table, older, 33);
            var st, k := Restored(table, saved, from, 33), |was| - |text|;
            Parse(table, Tokens(Overwritten(was, text)), from, junk)
            == if k <= 1 then Parsed(st)
               else if k == 10 || k == 11 then Parsed(Behind(table, older, st, MEMORY))
               else if k == 34 || k == 35 then Parsed(Behind(table, older, st, ACCELERATOR))
               else if k == 63 || k == 64 then Parsed(Behind(table, older, st, VF_NUMBER))
               else Truncated(Reset(table, st))
  {
    hide BuiltIn, NAMES, SaveText, LineOf, Rest, Ranged, Line, Parse, Tokens, Restored, Ok, Good, Reset, Behind, Put;
    BuiltInGood(table);
    Persistent(table);
    OkShaped(table, saved);
    OkShaped(table, older);
    var text, was := SaveText(table, saved, 33), SaveText(table, older, 33);
    var st, k := Restored(table, saved, from, 33), |was| - |text|;
    StaleTailDecides(table, saved, was, from, junk);
    if k <= 0 {
      TokensNone();
      NoTokens(table, st, junk);
    } else {
      SavedLong(table, saved);
      assert was[|text|..] == was[|was| - k..];
      TailParses(table, older, k, st, junk);
    }
  }

  lemma SavedLong(table: seq<Def>, opts: seq<Opt>)
    requires BuiltIn(table) && Ok(table, opts)
    ensures |table| == 33 && |SaveText(table, opts, 33)| >= 72
  {
    hide BuiltIn, NAMES, SaveText, LineOf, Rest, Ranged;
    OkShaped(table, opts);
    BuiltInText(table, opts);
    VfLineShort(table, opts);
    RestLong(table, opts, VF_NUMBER);
  }

  /** What the last k characters of a saved file do to the options. */
  lemma TailParses(table: seq<Def>, older: seq<Opt>, k: nat, st: seq<Opt>, junk: int)
    requires BuiltIn(table) && Ok(table, older) && Shaped(table, st) && |table| == 33
    requires 0 < k && k + 72 <= |SaveText(table, older, 33)|
    ensures var was := SaveText(table, older, 33);
            Parse(table, Tokens(was[|was| - k..]), st, junk)
            == if k == 1 then Parsed(st)
               else if k == 10 || k == 11 then Parsed(Behind(table, older, st, MEMORY))
               else if k == 34 || k == 35 then Parsed(Behind(table, older, st, ACCELERATOR))
               else if k == 63 || k == 64 then Parsed(Behind(table, older, st, VF_NUMBER))
               else Truncated(Reset(table, st))
  {
    hide BuiltIn, NAMES, SaveText, LineOf, Rest, Ranged, Line, Parse, Tokens, Ok, Reset, Behind, Put;
    OkShaped(table, older);
    TailIs(table, older, k);
    var i := CutLine(k);
    var line, rest := LineOf(table, older, i), Rest(table, older, i);
    var m := |line| + |rest| - k;
    if m == 0 {
      FirstLineUncut(table, older, k);
      assert line[0..] == line;
      RestBefore(table, older, i);
      RestParses(table, older, Before(i), st, junk);
    } else {
      CutLineParses(table, older, i, m, rest, st, junk);
      RestParses(table, older, i, st, junk);
      if i == CONFIDENTIAL {
        BehindStep(table, older, st, junk);
      }
    }
  }

  /** The saved text is at least 72 characters longer than the tail, so the tail never begins with the whole first line. */
  lemma FirstLineUncut(table: seq<Def>, older: seq<Opt>, k: nat)
    requires BuiltIn(table) && Ok(table, older) && |table| == 33 && k + 72 <= |SaveText(table, older, 33)|
    ensures CutLine(k) == VF_NUMBER ==> |LineOf(table, older, VF_NUMBER)| + |Rest(table, older, VF_NUMBER)| > k
  {
    hide BuiltIn, NAMES, SaveText, LineOf, Rest;
    OkShaped(table, older);
    BuiltInText(table, older);
  }

  function Before(i: nat): (n: nat)
    ensures Kept(n)
  {
    if i == CONFIDENTIAL then MEMORY else if i == MEMORY then ACCELERATOR else VF_NUMBER
  }

  lemma RestBefore(table: seq<Def>, older: seq<Opt>, i: nat)
    requires Shaped(table, older) && |table| == 33 && Kept(i) && i != VF_NUMBER
    ensures Rest(table, older, Before(i)) == LineOf(table, older, i) + Rest(table, older, i)
  {
    hide LineOf;
    var b, c, d := LineOf(table, older, ACCELERATOR), LineOf(table, older, MEMORY), LineOf(table, older, CONFIDENTIAL);
    assert b + c + d == b + (c + d) && d + [] == d;
  }
}
