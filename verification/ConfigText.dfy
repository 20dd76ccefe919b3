/** The pieces of text the configuration file is made of: decimal numbers, tokens, comma-separated fields, keys. */
module ConfigText {
  const INT_MIN: int := -0x8000_0000
  const INT_MAX: int := 0x7fff_ffff

  datatype Option<T> = None | Some(value: T)

  // ---- "%d" and kstrtoint ----

  function Digit(d: nat): char
    requires d < 10
  {
    '0' + d as char
  }

  predicate IsDigit(c: char) {
    '0' <= c <= '9'
  }

  function DecNat(n: nat): (s: string)
    ensures |s| > 0 && forall i :: 0 <= i < |s| ==> IsDigit(s[i])
  {
    if n < 10 then [Digit(n)] else DecNat(n / 10) + [Digit(n % 10)]
  }

  function Dec(n: int): (s: string)
    ensures |s| > 0 && forall i :: 0 <= i < |s| ==> IsDigit(s[i]) || s[i] == '-'
  {
    if n < 0 then ['-'] + DecNat(-n) else DecNat(n)
  }

  function DigitValue(c: char): (d: nat)
    requires IsDigit(c)
    ensures d < 10
  {
    (c - '0') as int
  }

  function Number(s: string): nat
    requires forall i :: 0 <= i < |s| ==> IsDigit(s[i])
  {
    if s == [] then 0 else Number(s[..|s| - 1]) * 10 + DigitValue(s[|s| - 1])
  }

  predicate AllDigits(s: string) {
    |s| > 0 && forall i :: 0 <= i < |s| ==> IsDigit(s[i])
  }

  function DropNewline(s: string): string {
    if |s| > 0 && s[|s| - 1] == '\n' then s[..|s| - 1] else s
  }

  /** kstrtoint in base 10: a sign, digits, at most one newline; anything else or an overflow is an error. */
  function KStrToInt(s: string): Option<int> {
    var neg := |s| > 0 && s[0] == '-';
    var t := DropNewline(if |s| > 0 && (s[0] == '-' || s[0] == '+') then s[1..] else s);
    if !AllDigits(t) then None else
      var v: int := if neg then -(Number(t) as int) else Number(t);
      if INT_MIN <= v <= INT_MAX then Some(v) else None
  }

  lemma {:induction false} NumberOfDec(n: nat)
    ensures Number(DecNat(n)) == n
    decreases n
  {
    if n >= 10 {
      NumberOfDec(n / 10);
      var s := DecNat(n);
      assert s[..|s| - 1] == DecNat(n / 10);
    } else {
      assert DecNat(n)[..0] == [];
    }
  }

  /** Printing an int and reading it back gives the int. */
  lemma DecRoundTrip(n: int)
    requires INT_MIN <= n <= INT_MAX
    ensures KStrToInt(Dec(n)) == Some(n)
  {
    var m: nat := if n < 0 then -n else n;
    NumberOfDec(m);
    var d := DecNat(m);
    assert IsDigit(d[0]) && IsDigit(d[|d| - 1]);
    if n < 0 {
      assert Dec(n)[1..] == d;
    }
  }

  /** What is a number: an optional sign, at least one digit, an optional newline, and a value in range. */
  lemma ReadsIff(s: string, v: int)
    ensures KStrToInt(s) == Some(v) <==> INT_MIN <= v <= INT_MAX && exists sign: string, t: string, nl: string :: IsNumber(s, sign, t, nl, v)
  {
    hide KStrToInt, IsNumber;
    if KStrToInt(s) == Some(v) {
      var sign, t, nl := NumberParts(s, v);
    }
    if INT_MIN <= v <= INT_MAX {
      forall sign: string, t: string, nl: string | IsNumber(s, sign, t, nl, v)
        ensures KStrToInt(s) == Some(v)
      {
        ReadsParts(s, t, sign, nl, v);
      }
    }
  }

  ghost predicate IsNumber(s: string, sign: string, t: string, nl: string, v: int) {
    && s == sign + t + nl && AllDigits(t) && (nl == [] || nl == ['\n'])
    && (((sign == [] || sign == ['+']) && v == Number(t)) || (sign == ['-'] && v == -(Number(t) as int)))
  }

  lemma NumberParts(s: string, v: int) returns (sign: string, t: string, nl: string)
    requires KStrToInt(s) == Some(v)
    ensures INT_MIN <= v <= INT_MAX && IsNumber(s, sign, t, nl, v)
  {
    sign := if s[0] == '-' || s[0] == '+' then s[..1] else [];
    var rest := s[|sign|..];
    t := DropNewline(rest);
    nl := rest[|t|..];
    assert s == sign + t + nl;
  }

  lemma ReadsParts(s: string, t: string, sign: string, nl: string, v: int)
    requires INT_MIN <= v <= INT_MAX && IsNumber(s, sign, t, nl, v)
    ensures KStrToInt(s) == Some(v)
  {
    assert IsDigit(t[0]) && IsDigit(t[|t| - 1]);
    var rest := if s[0] == '-' || s[0] == '+' then s[1..] else s;
    assert s[0] == if sign == [] then t[0] else sign[0];
    assert rest == t + nl;
    assert DropNewline(rest) == t by {
      if nl == [] {
        assert rest == t;
      } else {
        assert rest[..|rest| - 1] == t;
      }
    }
  }

  lemma {:induction false} DecShort(n: nat, k: nat)
    requires k > 0 && n < Pow10(k)
    ensures |DecNat(n)| <= k
    decreases k
  {
    if n >= 10 {
      DecShort(n / 10, k - 1);
    }
  }

  function Pow10(k: nat): nat {
    if k == 0 then 1 else 10 * Pow10(k - 1)
  }

  // ---- strsep ----

  predicate IsDelim(c: char) {
    c == ' ' || c == '=' || c == '\n' || c == '\t'
  }

  function WordEnd(s: string): (n: nat)
    ensures n <= |s| && (forall i :: 0 <= i < n ==> !IsDelim(s[i])) && (n < |s| ==> IsDelim(s[n]))
  {
    if s == [] || IsDelim(s[0]) then 0 else 1 + WordEnd(s[1..])
  }

  /** The non-empty tokens that repeated calls of strsep with " =\n\t" yield. */
  function Tokens(s: string): (r: seq<string>)
    decreases |s|
  {
    var n := WordEnd(s);
    if n == |s| then (if n == 0 then [] else [s]) else
      (if n == 0 then [] else [s[..n]]) + Tokens(s[n + 1..])
  }

  predicate IsWord(w: string) {
    |w| > 0 && forall i :: 0 <= i < |w| ==> !IsDelim(w[i])
  }

  lemma {:induction false} WordEndIs(w: string, rest: string)
    requires forall i :: 0 <= i < |w| ==> !IsDelim(w[i])
    requires rest == [] || IsDelim(rest[0])
    ensures WordEnd(w + rest) == |w|
    decreases |w|
  {
    if w == [] {
      assert w + rest == rest;
    } else {
      assert (w + rest)[1..] == w[1..] + rest;
      WordEndIs(w[1..], rest);
    }
  }

  /** What stands before a delimiter is a token, unless it is empty. */
  lemma TokensSplit(w: string, d: char, rest: string)
    requires IsDelim(d) && forall i :: 0 <= i < |w| ==> !IsDelim(w[i])
    ensures Tokens(w + [d] + rest) == (if w == [] then [] else [w]) + Tokens(rest)
  {
    var s := w + [d] + rest;
    assert s == w + ([d] + rest);
    WordEndIs(w, [d] + rest);
    hide WordEnd;
    assert s[..|w|] == w && s[|w| + 1..] == rest;
  }

  /** A word and its delimiter come off the front. */
  lemma TokensFront(w: string, d: char, rest: string)
    requires IsWord(w) && IsDelim(d)
    ensures Tokens(w + [d] + rest) == [w] + Tokens(rest)
  {
    TokensSplit(w, d, rest);
  }

  /** Text that ends in a delimiter can be tokenised apart from what follows it. */
  lemma {:induction false} TokensAppend(s: string, t: string)
    requires s == [] || IsDelim(s[|s| - 1])
    ensures Tokens(s + t) == Tokens(s) + Tokens(t)
    decreases |s|
  {
    hide *;
    if s == [] {
      assert s + t == t;
      TokensNone();
    } else {
      var n := FirstDelim(s);
      var w, d, rest := s[..n], s[n], s[n + 1..];
      assert s == w + [d] + rest;
      assert s + t == w + [d] + (rest + t);
      TokensSplit(w, d, rest);
      TokensSplit(w, d, rest + t);
      TokensAppend(rest, t);
    }
  }

  lemma TokensNone()
    ensures Tokens([]) == []
  {
  }

  lemma FirstDelim(s: string) returns (n: nat)
    requires s != [] && IsDelim(s[|s| - 1])
    ensures n < |s| && IsDelim(s[n]) && forall i :: 0 <= i < n ==> !IsDelim(s[i])
    ensures s[n + 1..] == [] || (IsDelim(s[n + 1..][|s[n + 1..]| - 1]) && |s[n + 1..]| < |s|)
    ensures forall i :: 0 <= i < |s[..n]| ==> !IsDelim(s[..n][i])
  {
    n := WordEnd(s);
  }

  // ---- comma-separated fields ----

  function FieldEnd(s: string): (n: nat)
    ensures n <= |s| && (forall i :: 0 <= i < n ==> s[i] != ',') && (n < |s| ==> s[n] == ',')
  {
    if s == [] || s[0] == ',' then 0 else 1 + FieldEnd(s[1..])
  }

  /** What strsep with "," yields on one token; empty fields count. */
  function Fields(s: string): (r: seq<string>)
    ensures |r| > 0
    decreases |s|
  {
    var n := FieldEnd(s);
    if n == |s| then [s] else [s[..n]] + Fields(s[n + 1..])
  }

  /** "v0,v1,...": the way the values of an array option are printed. */
  function Join(vs: seq<int>): (s: string)
    requires |vs| > 0
    ensures IsWord(s)
  {
    if |vs| == 1 then Dec(vs[0]) else Dec(vs[0]) + [','] + Join(vs[1..])
  }

  lemma {:induction false} FieldEndIs(w: string, rest: string)
    requires forall i :: 0 <= i < |w| ==> w[i] != ','
    requires rest == [] || rest[0] == ','
    ensures FieldEnd(w + rest) == |w|
    decreases |w|
  {
    if w == [] {
      assert w + rest == rest;
    } else {
      assert (w + rest)[1..] == w[1..] + rest;
      FieldEndIs(w[1..], rest);
    }
  }

  lemma JoinStep(vs: seq<int>)
    requires |vs| > 0
    ensures Join(vs) == if |vs| == 1 then Dec(vs[0]) else Dec(vs[0]) + [','] + Join(vs[1..])
    ensures forall i :: 0 <= i < |Dec(vs[0])| ==> Dec(vs[0])[i] != ','
  {
    hide DecNat;
  }

  lemma {:induction false} FieldsOfJoin(vs: seq<int>)
    requires |vs| > 0
    ensures |Fields(Join(vs))| == |vs| && forall i :: 0 <= i < |vs| ==> Fields(Join(vs))[i] == Dec(vs[i])
    decreases |vs|
  {
    hide FieldEnd, Join, Dec;
    var w := Dec(vs[0]);
    JoinStep(vs);
    if |vs| == 1 {
      assert w + [] == w;
      FieldEndIs(w, []);
    } else {
      var s := Join(vs);
      assert s == w + ([','] + Join(vs[1..]));
      FieldEndIs(w, [','] + Join(vs[1..]));
      assert s[..|w|] == w && s[|w| + 1..] == Join(vs[1..]);
      FieldsOfJoin(vs[1..]);
    }
  }

  lemma {:induction false} JoinShort(vs: seq<int>)
    requires |vs| > 0 && forall i :: 0 <= i < |vs| ==> |Dec(vs[i])| <= 2
    ensures |Join(vs)| <= 3 * |vs| - 1
    decreases |vs|
  {
    if |vs| > 1 {
      JoinShort(vs[1..]);
    }
  }

  // ---- strncasecmp(name, key, strlen(name)) == 0 ----

  function Lower(c: char): char {
    if 'A' <= c <= 'Z' then c + 32 as char else c
  }

  predicate KeyMatches(name: string, key: string) {
    |name| <= |key| && forall i :: 0 <= i < |name| ==> Lower(name[i]) == Lower(key[i])
  }

  /** A key matches its name with anything behind it, and letters may be of either case. */
  lemma KeyWithTail(name: string, key: string, tail: string)
    requires |key| == |name|
    requires forall i :: 0 <= i < |name| ==> key[i] == name[i] || ('a' <= name[i] <= 'z' && key[i] == name[i] - 32 as char)
    ensures KeyMatches(name, key + tail)
  {
  }

  /** A letter that differs, or one that is missing, makes it another key. */
  lemma OtherKey(name: string, key: string, i: nat)
    requires |key| < |name| || (i < |name| && 'a' <= name[i] <= 'z' && key[i] != name[i] && key[i] != name[i] - 32 as char)
    ensures !KeyMatches(name, key)
  {
  }
}
