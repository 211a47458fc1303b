/** `snprintflags_long` and `snprintflags_short`: the names of the set bits, joined in a buffer, and back. */
module Flags {
  import opened Sequences
  import opened Words

  const BAR: char := '|'
  const NUL: char := '\0'
  const WORD_BITS: nat := 32

  datatype FlagName = FlagName(long: string, short: string)

  function Longs(table: seq<FlagName>): (names: seq<string>)
    ensures |names| == |table|
  {
    seq(|table|, i requires 0 <= i < |table| => table[i].long)
  }

  function Shorts(table: seq<FlagName>): (names: seq<string>)
    ensures |names| == |table|
  {
    seq(|table|, i requires 0 <= i < |table| => table[i].short)
  }

  predicate Bit(flags: nat, i: nat) { (flags / Pow2(i)) % 2 == 1 }

  /** The program's test of a bit, by masking. */
  lemma MaskTestsBit(flags: nat, i: nat)
    ensures And(flags, Pow2(i)) != 0 <==> Bit(flags, i)
  {
    AndBit(flags, i);
    var bit := (flags / Pow2(i)) % 2;
    assert bit == 0 || bit == 1;
    assert bit == 0 ==> Pow2(i) * bit == 0;
    assert bit == 1 ==> Pow2(i) * bit == Pow2(i);
  }

  /** The first `n` bits of a word, lowest first. */
  function Bits(flags: nat, n: nat): (on: seq<bool>)
    ensures |on| == n && forall i :: 0 <= i < n ==> on[i] == Bit(flags, i)
  {
    seq(n, i requires 0 <= i < n => Bit(flags, i))
  }

  /** The names that are switched on among the first `n`, in order. */
  function Picked(on: seq<bool>, names: seq<string>, n: nat): seq<string>
    requires n <= |names| && n <= |on|
  {
    if n == 0 then []
    else if on[n - 1] then Picked(on, names, n - 1) + [names[n - 1]]
    else Picked(on, names, n - 1)
  }

  /** Names of the set bits among the first `n`, lowest first. */
  function SetNames(flags: nat, names: seq<string>, n: nat): seq<string>
    requires n <= |names|
  {
    Picked(Bits(flags, n), names, n)
  }

  function Join(ss: seq<string>): string {
    if ss == [] then ""
    else if |ss| == 1 then ss[0]
    else Join(ss[..|ss| - 1]) + [BAR] + ss[|ss| - 1]
  }

  // ------------------------------------------------------------ the program

  /** The buffer holds `t` as a C string. */
  predicate Holds(buf: seq<char>, t: string) {
    |t| < |buf| && buf[..|t|] == t && buf[|t|] == NUL && NUL !in t
  }

  /** Appends at most `n` characters of `src` behind the string in the buffer. Without room for them and the
      terminator, the outcome is an overflow: what the buffer then holds is not modelled. */
  method Strncat(str: array<char>, src: string, n: nat, ghost t: string) returns (overflow: bool)
    requires Holds(str[..], t) && NUL !in src
    modifies str
    ensures overflow <==> |t| + Min(n, |src|) >= str.Length
    ensures !overflow ==> Holds(str[..], t + src[..Min(n, |src|)])
  {
    var end := 0;
    while str[end] != NUL
      invariant end <= |t|
      decreases |t| - end
    {
      assert str[..][..|t|][end] == str[end];
      end := end + 1;
    }
    assert end == |t|;
    var m := Min(n, |src|);
    if end + m >= str.Length { return true; }
    for j := 0 to m
      invariant str[..end] == t && str[end..end + j] == src[..j]
    {
      str[end + j] := src[j];
    }
    str[end + m] := NUL;
    assert str[..end + m] == t + src[..m];
    overflow := false;
  }

  /** The common loop of the two printers, over one column of the table. An empty buffer counts as
      overflowed, as it holds no string. */
  method Snprintflags(str: array<char>, flags: nat, names: seq<string>, maxFlagBit: nat) returns (overflow: bool)
    requires maxFlagBit <= |names| && forall i :: 0 <= i < |names| ==> NUL !in names[i]
    modifies str
    ensures var text := Join(SetNames(flags, names, Min(maxFlagBit, WORD_BITS)));
      (overflow <==> |text| >= str.Length) && (!overflow ==> Holds(str[..], text))
  {
    for k := 0 to str.Length
      invariant forall j :: 0 <= j < k ==> str[j] == NUL
    {
      str[k] := NUL;
    }
    if str.Length == 0 { return true; }
    var first := true;
    var nLoop := Min(maxFlagBit, WORD_BITS);
    ghost var on := Bits(flags, nLoop);
    for i := 0 to nLoop
      invariant Holds(str[..], Join(Picked(on, names, i)))
      invariant first <==> Picked(on, names, i) == []
    {
      MaskTestsBit(flags, i);
      if And(flags, Pow2(i)) != 0 {
        JoinGrows(on, names, i + 1, nLoop);
        overflow := AppendName(str, names[i], first, Picked(on, names, i));
        if overflow { return; }
        first := false;
      }
    }
    overflow := false;
  }

  /** One name, behind a bar unless it is the first. */
  method AppendName(str: array<char>, name: string, first: bool, ghost before: seq<string>) returns (overflow: bool)
    requires Holds(str[..], Join(before)) && NUL !in name && (first <==> before == [])
    modifies str
    ensures overflow <==> |Join(before + [name])| >= str.Length
    ensures !overflow ==> Holds(str[..], Join(before + [name]))
  {
    JoinAppend(before, name);
    ghost var t := Join(before);
    if !first {
      overflow := Strncat(str, [BAR], str.Length, t);
      if overflow { return; }
      t := t + [BAR];
    }
    overflow := Strncat(str, name, str.Length, t);
    assert !overflow ==> name[..|name|] == name;
  }

  /** The texts of the two printers. */
  function LongText(flags: nat, table: seq<FlagName>, maxFlagBit: nat): string
    requires maxFlagBit <= |table|
  {
    Join(SetNames(flags, Longs(table), Min(maxFlagBit, WORD_BITS)))
  }

  function ShortText(flags: nat, table: seq<FlagName>, maxFlagBit: nat): string
    requires maxFlagBit <= |table|
  {
    Join(SetNames(flags, Shorts(table), Min(maxFlagBit, WORD_BITS)))
  }

  method SnprintflagsLong(str: array<char>, flags: nat, table: seq<FlagName>, maxFlagBit: nat) returns (overflow: bool)
    requires maxFlagBit <= |table| && forall i :: 0 <= i < |table| ==> NUL !in table[i].long
    modifies str
    ensures overflow <==> |LongText(flags, table, maxFlagBit)| >= str.Length
    ensures !overflow ==> Holds(str[..], LongText(flags, table, maxFlagBit))
  {
    overflow := Snprintflags(str, flags, Longs(table), maxFlagBit);
  }

  method SnprintflagsShort(str: array<char>, flags: nat, table: seq<FlagName>, maxFlagBit: nat) returns (overflow: bool)
    requires maxFlagBit <= |table| && forall i :: 0 <= i < |table| ==> NUL !in table[i].short
    modifies str
    ensures overflow <==> |ShortText(flags, table, maxFlagBit)| >= str.Length
    ensures !overflow ==> Holds(str[..], ShortText(flags, table, maxFlagBit))
  {
    overflow := Snprintflags(str, flags, Shorts(table), maxFlagBit);
  }

  // -------------------------------------------------------------- how long

  /** Characters of some names together. */
  function Letters(ss: seq<string>): nat {
    if ss == [] then 0 else Letters(ss[..|ss| - 1]) + |ss[|ss| - 1]|
  }

  /** A joined text has the names' characters and a bar between each two. */
  lemma {:induction false} JoinLength(ss: seq<string>)
    ensures |Join(ss)| == Letters(ss) + if ss == [] then 0 else |ss| - 1
    decreases |ss|
  {
    if ss == [] {
    } else {
      JoinLength(ss[..|ss| - 1]);
    }
  }

  /** The table of `nlmsg_flags_to_str_new`. */
  const NEW_NAMES: seq<string> := ["NLM_F_REQUEST", "NLM_F_MULTI", "NLM_F_ACK", "NLM_F_ECHO", "NLM_F_DUMP_INTR",
    "NLM_F_DUMP_FILTERED", "NLM_F_REPLACE", "NLM_F_EXCL", "NLM_F_CREATE", "NLM_F_APPEND"]

  /** The bits of all ones. */
  lemma {:induction false} AllBits(i: nat, n: nat)
    requires i < n
    ensures Bit(Pow2(n) - 1, i)
    decreases i
  {
    hide Bit, Pow2;
    Pow2Double(n);
    var x, half := Pow2(n) - 1, Pow2(n - 1) - 1;
    if i == 0 {
      OddBit(x, half);
    } else {
      AllBits(i - 1, n - 1);
      HalvedBit(x, half, i);
    }
  }

  lemma OddBit(x: nat, half: nat)
    requires x == 2 * half + 1
    ensures Bit(x, 0)
  {
    assert Pow2(0) == 1;
  }

  lemma HalvedBit(x: nat, y: nat, i: nat)
    requires x == 2 * y + 1 && i > 0 && Bit(y, i - 1)
    ensures Bit(x, i)
  {
    var p := Pow2(i - 1);
    var q, r := y / p, y % p;
    assert y == p * q + r;
    assert x == (2 * p) * q + (2 * r + 1) by { assert 2 * (p * q) == (2 * p) * q; }
    ModUnique(x, 2 * p, q, 2 * r + 1);
  }

  lemma {:induction false} PickedAll(on: seq<bool>, names: seq<string>, n: nat)
    requires n <= |names| && n <= |on| && forall i :: 0 <= i < n ==> on[i]
    ensures Picked(on, names, n) == names[..n]
    decreases n
  {
    if n == 0 {
    } else {
      PickedAll(on, names, n - 1);
      assert names[..n] == names[..n - 1] + [names[n - 1]];
    }
  }

  /** With all ten flags set the text of `nlmsg_flags_to_str_new` has 133 characters: its local buffer overflows. */
  lemma NewFlagsOverflow()
    ensures |Join(SetNames(Pow2(10) - 1, NEW_NAMES, 10))| == 133 >= 100
  {
    var flags := Pow2(10) - 1;
    forall i | 0 <= i < 10 ensures Bits(flags, 10)[i] { AllBits(i, 10); }
    PickedAll(Bits(flags, 10), NEW_NAMES, 10);
    assert NEW_NAMES[..10] == NEW_NAMES;
    JoinLength(NEW_NAMES);
    LettersOfTen();
  }

  lemma LettersStep(ss: seq<string>, k: nat)
    requires k < |ss|
    ensures Letters(ss[..k + 1]) == Letters(ss[..k]) + |ss[k]|
  {
    assert ss[..k + 1][..k] == ss[..k];
  }

  lemma LettersFive(ss: seq<string>, k: nat)
    requires k + 5 <= |ss|
    ensures Letters(ss[..k + 5])
         == Letters(ss[..k]) + |ss[k]| + |ss[k + 1]| + |ss[k + 2]| + |ss[k + 3]| + |ss[k + 4]|
  {
    LettersStep(ss, k);
    LettersStep(ss, k + 1);
    LettersStep(ss, k + 2);
    LettersStep(ss, k + 3);
    LettersStep(ss, k + 4);
  }

  lemma LettersOfTen()
    ensures Letters(NEW_NAMES) == 124
  {
    hide Letters;
    var ss := NEW_NAMES;
    LettersFive(ss, 0);
    LettersFive(ss, 5);
    LettersNone();
    assert ss[..0] == [] && ss[..10] == ss;
  }

  lemma LettersNone()
    ensures Letters([]) == 0
  {
  }

  lemma JoinAppend(ss: seq<string>, x: string)
    ensures Join(ss + [x]) == if ss == [] then x else Join(ss) + [BAR] + x
  {
    assert (ss + [x])[..|ss|] == ss;
  }

  /** The text so far is never longer than the whole. */
  lemma {:induction false} JoinGrows(on: seq<bool>, names: seq<string>, i: nat, n: nat)
    requires i <= n <= |names| && n <= |on|
    ensures |Join(Picked(on, names, i))| <= |Join(Picked(on, names, n))|
    decreases n
  {
    if i == n {
    } else {
      JoinGrows(on, names, i, n - 1);
      if on[n - 1] {
        JoinAppend(Picked(on, names, n - 1), names[n - 1]);
      }
    }
  }

  // ---------------------------------------------------------------- and back

  /** Distance to the next bar. */
  function FieldLen(s: string): (n: nat)
    ensures n <= |s|
  {
    if s == "" || s[0] == BAR then 0 else 1 + FieldLen(s[1..])
  }

  function Split(s: string): seq<string>
    decreases |s|
  {
    var n := FieldLen(s);
    if n == |s| then [s] else [s[..n]] + Split(s[n + 1..])
  }

  /** The fields of a joined text; an empty text has none. */
  function Fields(s: string): seq<string> { if s == "" then [] else Split(s) }

  predicate BarFree(s: string) { BAR !in s }

  lemma {:induction false} FieldLenOf(x: string, rest: string)
    requires BarFree(x) && (rest == "" || rest[0] == BAR)
    ensures FieldLen(x + rest) == |x|
    decreases |x|
  {
    if x == "" {
      assert x + rest == rest;
    } else {
      assert (x + rest)[1..] == x[1..] + rest;
      FieldLenOf(x[1..], rest);
    }
  }

  /** Splitting behind one more field. */
  lemma {:induction false} SplitAppend(s: string, x: string)
    requires BarFree(x)
    ensures Split(s + [BAR] + x) == Split(s) + [x]
    decreases |s|
  {
    hide FieldLen, BarFree, Split;
    var n := FieldLen(s);
    FieldPart(s);
    SplitStep(s);
    if n == |s| {
      Assoc(s, [BAR], x);
      assert s[..n] == s;
      SplitField(s, x);
      SplitOne(x);
    } else {
      var front, rest := s[..n], s[n + 1..];
      assert s + [BAR] + x == front + ([BAR] + (rest + [BAR] + x));
      SplitField(front, rest + [BAR] + x);
      SplitAppend(rest, x);
      Assoc([front], Split(rest), [x]);
    }
  }

  lemma SplitStep(s: string)
    ensures Split(s) == if FieldLen(s) == |s| then [s] else [s[..FieldLen(s)]] + Split(s[FieldLen(s) + 1..])
  {
    hide FieldLen;
  }

  lemma SplitOne(x: string)
    requires BarFree(x)
    ensures Split(x) == [x]
  {
    FieldLenOf(x, "");
    assert x + "" == x;
  }

  /** A field, a bar and more. */
  lemma SplitField(x: string, more: string)
    requires BarFree(x)
    ensures Split(x + ([BAR] + more)) == [x] + Split(more)
  {
    hide BarFree, FieldLen, Split;
    var s := x + ([BAR] + more);
    FieldLenOf(x, [BAR] + more);
    SplitStep(s);
    assert s[..|x|] == x && s[|x| + 1..] == more;
  }

  lemma {:induction false} FieldPart(s: string)
    ensures BarFree(s[..FieldLen(s)]) && (FieldLen(s) < |s| ==> s[FieldLen(s)] == BAR)
  {
    if s == "" || s[0] == BAR {
    } else {
      FieldPart(s[1..]);
      assert s[..FieldLen(s)] == [s[0]] + s[1..][..FieldLen(s[1..])];
    }
  }

  predicate Splittable(ss: seq<string>) {
    forall i :: 0 <= i < |ss| ==> ss[i] != "" && BarFree(ss[i])
  }

  /** Splitting a joined text gives the fields back. */
  lemma {:induction false} SplitJoin(ss: seq<string>)
    requires Splittable(ss)
    ensures Fields(Join(ss)) == ss && (Join(ss) == "" <==> ss == [])
    decreases |ss|
  {
    if ss == [] {
    } else {
      var front, x := ss[..|ss| - 1], ss[|ss| - 1];
      assert ss == front + [x];
      SplitJoin(front);
      JoinAppend(front, x);
      if front == [] {
        FieldLenOf(x, "");
        assert x + "" == x;
      } else {
        SplitAppend(Join(front), x);
      }
    }
  }

  predicate AllIn(ss: seq<string>, names: seq<string>) {
    forall i :: 0 <= i < |ss| ==> ss[i] in names
  }

  /** The number a list of names stands for. */
  function Value(ss: seq<string>, names: seq<string>): nat
    requires AllIn(ss, names)
  {
    if ss == [] then 0
    else Value(ss[..|ss| - 1], names) + Pow2(IndexOf(names, ss[|ss| - 1]))
  }

  function IndexOf(names: seq<string>, x: string): (i: nat)
    requires x in names
    ensures i < |names| && names[i] == x
  {
    if names[0] == x then 0 else 1 + IndexOf(names[1..], x)
  }

  predicate Distinct(names: seq<string>) {
    forall i, j :: 0 <= i < j < |names| ==> names[i] != names[j]
  }

  lemma ValueAppend(ss: seq<string>, x: string, names: seq<string>)
    requires AllIn(ss, names) && x in names
    ensures AllIn(ss + [x], names)
    ensures Value(ss + [x], names) == Value(ss, names) + Pow2(IndexOf(names, x))
  {
    assert (ss + [x])[..|ss|] == ss;
  }

  lemma ValueNone(names: seq<string>)
    ensures AllIn([], names) && Value([], names) == 0
  {
  }

  /** One more bit of a number. */
  lemma ModStep(x: nat, n: nat)
    ensures x % Pow2(n + 1) == x % Pow2(n) + if Bit(x, n) then Pow2(n) else 0
  {
    hide Pow2;
    Pow2Double(n + 1);
    ModDouble(x, Pow2(n));
  }

  lemma ModDouble(x: nat, m: nat)
    requires m > 0
    ensures x % (2 * m) == x % m + if (x / m) % 2 == 1 then m else 0
  {
    var q, r := x / m, x % m;
    var b := q % 2;
    assert x == m * q + r && q == 2 * (q / 2) + b;
    assert m * q == (2 * m) * (q / 2) + m * b;
    assert b == 0 ==> m * b == 0;
    assert b == 1 ==> m * b == m;
    ModUnique(x, 2 * m, q / 2, m * b + r);
  }

  /** The number a list of bits stands for. */
  function Number(on: seq<bool>, n: nat): nat
    requires n <= |on|
  {
    if n == 0 then 0 else Number(on, n - 1) + if on[n - 1] then Pow2(n - 1) else 0
  }

  lemma {:induction false} NumberOfBits(flags: nat, k: nat, n: nat)
    requires k <= n
    ensures Number(Bits(flags, n), k) == flags % Pow2(k)
    decreases k
  {
    if k == 0 {
    } else {
      NumberOfBits(flags, k - 1, n);
      ModStep(flags, k - 1);
    }
  }

  lemma IndexOfDistinct(names: seq<string>, i: nat)
    requires Distinct(names) && i < |names|
    ensures names[i] in names && IndexOf(names, names[i]) == i
  {
  }

  /** The names picked stand for the bits that pick them. */
  lemma {:induction false} PickedValue(on: seq<bool>, names: seq<string>, n: nat)
    requires Distinct(names) && n <= |names| && n <= |on|
    ensures var ss := Picked(on, names, n);
      AllIn(ss, names) && Value(ss, names) == Number(on, n)
    decreases n
  {
    hide Pow2, IndexOf, Distinct, Value, AllIn;
    if n == 0 {
      ValueNone(names);
    } else {
      PickedValue(on, names, n - 1);
      if on[n - 1] {
        IndexOfDistinct(names, n - 1);
        ValueAppend(Picked(on, names, n - 1), names[n - 1], names);
      }
    }
  }

  lemma {:induction false} PickedSplittable(on: seq<bool>, names: seq<string>, n: nat)
    requires Splittable(names) && n <= |names| && n <= |on|
    ensures Splittable(Picked(on, names, n))
    decreases n
  {
    if n == 0 {
    } else {
      PickedSplittable(on, names, n - 1);
    }
  }

  /** Splitting what is printed and looking the names up recovers the flags, restricted to the table's bits; so
      two flag words print alike exactly when they agree on those bits. */
  lemma PrintedFlagsReadBack(flags: nat, names: seq<string>, n: nat)
    requires Distinct(names) && Splittable(names) && n <= |names|
    ensures var fields := Fields(Join(SetNames(flags, names, n)));
      AllIn(fields, names) && Value(fields, names) == flags % Pow2(n)
  {
    hide Value, AllIn, Pow2, Join, Fields, Picked, Distinct;
    var on := Bits(flags, n);
    PickedSplittable(on, names, n);
    SplitJoin(Picked(on, names, n));
    PickedValue(on, names, n);
    NumberOfBits(flags, n, n);
  }

  lemma PrintAlikeIff(a: nat, b: nat, names: seq<string>, n: nat)
    requires Distinct(names) && Splittable(names) && n <= |names|
    ensures Join(SetNames(a, names, n)) == Join(SetNames(b, names, n)) <==> a % Pow2(n) == b % Pow2(n)
  {
    PrintedFlagsReadBack(a, names, n);
    PrintedFlagsReadBack(b, names, n);
    if a % Pow2(n) == b % Pow2(n) {
      SameBits(a, b, n);
      assert Bits(a, n) == Bits(b, n);
    }
  }

  lemma {:induction false} SameBits(a: nat, b: nat, n: nat)
    requires a % Pow2(n) == b % Pow2(n)
    ensures forall i :: 0 <= i < n ==> Bit(a, i) == Bit(b, i)
    decreases n
  {
    if n == 0 {
    } else {
      ModStep(a, n - 1);
      ModStep(b, n - 1);
      assert a % Pow2(n - 1) < Pow2(n - 1) && b % Pow2(n - 1) < Pow2(n - 1);
      SameBits(a, b, n - 1);
    }
  }

  // ------------------------------------------------------------- the tables

  /** The positions below `n` that are switched on, in ascending order. */
  ghost predicate Positions(ks: seq<nat>, on: seq<bool>, n: nat)
    requires n <= |on|
  {
    && (forall i, j :: 0 <= i < j < |ks| ==> ks[i] < ks[j])
    && (forall k: nat :: k in ks <==> k < n && on[k])
  }

  lemma {:induction false} PickedAt(on: seq<bool>, names: seq<string>, n: nat) returns (ks: seq<nat>)
    requires n <= |names| && n <= |on|
    ensures Positions(ks, on, n) && |ks| == |Picked(on, names, n)|
    ensures forall j :: 0 <= j < |ks| ==> ks[j] < n && Picked(on, names, n)[j] == names[ks[j]]
    decreases n
  {
    if n == 0 {
      ks := [];
    } else {
      ks := PickedAt(on, names, n - 1);
      assert forall k: nat :: k in ks ==> k < n - 1;
      if on[n - 1] {
        ks := ks + [n - 1];
      }
    }
  }

  /** The bits of a word that are set below `n`, and below 32, in ascending order. */
  ghost predicate SetBits(ks: seq<nat>, flags: nat, n: nat) {
    && (forall i, j :: 0 <= i < j < |ks| ==> ks[i] < ks[j])
    && (forall k: nat :: k in ks <==> k < n && k < 32 && (flags / Pow2(k)) % 2 == 1)
  }

  lemma FieldsAre(flags: nat, names: seq<string>, max: nat) returns (ks: seq<nat>)
    requires max <= |names| && Splittable(names)
    ensures var fields := Fields(Join(SetNames(flags, names, Min(max, WORD_BITS))));
      SetBits(ks, flags, max) && |fields| == |ks|
      && forall j :: 0 <= j < |ks| ==> ks[j] < max && fields[j] == names[ks[j]]
  {
    hide Pow2, Fields, Join;
    var n := Min(max, WORD_BITS);
    var on := Bits(flags, n);
    PickedSplittable(on, names, n);
    SplitJoin(Picked(on, names, n));
    ks := PickedAt(on, names, n);
  }

  /** The fields of the long text are the table's long names at exactly the set bits, in ascending order. */
  lemma LongFields(flags: nat, table: seq<FlagName>, max: nat) returns (ks: seq<nat>)
    requires max <= |table| && forall i :: 0 <= i < |table| ==> table[i].long != "" && '|' !in table[i].long
    ensures SetBits(ks, flags, max) && |Fields(LongText(flags, table, max))| == |ks|
    ensures forall j :: 0 <= j < |ks| ==> ks[j] < max && Fields(LongText(flags, table, max))[j] == table[ks[j]].long
  {
    hide Fields, SetBits, Join, SetNames;
    ks := FieldsAre(flags, Longs(table), max);
  }

  lemma ShortFields(flags: nat, table: seq<FlagName>, max: nat) returns (ks: seq<nat>)
    requires max <= |table| && forall i :: 0 <= i < |table| ==> table[i].short != "" && '|' !in table[i].short
    ensures SetBits(ks, flags, max) && |Fields(ShortText(flags, table, max))| == |ks|
    ensures forall j :: 0 <= j < |ks| ==> ks[j] < max && Fields(ShortText(flags, table, max))[j] == table[ks[j]].short
  {
    hide Fields, SetBits, Join, SetNames;
    ks := FieldsAre(flags, Shorts(table), max);
  }
}
