/** Numbers as decimal text: printing, Python's `int()` and C's `strtol`. */
module Decimal {
  import opened Wrappers

  predicate IsDigit(c: char) {
    '0' <= c <= '9'
  }

  function DigitValue(c: char): nat
    requires IsDigit(c)
  {
    (c - '0') as int
  }

  function DigitChar(d: nat): (c: char)
    requires d < 10
    ensures IsDigit(c) && DigitValue(c) == d
  {
    '0' + d as char
  }

  predicate AllDigits(s: string) {
    forall i | 0 <= i < |s| :: IsDigit(s[i])
  }

  /** Decimal text without leading zeros. */
  function Dec(n: nat): (s: string)
    ensures s != [] && AllDigits(s)
  {
    if n < 10 then [DigitChar(n)] else Dec(n / 10) + [DigitChar(n % 10)]
  }

  /** The number a string of digits stands for. */
  function Value(s: string): nat
    requires AllDigits(s)
  {
    if s == [] then 0 else Value(s[..|s| - 1]) * 10 + DigitValue(s[|s| - 1])
  }

  lemma {:induction false} ValueOfDec(n: nat)
    ensures Value(Dec(n)) == n
  {
    var s := Dec(n);
    if n < 10 {
      assert s[..|s| - 1] == [];
    } else {
      ValueOfDec(n / 10);
      assert s[..|s| - 1] == Dec(n / 10);
    }
  }

  /** 10 to the k. */
  function Pow10(k: nat): nat {
    if k == 0 then 1 else 10 * Pow10(k - 1)
  }

  lemma {:induction false} DecLength(n: nat, k: nat)
    requires n < Pow10(k) && k > 0
    ensures |Dec(n)| <= k
  {
    if n >= 10 && k > 1 {
      DecLength(n / 10, k - 1);
    }
  }

  /** What Python strips around a number: blank, tab to carriage return, and 0x1c to 0x1f. */
  predicate IsSpace(c: char) {
    c == ' ' || 9 <= c as int <= 13 || 0x1c <= c as int <= 0x1f
  }

  function TrimLeft(s: string): string {
    if s != [] && IsSpace(s[0]) then TrimLeft(s[1..]) else s
  }

  function TrimRight(s: string): string {
    if s != [] && IsSpace(s[|s| - 1]) then TrimRight(s[..|s| - 1]) else s
  }

  /** Python's `str` of an integer. */
  function Str(n: int): string {
    if n < 0 then "-" + Dec(-n) else Dec(n)
  }

  /** Underscores may separate digits, one at a time. */
  predicate DigitsWithUnderscores(s: string) {
    && s != [] && IsDigit(s[0]) && IsDigit(s[|s| - 1])
    && (forall i | 0 <= i < |s| :: IsDigit(s[i]) || s[i] == '_')
    && (forall i | 0 <= i < |s| - 1 :: s[i] == '_' ==> s[i + 1] != '_')
  }

  function DropUnderscores(s: string): (t: string)
    requires forall i | 0 <= i < |s| :: IsDigit(s[i]) || s[i] == '_'
    ensures AllDigits(t)
  {
    if s == [] then [] else (if s[0] == '_' then [] else [s[0]]) + DropUnderscores(s[1..])
  }

  /** Python's `int` of ASCII text, `None` where it raises. */
  function PyInt(s: string): Option<int> {
    var t := TrimRight(TrimLeft(s));
    var negative := t != [] && t[0] == '-';
    var body := if t != [] && (t[0] == '-' || t[0] == '+') then t[1..] else t;
    if !DigitsWithUnderscores(body) then None
    else (var v: int := Value(DropUnderscores(body)); Some(if negative then 0 - v else v))
  }

  lemma {:induction false} DropNothing(s: string)
    requires AllDigits(s)
    ensures DropUnderscores(s) == s
  {
    if s != [] {
      DropNothing(s[1..]);
    }
  }

  lemma NothingToTrim(s: string)
    requires s != [] && !IsSpace(s[0]) && !IsSpace(s[|s| - 1])
    ensures TrimLeft(s) == s && TrimRight(s) == s
  {
  }

  lemma NumberIsInk(c: char)
    requires IsDigit(c) || c == '-'
    ensures !IsSpace(c)
  {
  }

  lemma PyIntOfDigits(d: string)
    requires d != [] && AllDigits(d)
    ensures PyInt(d) == Some(Value(d)) && PyInt("-" + d) == Some(0 - Value(d))
  {
    hide Value, IsSpace, TrimLeft, TrimRight;
    DropNothing(d);
    NumberIsInk('-');
    NumberIsInk(d[0]);
    NumberIsInk(d[|d| - 1]);
    var m := "-" + d;
    assert m[1..] == d && m[|m| - 1] == d[|d| - 1];
    NothingToTrim(d);
    NothingToTrim(m);
  }

  /** Python reads back what it prints. */
  lemma PyIntOfStr(n: int)
    ensures PyInt(Str(n)) == Some(n)
  {
    hide PyInt, Dec, Value;
    var k := if n < 0 then -n else n;
    ValueOfDec(k);
    PyIntOfDigits(Dec(k));
  }

  /** The longest run of digits at the front. */
  function LeadingDigits(s: string): (t: string)
    ensures AllDigits(t)
  {
    if s != [] && IsDigit(s[0]) then [s[0]] + LeadingDigits(s[1..]) else []
  }

  lemma {:induction false} LeadingAll(s: string)
    requires AllDigits(s)
    ensures LeadingDigits(s) == s
  {
    if s != [] {
      LeadingAll(s[1..]);
    }
  }

  /** What C skips in front of a number: blank, and tab to carriage return. */
  predicate IsCSpace(c: char) {
    c == ' ' || 9 <= c as int <= 13
  }

  function SkipBlanks(s: string): string {
    if s != [] && IsCSpace(s[0]) then SkipBlanks(s[1..]) else s
  }

  /** C's `strtol` and `strtoll` in base 10 with the given largest value: blanks, a sign, digits,
      anything; saturating. */
  function Strtol(s: string, max: nat): int {
    var t := SkipBlanks(s);
    var negative := t != [] && t[0] == '-';
    var body := if t != [] && (t[0] == '-' || t[0] == '+') then t[1..] else t;
    var v: int := Value(LeadingDigits(body));
    if negative then (if v > max + 1 then 0 - max - 1 else 0 - v) else if v > max then max else v
  }
}
