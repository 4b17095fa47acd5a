/** The C engine's JSON reader as functions of the remaining input (c_core/json.c). */
module Json {
  import opened Decimal

  /** A parsed value. Strings, keys and numbers are the raw text between their delimiters. */
  datatype Node =
    | Null
    | Bool(b: bool)
    | Num(token: string)
    | Str(raw: string)
    | Arr(items: seq<Node>)
    | Obj(fields: seq<Field>)

  datatype Field = Field(key: string, value: Node)

  /** A parsed thing and the input left behind it, or a parse error. */
  datatype Parsed<+T> = Fail | Ok(value: T, rest: string)

  predicate IsWs(c: char) {
    c == ' ' || c == '\t' || c == '\n' || c == '\r'
  }

  predicate NumChar(c: char) {
    IsDigit(c) || c == '.' || c == 'e' || c == 'E' || c == '+' || c == '-'
  }

  predicate NumStart(c: char) {
    c == '-' || c == '+' || IsDigit(c)
  }

  function Skip(s: string): (t: string)
    ensures |t| <= |s|
    ensures t == [] || !IsWs(t[0])
  {
    if s != [] && IsWs(s[0]) then Skip(s[1..]) else s
  }

  /** Input after an opening quote: the raw string up to the closing quote. */
  function ScanString(s: string): (r: Parsed<string>)
    ensures r.Ok? ==> |r.rest| < |s|
  {
    if s == [] then Fail
    else if s[0] == '"' then Ok([], s[1..])
    else if s[0] == '\\' then
      if |s| < 2 then Fail
      else
        var r := ScanString(s[2..]);
        if r.Fail? then Fail else Ok(s[..2] + r.value, r.rest)
    else
      var r := ScanString(s[1..]);
      if r.Fail? then Fail else Ok(s[..1] + r.value, r.rest)
  }

  function ParseString(s: string): (r: Parsed<string>)
    ensures r.Ok? ==> |r.rest| < |s|
  {
    if s == [] || s[0] != '"' then Fail else ScanString(s[1..])
  }

  /** The longest run of number characters, and what follows it. */
  function TakeNumber(s: string): (r: (string, string))
    ensures s == r.0 + r.1
    ensures forall i | 0 <= i < |r.0| :: NumChar(r.0[i])
    ensures r.1 == [] || !NumChar(r.1[0])
  {
    if s == [] || !NumChar(s[0]) then ([], s)
    else
      var r := TakeNumber(s[1..]);
      ([s[0]] + r.0, r.1)
  }

  function ParseValue(input: string): (r: Parsed<Node>)
    ensures r.Ok? ==> |r.rest| < |input|
    decreases |input|, 0
  {
    var s := Skip(input);
    if s == [] then Fail
    else if s[0] == '{' then
      var t := Skip(s[1..]);
      if t != [] && t[0] == '}' then Ok(Obj([]), t[1..])
      else
        var r := ParseMembers(t, []);
        if r.Fail? then Fail else Ok(Obj(r.value), r.rest)
    else if s[0] == '[' then
      var t := Skip(s[1..]);
      if t != [] && t[0] == ']' then Ok(Arr([]), t[1..])
      else
        var r := ParseItems(t, []);
        if r.Fail? then Fail else Ok(Arr(r.value), r.rest)
    else if s[0] == '"' then
      var r := ParseString(s);
      if r.Fail? then Fail else Ok(Str(r.value), r.rest)
    else if |s| >= 4 && s[..4] == "true" then Ok(Bool(true), s[4..])
    else if |s| >= 5 && s[..5] == "false" then Ok(Bool(false), s[5..])
    else if |s| >= 4 && s[..4] == "null" then Ok(Null, s[4..])
    else if NumStart(s[0]) then
      var r := TakeNumber(s);
      Ok(Num(r.0), r.1)
    else Fail
  }

  /** The items of an array from the next one on, behind those already read. */
  function ParseItems(input: string, acc: seq<Node>): (r: Parsed<seq<Node>>)
    ensures r.Ok? ==> |r.rest| < |input|
    decreases |input|, 1
  {
    var s := Skip(input);
    var v := ParseValue(s);
    if v.Fail? then Fail
    else
      var t := Skip(v.rest);
      if t == [] then Fail
      else if t[0] == ',' then ParseItems(t[1..], acc + [v.value])
      else if t[0] == ']' then Ok(acc + [v.value], t[1..])
      else Fail
  }

  /** A key, a colon and a value. */
  function ParseMember(input: string): (r: Parsed<Field>)
    ensures r.Ok? ==> |r.rest| < |input|
    decreases |input|, 1
  {
    var k := ParseString(Skip(input));
    if k.Fail? then Fail
    else
      var s := Skip(k.rest);
      if s == [] || s[0] != ':' then Fail
      else
        var v := ParseValue(Skip(s[1..]));
        if v.Fail? then Fail else Ok(Field(k.value, v.value), v.rest)
  }

  /** The members of an object from the next one on, behind those already read. */
  function ParseMembers(input: string, acc: seq<Field>): (r: Parsed<seq<Field>>)
    ensures r.Ok? ==> |r.rest| < |input|
    decreases |input|, 2
  {
    var f := ParseMember(input);
    if f.Fail? then Fail
    else
      var t := Skip(f.rest);
      if t == [] then Fail
      else if t[0] == ',' then ParseMembers(t[1..], acc + [f.value])
      else if t[0] == '}' then Ok(acc + [f.value], t[1..])
      else Fail
  }

  // ---- Strings -------------------------------------------------------

  /** What an escaped character stands for; unknown escapes stand for themselves. */
  function Unescaped(e: char): char {
    if e == 'n' then '\n' else if e == 'r' then '\r' else if e == 't' then '\t' else e
  }

  /** The text a raw string stands for, cut to what a buffer of `cap` bytes holds beside its NUL. */
  function StrCopy(raw: string, cap: nat): string {
    if raw == [] || cap <= 1 then []
    else if raw[0] == '\\' && |raw| > 1 then [Unescaped(raw[1])] + StrCopy(raw[2..], cap - 1)
    else [raw[0]] + StrCopy(raw[1..], cap - 1)
  }

  function EscapeChar(c: char): string {
    if c == '"' then "\\\"" else if c == '\\' then "\\\\"
    else if c == '\n' then "\\n" else if c == '\r' then "\\r" else if c == '\t' then "\\t"
    else [c]
  }

  function Escape(text: string): string {
    if text == [] then [] else EscapeChar(text[0]) + Escape(text[1..])
  }

  /** Copying out character by character: a backslash with n, r or t is a newline, a return or a tab, with anything else
      that character, and alone at the end itself; one place of the buffer stays free for the NUL. */
  lemma CopyExact(raw: string, cap: nat)
    ensures cap <= 1 || raw == [] ==> StrCopy(raw, cap) == []
    ensures cap > 1 && |raw| > 1 && raw[0] == '\\' ==>
              StrCopy(raw, cap) ==
              [match raw[1] case 'n' => '\n' case 'r' => '\r' case 't' => '\t' case e => e] + StrCopy(raw[2..], cap - 1)
    ensures cap > 1 && raw != [] && (raw[0] != '\\' || |raw| == 1) ==>
              StrCopy(raw, cap) == [raw[0]] + StrCopy(raw[1..], cap - 1)
  {
  }

  lemma CopyOneEscaped(c: char, rest: string, cap: nat)
    requires cap > 1
    ensures StrCopy(EscapeChar(c) + rest, cap) == [c] + StrCopy(rest, cap - 1)
  {
    var e := EscapeChar(c);
    assert (e + rest)[|e|..] == rest && (e + rest)[0] == e[0];
    if |e| == 2 {
      assert (e + rest)[1] == e[1];
    }
  }

  /** Copying out an escaped string gives the string back, cut to the buffer. */
  lemma {:induction false} StrCopyInvertsEscape(text: string, cap: nat)
    requires cap > 0
    ensures StrCopy(Escape(text), cap) == if |text| < cap then text else text[..cap - 1]
  {
    hide StrCopy, EscapeChar;
    if text != [] && cap > 1 {
      StrCopyInvertsEscape(text[1..], cap - 1);
      CopyOneEscaped(text[0], Escape(text[1..]), cap);
    } else {
      CopyNothing(Escape(text), cap);
    }
  }

  lemma CopyNothing(raw: string, cap: nat)
    ensures raw == [] || cap <= 1 ==> StrCopy(raw, cap) == []
  {
  }

  /** The first field of an object whose raw key is the key asked for, or -1. */
  method FindField(n: Node, key: string) returns (i: int)
    ensures !n.Obj? ==> i == -1
    ensures n.Obj? && i == -1 ==> forall k | 0 <= k < |n.fields| :: n.fields[k].key != key
    ensures i != -1 ==> n.Obj? && 0 <= i < |n.fields| && n.fields[i].key == key
                        && forall k | 0 <= k < i :: n.fields[k].key != key
  {
    if !n.Obj? {
      return -1;
    }
    i := 0;
    while i < |n.fields|
      invariant 0 <= i <= |n.fields|
      invariant forall k | 0 <= k < i :: n.fields[k].key != key
    {
      if |n.fields[i].key| == |key| && n.fields[i].key == key {
        return;
      }
      i := i + 1;
    }
    i := -1;
  }
}
