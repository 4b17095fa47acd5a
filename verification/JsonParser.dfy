/** The recursive-descent reader with its shared cursor, proved against the functions of `Json`. */
module JsonParser {
  import opened Json
  import opened Decimal
  import opened Wrappers

  // ---- A number under way ----------------------------------------------

  /** The number that starts at s has been read up to q. */
  ghost predicate Taking(text: string, s: nat, q: nat)
    requires s <= q <= |text|
  {
    var r := TakeNumber(text[q..]);
    TakeNumber(text[s..]) == (text[s..q] + r.0, r.1)
  }

  lemma SignOrDigit(c: char)
    requires NumStart(c)
    ensures NumChar(c) && (c == '-' || c == '+' || IsDigit(c))
  {
  }

  lemma TakeStarts(text: string, s: nat)
    requires s <= |text|
    ensures Taking(text, s, s)
  {
    hide TakeNumber;
    assert text[s..s] + TakeNumber(text[s..]).0 == TakeNumber(text[s..]).0;
  }

  lemma TakeAdvances(text: string, s: nat, q: nat)
    requires s <= q < |text| && NumChar(text[q]) && Taking(text, s, q)
    ensures Taking(text, s, q + 1)
  {
    TakeOne(text[q..]);
    assert text[q..][1..] == text[q + 1..];
    hide TakeNumber;
    assert text[s..q + 1] == text[s..q] + [text[q]];
    Regrouped(text[s..q], [text[q]], TakeNumber(text[q + 1..]).0);
  }

  lemma TakeOne(t: string)
    requires t != [] && NumChar(t[0])
    ensures var r := TakeNumber(t[1..]); TakeNumber(t) == ([t[0]] + r.0, r.1)
  {
  }

  lemma Regrouped(a: string, b: string, c: string)
    ensures a + (b + c) == a + b + c
  {
  }

  lemma TakeEnds(text: string, s: nat, q: nat)
    requires s <= q <= |text| && Taking(text, s, q) && (q == |text| || !NumChar(text[q]))
    ensures TakeNumber(text[s..]) == (text[s..q], text[q..])
  {
    assert TakeNumber(text[q..]) == ([], text[q..]);
    assert text[s..q] + [] == text[s..q];
  }

  // ---- The reader ------------------------------------------------------

  class Parser {
    const text: string
    /** The cursor; the text's length is the end it never passes. */
    var p: nat

    ghost predicate Valid()
      reads this
    {
      p <= |text|
    }

    ghost function Rest(): string
      requires Valid()
      reads this
    {
      text[p..]
    }

    constructor (text: string)
      ensures Valid() && this.text == text && Rest() == text
    {
      this.text := text;
      p := 0;
    }

    method SkipWs()
      requires Valid()
      modifies this
      ensures Valid() && p >= old(p) && Rest() == Skip(old(Rest()))
    {
      while p < |text| && IsWs(text[p])
        invariant old(p) <= p <= |text|
        invariant Skip(text[p..]) == Skip(old(Rest()))
      {
        p := p + 1;
      }
    }

    /** On success the raw text between the quotes; the cursor is then behind the closing quote. */
    method ParseStringRaw() returns (r: Option<string>)
      requires Valid()
      modifies this
      ensures Valid() && p >= old(p)
      ensures match ParseString(old(Rest()))
              case Fail => r.None?
              case Ok(raw, rest) => r == Some(raw) && Rest() == rest && p > old(p)
    {
      if p >= |text| || text[p] != '"' {
        return None;
      }
      p := p + 1;
      var s := p;
      ghost var whole := ScanString(text[s..]);
      assert old(Rest())[1..] == text[s..] && text[s..s] == [];
      assert whole.Ok? ==> text[s..s] + whole.value == whole.value;
      while p < |text| && text[p] != '"'
        invariant old(p) < s <= p <= |text|
        invariant var r := ScanString(text[p..]);
                  whole == if r.Fail? then Fail else Ok(text[s..p] + r.value, r.rest)
        decreases |text| - p
      {
        ghost var q := p;
        if text[p] == '\\' {
          p := p + 1;
          if p >= |text| {
            return None;
          }
        }
        p := p + 1;
        ScanAdvance(s, q, p);
      }
      if p >= |text| {
        return None;
      }
      assert text[p..][1..] == text[p + 1..] && text[s..p] + [] == text[s..p];
      r := Some(text[s..p]);
      p := p + 1;
    }

    /** One step of the string scan moves text from the unread to the read part. */
    lemma ScanAdvance(s: nat, q: nat, next: nat)
      requires s <= q < next <= |text| && text[q] != '"'
      requires next == if text[q] == '\\' then q + 2 else q + 1
      ensures var r, r' := ScanString(text[q..]), ScanString(text[next..]);
              if r'.Fail? then r.Fail?
              else (r == Ok(text[q..next] + r'.value, r'.rest) && text[s..q] + r.value == text[s..next] + r'.value)
    {
      var t := text[q..];
      assert t[..next - q] == text[q..next] && t[next - q..] == text[next..];
    }

    /** The loop over the characters of a number that starts at s. */
    method PassNumChars(s: nat)
      requires Valid() && s <= p && Taking(text, s, p) && (p == s ==> s < |text| && NumChar(text[s]))
      modifies this
      ensures Valid() && s < p && Taking(text, s, p) && (p == |text| || !NumChar(text[p]))
    {
      hide TakeNumber, NumChar, Taking;
      while p < |text| && NumChar(text[p])
        invariant s <= p <= |text|
        invariant p == s ==> s < |text| && NumChar(text[s])
        invariant Taking(text, s, p)
      {
        TakeAdvances(text, s, p);
        p := p + 1;
      }
    }

    method ParseNumber() returns (token: string)
      requires Valid() && p < |text| && NumStart(text[p])
      modifies this
      ensures Valid() && p > old(p)
      ensures (token, Rest()) == TakeNumber(old(Rest()))
    {
      var s := p;
      SignOrDigit(text[s]);
      TakeStarts(text, s);
      hide TakeNumber, NumChar, NumStart, Taking;
      if text[p] == '-' || text[p] == '+' {
        TakeAdvances(text, s, p);
        p := p + 1;
      }
      PassNumChars(s);
      TakeEnds(text, s, p);
      token := text[s..p];
    }

    /** The outcome the functions prescribe: the same failure, or the same value with the cursor
        on the same rest. */
    ghost predicate Agrees(spec: Parsed<Node>, r: Option<Node>)
      requires Valid()
      reads this
    {
      match spec
      case Fail => r.None?
      case Ok(n, rest) => r == Some(n) && Rest() == rest
    }

    /** The cursor is on the opening bracket. */
    method ParseArray() returns (r: Option<Node>)
      requires Valid() && p < |text| && text[p] == '['
      modifies this
      ensures Valid() && p > old(p)
      ensures Agrees(ParseValue(old(Rest())), r)
      decreases |text| - p, 0
    {
      hide ParseMembers, ParseString, TakeNumber;
      ghost var input := Rest();
      p := p + 1;
      assert input[1..] == Rest() && Skip(input) == input;
      SkipWs();
      if p < |text| && text[p] == ']' {
        p := p + 1;
        assert Rest() == Skip(input[1..])[1..];
        return Some(Arr([]));
      }
      ghost var whole := ParseItems(Rest(), []);
      assert ParseValue(input) == if whole.Fail? then Fail else Ok(Arr(whole.value), whole.rest);
      var items := ParseArrayItems();
      r := if items.None? then None else Some(Arr(items.value));
    }

    /** The loop over the items, up to the closing bracket. */
    method ParseArrayItems() returns (r: Option<seq<Node>>)
      requires Valid()
      modifies this
      ensures Valid() && p >= old(p)
      ensures match ParseItems(old(Rest()), [])
              case Fail => r.None?
              case Ok(items, rest) => r == Some(items) && Rest() == rest
      decreases |text| - p, 2
    {
      hide ParseValue;
      var items: seq<Node> := [];
      while true
        invariant old(p) <= p <= |text|
        invariant ParseItems(old(Rest()), []) == ParseItems(text[p..], items)
        decreases |text| - p
      {
        SkipWs();
        ghost var s := Rest();
        var v := ParseAny();
        if v.None? {
          return None;
        }
        items := items + [v.value];
        SkipWs();
        if p >= |text| {
          return None;
        }
        ghost var t := Rest();
        if text[p] == ',' {
          p := p + 1;
          assert t[1..] == text[p..];
          continue;
        }
        if text[p] == ']' {
          p := p + 1;
          assert t[1..] == text[p..];
          return Some(items);
        }
        return None;
      }
    }

    /** The cursor is on the opening brace. */
    method ParseObject() returns (r: Option<Node>)
      requires Valid() && p < |text| && text[p] == '{'
      modifies this
      ensures Valid() && p > old(p)
      ensures Agrees(ParseValue(old(Rest())), r)
      decreases |text| - p, 0
    {
      hide ParseItems, ParseString, TakeNumber;
      ghost var input := Rest();
      p := p + 1;
      assert input[1..] == Rest() && Skip(input) == input;
      SkipWs();
      if p < |text| && text[p] == '}' {
        p := p + 1;
        assert Rest() == Skip(input[1..])[1..];
        return Some(Obj([]));
      }
      ghost var whole := ParseMembers(Rest(), []);
      assert ParseValue(input) == if whole.Fail? then Fail else Ok(Obj(whole.value), whole.rest);
      var fields := ParseObjectMembers();
      r := if fields.None? then None else Some(Obj(fields.value));
    }

    /** A key, a colon and a value. */
    method ParseOneMember() returns (r: Option<Field>)
      requires Valid()
      modifies this
      ensures Valid() && p >= old(p)
      ensures match ParseMember(old(Rest()))
              case Fail => r.None?
              case Ok(f, rest) => r == Some(f) && Rest() == rest && p > old(p)
      decreases |text| - p, 2
    {
      hide ParseValue, ParseString;
      SkipWs();
      var k := ParseStringRaw();
      if k.None? {
        return None;
      }
      SkipWs();
      if p >= |text| || text[p] != ':' {
        return None;
      }
      ghost var colon := Rest();
      p := p + 1;
      assert colon[1..] == Rest();
      SkipWs();
      var v := ParseAny();
      r := if v.None? then None else Some(Field(k.value, v.value));
    }

    /** The loop over the members, up to the closing brace. */
    method ParseObjectMembers() returns (r: Option<seq<Field>>)
      requires Valid()
      modifies this
      ensures Valid() && p >= old(p)
      ensures match ParseMembers(old(Rest()), [])
              case Fail => r.None?
              case Ok(fields, rest) => r == Some(fields) && Rest() == rest
      decreases |text| - p, 3
    {
      hide ParseMember;
      var fields: seq<Field> := [];
      while true
        invariant old(p) <= p <= |text|
        invariant ParseMembers(old(Rest()), []) == ParseMembers(text[p..], fields)
        decreases |text| - p
      {
        var f := ParseOneMember();
        if f.None? {
          return None;
        }
        fields := fields + [f.value];
        SkipWs();
        if p >= |text| {
          return None;
        }
        ghost var t := Rest();
        if text[p] == ',' {
          p := p + 1;
          assert t[1..] == text[p..];
          continue;
        }
        if text[p] == '}' {
          p := p + 1;
          assert t[1..] == text[p..];
          return Some(fields);
        }
        return None;
      }
    }

    method ParseAny() returns (r: Option<Node>)
      requires Valid()
      modifies this
      ensures Valid() && p >= old(p) && (r.Some? ==> p > old(p))
      ensures Agrees(ParseValue(old(Rest())), r)
      decreases |text| - p, 1
    {
      ghost var input := Rest();
      SkipWs();
      AfterSkip(input);
      if p >= |text| {
        return None;
      }
      var c := text[p];
      if c == '{' {
        r := ParseObject();
      } else if c == '[' {
        r := ParseArray();
      } else {
        r := ParseScalar();
      }
    }

    lemma AfterSkip(input: string)
      ensures ParseValue(Skip(input)) == ParseValue(input)
      ensures Skip(input) == [] ==> ParseValue(input) == Fail
    {
      hide ParseItems, ParseMembers;
      assert Skip(Skip(input)) == Skip(input);
    }

    /** Strings, keywords and numbers. */
    method ParseScalar() returns (r: Option<Node>)
      requires Valid() && p < |text| && text[p] != '{' && text[p] != '[' && !IsWs(text[p])
      modifies this
      ensures Valid() && p >= old(p) && (r.Some? ==> p > old(p))
      ensures Agrees(ParseValue(old(Rest())), r)
    {
      hide ParseItems, ParseMembers, ParseString, TakeNumber;
      ghost var s := Rest();
      assert Skip(s) == s;
      var c := text[p];
      if c == '"' {
        var raw := ParseStringRaw();
        r := if raw.None? then None else Some(Str(raw.value));
      } else if |text| - p >= 4 && text[p..p + 4] == "true" {
        assert s[..4] == text[p..p + 4] && s[4..] == text[p + 4..];
        p := p + 4;
        r := Some(Bool(true));
      } else if |text| - p >= 5 && text[p..p + 5] == "false" {
        assert s[..5] == text[p..p + 5] && s[5..] == text[p + 5..];
        p := p + 5;
        r := Some(Bool(false));
      } else if |text| - p >= 4 && text[p..p + 4] == "null" {
        assert s[..4] == text[p..p + 4] && s[4..] == text[p + 4..];
        p := p + 4;
        r := Some(Null);
      } else if NumStart(c) {
        assert |s| >= 4 ==> s[..4] == text[p..p + 4];
        assert |s| >= 5 ==> s[..5] == text[p..p + 5];
        var token := ParseNumber();
        r := Some(Num(token));
      } else {
        assert |s| >= 4 ==> s[..4] == text[p..p + 4];
        assert |s| >= 5 ==> s[..5] == text[p..p + 5];
        r := None;
      }
    }
  }

  /** The entry point: a document may be followed by anything. */
  method Parse(text: string) returns (r: Option<Node>)
    ensures match ParseValue(text)
            case Fail => r.None?
            case Ok(n, _) => r == Some(n)
  {
    var parser := new Parser(text);
    r := parser.ParseAny();
  }

  lemma CopyAdvance(raw: string, i: nat, cap: nat)
    requires i < |raw| && cap > 1
    ensures var escaped := raw[i] == '\\' && i + 1 < |raw|;
            StrCopy(raw[i..], cap) ==
            if escaped then [Unescaped(raw[i + 1])] + StrCopy(raw[i + 2..], cap - 1)
            else [raw[i]] + StrCopy(raw[i + 1..], cap - 1)
  {
    var t := raw[i..];
    assert t[1..] == raw[i + 1..];
    if i + 1 < |raw| {
      assert t[2..] == raw[i + 2..];
    }
  }

  /** Copies a raw string into a buffer of `cap` bytes, decoding escapes. */
  method CopyString(raw: string, cap: nat) returns (out: string)
    requires cap > 0
    ensures out == StrCopy(raw, cap)
  {
    hide StrCopy;
    out := [];
    var i := 0;
    assert raw[0..] == raw && [] + StrCopy(raw, cap) == StrCopy(raw, cap);
    while i < |raw| && |out| + 1 < cap
      invariant 0 <= i <= |raw| && |out| < cap
      invariant StrCopy(raw, cap) == out + StrCopy(raw[i..], cap - |out|)
    {
      CopyAdvance(raw, i, cap - |out|);
      if raw[i] == '\\' && i + 1 < |raw| {
        out, i := out + [Unescaped(raw[i + 1])], i + 2;
      } else {
        out, i := out + [raw[i]], i + 1;
      }
    }
    CopyNothing(raw[i..], cap - |out|);
  }
}
