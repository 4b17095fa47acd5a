/** The language the JSON reader accepts, as concrete syntax with every blank kept, and the proof
    that the reader accepts exactly this language and returns the tree each text stands for. */
module JsonGrammar {
  import opened Json
  import opened Decimal

  /** Blanks are kept where the text may have them: inside empty brackets and around every item,
      key and value. */
  datatype Doc =
    | DNull
    | DBool(b: bool)
    | DNum(token: string)
    | DStr(raw: string)
    | DEmptyArr(pad: string)
    | DArr(items: Items)
    | DEmptyObj(pad: string)
    | DObj(members: Members)

  datatype Items =
    | LastItem(before: string, value: Doc, after: string)
    | MoreItems(before: string, value: Doc, after: string, rest: Items)

  datatype Members =
    | LastMember(before: string, key: string, mid: string, gap: string, value: Doc, after: string)
    | MoreMembers(before: string, key: string, mid: string, gap: string, value: Doc, after: string, rest: Members)

  function Quoted(raw: string): string {
    "\"" + (raw + "\"")
  }

  function Text(d: Doc): string {
    match d
    case DNull => "null"
    case DBool(b) => if b then "true" else "false"
    case DNum(token) => token
    case DStr(raw) => Quoted(raw)
    case DEmptyArr(pad) => "[" + (pad + "]")
    case DArr(items) => "[" + ItemsText(items)
    case DEmptyObj(pad) => "{" + (pad + "}")
    case DObj(members) => "{" + MembersText(members)
  }

  /** Items up to and including the closing bracket. */
  function ItemsText(items: Items): string {
    items.before + (Text(items.value) + (items.after +
      match items
      case LastItem(_, _, _) => "]"
      case MoreItems(_, _, _, rest) => "," + ItemsText(rest)))
  }

  function MembersText(m: Members): string {
    m.before + (Quoted(m.key) + (m.mid + (":" + (m.gap + (Text(m.value) + (m.after +
      match m
      case LastMember(_, _, _, _, _, _) => "}"
      case MoreMembers(_, _, _, _, _, _, rest) => "," + MembersText(rest)))))))
  }

  predicate Blank(w: string) {
    forall i | 0 <= i < |w| :: w[i] == ' ' || w[i] == '\t' || w[i] == '\n' || w[i] == '\r'
  }

  /** Raw text with no bare quote, whose last backslash escapes something. */
  predicate RawOk(raw: string) {
    raw == [] ||
    if raw[0] == '\\' then |raw| > 1 && RawOk(raw[2..])
    else raw[0] != '"' && RawOk(raw[1..])
  }

  /** Digits, signs, points and exponent marks in any order, behind a digit or a sign. */
  predicate TokenOk(token: string) {
    && token != [] && ('0' <= token[0] <= '9' || token[0] == '+' || token[0] == '-')
    && forall i | 0 <= i < |token| :: InToken(token[i])
  }

  predicate InToken(c: char) {
    '0' <= c <= '9' || c == '.' || c == 'e' || c == 'E' || c == '+' || c == '-'
  }

  predicate WellFormed(d: Doc) {
    match d
    case DNull => true
    case DBool(_) => true
    case DNum(token) => TokenOk(token)
    case DStr(raw) => RawOk(raw)
    case DEmptyArr(pad) => Blank(pad)
    case DArr(items) => ItemsOk(items)
    case DEmptyObj(pad) => Blank(pad)
    case DObj(members) => MembersOk(members)
  }

  predicate ItemsOk(items: Items) {
    Blank(items.before) && WellFormed(items.value) && Blank(items.after) && (items.MoreItems? ==> ItemsOk(items.rest))
  }

  predicate MembersOk(m: Members) {
    Blank(m.before) && RawOk(m.key) && Blank(m.mid) && Blank(m.gap) && WellFormed(m.value) && Blank(m.after) &&
    (m.MoreMembers? ==> MembersOk(m.rest))
  }

  /** The tree a text stands for. */
  function Tree(d: Doc): Node {
    match d
    case DNull => Null
    case DBool(b) => Bool(b)
    case DNum(token) => Num(token)
    case DStr(raw) => Str(raw)
    case DEmptyArr(_) => Arr([])
    case DArr(items) => Arr(Trees(items, []))
    case DEmptyObj(_) => Obj([])
    case DObj(members) => Obj(Fields(members, []))
  }

  function Trees(items: Items, acc: seq<Node>): seq<Node> {
    var acc' := acc + [Tree(items.value)];
    if items.LastItem? then acc' else Trees(items.rest, acc')
  }

  function Fields(m: Members, acc: seq<Field>): seq<Field> {
    var acc' := acc + [Field(m.key, Tree(m.value))];
    if m.LastMember? then acc' else Fields(m.rest, acc')
  }

  /** Numbers are read as far as they go, so a number must not run into more of one. */
  predicate Ends(d: Doc, post: string) {
    d.DNum? ==> post == [] || !InToken(post[0])
  }

  // ---- Blanks, strings and numbers -----------------------------------

  lemma {:induction false} SkipBlank(w: string, s: string)
    requires Blank(w) && (s == [] || !IsWs(s[0]))
    ensures Skip(w + s) == s
  {
    if w == [] {
      assert w + s == s;
    } else {
      assert (w + s)[1..] == w[1..] + s;
      SkipBlank(w[1..], s);
    }
  }

  lemma {:induction false} SkipSplits(s: string) returns (w: string)
    ensures Blank(w) && s == w + Skip(s)
  {
    if s != [] && IsWs(s[0]) {
      var w' := SkipSplits(s[1..]);
      w := [s[0]] + w';
    } else {
      w := [];
    }
  }

  lemma {:induction false} ScanRaw(raw: string, post: string)
    requires RawOk(raw)
    ensures ScanString(raw + ("\"" + post)) == Ok(raw, post)
  {
    var s := raw + ("\"" + post);
    if raw == [] {
      assert s == "\"" + post && s[1..] == post;
    } else if raw[0] == '\\' {
      assert s[2..] == raw[2..] + ("\"" + post) && s[..2] == raw[..2] && raw == raw[..2] + raw[2..];
      ScanRaw(raw[2..], post);
    } else {
      assert s[1..] == raw[1..] + ("\"" + post) && s[..1] == raw[..1] && raw == raw[..1] + raw[1..];
      ScanRaw(raw[1..], post);
    }
  }

  lemma RawGrows(head: string, raw: string)
    requires RawOk(raw)
    requires (|head| == 2 && head[0] == '\\') || (|head| == 1 && head[0] != '"' && head[0] != '\\')
    ensures RawOk(head + raw)
  {
    assert (head + raw)[|head|..] == raw && (head + raw)[0] == head[0];
  }

  lemma {:induction false} ScanIsRaw(s: string)
    requires ScanString(s).Ok?
    ensures var r := ScanString(s); RawOk(r.value) && s == r.value + ("\"" + r.rest)
  {
    hide RawOk;
    if s[0] == '"' {
      assert RawOk([]) by { EmptyIsRaw(); }
    } else {
      var n := if s[0] == '\\' then 2 else 1;
      ScanIsRaw(s[n..]);
      RawGrows(s[..n], ScanString(s[n..]).value);
    }
  }

  lemma EmptyIsRaw()
    ensures RawOk([])
  {
  }

  lemma QuotedParses(raw: string, post: string)
    requires RawOk(raw)
    ensures ParseString(Quoted(raw) + post) == Ok(raw, post)
  {
    ScanRaw(raw, post);
    assert (Quoted(raw) + post)[1..] == raw + ("\"" + post);
  }

  lemma ParsedIsQuoted(s: string)
    requires ParseString(s).Ok?
    ensures var r := ParseString(s); RawOk(r.value) && s == Quoted(r.value) + r.rest
  {
    ScanIsRaw(s[1..]);
    var r := ParseString(s);
    assert s == "\"" + s[1..] && "\"" + (r.value + ("\"" + r.rest)) == Quoted(r.value) + r.rest;
  }

  lemma {:induction false} TakeToken(token: string, post: string)
    requires (forall i | 0 <= i < |token| :: NumChar(token[i])) && (post == [] || !NumChar(post[0]))
    ensures TakeNumber(token + post) == (token, post)
  {
    if token == [] {
      assert token + post == post;
    } else {
      assert (token + post)[1..] == token[1..] + post && token == [token[0]] + token[1..];
      TakeToken(token[1..], post);
    }
  }

  lemma RawOneEscaped(c: char, rest: string)
    requires RawOk(rest)
    ensures RawOk(EscapeChar(c) + rest)
  {
    var e := EscapeChar(c);
    assert (e + rest)[|e|..] == rest && (e + rest)[0] == e[0];
  }

  /** Escaped text is always fit to stand between quotes. */
  lemma {:induction false} EscapedIsRaw(text: string)
    ensures RawOk(Escape(text))
  {
    hide EscapeChar;
    if text != [] {
      EscapedIsRaw(text[1..]);
      RawOneEscaped(text[0], Escape(text[1..]));
    }
  }

  // ---- Every text of the language is read as its tree -----------------

  lemma TextIsInk(d: Doc)
    requires WellFormed(d)
    ensures Text(d) != [] && !IsWs(Text(d)[0]) && Text(d)[0] != ']'
  {
  }

  lemma Regroup(a: string, b: string, c: string, d: string, post: string)
    ensures (a + (b + (c + d))) + post == a + (b + (c + (d + post)))
  {
  }

  /** A value behind blanks is found. */
  lemma SkipToValue(w: string, d: Doc, post: string)
    requires Blank(w) && WellFormed(d)
    ensures Skip(w + (Text(d) + post)) == Text(d) + post
  {
    TextIsInk(d);
    SkipBlank(w, Text(d) + post);
  }

  /** What follows a value in an array or object is a blank or a delimiter, so the value ends there. */
  lemma EndsBeforeDelimiter(d: Doc, after: string, tail: string)
    requires Blank(after) && tail != [] && !NumChar(tail[0])
    ensures Ends(d, after + tail)
  {
  }

  function ItemsTail(items: Items): string {
    match items
    case LastItem(_, _, _) => "]"
    case MoreItems(_, _, _, rest) => "," + ItemsText(rest)
  }

  lemma {:induction false} ItemsParse(items: Items, acc: seq<Node>, post: string)
    requires ItemsOk(items)
    ensures ParseItems(ItemsText(items) + post, acc) == Ok(Trees(items, acc), post)
    decreases items, 0
  {
    hide Text, Tree, WellFormed, ParseValue;
    var v, after, tail := items.value, items.after, ItemsTail(items);
    Regroup(items.before, Text(v), after, tail, post);
    SkipToValue(items.before, v, after + (tail + post));
    EndsBeforeDelimiter(v, after, tail + post);
    ValueParses(v, after + (tail + post));
    SkipBlank(after, tail + post);
    if items.MoreItems? {
      assert (tail + post)[1..] == ItemsText(items.rest) + post;
      ItemsParse(items.rest, acc + [Tree(v)], post);
    } else {
      assert (tail + post)[1..] == post;
    }
  }

  function MembersTail(m: Members): string {
    match m
    case LastMember(_, _, _, _, _, _) => "}"
    case MoreMembers(_, _, _, _, _, _, rest) => "," + MembersText(rest)
  }

  lemma RegroupMember(a: string, b: string, c: string, d: string, e: string, f: string, g: string, h: string,
      post: string)
    ensures (a + (b + (c + (d + (e + (f + (g + h))))))) + post == a + (b + (c + (d + (e + (f + (g + (h + post)))))))
  {
  }

  lemma {:induction false} MemberParses(m: Members, end: string)
    requires Blank(m.before) && RawOk(m.key) && Blank(m.mid) && Blank(m.gap)
    requires WellFormed(m.value) && Ends(m.value, end)
    ensures ParseMember(m.before + (Quoted(m.key) + (m.mid + (":" + (m.gap + (Text(m.value) + end))))))
         == Ok(Field(m.key, Tree(m.value)), end)
    decreases m, 0
  {
    hide Text, Tree, WellFormed, Quoted, ParseValue, ParseString;
    var value := m.gap + (Text(m.value) + end);
    var colon := m.mid + (":" + value);
    SkipToQuote(m.before, m.key, colon);
    QuotedParses(m.key, colon);
    SkipBlank(m.mid, ":" + value);
    assert (":" + value)[1..] == value;
    SkipToValue(m.gap, m.value, end);
    ValueParses(m.value, end);
  }

  lemma {:induction false} MembersParse(m: Members, acc: seq<Field>, post: string)
    requires MembersOk(m)
    ensures ParseMembers(MembersText(m) + post, acc) == Ok(Fields(m, acc), post)
    decreases m, 1
  {
    hide Text, Tree, WellFormed, Quoted, ParseMember;
    var v, tail := m.value, MembersTail(m);
    RegroupMember(m.before, Quoted(m.key), m.mid, ":", m.gap, Text(v), m.after, tail, post);
    EndsBeforeDelimiter(v, m.after, tail + post);
    MemberParses(m, m.after + (tail + post));
    SkipBlank(m.after, tail + post);
    if m.MoreMembers? {
      assert (tail + post)[1..] == MembersText(m.rest) + post;
      MembersParse(m.rest, acc + [Field(m.key, Tree(v))], post);
    } else {
      assert (tail + post)[1..] == post;
    }
  }

  lemma SkipToQuote(w: string, raw: string, post: string)
    requires Blank(w)
    ensures Skip(w + (Quoted(raw) + post)) == Quoted(raw) + post
  {
    SkipBlank(w, Quoted(raw) + post);
  }

  /** Blanks in front of the first item or member change nothing. */
  lemma SkipFirst(s: string)
    ensures ParseItems(Skip(s), []) == ParseItems(s, [])
    ensures ParseMembers(Skip(s), []) == ParseMembers(s, [])
  {
    hide ParseValue, ParseString;
    assert Skip(Skip(s)) == Skip(s);
    assert ParseMember(Skip(s)) == ParseMember(s);
  }

  lemma ItemsStart(items: Items, post: string)
    requires ItemsOk(items)
    ensures var t := Skip(ItemsText(items) + post); t != [] && t[0] != ']'
  {
    hide Text, WellFormed;
    var tail := ItemsTail(items);
    Regroup(items.before, Text(items.value), items.after, tail, post);
    SkipToValue(items.before, items.value, items.after + (tail + post));
    TextIsInk(items.value);
  }

  lemma MembersStart(m: Members, post: string)
    requires MembersOk(m)
    ensures var t := Skip(MembersText(m) + post); t != [] && t[0] == '"'
  {
    hide Text, WellFormed;
    var tail := MembersTail(m);
    RegroupMember(m.before, Quoted(m.key), m.mid, ":", m.gap, Text(m.value), m.after, tail, post);
    SkipToQuote(m.before, m.key, m.mid + (":" + (m.gap + (Text(m.value) + (m.after + (tail + post))))));
  }

  /** What the reader does behind an opening bracket or brace. */
  lemma BracketShape(s: string)
    requires s != [] && s[0] == '['
    ensures var t := Skip(s[1..]);
            var r := ParseItems(s[1..], []);
            ParseValue(s) ==
            if t != [] && t[0] == ']' then Ok(Arr([]), t[1..]) else if r.Fail? then Fail else Ok(Arr(r.value), r.rest)
  {
    hide ParseItems, ParseMembers, ParseString, TakeNumber;
    SkipFirst(s[1..]);
    assert Skip(s) == s;
  }

  lemma BraceShape(s: string)
    requires s != [] && s[0] == '{'
    ensures var t := Skip(s[1..]);
            var r := ParseMembers(s[1..], []);
            ParseValue(s) ==
            if t != [] && t[0] == '}' then Ok(Obj([]), t[1..]) else if r.Fail? then Fail else Ok(Obj(r.value), r.rest)
  {
    hide ParseItems, ParseMembers, ParseString, TakeNumber;
    SkipFirst(s[1..]);
    assert Skip(s) == s;
  }

  lemma ReadArray(body: string, items: seq<Node>, post: string)
    requires ParseItems(body, []) == Ok(items, post) && Skip(body) != [] && Skip(body)[0] != ']'
    ensures ParseValue("[" + body) == Ok(Arr(items), post)
  {
    hide ParseItems, ParseValue;
    BracketShape("[" + body);
    assert ("[" + body)[1..] == body;
  }

  lemma ReadObject(body: string, fields: seq<Field>, post: string)
    requires ParseMembers(body, []) == Ok(fields, post) && Skip(body) != [] && Skip(body)[0] != '}'
    ensures ParseValue("{" + body) == Ok(Obj(fields), post)
  {
    hide ParseMembers, ParseValue;
    BraceShape("{" + body);
    assert ("{" + body)[1..] == body;
  }

  lemma ReadEmpty(pad: string, post: string)
    requires Blank(pad)
    ensures ParseValue("[" + (pad + ("]" + post))) == Ok(Arr([]), post)
    ensures ParseValue("{" + (pad + ("}" + post))) == Ok(Obj([]), post)
  {
    SkipBlank(pad, "]" + post);
    SkipBlank(pad, "}" + post);
    var s, t := "[" + (pad + ("]" + post)), "{" + (pad + ("}" + post));
    assert s[1..] == pad + ("]" + post) && Skip(s) == s && ("]" + post)[1..] == post;
    assert t[1..] == pad + ("}" + post) && Skip(t) == t && ("}" + post)[1..] == post;
  }

  lemma ReadScalar(d: Doc, post: string)
    requires WellFormed(d) && Ends(d, post) && (d.DNull? || d.DNum? || d.DStr?)
    ensures ParseValue(Text(d) + post) == Ok(Tree(d), post)
  {
    hide ParseItems, ParseMembers, ParseString, TakeNumber, ItemsText, MembersText, RawOk;
    var s := Text(d) + post;
    TextIsInk(d);
    assert Skip(s) == s;
    match d
    case DNull => assert s[..4] == "null" && s[4..] == post;
    case DNum(token) => TakeToken(token, post);
    case DStr(raw) => QuotedParses(raw, post);
  }

  /** A well-formed text, whatever follows it, is read completely, as the tree it stands for, and
      what follows is left untouched. */
  lemma {:induction false} ValueParses(d: Doc, post: string)
    requires WellFormed(d) && Ends(d, post)
    ensures ParseValue(Text(d) + post) == Ok(Tree(d), post)
    decreases d, 2
  {
    hide ParseValue, Skip, ItemsText, MembersText, ParseItems, ParseMembers;
    match d
    case DNull => ReadScalar(d, post);
    case DNum(_) => ReadScalar(d, post);
    case DStr(_) => ReadScalar(d, post);
    case DBool(b) => BoolParses(b, post);
    case DEmptyArr(pad) =>
      ReadEmpty(pad, post);
      assert Text(d) + post == "[" + (pad + ("]" + post));
    case DArr(items) =>
      ItemsStart(items, post);
      ItemsParse(items, [], post);
      ReadArray(ItemsText(items) + post, Trees(items, []), post);
      assert Text(d) + post == "[" + (ItemsText(items) + post);
    case DEmptyObj(pad) =>
      ReadEmpty(pad, post);
      assert Text(d) + post == "{" + (pad + ("}" + post));
    case DObj(members) =>
      MembersStart(members, post);
      MembersParse(members, [], post);
      ReadObject(MembersText(members) + post, Fields(members, []), post);
      assert Text(d) + post == "{" + (MembersText(members) + post);
  }

  lemma BoolParses(b: bool, post: string)
    ensures ParseValue((if b then "true" else "false") + post) == Ok(Bool(b), post)
  {
    var s := (if b then "true" else "false") + post;
    assert b ==> s[..4] == "true" && s[4..] == post;
    assert !b ==> s[..5] == "false" && s[5..] == post;
    assert Skip(s) == s;
  }

  // ---- Nothing else is accepted ---------------------------------------

  lemma {:induction false} ItemsSound(s: string, acc: seq<Node>) returns (items: Items)
    requires ParseItems(s, acc).Ok?
    ensures var r := ParseItems(s, acc);
            ItemsOk(items) && Trees(items, acc) == r.value && s == ItemsText(items) + r.rest
    decreases |s|, 3
  {
    hide ParseValue, Text, Tree, WellFormed;
    var w := SkipSplits(s);
    var s1 := Skip(s);
    var v := ParseValue(s1);
    var d := ValueSound(s1);
    SkipTwice(s);
    var a := SkipSplits(v.rest);
    var t := Skip(v.rest);
    var r := ParseItems(s, acc);
    if t[0] == ',' {
      var rest := ItemsSound(t[1..], acc + [v.value]);
      items := MoreItems(w, d, a, rest);
      assert t == "," + ItemsText(rest) + r.rest;
    } else {
      items := LastItem(w, d, a);
      assert t == "]" + r.rest;
    }
    Regroup(w, Text(d), a, ItemsTail(items), r.rest);
  }

  lemma {:induction false} MemberSound(s: string) returns (m: Members)
    requires ParseMember(s).Ok?
    ensures var r := ParseMember(s);
            && Blank(m.before) && RawOk(m.key) && Blank(m.mid) && Blank(m.gap) && WellFormed(m.value)
            && r.value == Field(m.key, Tree(m.value))
            && s == m.before + (Quoted(m.key) + (m.mid + (":" + (m.gap + (Text(m.value) + r.rest)))))
    decreases |s|, 3
  {
    hide ParseValue, ParseString, Text, Tree, WellFormed, Quoted, RawOk;
    var w := SkipSplits(s);
    var k := ParseString(Skip(s));
    ParsedIsQuoted(Skip(s));
    var mid := SkipSplits(k.rest);
    var s1 := Skip(k.rest);
    assert s1 == ":" + s1[1..];
    var gap := SkipSplits(s1[1..]);
    var s2 := Skip(s1[1..]);
    var d := ValueSound(s2);
    SkipTwice(s1[1..]);
    m := LastMember(w, k.value, mid, gap, d, []);
  }

  lemma {:induction false} MembersSound(s: string, acc: seq<Field>) returns (m: Members)
    requires ParseMembers(s, acc).Ok?
    ensures var r := ParseMembers(s, acc); MembersOk(m) && Fields(m, acc) == r.value && s == MembersText(m) + r.rest
    decreases |s|, 4
  {
    hide ParseMember, Text, Tree, WellFormed, Quoted, RawOk;
    var f := ParseMember(s);
    var one := MemberSound(s);
    var a := SkipSplits(f.rest);
    var t := Skip(f.rest);
    var r := ParseMembers(s, acc);
    if t[0] == ',' {
      var rest := MembersSound(t[1..], acc + [f.value]);
      m := MoreMembers(one.before, one.key, one.mid, one.gap, one.value, a, rest);
      assert t == "," + MembersText(rest) + r.rest;
    } else {
      m := LastMember(one.before, one.key, one.mid, one.gap, one.value, a);
      assert t == "}" + r.rest;
    }
    RegroupMember(one.before, Quoted(one.key), one.mid, ":", one.gap, Text(one.value), a, MembersTail(m), r.rest);
  }

  lemma SkipTwice(s: string)
    ensures Skip(Skip(s)) == Skip(s)
  {
  }

  lemma {:induction false} ValueSound(input: string) returns (d: Doc)
    requires ParseValue(input).Ok?
    ensures var r := ParseValue(input);
            WellFormed(d) && Tree(d) == r.value && Skip(input) == Text(d) + r.rest && Ends(d, r.rest)
    decreases |input|, 2
  {
    var s := Skip(input);
    if s[0] == '{' {
      d := ObjectSound(s);
    } else if s[0] == '[' {
      d := ArraySound(s);
    } else {
      d := ScalarSound(s);
    }
    SkipTwice(input);
    ParseAfterSkip(input);
  }

  lemma ParseAfterSkip(input: string)
    ensures ParseValue(Skip(input)) == ParseValue(input)
  {
    hide ParseItems, ParseMembers;
    SkipTwice(input);
  }

  lemma Opened(open: string, body: string, rest: string)
    ensures open + (body + rest) == open + body + rest
  {
  }

  lemma Enclosed(open: string, pad: string, close: string, rest: string)
    ensures open + (pad + (close + rest)) == open + (pad + close) + rest
  {
  }

  lemma {:induction false} ArraySound(s: string) returns (d: Doc)
    requires s != [] && s[0] == '[' && ParseValue(s).Ok?
    ensures var r := ParseValue(s); WellFormed(d) && Tree(d) == r.value && s == Text(d) + r.rest && !d.DNum?
    decreases |s|, 1
  {
    hide ParseItems, ItemsText, ParseValue, Trees, ItemsOk, Blank, Skip;
    BracketShape(s);
    var r := ParseValue(s);
    var t := Skip(s[1..]);
    var pad := SkipSplits(s[1..]);
    assert s == "[" + s[1..];
    if t != [] && t[0] == ']' {
      d := DEmptyArr(pad);
      assert t == "]" + r.rest;
      Enclosed("[", pad, "]", r.rest);
    } else {
      var items := ItemsSound(s[1..], []);
      d := DArr(items);
      Opened("[", ItemsText(items), r.rest);
    }
  }

  lemma {:induction false} ObjectSound(s: string) returns (d: Doc)
    requires s != [] && s[0] == '{' && ParseValue(s).Ok?
    ensures var r := ParseValue(s); WellFormed(d) && Tree(d) == r.value && s == Text(d) + r.rest && !d.DNum?
    decreases |s|, 1
  {
    hide ParseMembers, MembersText, ParseValue, Fields, MembersOk, Blank, Skip;
    BraceShape(s);
    var r := ParseValue(s);
    var t := Skip(s[1..]);
    var pad := SkipSplits(s[1..]);
    assert s == "{" + s[1..];
    if t != [] && t[0] == '}' {
      d := DEmptyObj(pad);
      assert t == "}" + r.rest;
      Enclosed("{", pad, "}", r.rest);
    } else {
      var members := MembersSound(s[1..], []);
      d := DObj(members);
      Opened("{", MembersText(members), r.rest);
    }
  }

  lemma ScalarSound(s: string) returns (d: Doc)
    requires s != [] && s[0] != '[' && s[0] != '{' && !IsWs(s[0]) && ParseValue(s).Ok?
    ensures var r := ParseValue(s); WellFormed(d) && Tree(d) == r.value && s == Text(d) + r.rest && Ends(d, r.rest)
  {
    hide ParseItems, ParseMembers, ParseString, RawOk;
    assert Skip(s) == s;
    var r := ParseValue(s);
    match r.value
    case Null => d := DNull;
    case Bool(b) => d := DBool(b);
    case Num(token) => d := DNum(token);
    case Str(raw) =>
      ParsedIsQuoted(s);
      d := DStr(raw);
  }

  /** The reader accepts exactly the texts of the grammar, after any blanks, and returns exactly
      their trees: the tree and the unread rest determine the text that was read, and back. */
  lemma ReaderIsGrammar(s: string, n: Node, rest: string)
    ensures ParseValue(s) == Ok(n, rest) <==>
            exists d :: WellFormed(d) && Ends(d, rest) && Tree(d) == n && Skip(s) == Text(d) + rest
  {
    hide ParseValue, WellFormed, Text, Tree;
    if ParseValue(s) == Ok(n, rest) {
      var d := ValueSound(s);
    }
    forall d | WellFormed(d) && Ends(d, rest) && Tree(d) == n && Skip(s) == Text(d) + rest
      ensures ParseValue(s) == Ok(n, rest)
    {
      ValueParses(d, rest);
      ParseAfterSkip(s);
    }
  }

  /** The same with the blanks written out: a text is read exactly when it is blanks, a text of the grammar and the
      rest. */
  lemma ReadsExactly(s: string, n: Node, rest: string)
    ensures ParseValue(s) == Ok(n, rest) <==>
            exists w, d :: Blank(w) && WellFormed(d) && Ends(d, rest) && Tree(d) == n && s == w + (Text(d) + rest)
  {
    hide ParseValue, WellFormed, Tree, Ends;
    ReaderIsGrammar(s, n, rest);
    if ParseValue(s) == Ok(n, rest) {
      var d :| WellFormed(d) && Ends(d, rest) && Tree(d) == n && Skip(s) == Text(d) + rest;
      var w := SkipSplits(s);
      assert s == w + (Text(d) + rest);
    }
    forall w, d | Blank(w) && WellFormed(d) && Ends(d, rest) && Tree(d) == n && s == w + (Text(d) + rest)
      ensures ParseValue(s) == Ok(n, rest)
    {
      SkipToValue(w, d, rest);
    }
  }
}
