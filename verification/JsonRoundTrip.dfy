/** Printing a value and reading it back: the reader returns the value that was printed. */
module JsonRoundTrip {
  import opened Json
  import opened JsonGrammar

  /** Number tokens are the only part of a value that cannot be arbitrary. */
  predicate Printable(n: Node) {
    match n
    case Num(token) => TokenOk(token)
    case Arr(items) => forall i | 0 <= i < |items| :: Printable(items[i])
    case Obj(fields) => forall i | 0 <= i < |fields| :: Printable(fields[i].value)
    case _ => true
  }

  /** The canonical text of a value whose strings and keys are plain text: no blanks, strings and
      keys escaped. */
  function Print(n: Node): Doc {
    match n
    case Null => DNull
    case Bool(b) => DBool(b)
    case Num(token) => DNum(token)
    case Str(text) => DStr(Escape(text))
    case Arr(items) => if items == [] then DEmptyArr([]) else DArr(PrintItems(items))
    case Obj(fields) => if fields == [] then DEmptyObj([]) else DObj(PrintFields(fields))
  }

  function PrintItems(items: seq<Node>): Items
    requires items != []
  {
    if |items| == 1 then LastItem([], Print(items[0]), [])
    else MoreItems([], Print(items[0]), [], PrintItems(items[1..]))
  }

  function PrintFields(fields: seq<Field>): Members
    requires fields != []
  {
    var f := fields[0];
    if |fields| == 1 then LastMember([], Escape(f.key), [], [], Print(f.value), [])
    else MoreMembers([], Escape(f.key), [], [], Print(f.value), [], PrintFields(fields[1..]))
  }

  /** A raw string copied into a buffer that is large enough. */
  function Copied(raw: string): string {
    StrCopy(raw, |raw| + 1)
  }

  /** The value with every string and key copied out of its raw form. */
  function Decoded(n: Node): Node {
    match n
    case Str(raw) => Str(Copied(raw))
    case Arr(items) => Arr(DecodedItems(items))
    case Obj(fields) => Obj(DecodedFields(fields))
    case _ => n
  }

  function DecodedItems(items: seq<Node>): seq<Node> {
    if items == [] then [] else [Decoded(items[0])] + DecodedItems(items[1..])
  }

  function DecodedFields(fields: seq<Field>): seq<Field> {
    if fields == [] then []
    else [Field(Copied(fields[0].key), Decoded(fields[0].value))] + DecodedFields(fields[1..])
  }

  lemma {:induction false} EscapeGrows(text: string)
    ensures |text| <= |Escape(text)|
  {
    if text != [] {
      EscapeGrows(text[1..]);
    }
  }

  lemma CopiedInvertsEscape(text: string)
    ensures Copied(Escape(text)) == text
  {
    EscapeGrows(text);
    StrCopyInvertsEscape(text, |Escape(text)| + 1);
  }

  lemma {:induction false} DecodedItemsAppend(a: seq<Node>, b: seq<Node>)
    ensures DecodedItems(a + b) == DecodedItems(a) + DecodedItems(b)
  {
    hide Decoded;
    if a == [] {
      assert a + b == b;
    } else {
      assert (a + b)[1..] == a[1..] + b;
      DecodedItemsAppend(a[1..], b);
    }
  }

  lemma {:induction false} DecodedFieldsAppend(a: seq<Field>, b: seq<Field>)
    ensures DecodedFields(a + b) == DecodedFields(a) + DecodedFields(b)
  {
    hide Decoded, Copied;
    if a == [] {
      assert a + b == b;
    } else {
      assert (a + b)[1..] == a[1..] + b;
      DecodedFieldsAppend(a[1..], b);
    }
  }

  /** The tree of the canonical text, decoded, is the value, and the text is well formed. */
  lemma {:induction false} PrintIsFaithful(n: Node)
    requires Printable(n)
    ensures WellFormed(Print(n)) && Decoded(Tree(Print(n))) == n
    decreases n, 1
  {
    hide Escape, Copied, TokenOk, RawOk;
    match n
    case Str(text) =>
      EscapedIsRaw(text);
      CopiedInvertsEscape(text);
    case Arr(items) =>
      if items != [] {
        PrintItemsFaithful(items, []);
      }
    case Obj(fields) =>
      if fields != [] {
        PrintFieldsFaithful(fields, []);
      }
    case _ =>
  }

  lemma {:induction false} PrintItemsFaithful(items: seq<Node>, acc: seq<Node>)
    requires items != [] && forall i | 0 <= i < |items| :: Printable(items[i])
    ensures ItemsOk(PrintItems(items))
    ensures DecodedItems(Trees(PrintItems(items), acc)) == DecodedItems(acc) + items
    decreases items, 0
  {
    hide Print, Tree, Decoded, WellFormed, Printable;
    var n := items[0];
    PrintIsFaithful(n);
    var acc' := acc + [Tree(Print(n))];
    DecodedItemsAppend(acc, [Tree(Print(n))]);
    assert DecodedItems(acc') == DecodedItems(acc) + [n];
    if |items| > 1 {
      PrintItemsFaithful(items[1..], acc');
      assert DecodedItems(acc) + [n] + items[1..] == DecodedItems(acc) + items;
    } else {
      assert items == [n];
    }
  }

  lemma {:induction false} PrintFieldsFaithful(fields: seq<Field>, acc: seq<Field>)
    requires fields != [] && forall i | 0 <= i < |fields| :: Printable(fields[i].value)
    ensures MembersOk(PrintFields(fields))
    ensures DecodedFields(Fields(PrintFields(fields), acc)) == DecodedFields(acc) + fields
    decreases fields, 0
  {
    hide Print, Tree, Decoded, WellFormed, Printable, Escape, Copied, RawOk;
    var f := fields[0];
    EscapedIsRaw(f.key);
    CopiedInvertsEscape(f.key);
    PrintIsFaithful(f.value);
    var one := Field(Escape(f.key), Tree(Print(f.value)));
    DecodedFieldsAppend(acc, [one]);
    assert DecodedFields([one]) == [f];
    assert DecodedFields(acc + [one]) == DecodedFields(acc) + [f];
    if |fields| > 1 {
      PrintFieldsFaithful(fields[1..], acc + [one]);
      assert DecodedFields(acc) + [f] + fields[1..] == DecodedFields(acc) + fields;
    } else {
      assert fields == [f];
    }
  }

  /** Reading the canonical text of a value consumes exactly that text and yields the value, with
      strings and keys recovered by copying them out. */
  lemma ReadInvertsPrint(n: Node, post: string)
    requires Printable(n) && (post == [] || !NumChar(post[0]))
    ensures var r := ParseValue(Text(Print(n)) + post);
            r.Ok? && r.rest == post && Decoded(r.value) == n
  {
    hide ParseValue, Print, Text, Decoded, Tree;
    PrintIsFaithful(n);
    ValueParses(Print(n), post);
  }
}
