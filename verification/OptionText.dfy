/** NUL-separated option text, with ASCII bytes written as characters (tftp/protocol.py,
    c_core/tftp.c). */
module OptionText {
  const NUL: char := '\0'

  predicate NoNul(s: string) {
    NUL !in s
  }

  /** The strings one after another, each closed by a NUL. */
  function JoinZ(parts: seq<string>): string {
    if parts == [] then [] else parts[0] + [NUL] + JoinZ(parts[1..])
  }

  /** The strings of a buffer, given what was read of the current one; a last string without its
      NUL counts unless it is empty. */
  function SplitZ(buf: string, cur: string): seq<string>
    decreases |buf|
  {
    if buf == [] then (if cur == [] then [] else [cur])
    else if buf[0] == NUL then [cur] + SplitZ(buf[1..], [])
    else SplitZ(buf[1..], cur + [buf[0]])
  }

  method SplitCStrings(buf: string) returns (parts: seq<string>)
    ensures parts == SplitZ(buf, [])
  {
    var cur: string := [];
    parts := [];
    assert buf[0..] == buf;
    for i := 0 to |buf|
      invariant SplitZ(buf, []) == parts + SplitZ(buf[i..], cur)
    {
      assert buf[i..][1..] == buf[i + 1..];
      if buf[i] == NUL {
        assert parts + ([cur] + SplitZ(buf[i + 1..], [])) == parts + [cur] + SplitZ(buf[i + 1..], []);
        parts, cur := parts + [cur], [];
      } else {
        cur := cur + [buf[i]];
      }
    }
    if cur != [] {
      parts := parts + [cur];
    }
  }

  lemma {:induction false} SplitOne(s: string, rest: string, cur: string)
    requires NoNul(s)
    ensures SplitZ(s + [NUL] + rest, cur) == [cur + s] + SplitZ(rest, [])
    decreases |s|
  {
    var buf := s + [NUL] + rest;
    if s == [] {
      assert buf[1..] == rest && cur + s == cur;
    } else {
      assert s[0] in s;
      assert buf[1..] == s[1..] + [NUL] + rest && cur + [s[0]] + s[1..] == cur + s;
      SplitOne(s[1..], rest, cur + [s[0]]);
    }
  }

  /** Splitting undoes joining. */
  lemma {:induction false} SplitInvertsJoin(parts: seq<string>)
    requires forall i | 0 <= i < |parts| :: NoNul(parts[i])
    ensures SplitZ(JoinZ(parts), []) == parts
  {
    if parts != [] {
      SplitOne(parts[0], JoinZ(parts[1..]), []);
      SplitInvertsJoin(parts[1..]);
      assert [] + parts[0] == parts[0];
    }
  }

  function LowerChar(c: char): char {
    if 'A' <= c <= 'Z' then c + ('a' - 'A') else c
  }

  function Lower(s: string): string {
    if s == [] then [] else [LowerChar(s[0])] + Lower(s[1..])
  }

  /** Only the letters A to Z change, to the letter 32 places on. */
  lemma {:induction false} LowerIs(s: string)
    ensures |Lower(s)| == |s|
    ensures forall i | 0 <= i < |s| :: Lower(s)[i] as int == s[i] as int + if 65 <= s[i] as int <= 90 then 32 else 0
  {
    if s != [] {
      LowerIs(s[1..]);
    }
  }

  // ---- Key and value pairs ---------------------------------------------

  datatype Pair = Pair(key: string, value: string)

  function Flatten(pairs: seq<Pair>): seq<string> {
    if pairs == [] then [] else [pairs[0].key, pairs[0].value] + Flatten(pairs[1..])
  }

  /** The dictionary a list of alternating keys and values builds on top of another: keys lowered,
      later ones win, empty keys and a key without a value ignored. */
  function DictFrom(parts: seq<string>, m: map<string, string>): map<string, string>
    decreases |parts|
  {
    if |parts| < 2 then m
    else DictFrom(parts[2..], if parts[0] == [] then m else m[Lower(parts[0]) := parts[1]])
  }

  method BuildDict(parts: seq<string>) returns (m: map<string, string>)
    ensures m == DictFrom(parts, map[])
  {
    m := map[];
    var i := 0;
    assert parts[0..] == parts;
    while i + 1 < |parts|
      invariant 0 <= i <= |parts|
      invariant DictFrom(parts[i..], m) == DictFrom(parts, map[])
    {
      assert parts[i..][2..] == parts[i + 2..];
      if parts[i] != [] {
        m := m[Lower(parts[i]) := parts[i + 1]];
      }
      i := i + 2;
    }
  }

  function Updated(pairs: seq<Pair>, m: map<string, string>): map<string, string>
    decreases |pairs|
  {
    if pairs == [] then m else Updated(pairs[1..], m[pairs[0].key := pairs[0].value])
  }

  /** A pair as an OACK carries it: a lower-case key and no NULs. */
  predicate Clean(p: Pair) {
    p.key != [] && Lower(p.key) == p.key && NoNul(p.key) && NoNul(p.value)
  }

  predicate AllClean(pairs: seq<Pair>) {
    forall i | 0 <= i < |pairs| :: Clean(pairs[i])
  }

  lemma {:induction false} FlattenClean(pairs: seq<Pair>)
    requires AllClean(pairs)
    ensures forall i | 0 <= i < |Flatten(pairs)| :: NoNul(Flatten(pairs)[i])
  {
    hide NoNul, Lower;
    if pairs != [] {
      assert Clean(pairs[0]);
      FlattenClean(pairs[1..]);
    }
  }

  lemma {:induction false} DictOfPairs(pairs: seq<Pair>, m: map<string, string>)
    requires AllClean(pairs)
    ensures DictFrom(Flatten(pairs), m) == Updated(pairs, m)
    decreases |pairs|
  {
    hide Lower, NoNul;
    if pairs != [] {
      var p := pairs[0];
      assert Clean(p);
      var parts := Flatten(pairs);
      assert parts[0] == p.key && parts[1] == p.value && parts[2..] == Flatten(pairs[1..]);
      DictOfPairs(pairs[1..], m[p.key := p.value]);
    }
  }

  lemma {:induction false} UpdatedAppend(a: seq<Pair>, b: seq<Pair>, m: map<string, string>)
    ensures Updated(a + b, m) == Updated(b, Updated(a, m))
    decreases |a|
  {
    if a == [] {
      assert a + b == b;
    } else {
      assert (a + b)[1..] == a[1..] + b;
      UpdatedAppend(a[1..], b, m[a[0].key := a[0].value]);
    }
  }

  // ---- OACK packets ------------------------------------------------------

  const OACK_HEADER: string := ['\0', 6 as char]

  function PackOack(pairs: seq<Pair>): string {
    OACK_HEADER + JoinZ(Flatten(pairs))
  }

  /** What a client that splits the packet finds in it. */
  function ReadOack(pkt: string): map<string, string>
    requires |pkt| >= 2
  {
    DictFrom(SplitZ(pkt[2..], []), map[])
  }

  /** The client finds exactly the pairs the server packed. */
  lemma OackRoundTrip(pairs: seq<Pair>)
    requires AllClean(pairs)
    ensures ReadOack(PackOack(pairs)) == Updated(pairs, map[])
  {
    hide AllClean;
    var pkt := PackOack(pairs);
    assert pkt[2..] == JoinZ(Flatten(pairs));
    FlattenClean(pairs);
    SplitInvertsJoin(Flatten(pairs));
    DictOfPairs(pairs, map[]);
  }
}
