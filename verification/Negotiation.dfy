/** What negotiation grants and what is read from option text, said without the functions that compute it, for both
    engines (tftp/options.py, tftp/protocol.py, c_core/tftp.c, c_core/session.c). */
module Negotiation {
  import opened Wrappers
  import opened Decimal
  import opened OptionText
  import O = Options
  import C = COptions

  // ---- The Python engine ---------------------------------------------

  /** x, or the nearer limit when it is outside; the lower one when the limits cross. */
  predicate Nearest(v: int, x: int, lo: int, hi: int) {
    && (lo <= x <= hi ==> v == x)
    && (x < lo ==> v == lo)
    && (lo <= hi < x ==> v == hi)
    && (lo > hi ==> v == lo)
  }

  /** What a policy grants to a request: under `client` the value asked for, under `server` the default, under `min` and
      `max` a limit, each brought within the limits. */
  predicate Granted(r: O.Rule, asked: Option<int>, v: int) {
    match r.policy
    case Server => Nearest(v, r.default, r.lo, r.hi)
    case LowLimit => r.lo <= r.hi ==> v == r.lo
    case HighLimit => r.lo <= r.hi ==> v == r.hi
    case _ => Nearest(v, if asked.Some? then asked.value else r.default, r.lo, r.hi)
  }

  /** The integer a client asked for under a name. */
  function Asked(opts: map<string, string>, name: string): Option<int> {
    if name in opts then PyInt(opts[name]) else None
  }

  function Echoed(name: string, asked: Option<int>, v: int): seq<Pair> {
    if asked.Some? then [Pair(name, Str(v))] else []
  }

  /** The size a reply carries: on a read that of the file, on a write the client's own number. */
  function EchoedSize(opts: map<string, string>, fileSize: Option<nat>, isRead: bool): seq<Pair> {
    if "tsize" !in opts then []
    else if isRead then (if fileSize.Some? then [Pair("tsize", Str(fileSize.value))] else [])
    else (if PyInt(opts["tsize"]).Some? then [Pair("tsize", Str(PyInt(opts["tsize"]).value))] else [])
  }

  /** The whole negotiation: what each option becomes, and exactly which of them the reply carries, in which order and
      with which text. */
  lemma NegotiationExact(opts: map<string, string>, c: O.Config, fileSize: Option<nat>, isRead: bool)
    ensures var n := O.Negotiate(opts, c, fileSize, isRead);
            var blk, win, tmo := Asked(opts, "blksize"), Asked(opts, "windowsize"), Asked(opts, "timeout");
            && n.tsize == fileSize
            && (c.off ==> n.blksize == 512 && n.windowsize == 1 && n.timeout == c.tmo.default && n.reply == [])
            && (!c.off ==>
                  && (if c.blk.policy == O.Client && blk.None? then n.blksize == 512
                      else Granted(c.blk, blk, n.blksize))
                  && (if c.win.policy == O.Client && win.None? then n.windowsize == 1
                      else Granted(c.win, win, n.windowsize))
                  && Granted(c.tmo, tmo, n.timeout)
                  && n.reply == Echoed("blksize", blk, n.blksize) + Echoed("windowsize", win, n.windowsize)
                                + Echoed("timeout", tmo, n.timeout) + EchoedSize(opts, fileSize, isRead))
  {
    hide PyInt, Str, O.Pick, Granted;
    PickGrants(c.blk, Asked(opts, "blksize"));
    PickGrants(c.win, Asked(opts, "windowsize"));
    PickGrants(c.tmo, Asked(opts, "timeout"));
  }

  lemma PickGrants(r: O.Rule, asked: Option<int>)
    ensures Granted(r, asked, O.Pick(r, asked))
  {
  }

  /** Under the client policy a request inside the limits is granted as it is, and the reply says so. */
  lemma RequestInsideIsGranted(opts: map<string, string>, c: O.Config, fileSize: Option<nat>, isRead: bool, x: int)
    requires !c.off && c.blk.policy == O.Client && Asked(opts, "blksize") == Some(x) && c.blk.lo <= x <= c.blk.hi
    ensures var n := O.Negotiate(opts, c, fileSize, isRead);
            n.blksize == x && n.reply != [] && n.reply[0] == Pair("blksize", Str(x))
  {
    hide PyInt, Str, O.Negotiate;
    NegotiationExact(opts, c, fileSize, isRead);
  }

  // ---- Python's integers ---------------------------------------------

  predicate Blanks(s: string) {
    forall i | 0 <= i < |s| :: s[i] == ' ' || 9 <= s[i] as int <= 13 || 28 <= s[i] as int <= 31
  }

  lemma {:induction false} TrimLeftSkips(l: string, s: string)
    requires Blanks(l)
    ensures TrimLeft(l + s) == TrimLeft(s)
  {
    if l == [] {
      assert l + s == s;
    } else {
      assert (l + s)[1..] == l[1..] + s;
      TrimLeftSkips(l[1..], s);
    }
  }

  lemma {:induction false} TrimRightSkips(s: string, r: string)
    requires Blanks(r)
    ensures TrimRight(s + r) == TrimRight(s)
    decreases |r|
  {
    if r == [] {
      assert s + r == s;
    } else {
      assert (s + r)[..|s + r| - 1] == s + r[..|r| - 1];
      TrimRightSkips(s, r[..|r| - 1]);
    }
  }

  /** A sign, or none. */
  predicate IsSign(s: string) {
    s == "" || s == "+" || s == "-"
  }

  lemma TrimAround(l: string, core: string, r: string)
    requires Blanks(l) && Blanks(r) && core != [] && !IsSpace(core[0]) && !IsSpace(core[|core| - 1])
    ensures TrimRight(TrimLeft(l + (core + r))) == core
  {
    hide TrimLeft, TrimRight, IsSpace;
    TrimLeftSkips(l, core + r);
    assert (core + r)[0] == core[0];
    NoTrimLeft(core + r);
    TrimRightSkips(core, r);
    NothingToTrim(core);
  }

  /** What is left between the blanks. */
  lemma SignedIsRead(s: string, sign: string, digits: string)
    requires IsSign(sign) && DigitsWithUnderscores(digits) && TrimRight(TrimLeft(s)) == sign + digits
    ensures var v := Value(DropUnderscores(digits)); PyInt(s) == Some(if sign == "-" then 0 - v else v)
  {
    hide Value, TrimLeft, TrimRight, DropUnderscores;
    var core := sign + digits;
    assert IsDigit(digits[0]) && core[0] == if sign == "" then digits[0] else sign[0];
    if sign == "" {
      assert core == digits;
    } else {
      assert core[1..] == digits;
    }
  }

  /** Groups of digits, none empty. */
  predicate DigitGroups(groups: seq<string>) {
    groups != [] && forall k | 0 <= k < |groups| :: groups[k] != [] && AllDigits(groups[k])
  }

  /** The groups with an underscore between each two. */
  function Underscored(groups: seq<string>): string
    requires groups != []
  {
    if |groups| == 1 then groups[0] else groups[0] + ("_" + Underscored(groups[1..]))
  }

  function Joined(groups: seq<string>): (s: string)
    requires DigitGroups(groups)
    ensures AllDigits(s)
  {
    if |groups| == 1 then groups[0] else groups[0] + Joined(groups[1..])
  }

  lemma {:induction false} DropAppend(a: string, b: string)
    requires forall i | 0 <= i < |a + b| :: IsDigit((a + b)[i]) || (a + b)[i] == '_'
    requires forall i | 0 <= i < |a| :: IsDigit(a[i]) || a[i] == '_'
    requires forall i | 0 <= i < |b| :: IsDigit(b[i]) || b[i] == '_'
    ensures DropUnderscores(a + b) == DropUnderscores(a) + DropUnderscores(b)
  {
    if a == [] {
      assert a + b == b;
    } else {
      assert (a + b)[1..] == a[1..] + b;
      DropAppend(a[1..], b);
    }
  }

  /** A group in front of groups. */
  lemma OneMoreGroup(g: string, t: string)
    requires g != [] && AllDigits(g) && DigitsWithUnderscores(t)
    ensures DigitsWithUnderscores(g + ("_" + t)) && DropUnderscores(g + ("_" + t)) == g + DropUnderscores(t)
  {
    var u := "_" + t;
    GroupInFront(g, u, t);
    hide DropUnderscores;
    assert forall i | 0 <= i < |u| :: u[i] == if i == 0 then '_' else t[i - 1];
    DropAppend(g, u);
    DropNothing(g);
    DropFirst(u, t);
  }

  lemma DropFirst(u: string, t: string)
    requires u == "_" + t && forall i | 0 <= i < |t| :: IsDigit(t[i]) || t[i] == '_'
    ensures (forall i | 0 <= i < |u| :: IsDigit(u[i]) || u[i] == '_') && DropUnderscores(u) == DropUnderscores(t)
  {
    assert u[1..] == t;
  }

  lemma GroupInFront(g: string, u: string, t: string)
    requires g != [] && AllDigits(g) && DigitsWithUnderscores(t) && u == "_" + t
    ensures DigitsWithUnderscores(g + u)
  {
    var s := g + u;
    assert s[|s| - 1] == t[|t| - 1] && s[0] == g[0];
    forall i | 0 <= i < |s|
      ensures IsDigit(s[i]) || s[i] == '_'
      ensures i < |s| - 1 && s[i] == '_' ==> s[i + 1] != '_'
    {
      if i < |g| {
        assert s[i] == g[i];
      } else if i == |g| {
        assert s[i] == '_' && s[i + 1] == t[0];
      } else {
        assert s[i] == t[i - |g| - 1];
        assert i < |s| - 1 ==> s[i + 1] == t[i - |g|];
      }
    }
  }

  lemma {:induction false} GroupsAreDigits(groups: seq<string>)
    requires DigitGroups(groups)
    ensures DigitsWithUnderscores(Underscored(groups)) && DropUnderscores(Underscored(groups)) == Joined(groups)
  {
    hide DropUnderscores, DigitsWithUnderscores;
    if |groups| == 1 {
      OneGroup(groups[0]);
    } else {
      GroupsAreDigits(groups[1..]);
      OneMoreGroup(groups[0], Underscored(groups[1..]));
    }
  }

  lemma OneGroup(g: string)
    requires g != [] && AllDigits(g)
    ensures DigitsWithUnderscores(g) && DropUnderscores(g) == g
  {
    DropNothing(g);
  }

  lemma {:induction false} DigitsAreGroups(s: string) returns (groups: seq<string>)
    requires DigitsWithUnderscores(s)
    ensures DigitGroups(groups) && Underscored(groups) == s
  {
    if |s| == 1 {
      groups := [s];
    } else if s[1] == '_' {
      var rest := DigitsAreGroups(s[2..]);
      groups := [s[..1]] + rest;
      assert groups[1..] == rest && s == s[..1] + ("_" + s[2..]);
    } else {
      var rest := DigitsAreGroups(s[1..]);
      groups := rest[0 := [s[0]] + rest[0]];
      LongerFirst(rest, s[0]);
    }
  }

  lemma LongerFirst(groups: seq<string>, c: char)
    requires groups != []
    ensures Underscored(groups[0 := [c] + groups[0]]) == [c] + Underscored(groups)
  {
    var more := groups[0 := [c] + groups[0]];
    assert more[1..] == groups[1..];
  }

  /** Blanks around it, a sign in front and single underscores between digits do not keep a number from being read. */
  lemma IntIsRead(l: string, sign: string, groups: seq<string>, r: string)
    requires Blanks(l) && Blanks(r) && IsSign(sign) && DigitGroups(groups)
    ensures var v := Value(Joined(groups));
            PyInt(l + (sign + Underscored(groups) + r)) == Some(if sign == "-" then 0 - v else v)
  {
    hide Value, TrimLeft, TrimRight, IsSpace, PyInt, DropUnderscores, Underscored;
    var digits := Underscored(groups);
    GroupsAreDigits(groups);
    var core := sign + digits;
    NumberIsInk(digits[|digits| - 1]);
    NumberIsInk('-');
    NumberIsInk(digits[0]);
    PlusIsInk();
    assert core[|core| - 1] == digits[|digits| - 1];
    TrimAround(l, core, r);
    SignedIsRead(l + (core + r), sign, digits);
  }

  lemma NoTrimLeft(s: string)
    requires s != [] && !IsSpace(s[0])
    ensures TrimLeft(s) == s
  {
  }

  lemma PlusIsInk()
    ensures !IsSpace('+')
  {
  }

  /** Nothing else is read: text that gives a number is of this form. */
  lemma IntIsOnlyThat(s: string) returns (l: string, sign: string, groups: seq<string>, r: string)
    requires PyInt(s).Some?
    ensures Blanks(l) && Blanks(r) && IsSign(sign) && DigitGroups(groups)
    ensures s == l + (sign + Underscored(groups) + r)
  {
    hide Value, DigitsWithUnderscores, DropUnderscores;
    var t: string;
    l, t := SplitLeft(s);
    var core: string;
    core, r := SplitRight(t);
    sign := if core != [] && (core[0] == '-' || core[0] == '+') then core[..1] else [];
    groups := DigitsAreGroups(core[|sign|..]);
    assert sign + Underscored(groups) == core;
  }

  lemma {:induction false} SplitLeft(s: string) returns (l: string, t: string)
    ensures Blanks(l) && t == TrimLeft(s) && s == l + t
  {
    if s != [] && IsSpace(s[0]) {
      l, t := SplitLeft(s[1..]);
      l := [s[0]] + l;
    } else {
      l, t := [], s;
    }
  }

  lemma {:induction false} SplitRight(s: string) returns (t: string, r: string)
    ensures Blanks(r) && t == TrimRight(s) && s == t + r
  {
    if s != [] && IsSpace(s[|s| - 1]) {
      var q: string;
      t, q := SplitRight(s[..|s| - 1]);
      r := q + [s[|s| - 1]];
    } else {
      t, r := s, [];
    }
  }

  // ---- Option text ---------------------------------------------------

  /** A last string without its NUL counts like any other, unless it is empty. */
  lemma {:induction false} SplitReads(parts: seq<string>, tail: string)
    requires NoNul(tail) && forall i | 0 <= i < |parts| :: NoNul(parts[i])
    ensures SplitZ(JoinZ(parts) + tail, []) == parts + if tail == [] then [] else [tail]
  {
    if parts == [] {
      assert JoinZ(parts) + tail == tail;
      SplitTail(tail, []);
      assert [] + tail == tail;
    } else {
      var rest := JoinZ(parts[1..]);
      assert JoinZ(parts) + tail == parts[0] + [NUL] + (rest + tail);
      SplitOne(parts[0], rest + tail, []);
      SplitReads(parts[1..], tail);
      assert [] + parts[0] == parts[0];
    }
  }

  lemma {:induction false} SplitTail(s: string, cur: string)
    requires NoNul(s)
    ensures SplitZ(s, cur) == if cur + s == [] then [] else [cur + s]
    decreases |s|
  {
    if s == [] {
      assert cur + s == cur;
    } else {
      assert s[0] in s;
      assert cur + [s[0]] + s[1..] == cur + s;
      SplitTail(s[1..], cur + [s[0]]);
    }
  }

  /** Pair i of a list of alternating keys and values. */
  predicate IsPair(parts: seq<string>, i: nat, key: string) {
    2 * i + 1 < |parts| && parts[2 * i] != [] && Lower(parts[2 * i]) == key
  }

  lemma PairShift(parts: seq<string>, i: nat, key: string)
    requires |parts| >= 2
    ensures IsPair(parts[2..], i, key) <==> IsPair(parts, i + 1, key)
  {
  }

  lemma {:induction false} DictLacks(parts: seq<string>, m: map<string, string>, key: string)
    requires forall i: nat :: !IsPair(parts, i, key)
    ensures var d := DictFrom(parts, m); (key in d <==> key in m) && (key in m ==> d[key] == m[key])
    decreases |parts|
  {
    hide Lower;
    if |parts| >= 2 {
      assert !IsPair(parts, 0, key);
      forall i: nat ensures !IsPair(parts[2..], i, key) {
        PairShift(parts, i, key);
      }
      DictLacks(parts[2..], if parts[0] == [] then m else m[Lower(parts[0]) := parts[1]], key);
    }
  }

  lemma {:induction false} DictHas(parts: seq<string>, m: map<string, string>, key: string, i: nat)
    requires IsPair(parts, i, key) && forall k: nat | k > i :: !IsPair(parts, k, key)
    ensures var d := DictFrom(parts, m); key in d && d[key] == parts[2 * i + 1]
    decreases |parts|
  {
    hide Lower;
    var m', rest := if parts[0] == [] then m else m[Lower(parts[0]) := parts[1]], parts[2..];
    if i == 0 {
      forall k: nat ensures !IsPair(rest, k, key) {
        PairShift(parts, k, key);
      }
      DictLacks(rest, m', key);
    } else {
      PairShift(parts, i - 1, key);
      forall k: nat | k > i - 1 ensures !IsPair(rest, k, key) {
        PairShift(parts, k, key);
      }
      DictHas(rest, m', key, i - 1);
    }
  }

  /** The dictionary has exactly the keys of the list's pairs, in lower case, each with the value of its last pair;
      empty keys and a key without a value do not count. */
  lemma DictExact(parts: seq<string>, key: string)
    ensures var d := DictFrom(parts, map[]);
            && ((forall i: nat :: !IsPair(parts, i, key)) ==> key !in d)
            && forall i: nat | IsPair(parts, i, key) && (forall k: nat | k > i :: !IsPair(parts, k, key)) ::
                 key in d && d[key] == parts[2 * i + 1]
  {
    hide Lower, IsPair, DictFrom;
    if forall i: nat :: !IsPair(parts, i, key) {
      DictLacks(parts, map[], key);
    }
    forall i: nat | IsPair(parts, i, key) && (forall k: nat | k > i :: !IsPair(parts, k, key))
      ensures 2 * i + 1 < |parts|
      ensures var d := DictFrom(parts, map[]); key in d && d[key] == parts[2 * i + 1]
    {
      PairInside(parts, i, key);
      DictHas(parts, map[], key, i);
    }
  }

  lemma PairInside(parts: seq<string>, i: nat, key: string)
    requires IsPair(parts, i, key)
    ensures 2 * i + 1 < |parts|
  {
  }

  // ---- The C engine --------------------------------------------------

  /** A value inside the limits is granted as it is, one outside becomes the nearer limit, and an option that was
      not asked for is not granted; on a read the real size is filled in exactly when the size was asked for. */
  lemma CGrantsExactly(l: C.Limits, r: C.Req, fileSize: Option<nat>)
    ensures var n := C.Negotiate(l, r, fileSize);
            && CGranted(r.blksize, n.blksize, l.blkMin, l.blkMax)
            && CGranted(r.windowsize, n.windowsize, l.winMin, l.winMax)
            && CGranted(r.timeout, n.timeout, l.tmoMin, l.tmoMax)
            && n.tsize == if r.tsize.Some? && fileSize.Some? then fileSize else r.tsize
  {
  }

  /** When the limits cross, the upper one counts. */
  predicate CGranted(asked: Option<nat>, v: Option<nat>, lo: nat, hi: nat) {
    && (asked.None? <==> v.None?)
    && (asked.Some? ==>
          && (lo <= asked.value <= hi ==> v == asked)
          && (asked.value < lo <= hi ==> v == Some(lo))
          && (asked.value > hi || lo > hi ==> v == Some(hi)))
  }

  /** What a list of pairs makes of a request: the last value in range counts for each option, other keys do not. */
  function Read(pairs: seq<Pair>, r: C.Req): C.Req
    decreases |pairs|
  {
    if pairs == [] then r
    else
      var key, value := Lower(pairs[0].key), pairs[0].value;
      var x, y := Strtol(value, 0x7fff_ffff), Strtol(value, 0x7fff_ffff_ffff_ffff);
      Read(pairs[1..],
           if key == "blksize" && 8 <= x <= 65464 then r.(blksize := Some(x))
           else if key == "windowsize" && 1 <= x <= 64 then r.(windowsize := Some(x))
           else if key == "timeout" && 1 <= x <= 255 then r.(timeout := Some(x))
           else if key == "tsize" && 0 <= y then r.(tsize := Some(y))
           else r)
  }

  lemma StrtolBound(s: string, max: nat)
    ensures Strtol(s, max) <= max
  {
    hide Value, SkipBlanks, LeadingDigits;
  }

  /** The C loop reads every pair that is closed by its NULs, and stops at one that is not. */
  lemma {:induction false} CReads(pairs: seq<Pair>, tail: string, r: C.Req)
    requires forall i | 0 <= i < |pairs| :: NoNul(pairs[i].key) && NoNul(pairs[i].value)
    requires C.TakeZ(tail).None? || C.TakeZ(C.TakeZ(tail).value.1).None?
    ensures C.OptionLoop(JoinZ(Flatten(pairs)) + tail, r) == Read(pairs, r)
    decreases |pairs|
  {
    hide Strtol, Lower, C.TakeZ, NoNul;
    if pairs == [] {
      assert JoinZ(Flatten(pairs)) + tail == tail;
    } else {
      var p := pairs[0];
      var rest := JoinZ(Flatten(pairs[1..])) + tail;
      O.JoinPair(p, Flatten(pairs[1..]));
      assert JoinZ(Flatten(pairs)) + tail == p.key + [NUL] + (p.value + [NUL] + rest);
      C.TakeFirst(p.key, p.value + [NUL] + rest);
      C.TakeFirst(p.value, rest);
      StrtolBound(p.value, 0x7fff_ffff_ffff_ffff);
      assert JoinZ(Flatten(pairs)) + tail != [];
      CReads(pairs[1..], tail, C.ApplyOption(r, p.key, p.value));
    }
  }

  predicate CBlanks(s: string) {
    forall i | 0 <= i < |s| :: s[i] == ' ' || 9 <= s[i] as int <= 13
  }

  lemma {:induction false} SkipBlanksSkips(l: string, s: string)
    requires CBlanks(l)
    ensures SkipBlanks(l + s) == SkipBlanks(s)
  {
    if l == [] {
      assert l + s == s;
    } else {
      assert (l + s)[1..] == l[1..] + s;
      SkipBlanksSkips(l[1..], s);
    }
  }

  lemma {:induction false} LeadingIs(digits: string, rest: string)
    requires AllDigits(digits) && (rest == [] || !IsDigit(rest[0]))
    ensures LeadingDigits(digits + rest) == digits
  {
    if digits == [] {
      assert digits + rest == rest;
    } else {
      assert (digits + rest)[1..] == digits[1..] + rest;
      LeadingIs(digits[1..], rest);
    }
  }

  /** C reads blanks, a sign and digits, ignores what follows, and saturates. */
  lemma StrtolIs(l: string, sign: string, digits: string, rest: string, max: nat)
    requires CBlanks(l) && IsSign(sign) && digits != [] && AllDigits(digits) && (rest == [] || !IsDigit(rest[0]))
    ensures var v := Value(digits);
            Strtol(l + (sign + (digits + rest)), max) ==
            if sign == "-" then (if v <= max + 1 then 0 - v else 0 - max - 1) else if v <= max then v else max
  {
    hide Value, LeadingDigits, SkipBlanks;
    var body := digits + rest;
    var core := sign + body;
    SkipBlanksSkips(l, core);
    LeadingIs(digits, rest);
    assert body[0] == digits[0];
    assert SkipBlanks(core) == core by { NoBlank(core); }
    if sign == "" {
      assert core == body;
    } else {
      assert core[1..] == body;
    }
  }

  lemma NoBlank(core: string)
    requires core != [] && (IsDigit(core[0]) || core[0] == '+' || core[0] == '-')
    ensures SkipBlanks(core) == core
  {
  }
}
