/** Option parsing, clamping and OACK building in the C engine (c_core/tftp.c, c_core/session.c). */
module COptions {
  import opened Decimal
  import opened OptionText
  import opened Wrappers
  import Options

  const LONG_MAX := 0x7fff_ffff
  const LLONG_MAX := 0x7fff_ffff_ffff_ffff

  /** The options of a request: each present with its value, or absent. */
  datatype Req = Req(blksize: Option<nat>, windowsize: Option<nat>, timeout: Option<nat>, tsize: Option<nat>)

  const NO_OPTIONS := Req(None, None, None, None)

  // ---- Reading -------------------------------------------------------------

  /** The string up to the next NUL and what follows the NUL. */
  function TakeZ(s: string): (r: Option<(string, string)>)
    ensures r.Some? ==> |r.value.1| < |s|
  {
    if s == [] then None
    else if s[0] == NUL then Some(([], s[1..]))
    else
      var r := TakeZ(s[1..]);
      if r.None? then None else Some(([s[0]] + r.value.0, r.value.1))
  }

  function InRange(x: int, lo: int, hi: int): Option<nat>
    requires lo >= 0
  {
    if lo <= x <= hi then Some(x) else None
  }

  /** A recognised option with a value in range is taken; anything else leaves the request alone. */
  function ApplyOption(r: Req, key: string, value: string): Req {
    var k := Lower(key);
    if k == Options.BLKSIZE then
      var x := InRange(Strtol(value, LONG_MAX), 8, 65464);
      if x.Some? then r.(blksize := x) else r
    else if k == Options.WINDOWSIZE then
      var x := InRange(Strtol(value, LONG_MAX), 1, 64);
      if x.Some? then r.(windowsize := x) else r
    else if k == Options.TIMEOUT then
      var x := InRange(Strtol(value, LONG_MAX), 1, 255);
      if x.Some? then r.(timeout := x) else r
    else if k == Options.TSIZE then
      var x := InRange(Strtol(value, LLONG_MAX), 0, LLONG_MAX);
      if x.Some? then r.(tsize := x) else r
    else r
  }

  function OptionLoop(s: string, r: Req): Req
    decreases |s|
  {
    if s == [] then r
    else
      var k := TakeZ(s);
      if k.None? then r
      else
        var v := TakeZ(k.value.1);
        if v.None? then r else OptionLoop(v.value.1, ApplyOption(r, k.value.0, v.value.0))
  }

  /** Advances over one string; `None` when the buffer ends before a NUL. */
  method TakeString(buf: string, start: nat) returns (s: Option<string>, pos: nat)
    requires start <= |buf|
    ensures start <= pos <= |buf|
    ensures match TakeZ(buf[start..])
            case None => s.None? && pos == |buf|
            case Some((text, rest)) => s == Some(text) && pos > start && buf[pos..] == rest
  {
    hide TakeZ;
    pos := start;
    while pos < |buf| && buf[pos] != NUL
      invariant start <= pos <= |buf|
      invariant forall i | start <= i < pos :: buf[i] != NUL
    {
      pos := pos + 1;
    }
    TakeExactly(buf[start..], pos - start);
    if pos >= |buf| {
      return None, pos;
    }
    s := Some(buf[start..pos]);
    assert buf[start..][..pos - start] == buf[start..pos] && buf[start..][pos - start + 1..] == buf[pos + 1..];
    pos := pos + 1;
  }

  lemma {:induction false} TakeExactly(s: string, n: nat)
    requires n <= |s| && (forall i | 0 <= i < n :: s[i] != NUL) && (n < |s| ==> s[n] == NUL)
    ensures TakeZ(s) == if n == |s| then None else Some((s[..n], s[n + 1..]))
  {
    if n > 0 {
      TakeExactly(s[1..], n - 1);
      if n < |s| {
        assert [s[0]] + s[1..][..n - 1] == s[..n] && s[1..][n..] == s[n + 1..];
      }
    }
  }

  method ParseOptions(buf: string, start: nat) returns (r: Req)
    requires start <= |buf|
    ensures r == OptionLoop(buf[start..], NO_OPTIONS)
  {
    hide ApplyOption, TakeZ;
    r := NO_OPTIONS;
    var pos := start;
    while pos < |buf|
      invariant start <= pos <= |buf|
      invariant OptionLoop(buf[pos..], r) == OptionLoop(buf[start..], NO_OPTIONS)
      decreases |buf| - pos
    {
      var k, p1 := TakeString(buf, pos);
      var v, p2 := TakeString(buf, p1);
      if k.None? || v.None? {
        return;
      }
      r, pos := ApplyOption(r, k.value, v.value), p2;
    }
  }

  // ---- Writing ---------------------------------------------------------------

  function Shown(key: string, v: Option<nat>): seq<Pair> {
    if v.Some? then [Pair(key, Dec(v.value))] else []
  }

  function OackPairs(r: Req): seq<Pair> {
    Shown(Options.BLKSIZE, r.blksize) + Shown(Options.WINDOWSIZE, r.windowsize)
    + Shown(Options.TIMEOUT, r.timeout) + Shown(Options.TSIZE, r.tsize)
  }

  /** What re-reading keeps: values in range; a size beyond the largest signed number is cut to it. */
  function Kept(r: Req): Req {
    Req(if r.blksize.Some? then InRange(r.blksize.value, 8, 65464) else None,
        if r.windowsize.Some? then InRange(r.windowsize.value, 1, 64) else None,
        if r.timeout.Some? then InRange(r.timeout.value, 1, 255) else None,
        if r.tsize.Some? then Some(if r.tsize.value > LLONG_MAX then LLONG_MAX else r.tsize.value) else None)
  }

  /** The value fields are 32 bits wide (64 for the size). */
  predicate Fields(r: Req) {
    && (r.blksize.Some? ==> r.blksize.value < 0x1_0000_0000)
    && (r.windowsize.Some? ==> r.windowsize.value < 0x1_0000_0000)
    && (r.timeout.Some? ==> r.timeout.value < 0x1_0000_0000)
    && (r.tsize.Some? ==> r.tsize.value < 0x1_0000_0000_0000_0000)
  }

  lemma SaturatesAt(n: nat, max: nat)
    ensures Strtol(Dec(n), max) == if n <= max then n else max
  {
    hide Value, Dec;
    ValueOfDec(n);
    LeadingAll(Dec(n));
    assert SkipBlanks(Dec(n)) == Dec(n) && Dec(n)[0] != '-' && Dec(n)[0] != '+';
  }

  lemma DecHasNoNul(n: nat)
    ensures NoNul(Dec(n))
  {
    hide Dec;
  }

  /** One printed pair at the front of the text is one turn of the loop. */
  lemma LoopOverPair(key: string, n: nat, rest: string, r: Req)
    requires Options.IsKey(key)
    ensures OptionLoop(key + [NUL] + (Dec(n) + [NUL]) + rest, r) == OptionLoop(rest, ApplyOption(r, key, Dec(n)))
  {
    hide Dec, ApplyOption, TakeZ, Lower;
    Options.KeyIsClean(key);
    DecHasNoNul(n);
    var tail := Dec(n) + [NUL] + rest;
    var s := key + [NUL] + tail;
    assert s == key + [NUL] + (Dec(n) + [NUL]) + rest;
    TakeFirst(key, tail);
    TakeFirst(Dec(n), rest);
  }

  lemma TakeFirst(s: string, rest: string)
    requires NoNul(s)
    ensures TakeZ(s + [NUL] + rest) == Some((s, rest))
  {
    var t := s + [NUL] + rest;
    assert forall i | 0 <= i < |s| :: t[i] == s[i] && s[i] in s;
    TakeExactly(t, |s|);
    assert t[..|s|] == s && t[|s| + 1..] == rest;
  }

  lemma JoinShown(key: string, v: Option<nat>, more: seq<Pair>)
    ensures JoinZ(Flatten(Shown(key, v) + more)) ==
            (if v.Some? then key + [NUL] + (Dec(v.value) + [NUL]) else []) + JoinZ(Flatten(more))
  {
    hide Dec;
    if v.Some? {
      var p := Pair(key, Dec(v.value));
      assert ([p] + more)[1..] == more;
      Options.JoinPair(p, Flatten(more));
    } else {
      assert Shown(key, v) + more == more;
    }
  }

  /** One printed option, present or not, is read as `ApplyOption` of its digits. */
  function Reread(r: Req, key: string, v: Option<nat>): Req {
    if v.Some? then ApplyOption(r, key, Dec(v.value)) else r
  }

  lemma LoopOverShown(key: string, v: Option<nat>, more: seq<Pair>, r: Req)
    requires Options.IsKey(key)
    ensures OptionLoop(JoinZ(Flatten(Shown(key, v) + more)), r) == OptionLoop(JoinZ(Flatten(more)), Reread(r, key, v))
  {
    hide Dec, ApplyOption, OptionLoop;
    JoinShown(key, v, more);
    if v.Some? {
      LoopOverPair(key, v.value, JoinZ(Flatten(more)), r);
    } else {
      assert [] + JoinZ(Flatten(more)) == JoinZ(Flatten(more));
    }
  }

  /** Reading an OACK's options back gives exactly the values that are in range. */
  lemma RereadOack(r: Req)
    requires Fields(r)
    ensures OptionLoop(PackOack(OackPairs(r))[2..], NO_OPTIONS) == Kept(r)
  {
    hide Dec, ApplyOption, OptionLoop, Reread;
    var a, b := Shown(Options.BLKSIZE, r.blksize), Shown(Options.WINDOWSIZE, r.windowsize);
    var d, e := Shown(Options.TIMEOUT, r.timeout), Shown(Options.TSIZE, r.tsize);
    assert OackPairs(r) == a + (b + (d + (e + []))) && PackOack(OackPairs(r))[2..] == JoinZ(Flatten(OackPairs(r)));
    LoopOverShown(Options.BLKSIZE, r.blksize, b + (d + (e + [])), NO_OPTIONS);
    var r1 := Reread(NO_OPTIONS, Options.BLKSIZE, r.blksize);
    LoopOverShown(Options.WINDOWSIZE, r.windowsize, d + (e + []), r1);
    var r2 := Reread(r1, Options.WINDOWSIZE, r.windowsize);
    LoopOverShown(Options.TIMEOUT, r.timeout, e + [], r2);
    var r3 := Reread(r2, Options.TIMEOUT, r.timeout);
    LoopOverShown(Options.TSIZE, r.tsize, [], r3);
    var r4 := Reread(r3, Options.TSIZE, r.tsize);
    assert OptionLoop([], r4) == r4 by { LoopEnds(r4); }
    RereadValues(NO_OPTIONS, r);
  }

  lemma LoopEnds(r: Req)
    ensures OptionLoop(JoinZ(Flatten([])), r) == r
  {
  }

  lemma RereadValues(start: Req, r: Req)
    requires start == NO_OPTIONS && Fields(r)
    ensures Reread(Reread(Reread(Reread(start, Options.BLKSIZE, r.blksize), Options.WINDOWSIZE, r.windowsize),
                          Options.TIMEOUT, r.timeout), Options.TSIZE, r.tsize) == Kept(r)
  {
    hide Dec, Strtol, Lower;
    Options.KeyIsClean(Options.BLKSIZE);
    Options.KeyIsClean(Options.WINDOWSIZE);
    Options.KeyIsClean(Options.TIMEOUT);
    Options.KeyIsClean(Options.TSIZE);
    forall n: nat, max: nat ensures Strtol(Dec(n), max) == if n <= max then n else max {
      SaturatesAt(n, max);
    }
  }

  /** So the OACK says what was negotiated exactly when every value is in the protocol's range. */
  lemma OackIsExactIff(r: Req)
    requires Fields(r)
    ensures OptionLoop(PackOack(OackPairs(r))[2..], NO_OPTIONS) == r <==>
            && (r.blksize.Some? ==> 8 <= r.blksize.value <= 65464)
            && (r.windowsize.Some? ==> 1 <= r.windowsize.value <= 64)
            && (r.timeout.Some? ==> 1 <= r.timeout.value <= 255)
            && (r.tsize.Some? ==> r.tsize.value <= LLONG_MAX)
  {
    hide OptionLoop, PackOack, OackPairs;
    RereadOack(r);
  }

  // ---- Clamping -----------------------------------------------------------------

  datatype Limits = Limits(blkMin: nat, blkMax: nat, winMin: nat, winMax: nat, tmoMin: nat, tmoMax: nat) {
    /** Limits within the protocol's own ranges. */
    predicate Sane() {
      8 <= blkMin <= blkMax <= 65464 && 1 <= winMin <= winMax <= 64 && 1 <= tmoMin <= tmoMax <= 255
    }
  }

  function Clamp(v: Option<nat>, lo: nat, hi: nat): Option<nat> {
    if v.None? then None
    else
      var x := if v.value < lo then lo else v.value;
      Some(if x > hi then hi else x)
  }

  /** What a request becomes: options clamped, and on a read the real size filled in. */
  function Negotiate(l: Limits, r: Req, fileSize: Option<nat>): Req {
    Req(Clamp(r.blksize, l.blkMin, l.blkMax), Clamp(r.windowsize, l.winMin, l.winMax),
        Clamp(r.timeout, l.tmoMin, l.tmoMax),
        if r.tsize.Some? && fileSize.Some? then fileSize else r.tsize)
  }

  /** Block and window size the session then uses, with the casts to 16 and 8 bits. */
  function SessionBlksize(r: Req): nat {
    if r.blksize.Some? then r.blksize.value % 65536 else 512
  }

  function SessionWindowsize(r: Req): nat {
    if r.windowsize.Some? then r.windowsize.value % 256 else 1
  }

  /** Under sane limits a client that reads the OACK with the same rules and falls back to 512 and 1
      ends up with the session's block and window size. */
  lemma BothEndsAgree(l: Limits, r: Req, fileSize: Option<nat>)
    requires l.Sane()
    requires (r.tsize.Some? ==> r.tsize.value <= LLONG_MAX) && (fileSize.Some? ==> fileSize.value <= LLONG_MAX)
    ensures var n := Negotiate(l, r, fileSize);
            var seen := OptionLoop(PackOack(OackPairs(n))[2..], NO_OPTIONS);
            && seen == n
            && (if seen.blksize.Some? then seen.blksize.value else 512) == SessionBlksize(n)
            && (if seen.windowsize.Some? then seen.windowsize.value else 1) == SessionWindowsize(n)
  {
    hide OptionLoop, PackOack, OackPairs;
    OackIsExactIff(Negotiate(l, r, fileSize));
  }

  // ---- The buffer -----------------------------------------------------------------

  /** Appends one key and value, or reports that they do not fit. */
  method WriteOption(buf: array<char>, off: nat, p: Pair) returns (n: nat)
    requires off <= buf.Length
    modifies buf
    ensures n == 0 <==> off + |p.key| + 1 + |p.value| + 1 > buf.Length
    ensures n == 0 ==> buf[..] == old(buf[..])
    ensures n > 0 ==> n <= buf.Length && buf[..n] == old(buf[..off]) + (p.key + [NUL] + (p.value + [NUL]))
  {
    var text := p.key + [NUL] + (p.value + [NUL]);
    if off + |text| > buf.Length {
      return 0;
    }
    forall i | 0 <= i < |text| {
      buf[off + i] := text[i];
    }
    n := off + |text|;
  }

  /** Builds the OACK at the front of the buffer; 0 when it does not fit. */
  method BuildOack(buf: array<char>, r: Req) returns (n: nat)
    modifies buf
    ensures n == 0 <==> |PackOack(OackPairs(r))| > buf.Length
    ensures n > 0 ==> n <= buf.Length && buf[..n] == PackOack(OackPairs(r))
  {
    n := BuildPairs(buf, OackPairs(r));
  }

  method BuildPairs(buf: array<char>, pairs: seq<Pair>) returns (n: nat)
    modifies buf
    ensures n == 0 <==> |PackOack(pairs)| > buf.Length
    ensures n > 0 ==> n <= buf.Length && buf[..n] == PackOack(pairs)
  {
    hide JoinZ, Flatten;
    ghost var whole := PackOack(pairs);
    if buf.Length < 2 {
      return 0;
    }
    buf[0], buf[1] := OACK_HEADER[0], OACK_HEADER[1];
    n := 2;
    assert pairs[0..] == pairs && buf[..2] == OACK_HEADER;
    for i := 0 to |pairs|
      invariant 2 <= n <= buf.Length
      invariant whole == buf[..n] + JoinZ(Flatten(pairs[i..]))
    {
      Options.JoinStep(pairs, i);
      var next := WriteOption(buf, n, pairs[i]);
      if next == 0 {
        return 0;
      }
      n := next;
      assert whole == buf[..n] + JoinZ(Flatten(pairs[i + 1..]));
    }
    assert JoinZ(Flatten(pairs[|pairs|..])) == [] by { NothingToJoin(pairs[|pairs|..]); }
  }

  lemma NothingToJoin(pairs: seq<Pair>)
    requires pairs == []
    ensures JoinZ(Flatten(pairs)) == []
  {
  }

  lemma JoinLength(key: string, v: Option<nat>, digits: nat)
    requires digits > 0 && (v.Some? ==> v.value < Pow10(digits))
    ensures |JoinZ(Flatten(Shown(key, v)))| <= |key| + digits + 2
  {
    hide Dec, Pow10;
    if v.Some? {
      DecLength(v.value, digits);
      Options.JoinPair(Pair(key, Dec(v.value)), []);
      assert Flatten(Shown(key, v)) == [key, Dec(v.value)] + [];
    }
  }

  lemma {:induction false} JoinAppend(a: seq<string>, b: seq<string>)
    ensures JoinZ(a + b) == JoinZ(a) + JoinZ(b)
  {
    if a == [] {
      assert a + b == b;
    } else {
      assert (a + b)[1..] == a[1..] + b;
      JoinAppend(a[1..], b);
    }
  }

  lemma {:induction false} FlattenAppend(a: seq<Pair>, b: seq<Pair>)
    ensures Flatten(a + b) == Flatten(a) + Flatten(b)
  {
    if a == [] {
      assert a + b == b;
    } else {
      assert (a + b)[1..] == a[1..] + b;
      FlattenAppend(a[1..], b);
    }
  }

  lemma JoinPairsAppend(a: seq<Pair>, b: seq<Pair>)
    ensures |JoinZ(Flatten(a + b))| == |JoinZ(Flatten(a))| + |JoinZ(Flatten(b))|
  {
    FlattenAppend(a, b);
    JoinAppend(Flatten(a), Flatten(b));
  }

  /** The 512-byte packet buffer of both handlers always suffices, so an OACK is never cut off. */
  lemma OackFitsBuffer(r: Req)
    requires Fields(r)
    ensures |PackOack(OackPairs(r))| <= 512
  {
    hide Dec, JoinZ, Flatten, Shown;
    assert Pow10(10) == 10000000000 && Pow10(20) == 100000000000000000000;
    var a, b := Shown(Options.BLKSIZE, r.blksize), Shown(Options.WINDOWSIZE, r.windowsize);
    var d, e := Shown(Options.TIMEOUT, r.timeout), Shown(Options.TSIZE, r.tsize);
    JoinLength(Options.BLKSIZE, r.blksize, 10);
    JoinLength(Options.WINDOWSIZE, r.windowsize, 10);
    JoinLength(Options.TIMEOUT, r.timeout, 10);
    JoinLength(Options.TSIZE, r.tsize, 20);
    JoinPairsAppend(a + b + d, e);
    JoinPairsAppend(a + b, d);
    JoinPairsAppend(a, b);
  }
}
