/** Option negotiation in the Python engine, and what the client makes of the OACK
    (tftp/options.py, tftp/protocol.py). */
module Options {
  import opened Decimal
  import opened OptionText
  import opened Wrappers
  import opened Blocks

  const BLKSIZE := "blksize"
  const WINDOWSIZE := "windowsize"
  const TIMEOUT := "timeout"
  const TSIZE := "tsize"

  /** Block and window size of a transfer without options (RFC 1350, RFC 7440). */
  const CLASSIC_BLKSIZE := 512
  const CLASSIC_WINDOWSIZE := 1

  /** `Unknown` is any policy text the code has no name for; it mostly behaves like `Client`. */
  datatype Policy = Client | Server | LowLimit | HighLimit | Unknown

  /** One option's policy, default and limits. */
  datatype Rule = Rule(policy: Policy, default: int, lo: int, hi: int)

  /** `off` is the legacy mode without negotiation. */
  datatype Config = Config(off: bool, blk: Rule, win: Rule, tmo: Rule)

  /** `reply` lists the options echoed in the OACK, in order; none means no OACK. */
  datatype Negotiated =
    Negotiated(blksize: int, windowsize: int, timeout: int, tsize: Option<nat>, reply: seq<Pair>)

  function Max(a: int, b: int): int {
    if a >= b then a else b
  }

  function Pick(r: Rule, client: Option<int>): int {
    var chosen := match r.policy
      case Server => r.default
      case LowLimit => r.lo
      case HighLimit => r.hi
      case _ => if client.Some? then client.value else r.default;
    Max(r.lo, Min(r.hi, chosen))
  }

  /** Block and window size fall back to the classic value when a client under the client policy is
      silent. */
  function PickOrClassic(r: Rule, client: Option<int>, classic: int): int {
    if r.policy == Client && client.None? then classic else Pick(r, client)
  }

  function ClientInt(opts: map<string, string>, name: string): Option<int> {
    if name in opts then PyInt(opts[name]) else None
  }

  function Echo(key: string, client: Option<int>, value: int): seq<Pair> {
    if client.Some? then [Pair(key, Str(value))] else []
  }

  function EchoSize(opts: map<string, string>, fileSize: Option<nat>, isRead: bool): seq<Pair> {
    if TSIZE !in opts then []
    else if isRead then (if fileSize.Some? then [Pair(TSIZE, Str(fileSize.value))] else [])
    else
      var v := PyInt(opts[TSIZE]);
      if v.Some? then [Pair(TSIZE, Str(v.value))] else []
  }

  function Negotiate(opts: map<string, string>, c: Config, fileSize: Option<nat>, isRead: bool): Negotiated {
    if c.off then Negotiated(CLASSIC_BLKSIZE, CLASSIC_WINDOWSIZE, c.tmo.default, fileSize, [])
    else
      var blk, win, tmo := ClientInt(opts, BLKSIZE), ClientInt(opts, WINDOWSIZE), ClientInt(opts, TIMEOUT);
      var blksize := PickOrClassic(c.blk, blk, CLASSIC_BLKSIZE);
      var windowsize := PickOrClassic(c.win, win, CLASSIC_WINDOWSIZE);
      var timeout := Pick(c.tmo, tmo);
      Negotiated(blksize, windowsize, timeout, fileSize,
                 Echo(BLKSIZE, blk, blksize) + Echo(WINDOWSIZE, win, windowsize) + Echo(TIMEOUT, tmo, timeout)
                 + EchoSize(opts, fileSize, isRead))
  }

  /** The source's step by step construction of the reply. */
  method NegotiateOptions(opts: map<string, string>, c: Config, fileSize: Option<nat>, isRead: bool)
    returns (n: Negotiated)
    ensures n == Negotiate(opts, c, fileSize, isRead)
  {
    hide PyInt, Str;
    if c.off {
      return Negotiated(CLASSIC_BLKSIZE, CLASSIC_WINDOWSIZE, c.tmo.default, fileSize, []);
    }
    var reply: seq<Pair> := [];
    var blk, blksize := ClientInt(opts, BLKSIZE), CLASSIC_BLKSIZE;
    if c.blk.policy != Client || blk.Some? {
      blksize := Pick(c.blk, blk);
      if blk.Some? {
        reply := reply + [Pair(BLKSIZE, Str(blksize))];
      }
    }
    assert reply == Echo(BLKSIZE, blk, blksize);
    var win, windowsize := ClientInt(opts, WINDOWSIZE), CLASSIC_WINDOWSIZE;
    if c.win.policy != Client || win.Some? {
      windowsize := Pick(c.win, win);
      if win.Some? {
        reply := reply + [Pair(WINDOWSIZE, Str(windowsize))];
      }
    }
    assert reply == Echo(BLKSIZE, blk, blksize) + Echo(WINDOWSIZE, win, windowsize);
    var tmo := ClientInt(opts, TIMEOUT);
    var timeout := Pick(c.tmo, tmo);
    if tmo.Some? {
      reply := reply + [Pair(TIMEOUT, Str(timeout))];
    }
    assert reply == Echo(BLKSIZE, blk, blksize) + Echo(WINDOWSIZE, win, windowsize) + Echo(TIMEOUT, tmo, timeout);
    if TSIZE in opts {
      if isRead && fileSize.Some? {
        reply := reply + [Pair(TSIZE, Str(fileSize.value))];
      } else if !isRead {
        var v := PyInt(opts[TSIZE]);
        if v.Some? {
          reply := reply + [Pair(TSIZE, Str(v.value))];
        }
      }
    }
    n := Negotiated(blksize, windowsize, timeout, fileSize, reply);
  }

  method PackOackPacket(reply: seq<Pair>) returns (out: string)
    ensures out == PackOack(reply)
  {
    out := OACK_HEADER;
    assert reply[0..] == reply;
    for i := 0 to |reply|
      invariant PackOack(reply) == out + JoinZ(Flatten(reply[i..]))
    {
      var p := reply[i];
      var text := p.key + [NUL] + (p.value + [NUL]);
      JoinStep(reply, i);
      assert out + (text + JoinZ(Flatten(reply[i + 1..]))) == out + text + JoinZ(Flatten(reply[i + 1..]));
      out := out + text;
    }
    assert reply[|reply|..] == [];
  }

  /** The text of the pairs from i on is that of pair i followed by the rest. */
  lemma JoinStep(pairs: seq<Pair>, i: nat)
    requires i < |pairs|
    ensures var p := pairs[i];
            JoinZ(Flatten(pairs[i..])) == p.key + [NUL] + (p.value + [NUL]) + JoinZ(Flatten(pairs[i + 1..]))
  {
    assert pairs[i..][1..] == pairs[i + 1..];
    JoinPair(pairs[i], Flatten(pairs[i + 1..]));
  }

  lemma JoinPair(p: Pair, rest: seq<string>)
    ensures JoinZ([p.key, p.value] + rest) == p.key + [NUL] + (p.value + [NUL]) + JoinZ(rest)
  {
    var parts := [p.key, p.value] + rest;
    assert parts[1..] == [p.value] + rest && parts[1..][1..] == rest;
    assert p.key + [NUL] + (p.value + [NUL] + JoinZ(rest)) == p.key + [NUL] + (p.value + [NUL]) + JoinZ(rest);
  }

  // ---- The client's side -------------------------------------------------

  /** What a client takes an option to be: the OACK's value, or its fallback when absent. */
  function ClientValue(oack: map<string, string>, key: string, fallback: int): int {
    if key in oack && PyInt(oack[key]).Some? then PyInt(oack[key]).value else fallback
  }

  lemma DigitsHaveNoNul(n: int)
    ensures NoNul(Str(n))
  {
    hide Dec;
  }

  predicate IsKey(k: string) {
    k == BLKSIZE || k == WINDOWSIZE || k == TIMEOUT || k == TSIZE
  }

  lemma KeyIsClean(k: string)
    requires IsKey(k)
    ensures k != [] && Lower(k) == k && NoNul(k)
  {
    hide Lower;
    LowerIsSame(k);
  }

  lemma {:induction false} LowerIsSame(s: string)
    requires forall i | 0 <= i < |s| :: LowerChar(s[i]) == s[i]
    ensures Lower(s) == s
  {
    if s != [] {
      LowerIsSame(s[1..]);
    }
  }

  lemma ReplyIsClean(opts: map<string, string>, c: Config, fileSize: Option<nat>, isRead: bool)
    ensures AllClean(Negotiate(opts, c, fileSize, isRead).reply)
  {
    hide Str, PyInt, Lower, NoNul, Pick;
    KeyIsClean(BLKSIZE);
    KeyIsClean(WINDOWSIZE);
    KeyIsClean(TIMEOUT);
    KeyIsClean(TSIZE);
    forall n: int ensures NoNul(Str(n)) {
      DigitsHaveNoNul(n);
    }
  }

  /** Every option in the OACK is one the client asked for. */
  lemma OnlyRequestedKeys(opts: map<string, string>, c: Config, fileSize: Option<nat>, isRead: bool, i: nat)
    requires i < |Negotiate(opts, c, fileSize, isRead).reply|
    ensures Negotiate(opts, c, fileSize, isRead).reply[i].key in opts
  {
    hide Str, PyInt, Pick;
  }

  /** What the client reads for one option out of the whole reply. */
  lemma EchoRead(opts: map<string, string>, c: Config, fileSize: Option<nat>, isRead: bool)
    requires !c.off
    ensures var n := Negotiate(opts, c, fileSize, isRead);
            var oack := ReadOack(PackOack(n.reply));
            && (ClientInt(opts, BLKSIZE).None? ==> BLKSIZE !in oack)
            && (ClientInt(opts, BLKSIZE).Some? ==> BLKSIZE in oack && oack[BLKSIZE] == Str(n.blksize))
            && (ClientInt(opts, WINDOWSIZE).None? ==> WINDOWSIZE !in oack)
            && (ClientInt(opts, WINDOWSIZE).Some? ==> WINDOWSIZE in oack && oack[WINDOWSIZE] == Str(n.windowsize))
  {
    hide Str, PyInt, Pick, ReadOack, PackOack, AllClean;
    var n := Negotiate(opts, c, fileSize, isRead);
    ReplyIsClean(opts, c, fileSize, isRead);
    OackRoundTrip(n.reply);
    var blk, win, tmo := ClientInt(opts, BLKSIZE), ClientInt(opts, WINDOWSIZE), ClientInt(opts, TIMEOUT);
    var a, b := Echo(BLKSIZE, blk, n.blksize), Echo(WINDOWSIZE, win, n.windowsize);
    var d, e := Echo(TIMEOUT, tmo, n.timeout), EchoSize(opts, fileSize, isRead);
    UpdatedAppend(a + b + d, e, map[]);
    UpdatedAppend(a + b, d, map[]);
    UpdatedAppend(a, b, map[]);
  }

  /** The two ends agree on the block size exactly when the policy is to follow the client, or the
      client asked for one, or the configured rule yields the classic 512 for a silent client; and
      likewise for the window size and 1. */
  lemma AgreementIff(opts: map<string, string>, c: Config, fileSize: Option<nat>, isRead: bool)
    ensures var n := Negotiate(opts, c, fileSize, isRead);
            var oack := ReadOack(PackOack(n.reply));
            && (ClientValue(oack, BLKSIZE, CLASSIC_BLKSIZE) == n.blksize <==>
                  c.off || c.blk.policy == Client || ClientInt(opts, BLKSIZE).Some?
                  || Pick(c.blk, None) == CLASSIC_BLKSIZE)
            && (ClientValue(oack, WINDOWSIZE, CLASSIC_WINDOWSIZE) == n.windowsize <==>
                  c.off || c.win.policy == Client || ClientInt(opts, WINDOWSIZE).Some?
                  || Pick(c.win, None) == CLASSIC_WINDOWSIZE)
  {
    hide Str, PyInt, ReadOack, PackOack;
    var n := Negotiate(opts, c, fileSize, isRead);
    if c.off {
      EmptyOack();
    } else {
      EchoRead(opts, c, fileSize, isRead);
      PyIntOfStr(n.blksize);
      PyIntOfStr(n.windowsize);
    }
  }

  lemma EmptyOack()
    ensures ReadOack(PackOack([])) == map[]
  {
    assert PackOack([])[2..] == [];
  }

  /** Under the client policy with sensible limits the ends always agree, the values stay within the
      limits, and a value the client asked for is never raised unless it was below the lower limit. */
  lemma ClientPolicyAgrees(opts: map<string, string>, c: Config, fileSize: Option<nat>, isRead: bool)
    requires c.blk.policy == c.win.policy == Client && c.blk.lo <= c.blk.hi && c.win.lo <= c.win.hi
    ensures var n := Negotiate(opts, c, fileSize, isRead);
            var oack := ReadOack(PackOack(n.reply));
            && ClientValue(oack, BLKSIZE, CLASSIC_BLKSIZE) == n.blksize
            && ClientValue(oack, WINDOWSIZE, CLASSIC_WINDOWSIZE) == n.windowsize
            && (!c.off && ClientInt(opts, BLKSIZE).Some? ==>
                  var asked := ClientInt(opts, BLKSIZE).value;
                  c.blk.lo <= n.blksize <= c.blk.hi && (asked >= c.blk.lo ==> n.blksize <= asked))
            && (!c.off && ClientInt(opts, WINDOWSIZE).Some? ==>
                  var asked := ClientInt(opts, WINDOWSIZE).value;
                  c.win.lo <= n.windowsize <= c.win.hi && (asked >= c.win.lo ==> n.windowsize <= asked))
  {
    hide Str, PyInt, ReadOack, PackOack;
    AgreementIff(opts, c, fileSize, isRead);
  }

  /** A server-side policy leaves a silent client behind: it goes on with 512 while the server sends
      blocks of another size. */
  lemma SilentClientDisagrees(c: Config, fileSize: Option<nat>, isRead: bool)
    requires !c.off && c.blk.policy == Server
    requires c.blk.lo <= c.blk.default <= c.blk.hi && c.blk.default != CLASSIC_BLKSIZE
    ensures var n := Negotiate(map[], c, fileSize, isRead);
            && n.reply == [] && n.blksize == c.blk.default
            && n.blksize != ClientValue(ReadOack(PackOack(n.reply)), BLKSIZE, CLASSIC_BLKSIZE)
  {
    EmptyOack();
  }
}
