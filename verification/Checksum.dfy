/** The Internet checksum of both engines (c_core/util.c, tftp/session.py; section 1 of RFC 1071). */
module Checksum {
  import opened Blocks
  import opened Protocol

  /** Sum of the big-endian 16-bit words; an odd last byte is a word's high byte. */
  function WordSum(s: seq<byte>): nat {
    if |s| == 0 then 0
    else if |s| == 1 then s[0] * 256
    else s[0] * 256 + s[1] + WordSum(s[2..])
  }

  /** Adds the carries back in until the sum has 16 bits. */
  function Fold(x: nat): (r: nat)
    ensures r < 65536
    ensures r == 0 <==> x == 0
    decreases x
  {
    if x < 65536 then x else Fold(x % 65536 + x / 65536)
  }

  function Csum(s: seq<byte>): word {
    65535 - Fold(WordSum(s))
  }

  newtype uint32 = x: int | 0 <= x < 0x1_0000_0000

  /** The sum over a split at an even position. */
  lemma {:induction false} WordSumSplit(a: seq<byte>, b: seq<byte>)
    requires |a| % 2 == 0
    ensures WordSum(a + b) == WordSum(a) + WordSum(b)
  {
    if a == [] {
      assert a + b == b;
    } else {
      assert (a + b)[2..] == a[2..] + b;
      WordSumSplit(a[2..], b);
    }
  }

  /** A buffer of odd length has the sum, and so the checksum, of the buffer with a zero byte behind it. */
  lemma {:induction false} OddIsPadded(s: seq<byte>)
    requires |s| % 2 == 1
    ensures WordSum(s + [0]) == WordSum(s) && Csum(s + [0]) == Csum(s)
  {
    if |s| == 1 {
      assert (s + [0])[2..] == [];
    } else {
      assert (s + [0])[2..] == s[2..] + [0];
      OddIsPadded(s[2..]);
    }
  }

  /** The C loop. Its 32-bit accumulator holds the sum of any buffer of up to 131074 bytes, which is
      as many words as fit. */
  method InetCsum(data: seq<byte>) returns (c: word)
    requires |data| <= 131074
    ensures c == Csum(data)
  {
    var sum: uint32 := 0;
    var p, len := 0, |data|;
    assert data[0..] == data;
    while len > 1
      invariant 0 <= p && 0 <= len && p + len == |data| && p % 2 == 0
      invariant sum as int + WordSum(data[p..]) == WordSum(data)
      invariant sum as int <= p / 2 * 65535
    {
      assert data[p..][2..] == data[p + 2..];
      assert (p + 2) / 2 * 65535 == p / 2 * 65535 + 65535;
      sum := sum + Get16(data[p], data[p + 1]) as uint32;
      p, len := p + 2, len - 2;
    }
    if len == 1 {
      assert data[p..] == [data[p]];
      sum := sum + Get16(data[p], 0) as uint32;
    }
    assert sum as int == WordSum(data);
    while sum / 65536 != 0
      invariant Fold(sum as int) == Fold(WordSum(data))
      decreases sum as int
    {
      sum := sum % 65536 + sum / 65536;
    }
    c := 65535 - sum as int;
  }

  /** The Python loop, over integers of any size: for every buffer the same number. */
  method PyChecksum(header: seq<byte>) returns (c: word)
    ensures c == Csum(header)
  {
    hide Get16, Fold;
    var s: nat, i := 0, 0;
    assert header[0..] == header;
    while i < |header| - 1
      invariant 0 <= i <= |header| && i % 2 == 0 && s >= 0
      invariant s + WordSum(header[i..]) == WordSum(header)
    {
      assert header[i..][2..] == header[i + 2..];
      s := s + Get16(header[i], header[i + 1]);
      i := i + 2;
    }
    if |header| % 2 == 1 {
      assert header[i..] == [header[|header| - 1]];
      s := s + Get16(header[|header| - 1], 0);
    }
    assert s == WordSum(header);
    s := FoldCarries(s);
    c := 65535 - s;
  }

  /** The folding loop of the Python version. */
  method FoldCarries(sum: nat) returns (s: nat)
    ensures s == Fold(sum)
  {
    s := sum;
    while s / 65536 != 0
      invariant Fold(s) == Fold(sum)
      decreases s
    {
      s := s % 65536 + s / 65536;
    }
  }

  // ---- What a checksum is for ------------------------------------------

  /** Folding keeps the residue modulo 65535. */
  lemma {:induction false} FoldResidue(x: nat)
    ensures Fold(x) % 65535 == x % 65535
    decreases x
  {
    if x >= 65536 {
      var q, r := x / 65536, x % 65536;
      FoldResidue(r + q);
      Residue(x, r + q, q);
    }
  }

  lemma Residue(x: nat, y: nat, k: int)
    requires x == 65535 * k + y
    ensures x % 65535 == y % 65535
  {
  }

  /** A buffer verifies (its checksum is 0) exactly when its word sum is a positive multiple of
      65535. */
  lemma VerifiesIff(s: seq<byte>)
    ensures Csum(s) == 0 <==> WordSum(s) > 0 && WordSum(s) % 65535 == 0
  {
    FoldResidue(WordSum(s));
  }

  /** Writing a 16-bit field at an even offset. */
  function Patched(s: seq<byte>, at: nat, w: word): seq<byte>
    requires at + 2 <= |s|
  {
    s[..at] + Put16(w) + s[at + 2..]
  }

  lemma PatchedSum(s: seq<byte>, at: nat, w: word)
    requires at + 2 <= |s| && at % 2 == 0
    ensures WordSum(Patched(s, at, w)) == WordSum(s) - Get16(s[at], s[at + 1]) + w
  {
    hide WordSum, Put16, Get16;
    var v, rest := Get16(s[at], s[at + 1]), s[at + 2..];
    assert Put16(v) == [s[at], s[at + 1]];
    assert s == s[..at] + (Put16(v) + rest);
    WordSumSplit(s[..at], Put16(v) + rest);
    WordSumSplit(s[..at], Put16(w) + rest);
    assert Patched(s, at, w) == s[..at] + (Put16(w) + rest);
    FieldSum(v, rest);
    FieldSum(w, rest);
  }

  lemma FieldSum(w: word, rest: seq<byte>)
    ensures WordSum(Put16(w) + rest) == w + WordSum(rest)
  {
    assert (Put16(w) + rest)[2..] == rest;
  }

  /** Put into a zeroed field at an even offset, the checksum makes the buffer verify, whatever the
      buffer's length and contents. */
  lemma ChecksumSelfVerifies(s: seq<byte>, at: nat)
    requires at + 2 <= |s| && at % 2 == 0 && s[at] == 0 && s[at + 1] == 0
    ensures Csum(Patched(s, at, Csum(s))) == 0
  {
    hide Csum, Patched;
    var sum, c := WordSum(s), Csum(s);
    PatchedSum(s, at, c);
    VerifiesIff(Patched(s, at, c));
    CsumResidue(s);
  }

  lemma CsumResidue(s: seq<byte>)
    ensures (WordSum(s) + Csum(s)) % 65535 == 0 && WordSum(s) + Csum(s) > 0
  {
    hide WordSum;
    var sum := WordSum(s);
    FoldResidue(sum);
    ComplementResidue(sum, Fold(sum));
  }

  lemma ComplementResidue(x: nat, f: nat)
    requires x % 65535 == f % 65535 && f <= 65535
    ensures (x + (65535 - f)) % 65535 == 0
  {
    Residue(x + (65535 - f), 0, x / 65535 - f / 65535 + 1);
  }

  /** Changing one aligned word of a buffer that verifies goes unnoticed exactly when the new word
      is the old one, or the two are 0 and 65535 and the buffer is not all zeros afterwards. */
  lemma ChangeNoticedIff(s: seq<byte>, at: nat, w: word)
    requires at + 2 <= |s| && at % 2 == 0 && Csum(s) == 0
    ensures var old' := Get16(s[at], s[at + 1]);
            Csum(Patched(s, at, w)) == 0 <==>
            WordSum(Patched(s, at, w)) > 0 && (w == old' || (w == 0 && old' == 65535) || (w == 65535 && old' == 0))
  {
    hide Csum, Patched, WordSum;
    VerifiesIff(s);
    VerifiesIff(Patched(s, at, w));
    PatchedSum(s, at, w);
    var v := Get16(s[at], s[at + 1]);
    assert WordSum(s) >= v by { PatchedSum(s, at, 0); }
    SameResidue(WordSum(s), v, w);
  }

  lemma SameResidue(sum: nat, v: word, w: word)
    requires sum % 65535 == 0 && sum >= v
    ensures (sum - v + w) % 65535 == 0 <==> w == v || (w == 0 && v == 65535) || (w == 65535 && v == 0)
  {
  }
}
