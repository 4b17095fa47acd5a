/** Cutting the command stream into lines over a fixed buffer (`ipc_poll` in c_core/ipc.c). */
module LineFramer {
  import opened Blocks

  const NEWLINE: byte := 10
  const RETURN: byte := 13

  /** Complete lines without their newlines, and what follows the last newline. */
  datatype Split = Split(lines: seq<seq<byte>>, tail: seq<byte>)

  function Push(p: Split, b: byte): Split {
    if b == NEWLINE then Split(p.lines + [p.tail], []) else Split(p.lines, p.tail + [b])
  }

  function SplitAll(s: seq<byte>): Split {
    if s == [] then Split([], []) else Push(SplitAll(s[..|s| - 1]), s[|s| - 1])
  }

  /** The text a split came from. */
  function Glue(lines: seq<seq<byte>>, tail: seq<byte>): seq<byte> {
    if lines == [] then tail else lines[0] + [10] + Glue(lines[1..], tail)
  }

  /** A line with its trailing carriage returns removed, as handed to the callback. */
  function Strip(line: seq<byte>): seq<byte> {
    if line != [] && line[|line| - 1] == RETURN then Strip(line[..|line| - 1]) else line
  }

  function Delivered(lines: seq<seq<byte>>): seq<seq<byte>> {
    if lines == [] then [] else Delivered(lines[..|lines| - 1]) + [Strip(lines[|lines| - 1])]
  }

  /** No line, newline included, is longer than the buffer. */
  predicate Fits(s: seq<byte>, cap: nat) {
    |SplitAll(s).tail| <= cap && Short(SplitAll(s).lines, cap)
  }

  predicate Short(lines: seq<seq<byte>>, cap: nat) {
    forall i | 0 <= i < |lines| :: |lines[i]| < cap
  }

  lemma ShortParts(a: seq<seq<byte>>, b: seq<seq<byte>>, cap: nat)
    ensures Short(a + b, cap) <==> Short(a, cap) && Short(b, cap)
  {
    assert forall i | 0 <= i < |a| :: (a + b)[i] == a[i];
    assert forall i | 0 <= i < |b| :: (a + b)[|a| + i] == b[i];
  }

  /** What is handed over is the line without the carriage returns (13) it ends in, and nothing else is taken off. */
  lemma {:induction false} StripIs(line: seq<byte>)
    ensures var s := Strip(line);
            && |s| <= |line| && s == line[..|s|] && (s == [] || s[|s| - 1] != 13)
            && forall i | |s| <= i < |line| :: line[i] == 13
  {
    if line != [] && line[|line| - 1] == RETURN {
      StripIs(line[..|line| - 1]);
    }
  }

  /** Every line is handed over, in order. */
  lemma {:induction false} DeliveredIs(lines: seq<seq<byte>>)
    ensures |Delivered(lines)| == |lines|
    ensures forall i | 0 <= i < |lines| :: Delivered(lines)[i] == Strip(lines[i])
  {
    hide Strip;
    if lines != [] {
      DeliveredIs(lines[..|lines| - 1]);
    }
  }

  // ---- Splitting -------------------------------------------------------

  lemma {:induction false} GlueAppend(lines: seq<seq<byte>>, line: seq<byte>, tail: seq<byte>)
    ensures Glue(lines + [line], tail) == Glue(lines, line + [NEWLINE] + tail)
  {
    if lines == [] {
      assert lines + [line] == [line] && [line][1..] == [];
    } else {
      assert (lines + [line])[1..] == lines[1..] + [line];
      GlueAppend(lines[1..], line, tail);
    }
  }

  lemma {:induction false} GlueTail(lines: seq<seq<byte>>, tail: seq<byte>, more: seq<byte>)
    ensures Glue(lines, tail) + more == Glue(lines, tail + more)
  {
    if lines != [] {
      GlueTail(lines[1..], tail, more);
      var rest := Glue(lines[1..], tail);
      assert lines[0] + [NEWLINE] + rest + more == lines[0] + [NEWLINE] + (rest + more);
    }
  }

  predicate NoNewline(s: seq<byte>) {
    10 !in s
  }

  /** Splitting loses nothing and leaves no newline in a line or in the tail. */
  lemma {:induction false} SplitIsFaithful(s: seq<byte>)
    ensures var p := SplitAll(s);
            && Glue(p.lines, p.tail) == s
            && NoNewline(p.tail)
            && forall i | 0 <= i < |p.lines| :: NoNewline(p.lines[i])
  {
    if s != [] {
      var n := |s| - 1;
      SplitIsFaithful(s[..n]);
      var p := SplitAll(s[..n]);
      assert s == s[..n] + [s[n]];
      GlueTail(p.lines, p.tail, [s[n]]);
      if s[n] == NEWLINE {
        GlueAppend(p.lines, p.tail, []);
        assert p.tail + [NEWLINE] + [] == p.tail + [s[n]];
      }
    }
  }

  lemma {:induction false} SplitPlain(p: seq<byte>, s: seq<byte>)
    requires NoNewline(s)
    ensures SplitAll(p + s) == Split(SplitAll(p).lines, SplitAll(p).tail + s)
  {
    if s == [] {
      assert p + s == p && SplitAll(p).tail + s == SplitAll(p).tail;
    } else {
      var n := |s| - 1;
      assert (p + s)[..|p| + n] == p + s[..n] && (p + s)[|p| + n] == s[n];
      assert s[n] in s;
      SplitPlain(p, s[..n]);
      assert SplitAll(p).tail + s[..n] + [s[n]] == SplitAll(p).tail + s;
    }
  }

  /** What follows can be split on top of the tail of what came before. */
  lemma {:induction false} SplitConcat(a: seq<byte>, b: seq<byte>)
    ensures var p, q := SplitAll(a), SplitAll(SplitAll(a).tail + b);
            SplitAll(a + b) == Split(p.lines + q.lines, q.tail)
  {
    var p := SplitAll(a);
    if b == [] {
      assert a + b == a && p.tail + b == p.tail;
      SplitIsFaithful(a);
      SplitPlain([], p.tail);
      assert [] + p.tail == p.tail && p.lines + [] == p.lines;
    } else {
      var n := |b| - 1;
      SplitConcat(a, b[..n]);
      assert (a + b)[..|a| + n] == a + b[..n] && (a + b)[|a| + n] == b[n];
      assert (p.tail + b)[..|p.tail| + n] == p.tail + b[..n] && (p.tail + b)[|p.tail| + n] == b[n];
      var q := SplitAll(p.tail + b[..n]);
      assert p.lines + (q.lines + [q.tail]) == p.lines + q.lines + [q.tail];
    }
  }

  lemma {:induction false} DeliveredAppend(a: seq<seq<byte>>, b: seq<seq<byte>>)
    ensures Delivered(a + b) == Delivered(a) + Delivered(b)
  {
    if b == [] {
      assert a + b == a && Delivered(a) + [] == Delivered(a);
    } else {
      var n := |b| - 1;
      assert (a + b)[..|a| + n] == a + b[..n] && (a + b)[|a| + n] == b[n];
      DeliveredAppend(a, b[..n]);
      assert Delivered(a) + (Delivered(b[..n]) + [Strip(b[n])]) == Delivered(a) + Delivered(b[..n]) + [Strip(b[n])];
    }
  }

  /** A full buffer of one unfinished line with more to come means a line does not fit. */
  lemma OverlongLine(a: seq<byte>, b: seq<byte>, cap: nat)
    requires |SplitAll(a).tail| >= cap && b != []
    ensures !Fits(a + b, cap)
  {
    var p := SplitAll(a);
    SplitConcat(a, b);
    SplitIsFaithful(a);
    TailStays(p.tail, b);
    var q := SplitAll(p.tail + b);
    if q.lines != [] {
      var all := SplitAll(a + b).lines;
      assert all[|p.lines|] == q.lines[0];
    }
  }

  /** An unfinished line stays the beginning of the first line, or of the tail. */
  lemma {:induction false} TailStays(t: seq<byte>, b: seq<byte>)
    requires NoNewline(t)
    ensures var q := SplitAll(t + b);
            if q.lines == [] then q.tail == t + b else |q.lines[0]| >= |t|
  {
    if b == [] {
      SplitPlain([], t);
      assert [] + t == t && t + b == t;
    } else {
      var n := |b| - 1;
      TailStays(t, b[..n]);
      assert (t + b)[..|t| + n] == t + b[..n] && (t + b)[|t| + n] == b[n];
      assert t + b[..n] + [b[n]] == t + b;
    }
  }

  /** What fits, fits at every point before. */
  lemma FitsBefore(a: seq<byte>, b: seq<byte>, cap: nat)
    requires Fits(a + b, cap)
    ensures Fits(a, cap)
  {
    hide SplitAll, Short;
    if b == [] {
      assert a + b == a;
    } else {
      SplitConcat(a, b);
      ShortParts(SplitAll(a).lines, SplitAll(SplitAll(a).tail + b).lines, cap);
      if |SplitAll(a).tail| > cap {
        OverlongLine(a, b, cap);
      }
    }
  }

  /** Splitting is the only way to cut a text into newline-free lines. */
  lemma {:induction false} SplitIsUnique(lines: seq<seq<byte>>, tail: seq<byte>)
    requires NoNewline(tail) && forall i | 0 <= i < |lines| :: NoNewline(lines[i])
    ensures SplitAll(Glue(lines, tail)) == Split(lines, tail)
    decreases |lines|
  {
    if lines == [] {
      SplitPlain([], tail);
      assert [] + tail == tail;
    } else {
      var n := |lines| - 1;
      var before := Glue(lines[..n], lines[n]);
      SplitIsUnique(lines[..n], lines[n]);
      GlueLast(lines, tail);
      SplitStep(before, NEWLINE);
      assert SplitAll(before + [NEWLINE]) == Split(lines, []);
      hide SplitAll;
      SplitPlain(before + [NEWLINE], tail);
      assert [] + tail == tail;
    }
  }

  lemma SplitStep(s: seq<byte>, b: byte)
    ensures SplitAll(s + [b]) == Push(SplitAll(s), b)
  {
    assert (s + [b])[..|s|] == s;
  }

  lemma GlueLast(lines: seq<seq<byte>>, tail: seq<byte>)
    requires lines != []
    ensures var n := |lines| - 1; Glue(lines, tail) == Glue(lines[..n], lines[n]) + [NEWLINE] + tail
  {
    hide Glue;
    var n := |lines| - 1;
    assert lines == lines[..n] + [lines[n]];
    GlueAppend(lines[..n], lines[n], tail);
    GlueTail(lines[..n], lines[n], [NEWLINE] + tail);
    assert lines[n] + [NEWLINE] + tail == lines[n] + ([NEWLINE] + tail);
  }

  lemma NothingScanned(s: seq<byte>)
    ensures SplitAll(s[..0]) == Split([], []) && Delivered([]) == []
  {
  }

  /** One more byte of the scan. */
  lemma ScanOne(s: seq<byte>, i: nat, start: nat)
    requires start <= i < |s| && SplitAll(s[..i]).tail == s[start..i]
    ensures var p, q := SplitAll(s[..i]), SplitAll(s[..i + 1]);
            if s[i] == NEWLINE
            then q.tail == s[i + 1..i + 1] && Delivered(q.lines) == Delivered(p.lines) + [Strip(s[start..i])]
            else q.tail == s[start..i + 1] && q.lines == p.lines
  {
    SplitStep(s[..i], s[i]);
    assert s[..i] + [s[i]] == s[..i + 1];
    var p := SplitAll(s[..i]);
    assert (p.lines + [p.tail])[..|p.lines|] == p.lines;
  }

  lemma {:induction false} GlueLength(lines: seq<seq<byte>>, tail: seq<byte>)
    ensures |tail| <= |Glue(lines, tail)|
    ensures forall i | 0 <= i < |lines| :: |lines[i]| < |Glue(lines, tail)|
  {
    if lines != [] {
      GlueLength(lines[1..], tail);
    }
  }

  lemma ShortFits(s: seq<byte>, cap: nat)
    requires |s| <= cap
    ensures Fits(s, cap)
  {
    SplitIsFaithful(s);
    GlueLength(SplitAll(s).lines, SplitAll(s).tail);
  }

  /** Nothing read yet: the pending line is its own tail. */
  lemma PollStarts(before: seq<byte>, cap: nat, lines: seq<seq<byte>>)
    requires NoNewline(before) && |before| <= cap
    ensures Fits(before, cap) && SplitAll(before).tail == before && lines + Delivered(SplitAll(before).lines) == lines
  {
    ShortFits(before, cap);
    SplitPlain([], before);
    assert [] + before == before && SplitAll([]) == Split([], []) && Delivered([]) == [];
    hide SplitAll, Delivered, NoNewline, Fits;
    assert [] + before == before && lines + [] == lines;
  }

  /** A read that fits behind the pending bytes carries the split on. */
  lemma ReadOn(read: seq<byte>, chunk: seq<byte>, cap: nat, lines: seq<seq<byte>>)
    requires Fits(read, cap) && |SplitAll(read).tail| + |chunk| <= cap
    ensures Fits(read + chunk, cap)
    ensures var p, q := SplitAll(read), SplitAll(SplitAll(read).tail + chunk);
            && SplitAll(read + chunk).tail == q.tail
            && lines + Delivered(p.lines) + Delivered(q.lines) == lines + Delivered(SplitAll(read + chunk).lines)
  {
    hide SplitAll, Delivered, Short;
    var p, q := SplitAll(read), SplitAll(SplitAll(read).tail + chunk);
    SplitConcat(read, chunk);
    ShortFits(p.tail + chunk, cap);
    ShortParts(p.lines, q.lines, cap);
    DeliveredAppend(p.lines, q.lines);
  }

  /** What polls that lose nothing make of a stream that arrives in these pieces. */
  function Feed(p: Split, chunks: seq<seq<byte>>): Split
    decreases |chunks|
  {
    if chunks == [] then p
    else
      var q := SplitAll(p.tail + chunks[0]);
      Feed(Split(p.lines + q.lines, q.tail), chunks[1..])
  }

  /** No poll of the stream loses anything. */
  predicate AllFit(p: Split, chunks: seq<seq<byte>>, cap: nat)
    decreases |chunks|
  {
    chunks == [] ||
    var q := SplitAll(p.tail + chunks[0]);
    Fits(p.tail + chunks[0], cap) && AllFit(Split(p.lines + q.lines, q.tail), chunks[1..], cap)
  }

  function Concat(chunks: seq<seq<byte>>): seq<byte> {
    if chunks == [] then [] else chunks[0] + Concat(chunks[1..])
  }

  lemma TailFits(a: seq<byte>, b: seq<byte>, cap: nat)
    requires Fits(a + b, cap)
    ensures Fits(SplitAll(a).tail + b, cap)
  {
    hide SplitAll, Short;
    SplitConcat(a, b);
    ShortParts(SplitAll(a).lines, SplitAll(SplitAll(a).tail + b).lines, cap);
  }

  /** However a stream is cut into reads, the lines and the rest are those of the whole stream, and
      if no line of the stream outgrows the buffer no read loses anything. */
  lemma {:induction false} ChunkingIsIrrelevant(read: seq<byte>, chunks: seq<seq<byte>>, cap: nat)
    ensures Feed(SplitAll(read), chunks) == SplitAll(read + Concat(chunks))
    ensures Fits(read + Concat(chunks), cap) ==> AllFit(SplitAll(read), chunks, cap)
    decreases |chunks|
  {
    hide SplitAll, Fits;
    if chunks == [] {
      assert read + [] == read;
    } else {
      SplitConcat(read, chunks[0]);
      ChunkingIsIrrelevant(read + chunks[0], chunks[1..], cap);
      assert read + Concat(chunks) == read + chunks[0] + Concat(chunks[1..]);
      if Fits(read + Concat(chunks), cap) {
        FitsBefore(read + chunks[0], Concat(chunks[1..]), cap);
        TailFits(read, chunks[0], cap);
      }
    }
  }

  // ---- The framer --------------------------------------------------------

  class Framer {
    const buf: array<byte>
    /** Bytes in use. */
    var bi: nat
    /** Every line handed to the callback so far. */
    var lines: seq<seq<byte>>
    /** Bytes thrown away because a line filled the whole buffer. */
    ghost var dropped: nat

    ghost predicate Sized()
      reads this, buf
    {
      bi <= buf.Length && buf.Length > 0 && buf.Length % 2 == 0
    }

    ghost function Pending(): seq<byte>
      requires Sized()
      reads this, buf
    {
      buf[..bi]
    }

    /** Between polls only an unfinished line is pending. */
    ghost predicate Valid()
      reads this, buf
    {
      Sized() && NoNewline(Pending())
    }

    constructor (capacity: nat)
      requires capacity > 0 && capacity % 2 == 0
      ensures Valid() && fresh(buf) && buf.Length == capacity && Pending() == [] && lines == [] && dropped == 0
    {
      buf := new byte[capacity](_ => 0);
      bi, lines, dropped := 0, [], 0;
    }

    /** The inner loop that backs up over carriage returns. */
    method StripEnd(start: nat, end: nat) returns (e: nat)
      requires start <= end <= buf.Length
      ensures start <= e <= end && buf[start..e] == Strip(buf[start..end])
    {
      e := end;
      while e > start && buf[e - 1] == RETURN
        invariant start <= e <= end && Strip(buf[start..e]) == Strip(buf[start..end])
      {
        assert buf[start..e][..e - 1 - start] == buf[start..e - 1];
        e := e - 1;
      }
    }

    /** Moves the bytes from `from` on to the front. */
    method MoveDown(from: nat)
      requires Sized() && from <= bi
      modifies this`bi, buf
      ensures Sized() && bi == old(bi) - from && Pending() == old(buf[from..bi])
    {
      var kept := bi - from;
      forall i | 0 <= i < kept {
        buf[i] := buf[i + from];
      }
      bi := kept;
    }

    /** Hands out every complete line in the buffer and keeps the rest. */
    method DeliverLines()
      requires Sized()
      modifies this`bi, this`lines, buf
      ensures Sized()
      ensures lines == old(lines) + Delivered(SplitAll(old(Pending())).lines)
      ensures Pending() == SplitAll(old(Pending())).tail
    {
      hide SplitAll, Delivered, Strip;
      ghost var s := Pending();
      var start := 0;
      NothingScanned(s);
      assert s[0..0] == [] && lines + [] == lines;
      for i := 0 to bi
        invariant start <= i && bi == old(bi) && buf[..bi] == s
        invariant SplitAll(s[..i]).tail == s[start..i]
        invariant lines == old(lines) + Delivered(SplitAll(s[..i]).lines)
      {
        assert buf[i] == s[i] && buf[start..i] == s[start..i];
        ScanOne(s, i, start);
        if buf[i] == NEWLINE {
          var end := StripEnd(start, i);
          lines := lines + [buf[start..end]];
          start := i + 1;
        }
      }
      assert s[..bi] == s && buf[start..bi] == s[start..];
      MoveDown(start);
    }

    /** A read of `chunk` bytes behind the pending ones. */
    method Accept(chunk: seq<byte>)
      requires Sized() && bi + |chunk| <= buf.Length
      modifies this`bi, this`lines, buf
      ensures Valid()
      ensures lines == old(lines) + Delivered(SplitAll(old(Pending()) + chunk).lines)
      ensures Pending() == SplitAll(old(Pending()) + chunk).tail
    {
      forall i | 0 <= i < |chunk| {
        buf[bi + i] := chunk[i];
      }
      bi := bi + |chunk|;
      assert Pending() == old(Pending()) + chunk;
      SplitIsFaithful(Pending());
      DeliverLines();
    }

    /** The buffer is full without a newline: the older half goes. */
    method MakeRoom()
      requires Valid() && bi == buf.Length
      modifies this, buf
      ensures Valid() && bi == buf.Length / 2 && Pending() == old(buf[buf.Length / 2..])
      ensures lines == old(lines) && dropped > old(dropped)
    {
      dropped := dropped + buf.Length / 2;
      MoveDown(buf.Length / 2);
    }

    /** The callback has had exactly the lines of what was read, and the buffer holds the rest. */
    ghost predicate Exact(read: seq<byte>, linesBefore: seq<seq<byte>>)
      requires Sized()
      reads this, buf
    {
      var p := SplitAll(read);
      lines == linesBefore + Delivered(p.lines) && Pending() == p.tail
    }

    /** One poll: reads until the available input is used up, each read returning as many bytes as
        it likes, or until a read fails. Nothing is lost exactly when no line outgrows the buffer. */
    method Poll(input: seq<byte>) returns (ok: bool, consumed: nat)
      requires Valid()
      modifies this, buf
      ensures Valid() && consumed <= |input| && (ok ==> consumed == |input|)
      ensures dropped >= old(dropped)
      ensures dropped == old(dropped) ==> Exact(old(Pending()) + input[..consumed], old(lines))
      ensures ok ==> (dropped == old(dropped) <==> Fits(old(Pending()) + input, buf.Length))
    {
      hide SplitAll, Delivered, Fits, NoNewline;
      ghost var before := Pending();
      consumed := 0;
      PollStarts(before, buf.Length, lines);
      assert before + input[..0] == before && before + input[..|input|] == before + input;
      while consumed < |input|
        invariant Valid() && consumed <= |input| && dropped >= old(dropped)
        invariant dropped == old(dropped) ==>
                    Exact(before + input[..consumed], old(lines)) && Fits(before + input[..consumed], buf.Length)
        invariant dropped > old(dropped) ==> !Fits(before + input, buf.Length)
        decreases |input| - consumed, bi
      {
        ghost var read := before + input[..consumed];
        var want := Min(|input| - consumed, buf.Length - bi);
        if want == 0 {
          if dropped == old(dropped) {
            OverlongLine(read, input[consumed..], buf.Length);
            assert read + input[consumed..] == before + input;
          }
          MakeRoom();
          continue;
        }
        var fails: bool := *;
        if fails {
          return false, consumed;
        }
        var got: nat :| 1 <= got <= want;
        var chunk := input[consumed..consumed + got];
        if dropped == old(dropped) {
          ReadOn(read, chunk, buf.Length, old(lines));
        }
        Accept(chunk);
        consumed := consumed + got;
        assert read + chunk == before + input[..consumed];
      }
      ok := true;
    }
  }
}
