/** TFTP packets as bytes on the wire (tftp/protocol.py). */
module Protocol {
  import opened Blocks
  import opened Wrappers

  const OP_DATA := 3
  const OP_ACK := 4
  const OP_ERROR := 5

  /** Number of distinct 16-bit block numbers. */
  const WRAP := 65536

  type word = w: int | 0 <= w < 65536

  /** The 16-bit form of an absolute block number. */
  function Wire(n: int): word {
    n % 65536
  }

  function Hi(w: word): (b: byte) { w / 256 }
  function Lo(w: word): (b: byte) { w % 256 }

  /** Big-endian 16-bit field. */
  function Put16(w: word): (s: seq<byte>)
    ensures |s| == 2
  {
    [Hi(w), Lo(w)]
  }

  function Get16(hi: byte, lo: byte): (w: word)
    ensures Put16(w) == [hi, lo]
  {
    hi * 256 + lo
  }

  function PackData(block: word, payload: seq<byte>): seq<byte> {
    Put16(OP_DATA) + Put16(block) + payload
  }

  function PackAck(block: word): seq<byte> {
    Put16(OP_ACK) + Put16(block)
  }

  /** What a transfer loop makes of an inbound packet. The parsers raise on a packet
      without an opcode and on a DATA, ACK or ERROR packet of fewer than 4 bytes; a loop
      that does not look at an opcode never parses that packet, so the short forms are
      kept apart. A short ERROR raises just as a well-formed one does. */
  datatype Msg =
    | NoOpcode
    | Data(block: word, payload: seq<byte>)
    | ShortData
    | Ack(block: word)
    | ShortAck
    | Error
    | Other(opcode: word)

  function Decode(pkt: seq<byte>): Msg {
    if |pkt| < 2 then NoOpcode
    else
      var op := Get16(pkt[0], pkt[1]);
      if op == OP_DATA then
        if |pkt| < 4 then ShortData else Data(Get16(pkt[2], pkt[3]), pkt[4..])
      else if op == OP_ACK then
        if |pkt| < 4 then ShortAck else Ack(Get16(pkt[2], pkt[3]))
      else if op == OP_ERROR then Error
      else Other(op)
  }

  lemma Get16Put16(w: word)
    ensures Get16(Hi(w), Lo(w)) == w
  {
  }

  /** Unpacking inverts packing. */
  lemma DecodeData(block: word, payload: seq<byte>)
    ensures Decode(PackData(block, payload)) == Data(block, payload)
  {
    var p := PackData(block, payload);
    assert p == [0, 3, Hi(block), Lo(block)] + payload;
    Get16Put16(block);
  }

  lemma DecodeAck(block: word)
    ensures Decode(PackAck(block)) == Ack(block)
  {
    var p := PackAck(block);
    assert p == [0, 4, Hi(block), Lo(block)];
    Get16Put16(block);
  }

  /** A 16-bit number from its two bytes. */
  function Number(hi: byte, lo: byte): int {
    var h: int, l: int := hi, lo;
    h * 256 + l
  }

  lemma Get16Is(hi: byte, lo: byte)
    ensures Get16(hi, lo) == Number(hi, lo)
  {
  }

  lemma OpcodeIs(hi: byte, lo: byte, k: byte)
    ensures Get16(hi, lo) == k <==> hi == 0 && lo == k
  {
  }

  /** The packet kinds by their bytes. */
  lemma DecodeExact(pkt: seq<byte>)
    ensures var m := Decode(pkt);
            && (m.NoOpcode? <==> |pkt| < 2)
            && (m.Data? <==> |pkt| >= 4 && pkt[..2] == [0, 3])
            && (m.ShortData? <==> 2 <= |pkt| < 4 && pkt[..2] == [0, 3])
            && (m.Ack? <==> |pkt| >= 4 && pkt[..2] == [0, 4])
            && (m.ShortAck? <==> 2 <= |pkt| < 4 && pkt[..2] == [0, 4])
            && (m.Error? <==> |pkt| >= 2 && pkt[..2] == [0, 5])
            && (m.Data? || m.Ack? ==> m.block == Number(pkt[2], pkt[3]))
            && (m.Data? ==> m.payload == pkt[4..])
  {
    hide Get16, Number;
    if |pkt| >= 2 {
      OpcodeIs(pkt[0], pkt[1], 3);
      OpcodeIs(pkt[0], pkt[1], 4);
      OpcodeIs(pkt[0], pkt[1], 5);
      assert pkt[..2] == [pkt[0], pkt[1]];
    }
    if |pkt| >= 4 {
      Get16Is(pkt[2], pkt[3]);
    }
  }

  /** A transfer loop waits for one of these. */
  datatype Event = Timeout | Packet(pkt: seq<byte>)

  /** The first absolute block number in lo..hi whose low 16 bits are `wire`: the
      search both Python loops use to undo the 16-bit wrap. */
  function FirstMatch(lo: nat, hi: int, wire: nat): (r: Option<nat>)
    ensures r.Some? ==> lo <= r.value <= hi && Wire(r.value) == wire
    ensures r.Some? ==> forall c: nat | lo <= c < r.value :: Wire(c) != wire
    ensures r.None? ==> forall c: nat | lo <= c <= hi :: Wire(c) != wire
    decreases hi - lo
  {
    if lo > hi then None
    else if Wire(lo) == wire then Some(lo)
    else FirstMatch(lo + 1, hi, wire)
  }

  lemma WireSmall(n: nat)
    ensures Wire(n) <= n
  {
  }

  lemma Congruent(a: nat, b: nat)
    requires Wire(a) == Wire(b) && a != b
    ensures a >= b + WRAP || b >= a + WRAP
  {
  }

  lemma WiresDiffer(a: nat, b: nat)
    requires a < b < a + WRAP
    ensures Wire(a) != Wire(b)
  {
  }

  /** A number less than a full cycle into the searched range is found. */
  lemma {:induction false} OnlyMatch(lo: nat, hi: int, n: nat)
    requires lo <= n <= hi && n < lo + WRAP
    ensures FirstMatch(lo, hi, Wire(n)) == Some(n)
    decreases n - lo
  {
    hide Wire;
    if lo < n {
      WiresDiffer(lo, n);
      OnlyMatch(lo + 1, hi, n);
    }
  }

  /** A block left behind by at most one full cycle is ignored exactly when the window does
      not reach its next alias. */
  lemma StaleIgnoredIff(lo: nat, hi: int, block: nat)
    requires block < lo <= hi + 1 && lo - block <= WRAP
    ensures FirstMatch(lo, hi, Wire(block)) == None <==> hi < block + WRAP
  {
    assert Wire(block + WRAP) == Wire(block);
    var r := FirstMatch(lo, hi, Wire(block));
    if r.Some? {
      Congruent(r.value, block);
    }
  }
}
