/** The ICMP echo packet and its Internet checksum (section 1 of RFC 1071). */
module Checksum {

  type byte = x: int | 0 <= x < 256
  type uint16 = x: int | 0 <= x < 0x1_0000
  type uint32 = x: int | 0 <= x < 0x1_0000_0000

  /** The big-endian 16-bit words of a packet of even length, added up. */
  function WordSum(pkt: seq<byte>): nat {
    if |pkt| < 2 then 0 else WordSum(pkt[..|pkt| - 2]) + 256 * (pkt[|pkt| - 2] as int) + (pkt[|pkt| - 1] as int)
  }

  /** Carries folded back in until the sum fits 16 bits. */
  function Folded(sum: nat): nat
    decreases sum
  {
    if sum / 0x1_0000 == 0 then sum else Folded(sum % 0x1_0000 + sum / 0x1_0000)
  }

  /** Folding is the ones' complement sum: it stays below 2^16, keeps the value
      modulo 65535, and only zero folds to zero. */
  lemma {:induction false} FoldedExact(sum: nat)
    ensures Folded(sum) < 0x1_0000
    ensures Folded(sum) % 0xFFFF == sum % 0xFFFF
    ensures Folded(sum) == 0 <==> sum == 0
    decreases sum
  {
    if sum / 0x1_0000 != 0 {
      FoldedExact(sum % 0x1_0000 + sum / 0x1_0000);
      assert sum == (sum % 0x1_0000 + sum / 0x1_0000) + 0xFFFF * (sum / 0x1_0000);
      SameRemainder(sum % 0x1_0000 + sum / 0x1_0000, sum / 0x1_0000, sum);
    }
  }

  lemma SameRemainder(a: nat, k: nat, b: nat)
    requires b == a + 0xFFFF * k
    ensures a % 0xFFFF == b % 0xFFFF
  {
  }

  method Fold(sum: uint32) returns (r: uint16)
    ensures r == Folded(sum)
  {
    var s: uint32 := sum;
    while s / 0x1_0000 > 0
      invariant Folded(s) == Folded(sum)
      decreases s
    {
      s := s % 0x1_0000 + s / 0x1_0000;
    }
    FoldedExact(sum);
    return s;
  }

  const PAYLOAD: seq<byte> := [0x6E, 0x65, 0x74, 0x2D, 0x6C, 0x61, 0x6D, 0x61] // "net-lama"

  function Word(n: uint16): (r: seq<byte>)
    ensures |r| == 2
  {
    [n / 256, n % 256]
  }

  /** The packet with a given checksum field. */
  function Packet(checksum: uint16, id: uint16, seq_: uint16): (r: seq<byte>)
    ensures |r| == 16
  {
    [8, 0] + Word(checksum) + Word(id) + Word(seq_) + PAYLOAD
  }

  function EchoPacket(id: uint16, seq_: uint16): seq<byte> {
    FoldedExact(WordSum(Packet(0, id, seq_)));
    Packet(0xFFFF - Folded(WordSum(Packet(0, id, seq_))), id, seq_)
  }

  method PutUint16(buf: array<byte>, at: nat, n: uint16)
    requires at + 2 <= buf.Length
    modifies buf
    ensures buf[at] == n / 256 && buf[at + 1] == n % 256
    ensures forall i | 0 <= i < buf.Length && i != at && i != at + 1 :: buf[i] == old(buf[i])
  {
    buf[at], buf[at + 1] := n / 256, n % 256;
  }

  method CopyPayload(pkt: array<byte>)
    requires pkt.Length == 16
    modifies pkt
    ensures forall i | 0 <= i < 8 :: pkt[i] == old(pkt[i]) && pkt[8 + i] == PAYLOAD[i]
  {
    for k := 0 to 8
      invariant forall i | 0 <= i < 8 :: pkt[i] == old(pkt[i])
      invariant forall i | 0 <= i < k :: pkt[8 + i] == PAYLOAD[i]
    {
      pkt[8 + k] := PAYLOAD[k];
    }
  }

  /** The packet byte by byte. */
  lemma PacketBytes(pkt: seq<byte>, checksum: uint16, id: uint16, seq_: uint16)
    requires |pkt| == 16 && pkt[0] == 8 && pkt[1] == 0 && pkt[2] == checksum / 256 && pkt[3] == checksum % 256
    requires pkt[4] == id / 256 && pkt[5] == id % 256 && pkt[6] == seq_ / 256 && pkt[7] == seq_ % 256
    requires forall i | 0 <= i < 8 :: pkt[8 + i] == PAYLOAD[i]
    ensures pkt == Packet(checksum, id, seq_)
  {
    var whole := Packet(checksum, id, seq_);
    forall i | 0 <= i < 16
      ensures pkt[i] == whole[i]
    {
      assert i >= 8 ==> pkt[8 + (i - 8)] == PAYLOAD[i - 8];
    }
  }

  method EchoHeader(id: uint16, seq_: uint16) returns (pkt: array<byte>)
    ensures fresh(pkt) && pkt[..] == Packet(0, id, seq_)
  {
    pkt := new byte[16](_ => 0);
    pkt[0] := 8;
    PutUint16(pkt, 4, id);
    PutUint16(pkt, 6, seq_);
    CopyPayload(pkt);
    PacketBytes(pkt[..], 0, id, seq_);
  }

  lemma ChecksumField(before: seq<byte>, after: seq<byte>, checksum: uint16, id: uint16, seq_: uint16)
    requires before == Packet(0, id, seq_) && |after| == 16
    requires after[2] == checksum / 256 && after[3] == checksum % 256
    requires forall i | 0 <= i < 16 && i != 2 && i != 3 :: after[i] == before[i]
    ensures after == Packet(checksum, id, seq_)
  {
    forall i | 0 <= i < 8
      ensures after[8 + i] == PAYLOAD[i]
    {
      assert before[8 + i] == PAYLOAD[i];
    }
    PacketBytes(after, checksum, id, seq_);
  }

  /** The packet is built and summed in place. */
  method IcmpEcho(id: uint16, seq_: uint16) returns (pkt: array<byte>)
    ensures fresh(pkt) && pkt[..] == EchoPacket(id, seq_)
  {
    pkt := EchoHeader(id, seq_);
    var sum := SumWords(pkt);
    var folded := Fold(sum);
    ghost var before := pkt[..];
    PutUint16(pkt, 2, 0xFFFF - folded);
    ChecksumField(before, pkt[..], 0xFFFF - folded, id, seq_);
  }

  method SumWords(pkt: array<byte>) returns (sum: uint32)
    requires pkt.Length == 16
    ensures sum == WordSum(pkt[..])
  {
    sum := 0;
    var i := 0;
    while i < pkt.Length
      invariant 0 <= i <= 16 && i % 2 == 0
      invariant sum == WordSum(pkt[..i]) <= 0xFFFF * i
    {
      assert pkt[..i + 2][..i] == pkt[..i];
      sum := sum + 256 * (pkt[i] as int) + (pkt[i + 1] as int);
      i := i + 2;
    }
    assert pkt[..16] == pkt[..];
  }

  lemma WordSumSnoc(pkt: seq<byte>, n: uint16)
    ensures WordSum(pkt + Word(n)) == WordSum(pkt) + n
  {
    assert (pkt + Word(n))[..|pkt|] == pkt;
  }

  lemma PacketSum(checksum: uint16, id: uint16, seq_: uint16)
    ensures WordSum(Packet(checksum, id, seq_)) == checksum + WordSum(Packet(0, id, seq_))
    ensures WordSum(Packet(0, id, seq_)) >= 0x800
  {
    FieldSum(checksum, id, seq_);
    FieldSum(0, id, seq_);
  }

  lemma FieldSum(checksum: uint16, id: uint16, seq_: uint16)
    ensures WordSum(Packet(checksum, id, seq_)) == 0x800 + checksum + id + seq_ + 0x6E65 + 0x742D + 0x6C61 + 0x6D61
  {
    var a := [8, 0];
    assert a == [] + Word(0x800);
    WordSumSnoc([], 0x800);
    WordSumSnoc(a, checksum);
    var b := a + Word(checksum);
    WordSumSnoc(b, id);
    var c := b + Word(id);
    WordSumSnoc(c, seq_);
    var d := c + Word(seq_);
    WordSumSnoc(d, 0x6E65);
    WordSumSnoc(d + Word(0x6E65), 0x742D);
    WordSumSnoc(d + Word(0x6E65) + Word(0x742D), 0x6C61);
    WordSumSnoc(d + Word(0x6E65) + Word(0x742D) + Word(0x6C61), 0x6D61);
    assert Packet(checksum, id, seq_) == d + Word(0x6E65) + Word(0x742D) + Word(0x6C61) + Word(0x6D61);
  }

  /** For every id and sequence number the finished packet's ones' complement
      sum is 0xFFFF, which is what a receiver checks. */
  lemma EchoVerifies(id: uint16, seq_: uint16)
    ensures Folded(WordSum(EchoPacket(id, seq_))) == 0xFFFF
  {
    var sum := WordSum(Packet(0, id, seq_));
    FoldedExact(sum);
    PacketSum(0xFFFF - Folded(sum), id, seq_);
    CancelledFolds(sum, 0xFFFF - Folded(sum) + sum);
  }

  /** The packet's fields where a receiver looks for them: type 8, code 0, id and
      sequence number from their high byte on, and the payload. */
  lemma EchoFields(id: uint16, seq_: uint16)
    ensures var pkt := EchoPacket(id, seq_);
            && |pkt| == 16 && pkt[0] == 8 && pkt[1] == 0
            && (pkt[4] as int) * 256 + pkt[5] as int == id && (pkt[6] as int) * 256 + pkt[7] as int == seq_
            && forall i | 0 <= i < 8 :: pkt[8 + i] == "net-lama"[i] as int
  {
    FoldedExact(WordSum(Packet(0, id, seq_)));
    var checksum: uint16 := 0xFFFF - Folded(WordSum(Packet(0, id, seq_)));
    assert EchoPacket(id, seq_) == Packet(checksum, id, seq_);
  }

  lemma CancelledFolds(sum: nat, total: nat)
    requires sum > 0 && Folded(sum) <= 0xFFFF && total == 0xFFFF - Folded(sum) + sum
    ensures Folded(total) == 0xFFFF
  {
    FoldedExact(sum);
    FoldedExact(total);
    RemainderCancels(sum, Folded(sum));
    MultipleBelow(Folded(total));
  }

  lemma MultipleBelow(n: nat)
    requires 0 < n <= 0xFFFF && n % 0xFFFF == 0
    ensures n == 0xFFFF
  {
  }

  lemma RemainderCancels(sum: nat, folded: nat)
    requires folded <= 0xFFFF && folded % 0xFFFF == sum % 0xFFFF
    ensures (0xFFFF - folded + sum) % 0xFFFF == 0
  {
  }
}
