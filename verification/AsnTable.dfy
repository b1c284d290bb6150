/** The embedded routing table: range arithmetic, merging, the 12-byte record
    codec and the binary search that answers lookups. Arithmetic is uint32. */
module AsnTable {
  import opened Sequences

  const TWO32 := 0x1_0000_0000

  type uint32 = x: int | 0 <= x < TWO32
  type byte = x: int | 0 <= x < 256

  datatype IpRange = IpRange(start: uint32, end: uint32, asn: uint32)

  predicate Covers(r: IpRange, addr: uint32) {
    r.start <= addr <= r.end
  }

  /** Some range of the table announces addr under that AS. */
  ghost predicate Announced(t: seq<IpRange>, addr: uint32, asn: uint32) {
    exists i | 0 <= i < |t| :: Covers(t[i], addr) && t[i].asn == asn
  }

  ghost predicate StartSorted(t: seq<IpRange>) {
    forall i, j | 0 <= i < j < |t| :: t[i].start <= t[j].start
  }

  ghost predicate Proper(t: seq<IpRange>) {
    forall i | 0 <= i < |t| :: t[i].start <= t[i].end
  }

  // ---------------------------------------------------------------------
  // readTable's range arithmetic
  // ---------------------------------------------------------------------

  function Pow2(k: nat): (r: nat)
    ensures r >= 1
  {
    if k == 0 then 1 else 2 * Pow2(k - 1)
  }

  lemma {:induction false} Pow2Splits(a: nat, b: nat)
    ensures Pow2(a + b) == Pow2(a) * Pow2(b)
  {
    if a > 0 {
      Pow2Splits(a - 1, b);
      assert Pow2(a + b) == 2 * Pow2(a - 1 + b);
    }
  }

  lemma Pow2Is32()
    ensures Pow2(32) == TWO32
  {
    assert Pow2(8) == 256;
    Pow2Splits(8, 8);
    Pow2Splits(16, 16);
    assert Pow2(16) == 65536;
  }

  /** 1<<bits - 1 and the addition both wrap in uint32, which is what makes
      the default route, /0, come out right. */
  function PrefixRange(network: uint32, ones: nat, asn: uint32): IpRange
    requires ones <= 32
  {
    var span := (Pow2(32 - ones) % TWO32 - 1) % TWO32;
    IpRange(network, (network + span) % TWO32, asn)
  }

  /** For a masked network address the range is exactly the addresses that
      share its first `ones` bits, and it never wraps past its own start. */
  lemma PrefixRangeExact(network: uint32, ones: nat, asn: uint32, addr: uint32)
    requires ones <= 32 && network % Pow2(32 - ones) == 0
    ensures var r := PrefixRange(network, ones, asn);
            && r.start <= r.end
            && (Covers(r, addr) <==> addr / Pow2(32 - ones) == network / Pow2(32 - ones))
  {
    var block := Pow2(32 - ones);
    BlockFits(network, ones);
    PrefixEnd(network, ones, asn);
    CoveredBlock(network, block, addr);
  }

  lemma DivMod(x: int, m: nat)
    requires m >= 1
    ensures x == x / m * m + x % m && 0 <= x % m < m
  {
  }

  lemma CoveredBlock(network: nat, block: nat, addr: nat)
    requires block >= 1 && network % block == 0
    ensures network <= addr <= network + block - 1 <==> addr / block == network / block
  {
    DivMod(network, block);
    DivMod(addr, block);
    SameBlock(addr / block, network / block, block, addr % block);
  }

  lemma BlockFits(network: uint32, ones: nat)
    requires ones <= 32 && network % Pow2(32 - ones) == 0
    ensures network + Pow2(32 - ones) <= TWO32
    ensures if ones == 0 then Pow2(32 - ones) == TWO32 else Pow2(32 - ones) < TWO32
  {
    Pow2Splits(ones, 32 - ones);
    Pow2Is32();
    BlockFitsIn(network, Pow2(ones), Pow2(32 - ones));
    assert ones > 0 ==> Pow2(ones) >= 2;
  }

  lemma BlockFitsIn(network: nat, blocks: nat, block: nat)
    requires block >= 1 && network % block == 0 && network < blocks * block == TWO32
    ensures network + block <= TWO32
    ensures blocks >= 2 ==> block < TWO32
    ensures blocks == 1 ==> block == TWO32
  {
    DivMod(network, block);
    MultipleFits(network / block, blocks, block);
    if blocks >= 2 {
      MulMono(2, blocks, block);
    }
  }

  lemma MultipleFits(q: nat, n: nat, block: nat)
    requires q * block < n * block
    ensures q * block + block <= n * block
  {
    MulCancel(q, n, block);
    MulMono(q + 1, n, block);
  }

  lemma PrefixEnd(network: uint32, ones: nat, asn: uint32)
    requires ones <= 32 && network + Pow2(32 - ones) <= TWO32
    requires if ones == 0 then Pow2(32 - ones) == TWO32 else Pow2(32 - ones) < TWO32
    ensures PrefixRange(network, ones, asn).end == network + Pow2(32 - ones) - 1
  {
    SpanWraps(network, Pow2(32 - ones));
  }

  lemma SpanWraps(network: uint32, block: nat)
    requires 1 <= block && network + block <= TWO32
    ensures (network + (block % TWO32 - 1) % TWO32) % TWO32 == network + block - 1
  {
    if block == TWO32 {
      assert block % TWO32 == 0 && (0 - 1) % TWO32 == TWO32 - 1;
    } else {
      assert block % TWO32 == block && (block - 1) % TWO32 == block - 1;
    }
  }

  lemma MulMono(x: int, y: int, m: nat)
    requires x <= y
    ensures x * m <= y * m
  {
    assert (y - x) * m >= 0;
  }

  lemma MulCancel(x: int, y: int, m: nat)
    requires x * m < y * m
    ensures x < y
  {
    if x >= y {
      MulMono(y, x, m);
    }
  }

  lemma SameBlock(a: int, q: int, block: nat, rest: nat)
    requires rest < block
    ensures q * block <= a * block + rest <= q * block + block - 1 <==> a == q
  {
    if a > q {
      MulMono(q + 1, a, block);
    } else if a < q {
      MulMono(a + 1, q, block);
    }
  }

  // ---------------------------------------------------------------------
  // merge
  // ---------------------------------------------------------------------

  /** The test merge applies to the last output range and the next input; the
      successor of the end wraps to 0 after 255.255.255.255. */
  predicate Mergeable(last: IpRange, r: IpRange) {
    last.asn == r.asn && r.start <= (last.end + 1) % TWO32
  }

  function Merged(sorted: seq<IpRange>): seq<IpRange> {
    if sorted == [] then []
    else
      var out, r := Merged(sorted[..|sorted| - 1]), sorted[|sorted| - 1];
      Absorb(out, r)
  }

  function Absorb(out: seq<IpRange>, r: IpRange): seq<IpRange> {
    if out != [] && Mergeable(out[|out| - 1], r) then
      var last := out[|out| - 1];
      out[..|out| - 1] + [if r.end > last.end then last.(end := r.end) else last]
    else out + [r]
  }

  lemma MergedSnoc(sorted: seq<IpRange>, r: IpRange)
    ensures Merged(sorted + [r]) == Absorb(Merged(sorted), r)
  {
    assert (sorted + [r])[..|sorted|] == sorted;
  }

  method Merge(sorted: seq<IpRange>) returns (out: seq<IpRange>)
    ensures out == Merged(sorted)
  {
    out := [];
    for k := 0 to |sorted|
      invariant out == Merged(sorted[..k])
    {
      MergedSnoc(sorted[..k], sorted[k]);
      assert sorted[..k + 1] == sorted[..k] + [sorted[k]];
      out := TakeRange(out, sorted[k]);
    }
    assert sorted[..|sorted|] == sorted;
  }

  /** One round of merge's loop: widen the last range in place or append. */
  method TakeRange(out0: seq<IpRange>, r: IpRange) returns (out: seq<IpRange>)
    ensures out == Absorb(out0, r)
  {
    out := out0;
    var n := |out|;
    if n > 0 && out[n - 1].asn == r.asn && r.start <= (out[n - 1].end + 1) % TWO32 {
      assert out == out[..n - 1] + [out[n - 1]];
      if r.end > out[n - 1].end {
        out := out[n - 1 := out[n - 1].(end := r.end)];
      }
      return;
    }
    out := out + [r];
  }

  ghost predicate NoMergeableNeighbours(t: seq<IpRange>) {
    forall i | 0 < i < |t| :: !Mergeable(t[i - 1], t[i])
  }

  /** Starts ascend, ranges are proper, nothing adjacent can be merged, and the
      next input may not start before the last range. */
  ghost predicate Compact(t: seq<IpRange>, bound: uint32) {
    && StartSorted(t) && Proper(t) && NoMergeableNeighbours(t)
    && (t != [] ==> t[|t| - 1].start <= bound)
  }

  lemma AbsorbCompact(out: seq<IpRange>, r: IpRange)
    requires Compact(out, r.start) && r.start <= r.end
    ensures Compact(Absorb(out, r), r.start)
  {
    if out != [] && Mergeable(out[|out| - 1], r) {
      var t, n := Absorb(out, r), |out|;
      assert forall i | 0 <= i < n :: t[i].start == out[i].start && t[i].asn == out[i].asn;
      assert forall i | 0 <= i < n - 1 :: t[i] == out[i];
      forall i | 0 < i < n
        ensures !Mergeable(t[i - 1], t[i])
      {
        assert !Mergeable(out[i - 1], out[i]);
      }
    }
  }

  lemma AbsorbCovers(out: seq<IpRange>, r: IpRange, addr: uint32, asn: uint32)
    requires Compact(out, r.start) && r.start <= r.end
    ensures Announced(Absorb(out, r), addr, asn) <==> Announced(out, addr, asn) || (Covers(r, addr) && r.asn == asn)
  {
    var t := Absorb(out, r);
    if out != [] && Mergeable(out[|out| - 1], r) {
      var n := |out| - 1;
      assert forall i | 0 <= i < n :: t[i] == out[i];
      assert Covers(t[n], addr) <==> Covers(out[n], addr) || Covers(r, addr);
      assert t[n].asn == out[n].asn == r.asn;
    } else {
      assert forall i | 0 <= i < |out| :: t[i] == out[i];
      assert t[|out|] == r;
    }
  }

  /** merge preserves exactly which address is announced by which AS, for every
      start-sorted table, nested prefixes and the uint32 wrap included, and
      leaves no neighbours it would merge again. */
  lemma {:induction false} MergePreservesCoverage(t: seq<IpRange>, addr: uint32, asn: uint32)
    requires StartSorted(t) && Proper(t)
    ensures Compact(Merged(t), if t == [] then 0 else t[|t| - 1].start)
    ensures Announced(Merged(t), addr, asn) <==> Announced(t, addr, asn)
  {
    if t != [] {
      var n := |t| - 1;
      InitSorted(t);
      MergePreservesCoverage(t[..n], addr, asn);
      AbsorbCompact(Merged(t[..n]), t[n]);
      AbsorbCovers(Merged(t[..n]), t[n], addr, asn);
      AnnouncedLast(t, addr, asn);
    }
  }

  lemma InitSorted(t: seq<IpRange>)
    requires t != [] && StartSorted(t) && Proper(t)
    ensures var init := t[..|t| - 1]; StartSorted(init) && Proper(init) && (init != [] ==> init[|init| - 1].start <= t[|t| - 1].start)
  {
  }

  lemma AnnouncedLast(t: seq<IpRange>, addr: uint32, asn: uint32)
    requires t != []
    ensures var last := t[|t| - 1];
            Announced(t, addr, asn) <==> Announced(t[..|t| - 1], addr, asn) || (Covers(last, addr) && last.asn == asn)
  {
    assert forall i | 0 <= i < |t| - 1 :: t[..|t| - 1][i] == t[i];
  }

  /** Two neighbours are of different ASes, or neither overlap nor touch; only behind
      a range that ends at 255.255.255.255 does the wrap leave a nested one. */
  ghost predicate Apart(last: IpRange, r: IpRange) {
    last.asn != r.asn || if last.end == 0xFFFF_FFFF then r.start > 0 else r.start > last.end + 1
  }

  lemma MergeableExact(last: IpRange, r: IpRange)
    ensures Mergeable(last, r) <==> !Apart(last, r)
  {
  }

  /** merge leaves nothing to merge, in plain terms. */
  lemma MergedNeighboursApart(t: seq<IpRange>, i: nat)
    requires StartSorted(t) && Proper(t) && 0 < i < |Merged(t)|
    ensures Apart(Merged(t)[i - 1], Merged(t)[i])
  {
    MergePreservesCoverage(t, 0, 0);
    MergeableExact(Merged(t)[i - 1], Merged(t)[i]);
  }

  lemma {:induction false} CompactIsFixed(t: seq<IpRange>)
    requires NoMergeableNeighbours(t)
    ensures Merged(t) == t
  {
    if t != [] {
      var n := |t| - 1;
      assert forall i | 0 <= i < n :: t[..n][i] == t[i];
      CompactIsFixed(t[..n]);
      assert t == t[..n] + [t[n]];
    }
  }

  lemma MergeIdempotent(t: seq<IpRange>)
    requires StartSorted(t) && Proper(t)
    ensures Merged(Merged(t)) == Merged(t)
  {
    MergePreservesCoverage(t, 0, 0);
    CompactIsFixed(Merged(t));
  }

  // ---------------------------------------------------------------------
  // The record codec
  // ---------------------------------------------------------------------

  function BigEndian(v: uint32): (r: seq<byte>)
    ensures |r| == 4
  {
    [v / 0x100_0000, v / 0x1_0000 % 256, v / 256 % 256, v % 256]
  }

  function FromBigEndian(b: seq<byte>): uint32
    requires |b| >= 4
  {
    (((b[0] as int) * 256 + b[1]) * 256 + b[2]) * 256 + b[3]
  }

  lemma QuotientOfQuotient(v: nat, m: nat, n: nat)
    requires m in {256, 0x1_0000} && n == 256
    ensures v / m / n == v / (m * n)
  {
  }

  lemma BigEndianRoundTrip(v: uint32, rest: seq<byte>)
    ensures FromBigEndian(BigEndian(v) + rest) == v
  {
    QuotientOfQuotient(v, 256, 256);
    QuotientOfQuotient(v, 0x1_0000, 256);
  }

  function Record(r: IpRange): (b: seq<byte>)
    ensures |b| == 12
  {
    BigEndian(r.start) + BigEndian(r.end) + BigEndian(r.asn)
  }

  function Encoded(t: seq<IpRange>): seq<byte> {
    if t == [] then [] else Encoded(t[..|t| - 1]) + Record(t[|t| - 1])
  }

  function FromRecord(b: seq<byte>): IpRange
    requires |b| >= 12
  {
    IpRange(FromBigEndian(b), FromBigEndian(b[4..]), FromBigEndian(b[8..]))
  }

  /** load's record loop; an incomplete last record is ignored. */
  function Decoded(blob: seq<byte>): seq<IpRange> {
    if |blob| < 12 then [] else [FromRecord(blob)] + Decoded(blob[12..])
  }

  method PutUint32(buf: array<byte>, at: nat, v: uint32)
    requires at + 4 <= buf.Length
    modifies buf
    ensures buf[at..at + 4] == BigEndian(v)
    ensures forall i | 0 <= i < buf.Length && !(at <= i < at + 4) :: buf[i] == old(buf[i])
  {
    buf[at], buf[at + 1], buf[at + 2], buf[at + 3] := v / 0x100_0000, v / 0x1_0000 % 256, v / 256 % 256, v % 256;
  }

  /** One buffer, refilled in place for every record. */
  method WriteRanges(t: seq<IpRange>) returns (blob: seq<byte>)
    ensures blob == Encoded(t)
  {
    blob := [];
    var buf := new byte[12];
    for k := 0 to |t|
      invariant blob == Encoded(t[..k])
    {
      assert t[..k + 1][..k] == t[..k];
      PutUint32(buf, 0, t[k].start);
      PutUint32(buf, 4, t[k].end);
      assert buf[0..4] == BigEndian(t[k].start);
      PutUint32(buf, 8, t[k].asn);
      assert buf[0..4] == BigEndian(t[k].start) && buf[4..8] == BigEndian(t[k].end);
      assert buf[..] == buf[0..4] + buf[4..8] + buf[8..12];
      blob := blob + buf[..];
    }
    assert t[..|t|] == t;
  }

  method Load(blob: seq<byte>) returns (ranges: seq<IpRange>)
    ensures ranges == Decoded(blob)
  {
    ranges := [];
    var i := 0;
    while i + 12 <= |blob|
      invariant 0 <= i <= |blob|
      invariant ranges + Decoded(blob[i..]) == Decoded(blob)
    {
      assert blob[i..][12..] == blob[i + 12..];
      assert blob[i..][4..] == blob[i + 4..] && blob[i..][8..] == blob[i + 8..];
      var r := IpRange(FromBigEndian(blob[i..]), FromBigEndian(blob[i + 4..]), FromBigEndian(blob[i + 8..]));
      assert r == FromRecord(blob[i..]);
      ranges := ranges + [r];
      i := i + 12;
    }
  }

  lemma RecordRoundTrip(r: IpRange, rest: seq<byte>)
    ensures FromRecord(Record(r) + rest) == r
  {
    var b := Record(r) + rest;
    assert b == BigEndian(r.start) + (BigEndian(r.end) + BigEndian(r.asn) + rest);
    assert b[4..] == BigEndian(r.end) + (BigEndian(r.asn) + rest);
    assert b[8..] == BigEndian(r.asn) + rest;
    BigEndianRoundTrip(r.start, BigEndian(r.end) + BigEndian(r.asn) + rest);
    BigEndianRoundTrip(r.end, BigEndian(r.asn) + rest);
    BigEndianRoundTrip(r.asn, rest);
  }

  lemma EncodedSnoc(t: seq<IpRange>, r: IpRange)
    ensures Encoded(t + [r]) == Encoded(t) + Record(r)
  {
    assert (t + [r])[..|t|] == t;
  }

  /** The number four bytes stand for, from the highest on. */
  ghost function Number(b0: byte, b1: byte, b2: byte, b3: byte): int {
    (b0 as int) * 0x100_0000 + (b1 as int) * 0x1_0000 + (b2 as int) * 0x100 + (b3 as int)
  }

  /** The twelve bytes of a record, from an offset on. */
  ghost predicate HoldsRecord(blob: seq<byte>, at: nat, r: IpRange) {
    && at + 12 <= |blob|
    && r.start == Number(blob[at], blob[at + 1], blob[at + 2], blob[at + 3])
    && r.end == Number(blob[at + 4], blob[at + 5], blob[at + 6], blob[at + 7])
    && r.asn == Number(blob[at + 8], blob[at + 9], blob[at + 10], blob[at + 11])
  }

  /** The file byte by byte: twelve a record, start, end and AS in that order. */
  lemma {:induction false} RecordLayout(t: seq<IpRange>, k: nat)
    requires k < |t|
    ensures |Encoded(t)| == 12 * |t| && HoldsRecord(Encoded(t), 12 * k, t[k])
  {
    var n := |t| - 1;
    EncodedLength(t[..n]);
    if k < n {
      RecordLayout(t[..n], k);
    } else {
      RecordBytes(Encoded(t[..n]), t[n]);
    }
  }

  lemma RecordBytes(before: seq<byte>, r: IpRange)
    ensures HoldsRecord(before + Record(r), |before|, r)
  {
    BytesOf(r.start);
    BytesOf(r.end);
    BytesOf(r.asn);
  }

  lemma {:induction false} EncodedLength(t: seq<IpRange>)
    ensures |Encoded(t)| == 12 * |t|
  {
    if t != [] {
      EncodedLength(t[..|t| - 1]);
    }
  }

  lemma BytesOf(v: uint32)
    ensures var b := BigEndian(v); v == Number(b[0], b[1], b[2], b[3])
  {
    QuotientOfQuotient(v, 256, 256);
    QuotientOfQuotient(v, 0x1_0000, 256);
  }

  lemma {:induction false} EncodedCons(r: IpRange, t: seq<IpRange>)
    ensures Encoded([r] + t) == Record(r) + Encoded(t)
  {
    if t == [] {
      EncodedSnoc([], r);
      assert [] + [r] == [r] + [];
    } else {
      var init, last := t[..|t| - 1], t[|t| - 1];
      EncodedCons(r, init);
      EncodedSnoc([r] + init, last);
      assert [r] + t == [r] + init + [last];
      ConcatAssociates(Record(r), Encoded(init), Record(last));
    }
  }

  /** Decoding what was encoded gives the table back, and a truncated last
      record is dropped. */
  lemma {:induction false} CodecRoundTrip(t: seq<IpRange>, tail: seq<byte>)
    requires |tail| < 12
    ensures Decoded(Encoded(t) + tail) == t
  {
    if t == [] {
      assert Encoded(t) + tail == tail;
    } else {
      EncodedCons(t[0], t[1..]);
      assert t == [t[0]] + t[1..];
      var rest := Encoded(t[1..]) + tail;
      ConcatAssociates(Record(t[0]), Encoded(t[1..]), tail);
      RecordRoundTrip(t[0], rest);
      assert (Record(t[0]) + rest)[12..] == rest;
      CodecRoundTrip(t[1..], tail);
    }
  }

  // ---------------------------------------------------------------------
  // Lookup
  // ---------------------------------------------------------------------

  /** sort.Search over "the range ends at or after addr", on any table. */
  function Search(t: seq<IpRange>, addr: uint32, i: nat, j: nat): (k: nat)
    requires i <= j <= |t|
    ensures i <= k <= j
    decreases j - i
  {
    if i < j then
      var h := (i + j) / 2;
      if t[h].end < addr then Search(t, addr, h + 1, j) else Search(t, addr, i, h)
    else i
  }

  datatype Info = Info(asn: uint32, owner: string, country: string)

  /** Lookup of an IPv4 address; an AS without a published name still answers. */
  function LookupIn(t: seq<IpRange>, names: map<uint32, Info>, addr: uint32): Option<Info> {
    var i := Search(t, addr, 0, |t|);
    if i >= |t| || t[i].start > addr then None
    else if t[i].asn in names then Some(names[t[i].asn])
    else Some(Info(t[i].asn, "", ""))
  }

  method Lookup(t: seq<IpRange>, names: map<uint32, Info>, addr: uint32) returns (info: Option<Info>)
    ensures info == LookupIn(t, names, addr)
  {
    var i, j := 0, |t|;
    while i < j
      invariant 0 <= i <= j <= |t|
      invariant Search(t, addr, i, j) == Search(t, addr, 0, |t|)
    {
      var h := (i + j) / 2;
      if !(t[h].end >= addr) {
        i := h + 1;
      } else {
        j := h;
      }
    }
    if i >= |t| || t[i].start > addr {
      return None;
    }
    if t[i].asn in names {
      return Some(names[t[i].asn]);
    }
    return Some(Info(t[i].asn, "", ""));
  }

  /** load files every name under its own AS number. */
  ghost predicate NamesProper(names: map<uint32, Info>) {
    forall n | n in names :: names[n].asn == n
  }

  /** The range at k, if any, ends at or after addr; the one before it does not. */
  ghost predicate Stop(t: seq<IpRange>, addr: uint32, k: nat) {
    k <= |t| && (k < |t| ==> t[k].end >= addr) && (k > 0 ==> t[k - 1].end < addr)
  }

  /** Where the search stops, on any table, sorted or not. */
  lemma {:induction false} SearchStops(t: seq<IpRange>, addr: uint32, i: nat, j: nat)
    requires i <= j <= |t|
    requires i > 0 ==> t[i - 1].end < addr
    requires j < |t| ==> t[j].end >= addr
    ensures Stop(t, addr, Search(t, addr, i, j))
    decreases j - i
  {
    if i < j {
      var h := (i + j) / 2;
      assert i <= h < j;
      if t[h].end < addr {
        SearchStops(t, addr, h + 1, j);
      } else {
        SearchStops(t, addr, i, h);
      }
    }
  }

  /** Soundness on any table, sorted or not: an AS that Lookup names did
      announce the address. */
  lemma LookupSound(t: seq<IpRange>, names: map<uint32, Info>, addr: uint32)
    requires NamesProper(names) && LookupIn(t, names, addr).Some?
    ensures Announced(t, addr, LookupIn(t, names, addr).value.asn)
  {
    SearchStops(t, addr, 0, |t|);
    var k := Search(t, addr, 0, |t|);
    assert Covers(t[k], addr);
  }

  /** Where the next range after the first k begins, or the address space ends. */
  function NextStart(t: seq<IpRange>, k: nat): int
    requires k <= |t|
  {
    if k < |t| then t[k].start else TWO32
  }

  /** Wherever a gap follows a range, no earlier range reaches into the gap. */
  ghost predicate NoGapHides(t: seq<IpRange>) {
    forall j, k | 0 <= j < k <= |t| && t[k - 1].end + 1 < NextStart(t, k) :: t[j].end <= t[k - 1].end
  }

  /** With ascending starts and no range reaching into a later gap, Lookup answers
      exactly the announced addresses. */
  lemma LookupComplete(t: seq<IpRange>, names: map<uint32, Info>, addr: uint32)
    requires StartSorted(t) && Proper(t) && NoGapHides(t) && NamesProper(names)
    ensures LookupIn(t, names, addr).Some? <==> exists asn :: Announced(t, addr, asn)
  {
    if LookupIn(t, names, addr).Some? {
      LookupSound(t, names, addr);
    }
    if asn :| Announced(t, addr, asn) {
      SearchStops(t, addr, 0, |t|);
      StopCovers(t, addr, asn, Search(t, addr, 0, |t|));
    }
  }

  lemma StopCovers(t: seq<IpRange>, addr: uint32, asn: uint32, k: nat)
    requires StartSorted(t) && Proper(t) && NoGapHides(t) && Announced(t, addr, asn) && Stop(t, addr, k)
    ensures k < |t| && t[k].start <= addr
  {
    var j :| 0 <= j < |t| && Covers(t[j], addr) && t[j].asn == asn;
    if j >= k {
      assert t[k].start <= t[j].start;
    } else {
      assert t[k - 1].end < addr <= t[j].end;
      assert t[k - 1].end + 1 >= NextStart(t, k);
    }
  }

  /** Every announced address is found wherever a search of the table may stop. */
  ghost predicate CompleteAtEveryStop(t: seq<IpRange>) {
    forall addr: uint32, asn: uint32, k: nat | Announced(t, addr, asn) && Stop(t, addr, k) :: k < |t| && t[k].start <= addr
  }

  /** The exact condition for completeness that does not hang on which indices the
      search happens to probe. */
  lemma CompleteAtEveryStopIff(t: seq<IpRange>)
    requires StartSorted(t) && Proper(t)
    ensures CompleteAtEveryStop(t) <==> NoGapHides(t)
  {
    if NoGapHides(t) {
      forall addr: uint32, asn: uint32, k: nat | Announced(t, addr, asn) && Stop(t, addr, k)
        ensures k < |t| && t[k].start <= addr
      {
        StopCovers(t, addr, asn, k);
      }
    }
    if CompleteAtEveryStop(t) {
      forall j, k | 0 <= j < k <= |t| && t[k - 1].end + 1 < NextStart(t, k)
        ensures t[j].end <= t[k - 1].end
      {
        if t[j].end > t[k - 1].end {
          GapAddress(t, j, k);
        }
      }
    }
  }

  /** The first address of a gap an earlier range reaches into is announced, and a
      search for it may stop past the gap. */
  lemma GapAddress(t: seq<IpRange>, j: nat, k: nat)
    requires StartSorted(t) && Proper(t) && j < k <= |t|
    requires t[k - 1].end + 1 < NextStart(t, k) && t[j].end > t[k - 1].end
    ensures !CompleteAtEveryStop(t)
  {
    var addr: uint32 := t[k - 1].end + 1;
    assert t[j].start <= t[k - 1].start;
    assert Covers(t[j], addr) && Announced(t, addr, t[j].asn);
    assert Stop(t, addr, k);
  }

  /** What is on file about an AS: its entry under its own number, else the number
      alone. */
  ghost predicate OnFile(info: Info, names: map<uint32, Info>, asn: uint32) {
    && info.asn == asn
    && (asn in names ==> info == names[asn])
    && (asn !in names ==> info.owner == "" && info.country == "")
  }

  /** The whole answer, on any table: what is on file about an AS that announced the
      address. */
  lemma LookupAnswers(t: seq<IpRange>, names: map<uint32, Info>, addr: uint32)
    requires NamesProper(names) && LookupIn(t, names, addr).Some?
    ensures var info := LookupIn(t, names, addr).value;
            Announced(t, addr, info.asn) && OnFile(info, names, info.asn)
  {
    LookupSound(t, names, addr);
  }

  /** Ends ascend as well as starts: no range sticks out past a later one. */
  ghost predicate EndSorted(t: seq<IpRange>) {
    forall i, j | 0 <= i < j < |t| :: t[i].end <= t[j].end
  }

  lemma EndSortedLeavesNoGap(t: seq<IpRange>)
    requires EndSorted(t)
    ensures NoGapHides(t)
  {
  }

  /** Ascending ends are more than that takes: the nested range here is hidden by
      no gap. */
  lemma EndsNeedNotAscend()
    ensures var t := [IpRange(0, 100, 1), IpRange(10, 20, 2), IpRange(15, 100, 3)];
            StartSorted(t) && Proper(t) && Merged(t) == t && !EndSorted(t) && NoGapHides(t)
  {
    var t := [IpRange(0, 100, 1), IpRange(10, 20, 2), IpRange(15, 100, 3)];
    CompactIsFixed(t);
    assert t[0].end > t[1].end;
  }

  /** Lookup misses no announced address of the table. */
  ghost predicate Complete(t: seq<IpRange>, names: map<uint32, Info>) {
    forall addr: uint32, asn: uint32 | Announced(t, addr, asn) :: LookupIn(t, names, addr).Some?
  }

  /** A stronger property, and what it takes: a start-sorted table is complete on
      every contiguous part of itself iff its ends ascend. */
  lemma CompleteOnEverySliceIff(t: seq<IpRange>, names: map<uint32, Info>)
    requires StartSorted(t) && Proper(t) && NamesProper(names)
    ensures EndSorted(t) <==> forall i, j | 0 <= i <= j <= |t| :: Complete(t[i..j], names)
  {
    if EndSorted(t) {
      forall i, j, addr: uint32, asn: uint32 | 0 <= i <= j <= |t| && Announced(t[i..j], addr, asn)
        ensures LookupIn(t[i..j], names, addr).Some?
      {
        EndSortedLeavesNoGap(t[i..j]);
        LookupComplete(t[i..j], names, addr);
      }
    }
    if forall i, j | 0 <= i <= j <= |t| :: Complete(t[i..j], names) {
      forall i | 0 < i < |t|
        ensures t[i - 1].end <= t[i].end
      {
        assert Complete(t[i - 1..i + 1], names);
        PairIncomplete(t[i - 1..i + 1], names);
      }
      AdjacentEndsSuffice(t, |t|);
    }
  }

  lemma PairIncomplete(t: seq<IpRange>, names: map<uint32, Info>)
    requires |t| == 2 && Proper(t) && Complete(t, names)
    ensures t[0].end <= t[1].end
  {
    var addr := t[0].end;
    assert Covers(t[0], addr) && Announced(t, addr, t[0].asn);
    assert t[1].end < addr ==> Search(t, addr, 0, 2) == Search(t, addr, 2, 2);
  }

  lemma {:induction false} AdjacentEndsSuffice(t: seq<IpRange>, n: nat)
    requires n <= |t| && forall i | 0 < i < |t| :: t[i - 1].end <= t[i].end
    ensures forall i, j | 0 <= i < j < n :: t[i].end <= t[j].end
  {
    if n > 0 {
      AdjacentEndsSuffice(t, n - 1);
      assert n > 1 ==> t[n - 1 - 1].end <= t[n - 1].end;
    }
  }

  /** Completeness fails for nested prefixes: an address of the outer prefix
      past the inner one is announced but not found. */
  lemma NestedPrefixHidesOuter()
    ensures var t := [IpRange(0, 100, 1), IpRange(10, 20, 2)];
            StartSorted(t) && Merged(t) == t && Announced(t, 50, 1) && LookupIn(t, map[], 50) == None
  {
    var t := [IpRange(0, 100, 1), IpRange(10, 20, 2)];
    assert Covers(t[0], 50);
    CompactIsFixed(t);
    assert Search(t, 50, 0, 2) == Search(t, 50, 2, 2);
  }

  ghost predicate Disjoint(t: seq<IpRange>) {
    forall i, j, a: uint32 | 0 <= i < j < |t| && Covers(t[i], a) :: !Covers(t[j], a)
  }

  /** The reference answer: the AS of the first range that covers addr. */
  function LinearScan(t: seq<IpRange>, addr: uint32): Option<uint32> {
    if t == [] then None
    else if Covers(t[0], addr) then Some(t[0].asn)
    else LinearScan(t[1..], addr)
  }

  lemma {:induction false} LinearScanExact(t: seq<IpRange>, addr: uint32)
    ensures match LinearScan(t, addr)
            case None => forall i | 0 <= i < |t| :: !Covers(t[i], addr)
            case Some(asn) => Announced(t, addr, asn)
  {
    if t != [] {
      LinearScanExact(t[1..], addr);
      if Covers(t[0], addr) {
      } else {
        match LinearScan(t[1..], addr)
        case None =>
          forall i | 0 <= i < |t|
            ensures !Covers(t[i], addr)
          {
            assert i > 0 ==> t[1..][i - 1] == t[i];
          }
        case Some(asn) =>
          var i :| 0 <= i < |t[1..]| && Covers(t[1..][i], addr) && t[1..][i].asn == asn;
          assert t[i + 1] == t[1..][i];
      }
    }
  }

  lemma DisjointUnique(t: seq<IpRange>, addr: uint32, a: uint32, b: uint32)
    requires Disjoint(t) && Announced(t, addr, a) && Announced(t, addr, b)
    ensures a == b
  {
    var i :| 0 <= i < |t| && Covers(t[i], addr) && t[i].asn == a;
    var j :| 0 <= j < |t| && Covers(t[j], addr) && t[j].asn == b;
    assert i == j;
  }

  /** No range of the table reaches past its last one. */
  ghost predicate LastReaches(t: seq<IpRange>) {
    forall i | 0 <= i < |t| :: t[i].end <= t[|t| - 1].end
  }

  /** NoGapHides up to a following range, which starts at `next`. */
  ghost predicate NoGapBefore(t: seq<IpRange>, next: int) {
    && (forall k | 0 < k < |t| && t[k - 1].end + 1 < t[k].start :: LastReaches(t[..k]))
    && (t != [] && t[|t| - 1].end + 1 < next ==> LastReaches(t))
  }

  lemma NoGapSplits(t: seq<IpRange>)
    ensures NoGapHides(t) <==> NoGapBefore(t, TWO32)
  {
    if NoGapHides(t) {
      assert NextStart(t, |t|) == TWO32;
      forall k | 0 < k < |t| && t[k - 1].end + 1 < t[k].start
        ensures LastReaches(t[..k])
      {
        assert NextStart(t, k) == t[k].start;
      }
    }
    if NoGapBefore(t, TWO32) {
      forall j, k | 0 <= j < k <= |t| && t[k - 1].end + 1 < NextStart(t, k)
        ensures t[j].end <= t[k - 1].end
      {
        if k < |t| {
          assert LastReaches(t[..k]);
          assert t[..k][j] == t[j] && t[..k][k - 1] == t[k - 1];
        }
      }
    }
  }

  lemma {:induction false} MergedBelow(t: seq<IpRange>, bound: uint32)
    requires forall i | 0 <= i < |t| :: t[i].end <= bound
    ensures forall i | 0 <= i < |Merged(t)| :: Merged(t)[i].end <= bound
  {
    if t != [] {
      MergedBelow(t[..|t| - 1], bound);
    }
  }

  lemma {:induction false} MergedReaches(t: seq<IpRange>)
    requires t != []
    ensures Merged(t) != [] && Merged(t)[|Merged(t)| - 1].end >= t[|t| - 1].end
    ensures LastReaches(t) ==> LastReaches(Merged(t))
  {
    if LastReaches(t) {
      MergedBelow(t, t[|t| - 1].end);
    }
  }

  lemma AbsorbKeepsGaps(out: seq<IpRange>, r: IpRange)
    requires NoGapBefore(out, r.start)
    ensures forall k | 0 < k < |Absorb(out, r)| && Absorb(out, r)[k - 1].end + 1 < Absorb(out, r)[k].start :: LastReaches(Absorb(out, r)[..k])
  {
    var t := Absorb(out, r);
    forall k | 0 < k < |t| && t[k - 1].end + 1 < t[k].start
      ensures LastReaches(t[..k])
    {
      assert t[..k] == out[..k];
      if k == |out| {
        assert out[..k] == out;
      }
    }
  }

  lemma {:induction false} MergedNoGap(t: seq<IpRange>, next: int)
    requires NoGapBefore(t, next)
    ensures NoGapBefore(Merged(t), next)
  {
    if t != [] {
      var n := |t| - 1;
      NoGapInit(t, next);
      MergedNoGap(t[..n], t[n].start);
      AbsorbKeepsGaps(Merged(t[..n]), t[n]);
      MergedReaches(t);
    }
  }

  lemma NoGapInit(t: seq<IpRange>, next: int)
    requires t != [] && NoGapBefore(t, next)
    ensures NoGapBefore(t[..|t| - 1], t[|t| - 1].start)
  {
    var init := t[..|t| - 1];
    forall k | 0 < k < |init| && init[k - 1].end + 1 < init[k].start
      ensures LastReaches(init[..k])
    {
      assert init[..k] == t[..k];
    }
  }

  /** Merging opens no gap that hides a range. */
  lemma MergeKeepsNoGap(t: seq<IpRange>)
    requires NoGapHides(t)
    ensures NoGapHides(Merged(t))
  {
    NoGapSplits(t);
    MergedNoGap(t, TWO32);
    NoGapSplits(Merged(t));
  }

  lemma DisjointEndSorted(t: seq<IpRange>)
    requires StartSorted(t) && Proper(t) && Disjoint(t)
    ensures EndSorted(t)
  {
    forall i, j | 0 <= i < j < |t|
      ensures t[i].end <= t[j].end
    {
      assert Covers(t[j], t[j].start);
      assert !Covers(t[i], t[j].start);
    }
  }

  /** End to end: for a start-sorted table with no range reaching into a later gap,
      Lookup over the decoded file of the merged table names an AS exactly for the
      announced addresses, and always one that announced it. */
  lemma PipelineComplete(t: seq<IpRange>, names: map<uint32, Info>, addr: uint32)
    requires StartSorted(t) && Proper(t) && NoGapHides(t) && NamesProper(names)
    ensures var found := LookupIn(Decoded(Encoded(Merged(t))), names, addr);
            && (found.Some? <==> exists asn :: Announced(t, addr, asn))
            && (found.Some? ==> Announced(t, addr, found.value.asn) && OnFile(found.value, names, found.value.asn))
  {
    var m := Merged(t);
    assert Encoded(m) + [] == Encoded(m);
    CodecRoundTrip(m, []);
    forall asn: uint32
      ensures Announced(m, addr, asn) <==> Announced(t, addr, asn)
    {
      MergePreservesCoverage(t, addr, asn);
    }
    MergePreservesCoverage(t, addr, 0);
    MergeKeepsNoGap(t);
    LookupComplete(m, names, addr);
    if LookupIn(m, names, addr).Some? {
      LookupAnswers(m, names, addr);
    }
  }

  /** For pairwise disjoint ranges the pipeline answers what is on file about the AS
      a linear scan of the original table finds. */
  lemma PipelineIsLinearScan(t: seq<IpRange>, names: map<uint32, Info>, addr: uint32)
    requires StartSorted(t) && Proper(t) && Disjoint(t) && NamesProper(names)
    ensures var found := LookupIn(Decoded(Encoded(Merged(t))), names, addr);
            match LinearScan(t, addr)
            case None => found == None
            case Some(asn) => found.Some? && OnFile(found.value, names, asn)
  {
    DisjointEndSorted(t);
    EndSortedLeavesNoGap(t);
    PipelineComplete(t, names, addr);
    LinearScanExact(t, addr);
    var found := LookupIn(Decoded(Encoded(Merged(t))), names, addr);
    if found.Some? && LinearScan(t, addr).Some? {
      DisjointUnique(t, addr, found.value.asn, LinearScan(t, addr).value);
    }
  }
}
