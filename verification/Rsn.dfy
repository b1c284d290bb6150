/** The RSN element parser (section 9.4.2.24 of IEEE Std 802.11-2020). */
module Rsn {
  import opened Sequences

  type byte = x: int | 0 <= x < 256
  type uint16 = x: int | 0 <= x < 0x1_0000

  /** What the parser extracts; group 0 means absent. */
  datatype Info = Info(akms: seq<byte>, ciphers: seq<byte>, group: byte, caps: Option<uint16>)

  function LittleEndian(v: seq<byte>, at: nat): uint16
    requires at + 2 <= |v|
  {
    (v[at] as int) + 256 * (v[at + 1] as int)
  }

  /** The types of up to `count` four-byte suites starting at an offset, as
      many as fit. */
  function Suites(v: seq<byte>, at: nat, count: nat): (r: seq<byte>)
    ensures at + 4 * |r| <= |v| || r == []
    ensures |r| <= count
    decreases count
  {
    if count == 0 || at + 4 > |v| then [] else [v[at + 3]] + Suites(v, at + 4, count - 1)
  }

  function Parse(v: seq<byte>): Info {
    var group := if |v| >= 6 then v[5] else 0;
    if 8 > |v| then Info([], [], group, None)
    else
      var ciphers := Suites(v, 8, LittleEndian(v, 6));
      var off := 8 + 4 * |ciphers|;
      if off + 2 > |v| then Info([], ciphers, group, None)
      else
        var akms := Suites(v, off + 2, LittleEndian(v, off));
        var end := off + 2 + 4 * |akms|;
        Info(akms, ciphers, group, if end + 2 <= |v| then Some(LittleEndian(v, end)) else None)
  }

  method ReadSuites(v: seq<byte>, at: nat, count: nat) returns (types: seq<byte>, off: nat)
    requires at <= |v|
    ensures types == Suites(v, at, count) && off == at + 4 * |types| <= |v|
  {
    types, off := [], at;
    var j := 0;
    while j < count && off + 4 <= |v|
      invariant 0 <= j <= count && off == at + 4 * |types| <= |v|
      invariant types + Suites(v, off, count - j) == Suites(v, at, count)
    {
      types := types + [v[off + 3]];
      off := off + 4;
      j := j + 1;
    }
    assert types + [] == types;
  }

  method ParseRsn(v: seq<byte>) returns (r: Info)
    ensures r == Parse(v)
  {
    r := Info([], [], 0, None);
    if |v| >= 6 {
      r := r.(group := v[5]);
    }
    var off := 2 + 4;
    if off + 2 > |v| {
      return;
    }
    var pairwise := LittleEndian(v, off);
    off := off + 2;
    var types;
    types, off := ReadSuites(v, off, pairwise);
    r := r.(ciphers := types);
    if off + 2 > |v| {
      return;
    }
    var akmCount := LittleEndian(v, off);
    off := off + 2;
    types, off := ReadSuites(v, off, akmCount);
    r := r.(akms := types);
    if off + 2 <= |v| {
      r := r.(caps := Some(LittleEndian(v, off)));
    }
  }

  // ---------------------------------------------------------------------
  // The encoder the parser is measured against
  // ---------------------------------------------------------------------

  datatype Suite = Suite(oui0: byte, oui1: byte, oui2: byte, kind: byte)

  datatype Element = Element(version: uint16, group: Suite, pairwise: seq<Suite>, akms: seq<Suite>, caps: uint16)

  function Encode16(n: uint16): (r: seq<byte>)
    ensures |r| == 2
  {
    [n % 256, n / 256]
  }

  function EncodeSuite(s: Suite): (r: seq<byte>)
    ensures |r| == 4
  {
    [s.oui0, s.oui1, s.oui2, s.kind]
  }

  function EncodeSuites(ss: seq<Suite>): (r: seq<byte>)
    ensures |r| == 4 * |ss|
  {
    if ss == [] then [] else EncodeSuite(ss[0]) + EncodeSuites(ss[1..])
  }

  function Kinds(ss: seq<Suite>): (r: seq<byte>)
    ensures |r| == |ss|
  {
    seq(|ss|, i requires 0 <= i < |ss| => ss[i].kind)
  }

  /** The parts before the AKM count, and from it on. */
  function EncodeHead(e: Element): seq<byte>
    requires |e.pairwise| < 0x1_0000
  {
    Encode16(e.version) + EncodeSuite(e.group) + Encode16(|e.pairwise|) + EncodeSuites(e.pairwise)
  }

  function EncodeTail(e: Element): seq<byte>
    requires |e.akms| < 0x1_0000
  {
    Encode16(|e.akms|) + EncodeSuites(e.akms) + Encode16(e.caps)
  }

  function Encode(e: Element): seq<byte>
    requires |e.pairwise| < 0x1_0000 && |e.akms| < 0x1_0000
  {
    EncodeHead(e) + EncodeTail(e)
  }

  lemma LittleEndianAt(before: seq<byte>, n: uint16, after: seq<byte>)
    ensures LittleEndian(before + Encode16(n) + after, |before|) == n
  {
    var v := before + Encode16(n) + after;
    assert v[|before|] == n % 256 && v[|before| + 1] == n / 256;
  }

  /** The suite loop takes the fourth byte of every suite and stops only when the
      count is met or fewer than four bytes are left. */
  lemma {:induction false} SuitesExact(v: seq<byte>, at: nat, count: nat)
    requires at <= |v|
    ensures var types := Suites(v, at, count);
            && at + 4 * |types| <= |v|
            && (|types| == count || at + 4 * |types| + 4 > |v|)
            && forall k | 0 <= k < |types| :: types[k] == v[at + 4 * k + 3]
    decreases count
  {
    if count > 0 && at + 4 <= |v| {
      SuitesExact(v, at + 4, count - 1);
      var rest := Suites(v, at + 4, count - 1);
      forall k | 0 < k < |rest| + 1
        ensures Suites(v, at, count)[k] == v[at + 4 * k + 3]
      {
        assert rest[k - 1] == v[at + 4 + 4 * (k - 1) + 3];
      }
    }
  }

  lemma {:induction false} EncodedKind(ss: seq<Suite>, k: nat)
    requires k < |ss|
    ensures EncodeSuites(ss)[4 * k + 3] == ss[k].kind
  {
    if k > 0 {
      EncodedKind(ss[1..], k - 1);
      assert EncodeSuites(ss)[4 * k + 3] == EncodeSuites(ss[1..])[4 * (k - 1) + 3];
    }
  }

  /** Reading back encoded suites, from bytes cut anywhere inside or after them. */
  lemma SuitesOfEncoded(before: seq<byte>, ss: seq<Suite>, v: seq<byte>)
    requires before <= v <= before + EncodeSuites(ss) || before + EncodeSuites(ss) <= v
    ensures Suites(v, |before|, |ss|) <= Kinds(ss)
    ensures before + EncodeSuites(ss) <= v ==> Suites(v, |before|, |ss|) == Kinds(ss)
  {
    SuitesExact(v, |before|, |ss|);
    var types := Suites(v, |before|, |ss|);
    forall k | 0 <= k < |types|
      ensures types[k] == Kinds(ss)[k]
    {
      EncodedKind(ss, k);
      assert v[|before| + 4 * k + 3] == (before + EncodeSuites(ss))[|before| + 4 * k + 3];
    }
  }

  lemma TailParsed(e: Element, head: seq<byte>, rest: seq<byte>)
    requires |e.akms| < 0x1_0000
    ensures var v, at := head + EncodeTail(e) + rest, |head| + 2;
            && LittleEndian(v, |head|) == |e.akms|
            && Suites(v, at, |e.akms|) == Kinds(e.akms)
            && LittleEndian(v, at + 4 * |e.akms|) == e.caps
  {
    var v := head + EncodeTail(e) + rest;
    var akms := head + Encode16(|e.akms|);
    assert v == akms + (EncodeSuites(e.akms) + Encode16(e.caps) + rest);
    LittleEndianAt(head, |e.akms|, EncodeSuites(e.akms) + Encode16(e.caps) + rest);
    assert v == (akms + EncodeSuites(e.akms)) + Encode16(e.caps) + rest;
    SuitesOfEncoded(akms, e.akms, v);
    LittleEndianAt(akms + EncodeSuites(e.akms), e.caps, rest);
  }

  /** Round trip: whatever follows the element, parsing returns the suite types,
      the group cipher and the capabilities that were encoded. */
  lemma ParseEncoded(e: Element, rest: seq<byte>)
    requires |e.pairwise| < 0x1_0000 && |e.akms| < 0x1_0000
    ensures Parse(Encode(e) + rest) == Info(Kinds(e.akms), Kinds(e.pairwise), e.group.kind, Some(e.caps))
  {
    ParsePrefixHead(e, Encode(e) + rest);
    TailParsed(e, EncodeHead(e), rest);
  }

  /** The tail cut short after its count. */
  lemma TailCut(e: Element, head: seq<byte>, n: nat)
    requires |e.akms| < 0x1_0000 && |head| + 2 <= n <= |head + EncodeTail(e)|
    ensures var v := (head + EncodeTail(e))[..n];
            LittleEndian(v, |head|) == |e.akms| && Suites(v, |head| + 2, |e.akms|) <= Kinds(e.akms)
  {
    var whole := head + EncodeTail(e);
    var v := whole[..n];
    var akms := head + Encode16(|e.akms|);
    assert whole == akms + (EncodeSuites(e.akms) + Encode16(e.caps));
    LittleEndianAt(head, |e.akms|, EncodeSuites(e.akms) + Encode16(e.caps));
    assert v[|head|] == whole[|head|] && v[|head| + 1] == whole[|head| + 1];
    assert whole == akms + EncodeSuites(e.akms) + Encode16(e.caps);
    SuitesOfEncoded(akms, e.akms, v);
  }

  /** What holds of any bytes that agree with the element's head as far as they
      go: the group and the pairwise list read so far. */
  lemma ParsePrefixHead(e: Element, v: seq<byte>)
    requires |e.pairwise| < 0x1_0000
    requires v <= EncodeHead(e) || EncodeHead(e) <= v
    ensures |v| >= 6 ==> Parse(v).group == e.group.kind
    ensures Parse(v).ciphers <= Kinds(e.pairwise)
    ensures EncodeHead(e) <= v ==> Parse(v).ciphers == Kinds(e.pairwise)
  {
    var fixed := Encode16(e.version) + EncodeSuite(e.group);
    var head := EncodeHead(e);
    assert head == fixed + Encode16(|e.pairwise|) + EncodeSuites(e.pairwise);
    if |v| >= 6 {
      assert v[5] == head[5] == fixed[5] == e.group.kind;
    }
    if |v| >= 8 {
      var before := fixed + Encode16(|e.pairwise|);
      assert before <= head;
      LittleEndianAt(fixed, |e.pairwise|, EncodeSuites(e.pairwise));
      assert v[6] == head[6] && v[7] == head[7];
      assert v[..8] == before;
      SuitesOfEncoded(before, e.pairwise, v);
    }
  }

  /** For every truncation, the parsed cipher and AKM lists are prefixes of the
      true ones. */
  lemma TruncationGivesPrefixes(e: Element, n: nat)
    requires |e.pairwise| < 0x1_0000 && |e.akms| < 0x1_0000 && n <= |Encode(e)|
    ensures Parse(Encode(e)[..n]).ciphers <= Kinds(e.pairwise)
    ensures Parse(Encode(e)[..n]).akms <= Kinds(e.akms)
  {
    var head := EncodeHead(e);
    var v := Encode(e)[..n];
    assert if n <= |head| then v == head[..n] else head == v[..|head|];
    ParsePrefixHead(e, v);
    if n >= |head| + 2 {
      TailCut(e, head, n);
    } else {
      ShortHasNoAkms(e, v);
    }
  }

  lemma ShortHasNoAkms(e: Element, v: seq<byte>)
    requires |e.pairwise| < 0x1_0000
    requires |v| < |EncodeHead(e)| + 2 && (v <= EncodeHead(e) || EncodeHead(e) <= v)
    ensures Parse(v).akms == []
  {
    ParsePrefixHead(e, v);
    if v <= EncodeHead(e) && |v| >= 8 {
      var fixed := Encode16(e.version) + EncodeSuite(e.group);
      assert EncodeHead(e) == fixed + Encode16(|e.pairwise|) + EncodeSuites(e.pairwise);
      LittleEndianAt(fixed, |e.pairwise|, EncodeSuites(e.pairwise));
      assert v[6] == EncodeHead(e)[6] && v[7] == EncodeHead(e)[7];
      SuitesExact(v, 8, |e.pairwise|);
    }
  }
}
