/** Beacon and probe-response bodies: the walk over information elements
    (section 9.4.2.1 of IEEE Std 802.11-2020) and what is derived from them. */
module Beacon {
  import opened Sequences
  import Rsn

  type byte = Rsn.byte

  datatype Element = Element(tag: byte, value: seq<byte>)

  datatype Mfp = NoMfp | Capable | Required

  // The fields and flags the walk updates, by what they describe; every tag
  // touches one group.

  datatype Network = Network(ssid: seq<byte>, dtimPeriod: nat, country: seq<byte>, load: Option<(nat, byte)>)

  datatype Security = Security(hasRsn: bool, hasWpa: bool, wps: bool, akms: seq<byte>, ciphers: seq<byte>, group: byte, mfp: Mfp)

  datatype Phy = Phy(ht: bool, vht: bool, he: bool, eht: bool, width: nat)

  /** 802.11k, r and v. */
  datatype Roaming = Roaming(rm: bool, ft: bool, btm: bool)

  /** Rates in Mbit/s and spatial streams. */
  datatype Rates = Rates(legacyMax: real, htStreams: nat, vhtStreams: nat)

  datatype Facts = Facts(network: Network, security: Security, phy: Phy, roaming: Roaming, rates: Rates)

  const START := Facts(Network([], 0, [], None), Security(false, false, false, [], [], 0, NoMfp),
                       Phy(false, false, false, false, 20), Roaming(false, false, false), Rates(0.0, 0, 0))

  predicate Bit(b: int, mask: nat)
    requires mask > 0
  {
    b / mask % 2 == 1
  }

  predicate IsCapital(b: byte) {
    'A' as int <= b <= 'Z' as int
  }

  /** A Microsoft vendor element (OUI 00:50:F2) of the given type. */
  predicate Vendor(v: seq<byte>, kind: byte) {
    |v| >= 4 && v[0] == 0x00 && v[1] == 0x50 && v[2] == 0xF2 && v[3] == kind
  }

  /** An extension element (tag 255) of the given extended id. */
  predicate Extension(v: seq<byte>, id: byte) {
    |v| >= 1 && v[0] == id
  }

  function VisitNetwork(n: Network, tag: byte, v: seq<byte>): Network {
    match tag
    case 0 => if |v| > 0 then n.(ssid := v) else n
    case 5 => if |v| >= 2 then n.(dtimPeriod := v[1]) else n
    case 7 => if |v| >= 2 && IsCapital(v[0]) && IsCapital(v[1]) then n.(country := v[..2]) else n
    case 11 => if |v| >= 3 then n.(load := Some((Rsn.LittleEndian(v, 0), v[2]))) else n
    case _ => n
  }

  function VisitRsn(s: Security, r: Rsn.Info): Security {
    s.(hasRsn := true, akms := s.akms + r.akms, ciphers := s.ciphers + r.ciphers,
       group := if r.group != 0 then r.group else s.group,
       mfp := if r.caps.Some? && Bit(r.caps.value, 0x40) then Required
              else if r.caps.Some? && Bit(r.caps.value, 0x80) then Capable else s.mfp)
  }

  function VisitSecurity(s: Security, tag: byte, v: seq<byte>): Security {
    match tag
    case 48 => VisitRsn(s, Rsn.Parse(v))
    case 221 => if Vendor(v, 1) then s.(hasWpa := true) else if Vendor(v, 4) then s.(wps := true) else s
    case _ => s
  }

  function VisitPhy(p: Phy, tag: byte, v: seq<byte>): Phy {
    match tag
    case 45 => p.(ht := true)
    case 61 => if |v| >= 2 && v[1] % 4 != 0 && p.width < 40 then p.(width := 40) else p
    case 191 => p.(vht := true)
    case 192 =>
      if |v| >= 3 && v[0] >= 1 then
        if v[2] != 0 || v[0] >= 2 then p.(width := 160)
        else if p.width < 80 then p.(width := 80) else p
      else p
    case 255 => if Extension(v, 35) then p.(he := true) else if Extension(v, 108) then p.(eht := true) else p
    case _ => p
  }

  function VisitRoaming(r: Roaming, tag: byte, v: seq<byte>): Roaming {
    match tag
    case 54 => r.(ft := true)
    case 70 => r.(rm := true)
    case 127 => if |v| >= 3 && Bit(v[2], 0x08) then r.(btm := true) else r
    case _ => r
  }

  /** A rate byte counts units of 500 kbit/s; its top bit marks a basic rate. */
  function Mbps(b: byte): real {
    (b % 128) as real * 0.5
  }

  function Fastest(v: seq<byte>, atLeast: real): real {
    if v == [] then atLeast
    else
      var before, mbps := Fastest(v[..|v| - 1], atLeast), Mbps(v[|v| - 1]);
      if mbps > before then mbps else before
  }

  /** Which of the four HT streams are supported: the receive mask has one byte a
      stream, from offset 3. */
  function HtMask(v: seq<byte>): (r: seq<bool>)
    ensures |r| == 4
  {
    seq(4, s requires 0 <= s < 4 => 3 + s < |v| && v[3 + s] != 0)
  }

  /** The two bits the VHT receive map has for a stream; 3 says unsupported. */
  function StreamBits(low: byte, high: byte, s: nat): nat
    requires s < 8
  {
    var b := if s < 4 then low else high;
    if s % 4 == 0 then b % 4 else if s % 4 == 1 then b / 4 % 4 else if s % 4 == 2 then b / 16 % 4 else b / 64
  }

  function VhtMask(v: seq<byte>): (r: seq<bool>)
    ensures |r| == 8
  {
    seq(8, s requires 0 <= s < 8 => |v| >= 6 && StreamBits(v[4], v[5], s) != 3)
  }

  /** The highest stream of a mask, or what was known before. */
  function Highest(mask: seq<bool>, before: nat): nat {
    if mask == [] then before else if mask[|mask| - 1] then |mask| else Highest(mask[..|mask| - 1], before)
  }

  function VisitRates(r: Rates, tag: byte, v: seq<byte>): Rates {
    if tag == 1 || tag == 50 then r.(legacyMax := Fastest(v, r.legacyMax))
    else if tag == 45 then r.(htStreams := Highest(HtMask(v), r.htStreams))
    else if tag == 191 then r.(vhtStreams := Highest(VhtMask(v), r.vhtStreams))
    else r
  }

  /** The rate and stream loops of one element. */
  method TakeRates(r: Rates, tag: byte, v: seq<byte>) returns (q: Rates)
    ensures q == VisitRates(r, tag, v)
  {
    q := r;
    if tag == 1 || tag == 50 {
      for k := 0 to |v|
        invariant q == r.(legacyMax := Fastest(v[..k], r.legacyMax))
      {
        assert v[..k + 1][..k] == v[..k];
        var mbps := Mbps(v[k]);
        if mbps > q.legacyMax {
          q := q.(legacyMax := mbps);
        }
      }
      assert v[..|v|] == v;
    } else if tag == 45 {
      var n := CountHtStreams(v, r.htStreams);
      q := r.(htStreams := n);
    } else if tag == 191 {
      var n := CountVhtStreams(v, r.vhtStreams);
      q := r.(vhtStreams := n);
    }
  }

  method CountHtStreams(v: seq<byte>, before: nat) returns (n: nat)
    ensures n == Highest(HtMask(v), before)
  {
    n := before;
    var s := 0;
    while s < 4 && 3 + s < |v|
      invariant s <= 4 && n == Highest(HtMask(v)[..s], before)
    {
      assert HtMask(v)[..s + 1][..s] == HtMask(v)[..s];
      if v[3 + s] != 0 {
        n := s + 1;
      }
      s := s + 1;
    }
    NothingAbove(HtMask(v), s, before);
  }

  lemma {:induction false} NothingAbove(mask: seq<bool>, s: nat, before: nat)
    requires s <= |mask| && forall k | s <= k < |mask| :: !mask[k]
    ensures Highest(mask, before) == Highest(mask[..s], before)
    decreases |mask|
  {
    if s == |mask| {
      assert mask[..s] == mask;
    } else {
      assert mask[..|mask| - 1][..s] == mask[..s];
      NothingAbove(mask[..|mask| - 1], s, before);
    }
  }

  method CountVhtStreams(v: seq<byte>, before: nat) returns (n: nat)
    ensures n == Highest(VhtMask(v), before)
  {
    n := before;
    if |v| < 6 {
      NothingAbove(VhtMask(v), 0, before);
      return;
    }
    for s := 0 to 8
      invariant n == Highest(VhtMask(v)[..s], before)
    {
      assert VhtMask(v)[..s + 1][..s] == VhtMask(v)[..s];
      if StreamBits(v[4], v[5], s) != 3 {
        n := s + 1;
      }
    }
    assert VhtMask(v)[..8] == VhtMask(v);
  }

  /** One element of the switch; unknown tags change nothing. */
  function Visit(f: Facts, e: Element): Facts {
    Facts(VisitNetwork(f.network, e.tag, e.value), VisitSecurity(f.security, e.tag, e.value),
          VisitPhy(f.phy, e.tag, e.value), VisitRoaming(f.roaming, e.tag, e.value), VisitRates(f.rates, e.tag, e.value))
  }

  function Visited(es: seq<Element>): Facts {
    if es == [] then START else Visit(Visited(es[..|es| - 1]), es[|es| - 1])
  }

  /** The elements of a byte string up to the first that does not fit. */
  function Elements(data: seq<byte>): seq<Element> {
    if |data| < 2 || 2 + data[1] > |data| then []
    else [Element(data[0], data[2..2 + data[1]])] + Elements(data[2 + data[1]..])
  }

  // ---------------------------------------------------------------------
  // Labels
  // ---------------------------------------------------------------------

  function Label(privacy: bool, hasWpa: bool, hasRsn: bool, akms: seq<byte>): string {
    if !hasRsn && !hasWpa then if privacy then "WEP" else "Open"
    else
      var dot1x := 1 in akms || 5 in akms;
      var psk := 2 in akms || 6 in akms;
      var sae := 8 in akms || 9 in akms;
      var suiteB := 12 in akms || 13 in akms;
      if 18 in akms then "OWE"
      else if sae && psk then "WPA2/WPA3"
      else if sae then "WPA3"
      else if suiteB then "WPA3-Ent"
      else if dot1x then "WPA2-Ent"
      else if psk && hasWpa then "WPA/WPA2"
      else if hasRsn then "WPA2"
      else "WPA"
  }

  /** The label in words: nothing protected, only privacy, or protected and then by
      which keys the frame offers. */
  lemma LabelExact(privacy: bool, hasWpa: bool, hasRsn: bool, akms: seq<byte>)
    ensures var shown := Label(privacy, hasWpa, hasRsn, akms);
            var secured, owe := hasRsn || hasWpa, exists a | a in akms :: a == 18;
            var psk, sae := (exists a | a in akms :: a == 2 || a == 6), exists a | a in akms :: a == 8 || a == 9;
            var suiteB, dot1x := (exists a | a in akms :: a == 12 || a == 13), exists a | a in akms :: a == 1 || a == 5;
            && (shown == "Open" <==> !secured && !privacy)
            && (shown == "WEP" <==> !secured && privacy)
            && (shown == "OWE" <==> secured && owe)
            && (shown == "WPA2/WPA3" <==> secured && !owe && sae && psk)
            && (shown == "WPA3" <==> secured && !owe && sae && !psk)
            && (shown == "WPA3-Ent" <==> secured && !owe && !sae && suiteB)
            && (shown == "WPA2-Ent" <==> secured && !owe && !sae && !suiteB && dot1x)
            && (shown == "WPA/WPA2" <==> hasWpa && psk && !owe && !sae && !suiteB && !dot1x)
            && (shown == "WPA2" <==> hasRsn && !(hasWpa && psk) && !owe && !sae && !suiteB && !dot1x)
            && (shown == "WPA" <==> hasWpa && !hasRsn && !psk && !owe && !sae && !suiteB && !dot1x)
  {
    LabelsDiffer(Label(privacy, hasWpa, hasRsn, akms));
  }

  /** The ten labels are ten different strings. */
  lemma LabelsDiffer(shown: string)
    ensures shown == "Open" ==> shown[0] == 'O' && |shown| == 4
    ensures shown == "OWE" ==> shown[0] == 'O' && |shown| == 3
    ensures shown == "WEP" ==> |shown| == 3 && shown[1] == 'E'
    ensures shown == "WPA" ==> |shown| == 3 && shown[1] == 'P'
    ensures shown == "WPA2" ==> |shown| == 4 && shown[3] == '2'
    ensures shown == "WPA3" ==> |shown| == 4 && shown[3] == '3'
    ensures shown == "WPA2-Ent" ==> |shown| == 8 && shown[3] == '2'
    ensures shown == "WPA3-Ent" ==> |shown| == 8 && shown[3] == '3'
    ensures shown == "WPA/WPA2" ==> |shown| == 8 && shown[3] == '/'
    ensures shown == "WPA2/WPA3" ==> |shown| == 9
  {
  }

  method SecurityLabel(privacy: bool, hasWpa: bool, hasRsn: bool, akms: seq<byte>) returns (shown: string)
    ensures shown == Label(privacy, hasWpa, hasRsn, akms)
  {
    if !hasRsn && !hasWpa {
      return if privacy then "WEP" else "Open";
    }
    var psk, sae, dot1x, suiteB, owe := false, false, false, false, false;
    for k := 0 to |akms|
      invariant dot1x <==> 1 in akms[..k] || 5 in akms[..k]
      invariant psk <==> 2 in akms[..k] || 6 in akms[..k]
      invariant sae <==> 8 in akms[..k] || 9 in akms[..k]
      invariant suiteB <==> 12 in akms[..k] || 13 in akms[..k]
      invariant owe <==> 18 in akms[..k]
    {
      assert akms[..k + 1] == akms[..k] + [akms[k]];
      var a := akms[k];
      if a == 1 || a == 5 {
        dot1x := true;
      } else if a == 2 || a == 6 {
        psk := true;
      } else if a == 8 || a == 9 {
        sae := true;
      } else if a == 12 || a == 13 {
        suiteB := true;
      } else if a == 18 {
        owe := true;
      }
    }
    assert akms[..|akms|] == akms;
    shown := if owe then "OWE"
             else if sae && psk then "WPA2/WPA3"
             else if sae then "WPA3"
             else if suiteB then "WPA3-Ent"
             else if dot1x then "WPA2-Ent"
             else if psk && hasWpa then "WPA/WPA2"
             else if hasRsn then "WPA2"
             else "WPA";
  }

  function Named(present: bool, name: string): seq<string> {
    if present then [name] else []
  }

  function CipherName(b: byte): string {
    match b
    case 1 => "WEP-40"
    case 2 => "TKIP"
    case 4 => "CCMP"
    case 5 => "WEP-104"
    case 8 => "GCMP"
    case 9 => "GCMP-256"
    case 10 => "CCMP-256"
    case _ => "type-" + Decimal(b)
  }

  function AkmName(b: byte): string {
    match b
    case 1 => "802.1X"
    case 2 => "PSK"
    case 3 => "FT-802.1X"
    case 4 => "FT-PSK"
    case 5 => "802.1X-SHA256"
    case 6 => "PSK-SHA256"
    case 8 => "SAE"
    case 9 => "FT-SAE"
    case 11 => "802.1X-SuiteB"
    case 12 => "802.1X-SuiteB-192"
    case 13 => "FT-802.1X-SHA384"
    case 18 => "OWE"
    case _ => "type-" + Decimal(b)
  }

  /** The names of a list of suites, each where it first occurs. */
  function FirstNames(names: byte -> string, list: seq<byte>): seq<string> {
    if list == [] then []
    else
      var before, name := FirstNames(names, list[..|list| - 1]), names(list[|list| - 1]);
      if name in before then before else before + [name]
  }

  method Names(names: byte -> string, list: seq<byte>) returns (parts: seq<string>)
    ensures parts == FirstNames(names, list)
  {
    parts := [];
    var seen := {};
    for k := 0 to |list|
      invariant parts == FirstNames(names, list[..k])
      invariant forall s :: s in seen <==> s in parts
    {
      assert list[..k + 1][..k] == list[..k];
      var s := names(list[k]);
      if s !in seen {
        seen := seen + {s};
        parts := parts + [s];
      }
    }
    assert list[..|list|] == list;
  }

  /** Every suite is named exactly once, whatever is repeated in the element. */
  lemma {:induction false} FirstNamesExact(names: byte -> string, list: seq<byte>)
    ensures forall s :: s in FirstNames(names, list) <==> exists b | b in list :: names(b) == s
    ensures forall i, j | 0 <= i < j < |FirstNames(names, list)| :: FirstNames(names, list)[i] != FirstNames(names, list)[j]
  {
    if list != [] {
      var init, last := list[..|list| - 1], list[|list| - 1];
      FirstNamesExact(names, init);
      assert list == init + [last];
      forall s
        ensures s in FirstNames(names, list) <==> exists b | b in list :: names(b) == s
      {
        assert s in FirstNames(names, list) <==> s in FirstNames(names, init) || s == names(last);
        assert last in list && forall b :: b in list <==> b in init || b == last;
      }
    }
  }

  function JoinedBy(parts: seq<string>, glue: string): string {
    if parts == [] then "" else if |parts| == 1 then parts[0] else parts[0] + glue + JoinedBy(parts[1..], glue)
  }

  /** Joining is what it should be: a part alone is itself, and two lists are joined
      by one more separator. */
  lemma {:induction false} JoinedExact(a: seq<string>, b: seq<string>, glue: string)
    ensures |a| == 1 ==> JoinedBy(a, glue) == a[0]
    ensures a != [] && b != [] ==> JoinedBy(a + b, glue) == JoinedBy(a, glue) + glue + JoinedBy(b, glue)
    decreases |a|
  {
    if a != [] && b != [] {
      assert a + b == [a[0]] + (a[1..] + b);
      assert (a + b)[1..] == a[1..] + b;
      if |a| > 1 {
        JoinedExact(a[1..], b, glue);
        ConcatAssociates(a[0] + glue, JoinedBy(a[1..], glue), glue + JoinedBy(b, glue));
        ConcatAssociates(JoinedBy(a[1..], glue), glue, JoinedBy(b, glue));
        ConcatAssociates(a[0] + glue + JoinedBy(a[1..], glue), glue, JoinedBy(b, glue));
      } else {
        assert a[1..] + b == b;
      }
    }
  }

  function Detail(akms: seq<byte>, ciphers: seq<byte>): string {
    var aParts, cParts := FirstNames(AkmName, akms), FirstNames(CipherName, ciphers);
    if aParts == [] then ""
    else JoinedBy(aParts, "+") + if cParts == [] then "" else " \U{00B7} " + JoinedBy(cParts, "/")
  }

  method SecurityDetail(akms: seq<byte>, ciphers: seq<byte>) returns (out: string)
    ensures out == Detail(akms, ciphers)
  {
    var aParts := Names(AkmName, akms);
    var cParts := Names(CipherName, ciphers);
    if |aParts| == 0 {
      return "";
    }
    out := JoinedBy(aParts, "+");
    if |cParts| > 0 {
      out := out + " \U{00B7} " + JoinedBy(cParts, "/");
    }
  }

  /** Mbit/s per stream by channel width, for the newest generation present. */
  function PerStream(ht: bool, vht: bool, he: bool): map<nat, real> {
    if he then map[20 := 143.4, 40 := 287.1, 80 := 600.5, 160 := 1201.0]
    else if vht then map[20 := 86.7, 40 := 200.0, 80 := 433.3, 160 := 866.7]
    else if ht then map[20 := 72.2, 40 := 150.0]
    else map[]
  }

  /** The greatest rate of the table at or below a width, 0 for none. */
  ghost predicate ClampedRate(table: map<nat, real>, width: nat, rate: real) {
    && (forall w | w in table && w <= width :: table[w] <= rate)
    && (rate == 0.0 || exists w | w in table && w <= width :: table[w] == rate)
  }

  function Rate(ht: bool, vht: bool, he: bool, width: nat): real {
    if width < 20 then 0.0
    else if he then if width < 40 then 143.4 else if width < 80 then 287.1 else if width < 160 then 600.5 else 1201.0
    else if vht then if width < 40 then 86.7 else if width < 80 then 200.0 else if width < 160 then 433.3 else 866.7
    else if width < 40 then 72.2 else 150.0
  }

  function MaxRate(p: Phy, streams: nat, legacyMax: real): real {
    if !p.ht && !p.vht && !p.he && !p.eht then legacyMax
    else Rate(p.ht, p.vht, p.he || p.eht, p.width) * (if streams == 0 then 1 else streams) as real
  }

  lemma RateIsClamped(ht: bool, vht: bool, he: bool, width: nat, rate: real)
    requires ht || vht || he
    requires ClampedRate(PerStream(ht, vht, he), width, rate)
    ensures rate == Rate(ht, vht, he, width)
  {
    var table := PerStream(ht, vht, he);
    assert 20 in table && 40 in table && ((vht || he) <==> 80 in table) && ((vht || he) <==> 160 in table);
    if rate == 0.0 {
      assert width < 20;
    } else {
      var w :| w in table && w <= width && table[w] == rate;
      assert w in {20, 40, 80, 160};
    }
  }

  lemma ListedIsClamped(ht: bool, vht: bool, he: bool, width: nat)
    requires width in PerStream(ht, vht, he)
    ensures ClampedRate(PerStream(ht, vht, he), width, PerStream(ht, vht, he)[width])
  {
  }

  method EstimateMaxRate(p: Phy, streams: nat, legacyMax: real) returns (mbps: real)
    ensures mbps == MaxRate(p, streams, legacyMax)
  {
    var he := p.he || p.eht;
    if !p.ht && !p.vht && !he {
      return legacyMax;
    }
    var rate := StreamRate(p.ht, p.vht, he, p.width);
    var n := if streams == 0 then 1 else streams;
    mbps := rate * n as real;
  }

  method StreamRate(ht: bool, vht: bool, he: bool, width: nat) returns (rate: real)
    requires ht || vht || he
    ensures rate == Rate(ht, vht, he, width)
  {
    var table := PerStream(ht, vht, he);
    if width in table {
      rate := table[width];
      ListedIsClamped(ht, vht, he, width);
    } else {
      rate := Clamp(table, width);
    }
    RateIsClamped(ht, vht, he, width, rate);
  }

  /** The walk over the table, in any order. */
  method Clamp(table: map<nat, real>, width: nat) returns (rate: real)
    requires forall w | w in table :: table[w] > 0.0
    ensures ClampedRate(table, width, rate)
  {
    rate := 0.0;
    var todo := table.Keys;
    while todo != {}
      invariant todo <= table.Keys && rate >= 0.0
      invariant forall w | w in table && w !in todo && w <= width :: table[w] <= rate
      invariant rate == 0.0 || exists w | w in table && w <= width :: table[w] == rate
    {
      var w :| w in todo;
      todo := todo - {w};
      if w <= width && table[w] > rate {
        rate := table[w];
      }
    }
  }

  /** A wider channel or more streams never lower the estimate of a generation. */
  lemma RateGrows(ht: bool, vht: bool, he: bool, width: nat, width': nat, n: nat, n': nat)
    requires width <= width' && n <= n'
    ensures Rate(ht, vht, he, width) * n as real <= Rate(ht, vht, he, width') * n' as real
  {
    ProductGrows(Rate(ht, vht, he, width), Rate(ht, vht, he, width'), n as real, n' as real);
  }

  lemma ProductGrows(x: real, x': real, n: real, n': real)
    requires 0.0 <= x <= x' && 0.0 <= n <= n'
    ensures x * n <= x' * n'
  {
    assert (x' - x) * n >= 0.0;
    assert x' * (n' - n) >= 0.0;
  }

  /** The estimate grows with the streams from that of a single one, none counting as
      one, and without a generation is the legacy rate. */
  lemma MaxRateExact(p: Phy, n: nat, legacyMax: real)
    ensures !p.ht && !p.vht && !p.he && !p.eht ==> MaxRate(p, n, legacyMax) == legacyMax
    ensures p.ht || p.vht || p.he || p.eht ==>
              && MaxRate(p, 0, legacyMax) == MaxRate(p, 1, legacyMax)
              && ClampedRate(PerStream(p.ht, p.vht, p.he || p.eht), p.width, MaxRate(p, 1, legacyMax))
              && (n > 0 ==> MaxRate(p, n, legacyMax) == MaxRate(p, 1, legacyMax) * n as real)
  {
    if p.ht || p.vht || p.he || p.eht {
      ClampedIsRate(p.ht, p.vht, p.he || p.eht, p.width);
    }
  }

  lemma ClampedIsRate(ht: bool, vht: bool, he: bool, width: nat)
    requires ht || vht || he
    ensures ClampedRate(PerStream(ht, vht, he), width, Rate(ht, vht, he, width))
  {
    var table := PerStream(ht, vht, he);
    var w := if width < 40 then 20 else if width < 80 || !(vht || he) then 40 else if width < 160 then 80 else 160;
    assert w in table;
  }

  datatype Report = Report(intervalTu: nat, facts: Facts, security: string, standards: string, roaming: string,
                           securityDetail: string, groupCipher: string, streams: nat, maxRateMbps: real)

  function Max(a: nat, b: nat): nat {
    if a < b then b else a
  }

  function GroupName(group: byte): string {
    if group == 0 then "" else CipherName(group)
  }

  function StandardsOf(p: Phy): seq<string> {
    Named(p.ht, "n") + Named(p.vht, "ac") + Named(p.he, "ax") + Named(p.eht, "be")
  }

  function AmendmentsOf(r: Roaming): seq<string> {
    Named(r.rm, "k") + Named(r.ft, "r") + Named(r.btm, "v")
  }

  function ReportOf(intervalTu: nat, privacy: bool, f: Facts): Report {
    var streams := Max(f.rates.htStreams, f.rates.vhtStreams);
    Report(intervalTu, f, Label(privacy, f.security.hasWpa, f.security.hasRsn, f.security.akms),
           JoinedBy(StandardsOf(f.phy), "/"), JoinedBy(AmendmentsOf(f.roaming), "/"),
           Detail(f.security.akms, f.security.ciphers), GroupName(f.security.group),
           streams, MaxRate(f.phy, streams, f.rates.legacyMax))
  }

  /** None stands for the zero result of a body without its fixed part. */
  function Parsed(body: seq<byte>): Option<Report> {
    if |body| < 12 then None
    else Some(ReportOf(Rsn.LittleEndian(body, 8), Bit(body[10], 0x10), Visited(Elements(body[12..]))))
  }

  /** Having taken `done`, the walk stands at i. */
  ghost predicate StandsAt(data: seq<byte>, i: nat, done: seq<Element>) {
    i <= |data| && done + Elements(data[i..]) == Elements(data)
  }

  method Walk(data: seq<byte>) returns (f: Facts)
    ensures f == Visited(Elements(data))
  {
    f := START;
    ghost var done: seq<Element> := [];
    var i := 0;
    assert data[0..] == data;
    while i + 2 <= |data|
      invariant 0 <= i && StandsAt(data, i, done) && f == Visited(done)
    {
      if i + 2 + data[i + 1] > |data| {
        break;
      }
      f := TakeElement(data, i, f, done);
      done := done + [ElementAt(data, i)];
      i := i + 2 + data[i + 1];
    }
    WalkStops(data, i, done);
  }

  /** One element that fits, from its tag and length bytes on. */
  method TakeElement(data: seq<byte>, i: nat, f: Facts, ghost done: seq<Element>) returns (next: Facts)
    requires i + 2 <= |data| && i + 2 + data[i + 1] <= |data| && StandsAt(data, i, done) && f == Visited(done)
    ensures next == Visited(done + [ElementAt(data, i)])
    ensures StandsAt(data, i + 2 + data[i + 1], done + [ElementAt(data, i)])
  {
    var e := ElementAt(data, i);
    VisitedSnoc(done, e);
    ElementTaken(data, i, done, e);
    var rates := TakeRates(f.rates, e.tag, e.value);
    next := Facts(VisitNetwork(f.network, e.tag, e.value), VisitSecurity(f.security, e.tag, e.value),
                  VisitPhy(f.phy, e.tag, e.value), VisitRoaming(f.roaming, e.tag, e.value), rates);
  }

  function ElementAt(data: seq<byte>, i: nat): Element
    requires i + 2 <= |data| && i + 2 + data[i + 1] <= |data|
  {
    Element(data[i], data[i + 2..i + 2 + data[i + 1]])
  }

  lemma VisitedSnoc(done: seq<Element>, e: Element)
    ensures Visited(done + [e]) == Visit(Visited(done), e)
  {
    assert (done + [e])[..|done|] == done;
  }

  lemma ElementTaken(data: seq<byte>, i: nat, done: seq<Element>, e: Element)
    requires i + 2 <= |data| && i + 2 + data[i + 1] <= |data| && StandsAt(data, i, done)
    requires e == Element(data[i], data[i + 2..i + 2 + data[i + 1]])
    ensures StandsAt(data, i + 2 + data[i + 1], done + [e])
  {
    var here := data[i..];
    assert here[0] == data[i] && here[1] == data[i + 1];
    assert here[2..2 + here[1]] == e.value && here[2 + here[1]..] == data[i + 2 + data[i + 1]..];
    ConcatAssociates(done, [e], Elements(here[2 + here[1]..]));
  }

  lemma WalkStops(data: seq<byte>, i: nat, done: seq<Element>)
    requires StandsAt(data, i, done) && (i + 2 > |data| || i + 2 + data[i + 1] > |data|)
    ensures done == Elements(data)
  {
    assert i + 2 <= |data| ==> data[i..][1] == data[i + 1];
    assert Elements(data[i..]) == [];
    assert done + [] == done;
  }

  /** Every generation and amendment present is named, no other, oldest first. */
  lemma StandardsExact(p: Phy, r: Roaming)
    ensures ("n" in StandardsOf(p) <==> p.ht) && ("ac" in StandardsOf(p) <==> p.vht)
    ensures ("ax" in StandardsOf(p) <==> p.he) && ("be" in StandardsOf(p) <==> p.eht)
    ensures StandardsOf(p) == [] <==> !p.ht && !p.vht && !p.he && !p.eht
    ensures p.ht && p.vht && p.he && p.eht ==> StandardsOf(p) == ["n", "ac", "ax", "be"]
    ensures ("k" in AmendmentsOf(r) <==> r.rm) && ("r" in AmendmentsOf(r) <==> r.ft) && ("v" in AmendmentsOf(r) <==> r.btm)
    ensures r.rm && r.ft && r.btm ==> AmendmentsOf(r) == ["k", "r", "v"]
  {
    assert "n" != "ac" && "n" != "ax" && "n" != "be";
    assert "ac"[1] != "ax"[1] && "ac"[0] != "be"[0] && "ax"[0] != "be"[0];
    assert "k"[0] != "r"[0] && "k"[0] != "v"[0] && "r"[0] != "v"[0];
  }

  method Generations(p: Phy) returns (gens: seq<string>)
    ensures gens == StandardsOf(p)
  {
    gens := [];
    if p.ht {
      gens := gens + ["n"];
    }
    if p.vht {
      gens := gens + ["ac"];
    }
    if p.he {
      gens := gens + ["ax"];
    }
    if p.eht {
      gens := gens + ["be"];
    }
  }

  method Amendments(r: Roaming) returns (roam: seq<string>)
    ensures roam == AmendmentsOf(r)
  {
    roam := [];
    if r.rm {
      roam := roam + ["k"];
    }
    if r.ft {
      roam := roam + ["r"];
    }
    if r.btm {
      roam := roam + ["v"];
    }
  }

  /** The fields derived once the walk is over. */
  method Derive(intervalTu: nat, privacy: bool, f: Facts) returns (report: Report)
    ensures report == ReportOf(intervalTu, privacy, f)
  {
    var security := SecurityLabel(privacy, f.security.hasWpa, f.security.hasRsn, f.security.akms);
    var detail := SecurityDetail(f.security.akms, f.security.ciphers);
    var gens := Generations(f.phy);
    var roam := Amendments(f.roaming);
    var streams := Max(f.rates.htStreams, f.rates.vhtStreams);
    var mbps := EstimateMaxRate(f.phy, streams, f.rates.legacyMax);
    report := Report(intervalTu, f, security, JoinedBy(gens, "/"), JoinedBy(roam, "/"), detail,
                     GroupName(f.security.group), streams, mbps);
  }

  method ParseBeaconBody(body: seq<byte>) returns (report: Option<Report>)
    ensures report == Parsed(body)
  {
    if |body| < 12 {
      return None;
    }
    var f := Walk(body[12..]);
    var r := Derive(Rsn.LittleEndian(body, 8), Bit(body[10], 0x10), f);
    report := Some(r);
  }

  // ---------------------------------------------------------------------
  // The walk is exact
  // ---------------------------------------------------------------------

  predicate Encodable(es: seq<Element>) {
    forall i | 0 <= i < |es| :: |es[i].value| < 256
  }

  function Encode(es: seq<Element>): seq<byte>
    requires Encodable(es)
  {
    if es == [] then [] else [es[0].tag, |es[0].value|] + es[0].value + Encode(es[1..])
  }

  /** A tail the loop cannot take an element from. */
  predicate Truncated(tail: seq<byte>) {
    |tail| < 2 || 2 + tail[1] > |tail|
  }

  /** On encoded elements followed by a truncated tail the walk visits exactly
      those elements, in order. */
  lemma {:induction false} WalkVisitsEncoded(es: seq<Element>, tail: seq<byte>)
    requires Encodable(es) && Truncated(tail)
    ensures Elements(Encode(es) + tail) == es
  {
    if es == [] {
      assert Encode(es) + tail == tail;
    } else {
      var e, rest := es[0], Encode(es[1..]) + tail;
      WalkVisitsEncoded(es[1..], tail);
      ElementsCons(e, rest);
      EncodeSplits(es, tail);
    }
  }

  lemma EncodeSplits(es: seq<Element>, tail: seq<byte>)
    requires Encodable(es) && es != []
    ensures es == [es[0]] + es[1..]
    ensures Encode(es) + tail == [es[0].tag, |es[0].value|] + es[0].value + (Encode(es[1..]) + tail)
  {
    ConcatAssociates([es[0].tag, |es[0].value|] + es[0].value, Encode(es[1..]), tail);
  }

  lemma ElementsCons(e: Element, rest: seq<byte>)
    requires |e.value| < 256
    ensures Elements([e.tag, |e.value|] + e.value + rest) == [e] + Elements(rest)
  {
    var data := [e.tag, |e.value|] + e.value + rest;
    assert data[0] == e.tag && data[1] == |e.value|;
    assert data[2..2 + |e.value|] == e.value && data[2 + |e.value|..] == rest;
  }

  /** Conversely, every byte string is the encoding of the elements the walk
      finds in it followed by a truncated tail. */
  lemma {:induction false} WalkCoversBytes(data: seq<byte>) returns (tail: seq<byte>)
    ensures Encodable(Elements(data)) && Truncated(tail) && data == Encode(Elements(data)) + tail
  {
    if Truncated(data) {
      tail := data;
      assert data == [] + tail;
    } else {
      var rest := data[2 + data[1]..];
      tail := WalkCoversBytes(rest);
      FirstElementEncodes(data, tail);
    }
  }

  lemma FirstElementEncodes(data: seq<byte>, tail: seq<byte>)
    requires !Truncated(data)
    requires var rest := data[2 + data[1]..]; Encodable(Elements(rest)) && rest == Encode(Elements(rest)) + tail
    ensures Encodable(Elements(data)) && data == Encode(Elements(data)) + tail
  {
    var e, rest := Element(data[0], data[2..2 + data[1]]), data[2 + data[1]..];
    EncodeCons(e, Elements(rest));
    SplitFirst(data);
    ConcatAssociates([e.tag, |e.value|] + e.value, Encode(Elements(rest)), tail);
  }

  lemma SplitFirst(data: seq<byte>)
    requires !Truncated(data)
    ensures data == [data[0], data[1]] + data[2..2 + data[1]] + data[2 + data[1]..]
  {
  }

  lemma EncodeCons(e: Element, es: seq<Element>)
    requires |e.value| < 256 && Encodable(es)
    ensures Encodable([e] + es) && Encode([e] + es) == [e.tag, |e.value|] + e.value + Encode(es)
  {
    assert ([e] + es)[1..] == es;
  }

  // ---------------------------------------------------------------------
  // Where order does matter, the last usable element wins
  // ---------------------------------------------------------------------

  ghost predicate LastAt(es: seq<Element>, k: nat, usable: Element -> bool) {
    k < |es| && usable(es[k]) && forall j | k < j < |es| :: !usable(es[j])
  }

  predicate NamesSsid(e: Element) {
    e.tag == 0 && e.value != []
  }

  predicate NamesDtim(e: Element) {
    e.tag == 5 && |e.value| >= 2
  }

  predicate NamesCountry(e: Element) {
    e.tag == 7 && |e.value| >= 2 && IsCapital(e.value[0]) && IsCapital(e.value[1])
  }

  predicate NamesLoad(e: Element) {
    e.tag == 11 && |e.value| >= 3
  }

  predicate NamesGroup(e: Element) {
    e.tag == 48 && Rsn.Parse(e.value).group != 0
  }

  /** The capabilities field says whether management frames are protected. */
  predicate NamesMfp(e: Element) {
    e.tag == 48 && match Rsn.Parse(e.value).caps
                   case None => false
                   case Some(caps) => Bit(caps, 0x40) || Bit(caps, 0x80)
  }

  /** SSID, DTIM period, country and load are those of the last element that
      carries a usable one. */
  lemma {:induction false} LastNetworkWins(es: seq<Element>, k: nat)
    ensures var n := Visited(es).network;
            && (LastAt(es, k, NamesSsid) ==> n.ssid == es[k].value)
            && (LastAt(es, k, NamesDtim) ==> n.dtimPeriod == es[k].value[1])
            && (LastAt(es, k, NamesCountry) ==> n.country == es[k].value[..2])
            && (LastAt(es, k, NamesLoad) ==> n.load == Some((Rsn.LittleEndian(es[k].value, 0), es[k].value[2])))
  {
    if k + 1 < |es| {
      var init := es[..|es| - 1];
      assert init[k] == es[k];
      LastNetworkWins(init, k);
    }
  }

  /** So are the group cipher and the management-frame protection. */
  lemma {:induction false} LastSecurityWins(es: seq<Element>, k: nat)
    ensures var s := Visited(es).security;
            && (LastAt(es, k, NamesGroup) ==> s.group == Rsn.Parse(es[k].value).group)
            && (LastAt(es, k, NamesMfp) ==>
                  s.mfp == if Bit(Rsn.Parse(es[k].value).caps.value, 0x40) then Required else Capable)
  {
    if k + 1 < |es| {
      var init := es[..|es| - 1];
      assert init[k] == es[k];
      LastSecurityWins(init, k);
    }
  }

  predicate NamesHtStreams(e: Element) {
    e.tag == 45 && true in HtMask(e.value)
  }

  predicate NamesVhtStreams(e: Element) {
    e.tag == 191 && true in VhtMask(e.value)
  }

  /** The count is the highest stream set in the mask. */
  lemma {:induction false} HighestExact(mask: seq<bool>, before: nat)
    ensures var h := Highest(mask, before);
            if true !in mask then h == before
            else 1 <= h <= |mask| && mask[h - 1] && forall s | h <= s < |mask| :: !mask[s]
  {
    if mask != [] {
      HighestExact(mask[..|mask| - 1], before);
    }
  }

  lemma {:induction false} HighestForgets(mask: seq<bool>, before: nat)
    ensures Highest(mask, before) == if true in mask then Highest(mask, 0) else before
  {
    if mask != [] {
      assert mask == mask[..|mask| - 1] + [mask[|mask| - 1]];
      HighestForgets(mask[..|mask| - 1], before);
    }
  }

  lemma StreamsVisited(r: Rates, e: Element)
    ensures VisitRates(r, e.tag, e.value).htStreams == if NamesHtStreams(e) then Highest(HtMask(e.value), 0) else r.htStreams
    ensures VisitRates(r, e.tag, e.value).vhtStreams == if NamesVhtStreams(e) then Highest(VhtMask(e.value), 0) else r.vhtStreams
  {
    HighestForgets(HtMask(e.value), r.htStreams);
    HighestForgets(VhtMask(e.value), r.vhtStreams);
  }

  /** The stream counts are the highest streams named by the last capabilities
      elements that name any. */
  lemma {:induction false} LastStreamsWin(es: seq<Element>, k: nat)
    ensures LastAt(es, k, NamesHtStreams) ==> Visited(es).rates.htStreams == Highest(HtMask(es[k].value), 0)
    ensures LastAt(es, k, NamesVhtStreams) ==> Visited(es).rates.vhtStreams == Highest(VhtMask(es[k].value), 0)
  {
    if k < |es| {
      var init, e := es[..|es| - 1], es[|es| - 1];
      StreamsVisited(Visited(init).rates, e);
      if k + 1 < |es| {
        assert init[k] == es[k];
        LastStreamsWin(init, k);
      }
    }
  }

  /** Some element advertises this legacy rate. */
  ghost predicate Advertises(es: seq<Element>, mbps: real) {
    exists i, j | 0 <= i < |es| && 0 <= j < |es[i].value| :: (es[i].tag == 1 || es[i].tag == 50) && Mbps(es[i].value[j]) == mbps
  }

  ghost predicate IsFastest(v: seq<byte>, atLeast: real, mbps: real) {
    && atLeast <= mbps && (forall j | 0 <= j < |v| :: Mbps(v[j]) <= mbps)
    && (mbps == atLeast || exists j | 0 <= j < |v| :: Mbps(v[j]) == mbps)
  }

  lemma {:induction false} FastestExact(v: seq<byte>, atLeast: real)
    ensures IsFastest(v, atLeast, Fastest(v, atLeast))
  {
    if v != [] {
      var init, last := v[..|v| - 1], v[|v| - 1];
      FastestExact(init, atLeast);
      assert v == init + [last];
      if Fastest(v, atLeast) != atLeast {
        if Mbps(last) > Fastest(init, atLeast) {
          assert Mbps(v[|v| - 1]) == Fastest(v, atLeast);
        } else {
          var j :| 0 <= j < |init| && Mbps(init[j]) == Fastest(init, atLeast);
          assert Mbps(v[j]) == Fastest(v, atLeast);
        }
      }
    }
  }

  lemma AdvertisesSnoc(es: seq<Element>, e: Element, mbps: real)
    ensures Advertises(es + [e], mbps) <==>
            Advertises(es, mbps) || ((e.tag == 1 || e.tag == 50) && exists j | 0 <= j < |e.value| :: Mbps(e.value[j]) == mbps)
  {
    var longer := es + [e];
    assert longer[|es|] == e && forall i | 0 <= i < |es| :: longer[i] == es[i];
    if (e.tag == 1 || e.tag == 50) && exists j | 0 <= j < |e.value| :: Mbps(e.value[j]) == mbps {
      var j :| 0 <= j < |e.value| && Mbps(e.value[j]) == mbps;
      assert Mbps(longer[|es|].value[j]) == mbps;
    }
    if Advertises(es, mbps) {
      var i, j :| 0 <= i < |es| && 0 <= j < |es[i].value| && (es[i].tag == 1 || es[i].tag == 50) && Mbps(es[i].value[j]) == mbps;
      assert Mbps(longer[i].value[j]) == mbps;
    }
  }

  /** The legacy rate is the greatest any element of the frame advertises, 0 for
      none. */
  lemma {:induction false} LegacyIsFastest(es: seq<Element>)
    ensures var top := Visited(es).rates.legacyMax;
            && (top == 0.0 || Advertises(es, top))
            && forall mbps | Advertises(es, mbps) :: mbps <= top
  {
    if es != [] {
      var init, e := es[..|es| - 1], es[|es| - 1];
      LegacyIsFastest(init);
      assert es == init + [e];
      FastestExact(e.value, Visited(init).rates.legacyMax);
      LegacyStep(init, e, Visited(init).rates.legacyMax, Visited(es).rates.legacyMax);
    }
  }

  lemma LegacyStep(init: seq<Element>, e: Element, was: real, top: real)
    requires (was == 0.0 || Advertises(init, was)) && forall mbps | Advertises(init, mbps) :: mbps <= was
    requires if e.tag == 1 || e.tag == 50 then IsFastest(e.value, was, top) else top == was
    ensures top == 0.0 || Advertises(init + [e], top)
    ensures forall mbps | Advertises(init + [e], mbps) :: mbps <= top
  {
    AdvertisesSnoc(init, e, top);
    forall mbps | Advertises(init + [e], mbps)
      ensures mbps <= top
    {
      AdvertisesSnoc(init, e, mbps);
    }
  }

  ghost predicate Lacks(es: seq<Element>, usable: Element -> bool) {
    forall j | 0 <= j < |es| :: !usable(es[j])
  }

  /** A field no element carries keeps its start value. */
  lemma {:induction false} NothingFromNothing(es: seq<Element>)
    ensures Lacks(es, NamesSsid) ==> Visited(es).network.ssid == []
    ensures Lacks(es, NamesDtim) ==> Visited(es).network.dtimPeriod == 0
    ensures Lacks(es, NamesCountry) ==> Visited(es).network.country == []
    ensures Lacks(es, NamesLoad) ==> Visited(es).network.load == None
  {
    if es != [] {
      NothingFromNothing(es[..|es| - 1]);
    }
  }

  lemma {:induction false} NoSecurityFromNothing(es: seq<Element>)
    ensures Lacks(es, NamesGroup) ==> Visited(es).security.group == 0
    ensures Lacks(es, NamesMfp) ==> Visited(es).security.mfp == NoMfp
  {
    if es != [] {
      NoSecurityFromNothing(es[..|es| - 1]);
    }
  }

  // ---------------------------------------------------------------------
  // Order does not matter
  // ---------------------------------------------------------------------

  // Evidence about a frame's elements that does not depend on their order.

  ghost predicate HasTag(es: seq<Element>, tag: byte) {
    exists e | e in es :: e.tag == tag
  }

  ghost predicate HasVendor(es: seq<Element>, kind: byte) {
    exists e | e in es :: e.tag == 221 && Vendor(e.value, kind)
  }

  ghost predicate HasAkm(es: seq<Element>, kind: byte) {
    exists e | e in es :: e.tag == 48 && kind in Rsn.Parse(e.value).akms
  }

  ghost predicate HasExtension(es: seq<Element>, id: byte) {
    exists e | e in es :: e.tag == 255 && Extension(e.value, id)
  }

  ghost predicate HasBssTransition(es: seq<Element>) {
    exists e | e in es :: e.tag == 127 && |e.value| >= 3 && Bit(e.value[2], 0x08)
  }

  /** The channel width one element announces, 20 for none. */
  function WidthOf(e: Element): nat {
    var v := e.value;
    if e.tag == 61 && |v| >= 2 && v[1] % 4 != 0 then 40
    else if e.tag == 192 && |v| >= 3 && v[0] >= 1 then if v[2] != 0 || v[0] >= 2 then 160 else 80
    else 20
  }

  ghost predicate IsWidest(es: seq<Element>, width: nat) {
    && (forall e | e in es :: WidthOf(e) <= width)
    && (width == 20 || exists e | e in es :: WidthOf(e) == width)
  }

  /** The derived fields depend only on which elements the frame contains. */
  ghost predicate Reflects(f: Facts, es: seq<Element>) {
    && ReflectsSecurity(f.security, es)
    && ReflectsPhy(f.phy, es)
    && (f.roaming.ft <==> HasTag(es, 54)) && (f.roaming.rm <==> HasTag(es, 70)) && (f.roaming.btm <==> HasBssTransition(es))
  }

  ghost predicate ReflectsSecurity(s: Security, es: seq<Element>) {
    && (s.hasRsn <==> HasTag(es, 48)) && (s.hasWpa <==> HasVendor(es, 1)) && (s.wps <==> HasVendor(es, 4))
    && (forall a :: a in s.akms <==> HasAkm(es, a))
  }

  ghost predicate ReflectsPhy(p: Phy, es: seq<Element>) {
    && ReflectsGenerations(p, es)
    && 20 <= p.width && IsWidest(es, p.width)
  }

  ghost predicate ReflectsGenerations(p: Phy, es: seq<Element>) {
    && (p.ht <==> HasTag(es, 45)) && (p.vht <==> HasTag(es, 191))
    && (p.he <==> HasExtension(es, 35)) && (p.eht <==> HasExtension(es, 108))
  }

  lemma TagSnoc(es: seq<Element>, e: Element, tag: byte)
    ensures HasTag(es + [e], tag) <==> HasTag(es, tag) || e.tag == tag
  {
    InSnoc(es, e);
  }

  /** Membership in the longer list, for existential evidence. */
  lemma InSnoc(es: seq<Element>, e: Element)
    ensures forall x :: x in es + [e] <==> x in es || x == e
  {
  }

  lemma SecuritySnoc(s: Security, es: seq<Element>, e: Element)
    requires ReflectsSecurity(s, es)
    ensures ReflectsSecurity(VisitSecurity(s, e.tag, e.value), es + [e])
  {
    InSnoc(es, e);
    TagSnoc(es, e, 48);
    var t := VisitSecurity(s, e.tag, e.value);
    assert t.hasWpa <==> s.hasWpa || (e.tag == 221 && Vendor(e.value, 1));
    assert t.wps <==> s.wps || (e.tag == 221 && Vendor(e.value, 4));
    forall a
      ensures a in t.akms <==> HasAkm(es + [e], a)
    {
      assert a in t.akms <==> a in s.akms || (e.tag == 48 && a in Rsn.Parse(e.value).akms);
    }
  }

  lemma PhySnoc(p: Phy, es: seq<Element>, e: Element)
    requires ReflectsPhy(p, es)
    ensures ReflectsPhy(VisitPhy(p, e.tag, e.value), es + [e])
  {
    GenerationsSnoc(p, es, e);
    WidestSnoc(es, e, p.width);
    WidestIsKnown(es, p.width);
    WidthVisited(p, e);
  }

  lemma WidestIsKnown(es: seq<Element>, width: nat)
    requires IsWidest(es, width)
    ensures width in {20, 40, 80, 160}
  {
  }

  lemma GenerationsSnoc(p: Phy, es: seq<Element>, e: Element)
    requires ReflectsGenerations(p, es)
    ensures ReflectsGenerations(VisitPhy(p, e.tag, e.value), es + [e])
  {
    TagSnoc(es, e, 45);
    TagSnoc(es, e, 191);
    ExtensionSnoc(es, e, 35);
    ExtensionSnoc(es, e, 108);
  }

  lemma ExtensionSnoc(es: seq<Element>, e: Element, id: byte)
    ensures HasExtension(es + [e], id) <==> HasExtension(es, id) || (e.tag == 255 && Extension(e.value, id))
  {
    InSnoc(es, e);
  }

  lemma WidthVisited(p: Phy, e: Element)
    requires p.width in {20, 40, 80, 160}
    ensures VisitPhy(p, e.tag, e.value).width == if p.width < WidthOf(e) then WidthOf(e) else p.width
  {
  }

  lemma WidestSnoc(es: seq<Element>, e: Element, width: nat)
    requires IsWidest(es, width) && 20 <= width
    ensures IsWidest(es + [e], if width < WidthOf(e) then WidthOf(e) else width)
  {
    InSnoc(es, e);
  }

  lemma {:induction false} VisitedReflects(es: seq<Element>)
    ensures Reflects(Visited(es), es)
  {
    if es != [] {
      var init, e := es[..|es| - 1], es[|es| - 1];
      assert es == init + [e];
      VisitedReflects(init);
      SecuritySnoc(Visited(init).security, init, e);
      PhySnoc(Visited(init).phy, init, e);
      RoamingSnoc(Visited(init).roaming, init, e);
    }
  }

  lemma RoamingSnoc(r: Roaming, es: seq<Element>, e: Element)
    requires (r.ft <==> HasTag(es, 54)) && (r.rm <==> HasTag(es, 70)) && (r.btm <==> HasBssTransition(es))
    ensures var q := VisitRoaming(r, e.tag, e.value);
            (q.ft <==> HasTag(es + [e], 54)) && (q.rm <==> HasTag(es + [e], 70)) && (q.btm <==> HasBssTransition(es + [e]))
  {
    InSnoc(es, e);
    TagSnoc(es, e, 54);
    TagSnoc(es, e, 70);
    assert VisitRoaming(r, e.tag, e.value).btm <==> r.btm || (e.tag == 127 && |e.value| >= 3 && Bit(e.value[2], 0x08));
  }

  /** Permuting or repeating the elements of a frame changes none of Security,
      Standards, Roaming, WPS and WidthMHz. */
  lemma OrderDoesNotMatter(es: seq<Element>, es': seq<Element>, intervalTu: nat, privacy: bool)
    requires forall e :: e in es <==> e in es'
    ensures var a, b := ReportOf(intervalTu, privacy, Visited(es)), ReportOf(intervalTu, privacy, Visited(es'));
            && a.security == b.security && a.standards == b.standards && a.roaming == b.roaming
            && a.facts.security.wps == b.facts.security.wps && a.facts.phy.width == b.facts.phy.width
  {
    VisitedReflects(es);
    VisitedReflects(es');
    SameSecurity(Visited(es).security, Visited(es').security, es, es', privacy);
    SamePhy(Visited(es).phy, Visited(es').phy, es, es');
    assert Visited(es).roaming == Visited(es').roaming;
  }

  /** The same for whole frames: bodies with the same fixed part whose elements are
      permuted or repeated, each followed by whatever truncated tail, are parsed
      to the same five fields. */
  lemma PermutedBodies(fixed: seq<byte>, es: seq<Element>, es': seq<Element>, tail: seq<byte>, tail': seq<byte>)
    requires |fixed| == 12 && Encodable(es) && Encodable(es') && Truncated(tail) && Truncated(tail')
    requires forall e :: e in es <==> e in es'
    ensures var p, q := Parsed(fixed + (Encode(es) + tail)), Parsed(fixed + (Encode(es') + tail'));
            && p.Some? && q.Some? && p.value.intervalTu == q.value.intervalTu
            && p.value.security == q.value.security && p.value.standards == q.value.standards && p.value.roaming == q.value.roaming
            && p.value.facts.security.wps == q.value.facts.security.wps && p.value.facts.phy.width == q.value.facts.phy.width
  {
    ParsedEncoded(fixed, es, tail);
    ParsedEncoded(fixed, es', tail');
    OrderDoesNotMatter(es, es', Rsn.LittleEndian(fixed, 8), Bit(fixed[10], 0x10));
  }

  lemma ParsedEncoded(fixed: seq<byte>, es: seq<Element>, tail: seq<byte>)
    requires |fixed| == 12 && Encodable(es) && Truncated(tail)
    ensures Parsed(fixed + (Encode(es) + tail)) ==
            Some(ReportOf(Rsn.LittleEndian(fixed, 8), Bit(fixed[10], 0x10), Visited(es)))
  {
    WalkVisitsEncoded(es, tail);
    ParsedBody(fixed, Encode(es) + tail);
  }

  lemma ParsedBody(fixed: seq<byte>, data: seq<byte>)
    requires |fixed| == 12
    ensures Parsed(fixed + data) == Some(ReportOf(Rsn.LittleEndian(fixed, 8), Bit(fixed[10], 0x10), Visited(Elements(data))))
  {
    var body := fixed + data;
    assert body[12..] == data;
    assert body[8] == fixed[8] && body[9] == fixed[9] && body[10] == fixed[10];
  }

  lemma SameSecurity(s: Security, t: Security, es: seq<Element>, es': seq<Element>, privacy: bool)
    requires forall e :: e in es <==> e in es'
    requires ReflectsSecurity(s, es) && ReflectsSecurity(t, es')
    ensures s.wps == t.wps && Label(privacy, s.hasWpa, s.hasRsn, s.akms) == Label(privacy, t.hasWpa, t.hasRsn, t.akms)
  {
    assert s.hasRsn == t.hasRsn && s.hasWpa == t.hasWpa && s.wps == t.wps;
    forall a
      ensures a in s.akms <==> a in t.akms
    {
      assert HasAkm(es, a) <==> HasAkm(es', a);
    }
  }

  lemma SamePhy(p: Phy, q: Phy, es: seq<Element>, es': seq<Element>)
    requires forall e :: e in es <==> e in es'
    requires ReflectsPhy(p, es) && ReflectsPhy(q, es')
    ensures p == q
  {
  }
}
