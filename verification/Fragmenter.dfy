/** The sending half of src/lan-client.c: cutting an IPv4 packet into fragment datagrams. */
module Fragmenter {
  import opened Bytes

  const HEADER_LEN: nat := 16
  const IPV4_OFF_SRC: nat := 12
  const IPV4_OFF_DST: nat := 16
  const MIN_FRAG_PAYLOAD_LEN: nat := 500

  /** struct lan_client_fragment_header */
  datatype Header = Header(src: Ip, dst: Ip, id: nat, part: nat, totalPart: nat, len: nat, pmtu: nat)

  /** The header as it travels. Each field keeps only the bits that fit its width. */
  function EncodeHeader(h: Header): (r: seq<byte>)
    ensures |r| == HEADER_LEN
  {
    h.src + h.dst + Net16(h.id) + [h.part % 256, h.totalPart % 256] + Net16(h.len) + Net16(h.pmtu)
  }

  function ParseHeader(d: seq<byte>): (h: Header)
    requires |d| >= HEADER_LEN
    ensures h.id < 0x10000 && h.len < 0x10000 && h.pmtu < 0x10000 && h.part < 256 && h.totalPart < 256
  {
    Header(d[0..4], d[4..8], ReadNet16(d, 8), d[10], d[11], ReadNet16(d, 12), ReadNet16(d, 14))
  }

  predicate FieldsFit(h: Header) {
    h.id < 0x10000 && h.part < 256 && h.totalPart < 256 && h.len < 0x10000 && h.pmtu < 0x10000
  }

  lemma {:induction false} HeaderRoundTrip(h: Header, body: seq<byte>)
    requires FieldsFit(h)
    ensures ParseHeader(EncodeHeader(h) + body) == h
  {
    var d := EncodeHeader(h) + body;
    assert d[0..4] == h.src && d[4..8] == h.dst;
    assert d[8..10] == Net16(h.id) && d[12..14] == Net16(h.len) && d[14..16] == Net16(h.pmtu);
    Net16RoundTrip(h.id, d, 8);
    Net16RoundTrip(h.len, d, 12);
    Net16RoundTrip(h.pmtu, d, 14);
  }

  /** Where part k starts: k * pmtu, by repeated addition (OffsetIsProduct). */
  function Offset(pmtu: nat, k: nat): (n: nat) {
    if k == 0 then 0 else Offset(pmtu, k - 1) + pmtu
  }

  lemma {:induction false} OffsetIsProduct(pmtu: nat, k: nat)
    ensures Offset(pmtu, k) == pmtu * k
  {
    if k > 0 {
      OffsetIsProduct(pmtu, k - 1);
      assert pmtu * (k - 1) + pmtu == pmtu * k;
    }
  }

  lemma {:induction false} OffsetMonotone(pmtu: nat, j: nat, k: nat)
    requires j < k
    ensures Offset(pmtu, j) + pmtu <= Offset(pmtu, k)
  {
    if j + 1 < k {
      OffsetMonotone(pmtu, j, k - 1);
    }
  }

  /** The number of parts of a packet of len bytes: the ceiling of len / pmtu (TotalPartIsCeiling). */
  function TotalPart(len: nat, pmtu: nat): (n: nat)
    requires pmtu > 0
  {
    if len == 0 then 0 else if len <= pmtu then 1 else 1 + TotalPart(len - pmtu, pmtu)
  }

  lemma {:induction false} TotalPartIsCeiling(len: nat, pmtu: nat)
    requires pmtu > 0
    ensures Offset(pmtu, TotalPart(len, pmtu)) >= len
    ensures len > 0 ==> TotalPart(len, pmtu) > 0 && Offset(pmtu, TotalPart(len, pmtu) - 1) < len
  {
    if len > pmtu {
      TotalPartIsCeiling(len - pmtu, pmtu);
    }
  }

  /** The two lines of lan_client_send that compute total_part agree with TotalPart. */
  lemma {:induction false} TotalPartByDivision(len: nat, pmtu: nat)
    requires pmtu > 0
    ensures TotalPart(len, pmtu) == if pmtu * (len / pmtu) < len then len / pmtu + 1 else len / pmtu
  {
    if len > pmtu {
      TotalPartByDivision(len - pmtu, pmtu);
      DivisionStep(len, pmtu);
    } else {
      DivisionUnique(len, pmtu, if len < pmtu then 0 else 1, if len < pmtu then len else 0);
    }
  }

  lemma {:induction false} DivisionStep(len: nat, pmtu: nat)
    requires 0 < pmtu <= len
    ensures len / pmtu == (len - pmtu) / pmtu + 1
    ensures pmtu * (len / pmtu) == pmtu * ((len - pmtu) / pmtu) + pmtu
  {
    var q := (len - pmtu) / pmtu;
    assert pmtu * (q + 1) == pmtu * q + pmtu;
    DivisionUnique(len, pmtu, q + 1, (len - pmtu) % pmtu);
  }

  lemma {:induction false} DivisionUnique(n: nat, d: nat, q: nat, r: nat)
    requires d > 0 && r < d && n == d * q + r
    ensures n / d == q && d * (n / d) == n - r
  {
    QuotientsEqual(d, q, r, n / d, n % d);
  }

  lemma {:induction false} QuotientsEqual(d: nat, q: nat, r: nat, q': nat, r': nat)
    requires r < d && r' < d && d * q + r == d * q' + r'
    ensures q == q'
  {
    if q < q' { ProductGap(d, q, q'); } else if q' < q { ProductGap(d, q', q); }
  }

  lemma {:induction false} ProductGap(d: nat, q: nat, q': nat)
    requires q < q'
    ensures d * q + d <= d * q'
  {
    OffsetIsProduct(d, q);
    OffsetIsProduct(d, q');
    OffsetMonotone(d, q, q');
  }

  function PartLen(len: nat, pmtu: nat, k: nat): (n: nat)
    requires pmtu > 0 && k < TotalPart(len, pmtu)
    ensures 0 < n <= pmtu && Offset(pmtu, k) + n <= len
    ensures k == TotalPart(len, pmtu) - 1 ==> Offset(pmtu, k) + n == len
    ensures k < TotalPart(len, pmtu) - 1 ==> n == pmtu
  {
    TotalPartIsCeiling(len, pmtu);
    assert k < TotalPart(len, pmtu) - 1 ==> Offset(pmtu, k) + pmtu <= Offset(pmtu, TotalPart(len, pmtu) - 1) by {
      if k < TotalPart(len, pmtu) - 1 { OffsetMonotone(pmtu, k, TotalPart(len, pmtu) - 1); }
    }
    Min(pmtu, len - Offset(pmtu, k))
  }

  /** A packet the sender splits: longer than the pmtu, which the start-up check keeps at 500 or more. */
  predicate Splits(packet: seq<byte>, pmtu: nat) {
    MIN_FRAG_PAYLOAD_LEN <= pmtu < |packet| < 0x10000
  }

  function HeaderOf(packet: seq<byte>, pmtu: nat, id: nat, k: nat): (h: Header)
    requires Splits(packet, pmtu) && k < TotalPart(|packet|, pmtu)
    ensures FieldsFit(h)
  {
    TotalPartSmall(|packet|, pmtu);
    Header(packet[IPV4_OFF_SRC..IPV4_OFF_SRC + 4], packet[IPV4_OFF_DST..IPV4_OFF_DST + 4],
           id % 0x10000, k, TotalPart(|packet|, pmtu), PartLen(|packet|, pmtu, k), pmtu)
  }

  function Body(packet: seq<byte>, pmtu: nat, k: nat): (r: seq<byte>)
    requires pmtu > 0 && k < TotalPart(|packet|, pmtu)
  {
    var n := PartLen(|packet|, pmtu, k);
    packet[Offset(pmtu, k)..Offset(pmtu, k) + n]
  }

  /** Fragment k of a packet, without the leading type byte. */
  function Fragment(packet: seq<byte>, pmtu: nat, id: nat, k: nat): (d: seq<byte>)
    requires Splits(packet, pmtu) && k < TotalPart(|packet|, pmtu)
  {
    EncodeHeader(HeaderOf(packet, pmtu, id, k)) + Body(packet, pmtu, k)
  }

  lemma {:induction false} TotalPartSmall(len: nat, pmtu: nat)
    requires MIN_FRAG_PAYLOAD_LEN <= pmtu
    ensures 500 * TotalPart(len, pmtu) <= len + 499
  {
    if len > pmtu {
      TotalPartSmall(len - pmtu, pmtu);
    }
  }

  /** The receiver reads back from fragment k exactly what the sender put in it. */
  lemma {:induction false} FragmentParses(packet: seq<byte>, pmtu: nat, id: nat, k: nat)
    requires Splits(packet, pmtu) && k < TotalPart(|packet|, pmtu)
    ensures var d := Fragment(packet, pmtu, id, k);
            && |d| == HEADER_LEN + PartLen(|packet|, pmtu, k)
            && ParseHeader(d) == HeaderOf(packet, pmtu, id, k)
            && d[HEADER_LEN..] == Body(packet, pmtu, k)
  {
    HeaderRoundTrip(HeaderOf(packet, pmtu, id, k), Body(packet, pmtu, k));
  }

  /** The bodies of the first n fragments, end to end. */
  function Bodies(packet: seq<byte>, pmtu: nat, n: nat): (r: seq<byte>)
    requires pmtu > 0 && n <= TotalPart(|packet|, pmtu)
  {
    if n == 0 then [] else Bodies(packet, pmtu, n - 1) + Body(packet, pmtu, n - 1)
  }

  lemma {:induction false} BodiesPrefix(packet: seq<byte>, pmtu: nat, n: nat)
    requires pmtu > 0 && n <= TotalPart(|packet|, pmtu)
    ensures Bodies(packet, pmtu, n) == packet[..Min(Offset(pmtu, n), |packet|)]
  {
    if n > 0 {
      BodiesPrefix(packet, pmtu, n - 1);
      TakeMore(packet, Offset(pmtu, n - 1), PartLen(|packet|, pmtu, n - 1));
      if n == TotalPart(|packet|, pmtu) { TotalPartIsCeiling(|packet|, pmtu); }
    }
  }

  lemma {:induction false} TakeMore(s: seq<byte>, n: nat, m: nat)
    requires n + m <= |s|
    ensures s[..n] + s[n..n + m] == s[..n + m]
  {
  }

  /** Nothing is lost, repeated or reordered by the cut. */
  lemma {:induction false} BodiesAreThePacket(packet: seq<byte>, pmtu: nat)
    requires pmtu > 0
    ensures Bodies(packet, pmtu, TotalPart(|packet|, pmtu)) == packet
  {
    BodiesPrefix(packet, pmtu, TotalPart(|packet|, pmtu));
    TotalPartIsCeiling(|packet|, pmtu);
  }

  /** The first n fragment datagrams, type byte included. */
  function FragmentDatagrams(packet: seq<byte>, pmtu: nat, id: nat, n: nat): (r: seq<seq<byte>>)
    requires Splits(packet, pmtu) && n <= TotalPart(|packet|, pmtu)
    ensures |r| == n
  {
    if n == 0 then []
    else FragmentDatagrams(packet, pmtu, id, n - 1) + [[TYPE_IPV4_FRAG] + Fragment(packet, pmtu, id, n - 1)]
  }

  lemma {:induction false} FragmentDatagramAt(packet: seq<byte>, pmtu: nat, id: nat, n: nat, k: nat)
    requires Splits(packet, pmtu) && k < n <= TotalPart(|packet|, pmtu)
    ensures FragmentDatagrams(packet, pmtu, id, n)[k] == [TYPE_IPV4_FRAG] + Fragment(packet, pmtu, id, k)
  {
    if k < n - 1 {
      FragmentDatagramAt(packet, pmtu, id, n - 1, k);
    }
  }

  lemma {:induction false} FragmentDatagramsPrefix(packet: seq<byte>, pmtu: nat, id: nat, n: nat, m: nat)
    requires Splits(packet, pmtu) && n <= m <= TotalPart(|packet|, pmtu)
    ensures FragmentDatagrams(packet, pmtu, id, n) <= FragmentDatagrams(packet, pmtu, id, m)
  {
    if n < m {
      FragmentDatagramsPrefix(packet, pmtu, id, n, m - 1);
    }
  }

  /** The datagrams for one call of lan_client_send. */
  function Datagrams(ty: byte, packet: seq<byte>, pmtu: nat, id: nat): (r: seq<seq<byte>>)
    requires pmtu == 0 || pmtu >= MIN_FRAG_PAYLOAD_LEN
    requires |packet| < 0x10000
  {
    if ty == TYPE_IPV4 && pmtu > 0 && |packet| > pmtu then
      FragmentDatagrams(packet, pmtu, id, TotalPart(|packet|, pmtu))
    else
      [[ty] + packet]
  }

  /** Whether lan_client_send cuts the packet. */
  predicate IsCut(ty: byte, packet: seq<byte>, pmtu: nat) { ty == 1 && 0 < pmtu < |packet| }

  /** Datagram k of a cut packet, read off its bytes: the type, and a header that says which part of how
      many it is, of which packet, and how long. The part count is the ceiling of length over MTU. */
  predicate CarriesPart(d: seq<byte>, packet: seq<byte>, pmtu: nat, id: nat, k: nat)
    requires |packet| >= 20
  {
    && |d| >= 1 + HEADER_LEN && d[0] == 3
    && var h := ParseHeader(d[1..]);
       && h.src == packet[12..16] && h.dst == packet[16..20]
       && h.id == id % 0x10000 && h.part == k && h.pmtu == pmtu && h.len == |d| - 17
       && pmtu * (h.totalPart - 1) < |packet| <= pmtu * h.totalPart
  }

  /** What follows the headers. */
  function Rests(ds: seq<seq<byte>>): (r: seq<seq<byte>>)
    ensures |r| == |ds|
  {
    seq(|ds|, i requires 0 <= i < |ds| => ds[i][Min(17, |ds[i]|)..])
  }

  lemma {:induction false} PartCarries(packet: seq<byte>, pmtu: nat, id: nat, k: nat)
    requires Splits(packet, pmtu) && k < TotalPart(|packet|, pmtu)
    ensures CarriesPart([TYPE_IPV4_FRAG] + Fragment(packet, pmtu, id, k), packet, pmtu, id, k)
  {
    var d, total := [TYPE_IPV4_FRAG] + Fragment(packet, pmtu, id, k), TotalPart(|packet|, pmtu);
    assert d[1..] == Fragment(packet, pmtu, id, k);
    FragmentParses(packet, pmtu, id, k);
    TotalPartIsCeiling(|packet|, pmtu);
    OffsetIsProduct(pmtu, total);
    OffsetIsProduct(pmtu, total - 1);
  }

  lemma {:induction false} RestsAre(packet: seq<byte>, pmtu: nat, id: nat, n: nat)
    requires Splits(packet, pmtu) && n <= TotalPart(|packet|, pmtu)
    ensures Flat(Rests(FragmentDatagrams(packet, pmtu, id, n))) == Bodies(packet, pmtu, n)
  {
    if n > 0 {
      var ds, d := FragmentDatagrams(packet, pmtu, id, n - 1), [TYPE_IPV4_FRAG] + Fragment(packet, pmtu, id, n - 1);
      RestsAre(packet, pmtu, id, n - 1);
      FragmentParses(packet, pmtu, id, n - 1);
      assert d[17..] == Fragment(packet, pmtu, id, n - 1)[16..];
      RestsSnoc(ds, d);
    }
  }

  lemma {:induction false} RestsSnoc(ds: seq<seq<byte>>, d: seq<byte>)
    ensures Flat(Rests(ds + [d])) == Flat(Rests(ds)) + d[Min(17, |d|)..]
  {
    var r := Rests(ds + [d]);
    assert r[..|ds|] == Rests(ds);
  }

  lemma {:induction false} HandedPart(packet: seq<byte>, pmtu: nat, id: nat, handed: seq<seq<byte>>, k: nat)
    requires Splits(packet, pmtu) && k < |handed|
    requires handed <= FragmentDatagrams(packet, pmtu, id, TotalPart(|packet|, pmtu))
    ensures CarriesPart(handed[k], packet, pmtu, id, k)
  {
    FragmentDatagramAt(packet, pmtu, id, TotalPart(|packet|, pmtu), k);
    PartCarries(packet, pmtu, id, k);
  }

  lemma {:induction false} HandedWhole(packet: seq<byte>, pmtu: nat, id: nat, handed: seq<seq<byte>>)
    requires Splits(packet, pmtu) && handed == FragmentDatagrams(packet, pmtu, id, TotalPart(|packet|, pmtu))
    ensures Flat(Rests(handed)) == packet
  {
    RestsAre(packet, pmtu, id, TotalPart(|packet|, pmtu));
    BodiesAreThePacket(packet, pmtu);
  }

  class Sender {
    const pmtu: nat
    var fragId: nat

    ghost predicate Valid() reads this {
      pmtu == 0 || pmtu >= MIN_FRAG_PAYLOAD_LEN
    }

    constructor (pmtu: nat)
      requires pmtu == 0 || pmtu >= MIN_FRAG_PAYLOAD_LEN
      ensures Valid() && fragId == 0 && this.pmtu == pmtu
    {
      this.pmtu := pmtu;
      fragId := 0;
    }

    /** lan_client_send. `ret(k)` is what the socket answers to the k-th datagram of this call;
        the first non-zero answer stops the call. */
    method Send(ty: byte, packet: seq<byte>, ret: nat -> int) returns (handed: seq<seq<byte>>, rc: int)
      requires Valid() && |packet| < 0x10000
      modifies this
      ensures Valid()
      ensures |handed| >= 1 && handed <= Datagrams(ty, packet, pmtu, old(fragId))
      ensures rc == ret(|handed| - 1)
      ensures forall k: nat :: k < |handed| - 1 ==> ret(k) == 0
      ensures rc == 0 ==> handed == Datagrams(ty, packet, pmtu, old(fragId))
      ensures fragId == old(fragId) + (if IsCut(ty, packet, pmtu) then 1 else 0)
      ensures !IsCut(ty, packet, pmtu) ==> handed == [[ty] + packet]
      ensures IsCut(ty, packet, pmtu) ==> forall k: nat :: k < |handed| ==>
        CarriesPart(handed[k], packet, pmtu, old(fragId), k)
      ensures IsCut(ty, packet, pmtu) && rc == 0 ==> Flat(Rests(handed)) == packet
    {
      if ty == TYPE_IPV4 && pmtu > 0 {
        var totalPart := |packet| / pmtu;
        if pmtu * totalPart < |packet| {
          totalPart := totalPart + 1;
        }
        TotalPartByDivision(|packet|, pmtu);
        if totalPart > 1 {
          var id := fragId;
          fragId := fragId + 1;
          handed, rc := SendCut(packet, pmtu, id, totalPart, ret);
          return;
        }
      }
      handed := [[ty] + packet];
      rc := ret(0);
    }
  }

  method SendCut(packet: seq<byte>, pmtu: nat, id: nat, totalPart: nat, ret: nat -> int)
    returns (handed: seq<seq<byte>>, rc: int)
    requires Splits(packet, pmtu) && totalPart == TotalPart(|packet|, pmtu)
    ensures |handed| >= 1 && handed <= FragmentDatagrams(packet, pmtu, id, totalPart)
    ensures rc == ret(|handed| - 1)
    ensures forall k: nat :: k < |handed| - 1 ==> ret(k) == 0
    ensures rc == 0 ==> |handed| == totalPart && Flat(Rests(handed)) == packet
    ensures forall k: nat :: k < |handed| ==> CarriesPart(handed[k], packet, pmtu, id, k)
  {
    handed, rc := SendParts(packet, pmtu, id, totalPart, ret);
    forall k: nat | k < |handed| ensures CarriesPart(handed[k], packet, pmtu, id, k) {
      HandedPart(packet, pmtu, id, handed, k);
    }
    if rc == 0 { HandedWhole(packet, pmtu, id, handed); }
  }

  /** The fragment loop of lan_client_send: one header buffer, rewritten for every part. */
  method SendParts(packet: seq<byte>, pmtu: nat, id: nat, totalPart: nat, ret: nat -> int)
    returns (handed: seq<seq<byte>>, rc: int)
    requires Splits(packet, pmtu) && totalPart == TotalPart(|packet|, pmtu)
    ensures |handed| >= 1 && handed <= FragmentDatagrams(packet, pmtu, id, totalPart)
    ensures rc == ret(|handed| - 1)
    ensures forall k: nat :: k < |handed| - 1 ==> ret(k) == 0
    ensures rc == 0 ==> |handed| == totalPart
  {
    var header := NewHeader(packet, totalPart, pmtu);
    handed := [];
    rc := 0;
    var i, pos := 0, 0;
    while pos < |packet|
      invariant 0 <= i <= totalPart && pos == if i < totalPart then Offset(pmtu, i) else |packet|
      invariant handed == FragmentDatagrams(packet, pmtu, id, i)
      invariant forall k: nat :: k < i ==> ret(k) == 0
      invariant i > 0 ==> rc == ret(i - 1)
      invariant fresh(header) && CommonFields(header[..], packet, totalPart, pmtu)
      decreases |packet| - pos
    {
      LoopIndex(|packet|, pmtu, i);
      var partLen := Min(pmtu, |packet| - pos);
      var datagram := BuildPart(header, packet, pmtu, id, i, pos, partLen);
      handed := handed + [datagram];
      rc := ret(i);
      if rc != 0 {
        FragmentDatagramsPrefix(packet, pmtu, id, i + 1, totalPart);
        return;
      }
      i := i + 1;
      pos := pos + partLen;
    }
    LoopIndex(|packet|, pmtu, i);
  }

  /** The fields that are the same in every fragment of one packet. */
  predicate CommonFields(b: seq<byte>, packet: seq<byte>, totalPart: nat, pmtu: nat)
    requires |packet| >= 20
  {
    && |b| == HEADER_LEN
    && b[0..4] == packet[12..16]
    && b[4..8] == packet[16..20]
    && b[11] == totalPart % 256
    && b[14..16] == Net16(pmtu)
  }

  method NewHeader(packet: seq<byte>, totalPart: nat, pmtu: nat) returns (header: array<byte>)
    requires |packet| >= 20
    ensures fresh(header) && CommonFields(header[..], packet, totalPart, pmtu)
  {
    header := new byte[HEADER_LEN](_ => 0);
    header[0], header[1], header[2], header[3] := packet[12], packet[13], packet[14], packet[15];
    header[4], header[5], header[6], header[7] := packet[16], packet[17], packet[18], packet[19];
    header[11] := totalPart % 256;
    header[14], header[15] := pmtu / 256 % 256, pmtu % 256;
  }

  method BuildPart(header: array<byte>, packet: seq<byte>, pmtu: nat, id: nat, k: nat, pos: nat, partLen: nat)
    returns (d: seq<byte>)
    requires Splits(packet, pmtu) && k < TotalPart(|packet|, pmtu)
    requires CommonFields(header[..], packet, TotalPart(|packet|, pmtu), pmtu)
    requires pos == Offset(pmtu, k) && partLen == PartLen(|packet|, pmtu, k)
    modifies header
    ensures CommonFields(header[..], packet, TotalPart(|packet|, pmtu), pmtu)
    ensures d == [TYPE_IPV4_FRAG] + Fragment(packet, pmtu, id, k)
  {
    WritePartFields(header, packet, TotalPart(|packet|, pmtu), pmtu, id, k, partLen);
    d := [TYPE_IPV4_FRAG] + (header[..] + packet[pos..pos + partLen]);
  }

  method WritePartFields(header: array<byte>, packet: seq<byte>, totalPart: nat, pmtu: nat, id: nat, k: nat,
    partLen: nat)
    requires |packet| >= 20 && CommonFields(header[..], packet, totalPart, pmtu)
    modifies header
    ensures CommonFields(header[..], packet, totalPart, pmtu)
    ensures header[..] ==
      EncodeHeader(Header(packet[12..16], packet[16..20], id % 0x10000, k, totalPart, partLen, pmtu))
  {
    header[8], header[9] := id / 256 % 256, id % 256;
    header[10] := k % 256;
    header[12], header[13] := partLen / 256 % 256, partLen % 256;
    HeaderBytes(header[..], old(header[..]), packet, totalPart, pmtu, id, k, partLen);
  }

  lemma {:induction false} HeaderBytes(b: seq<byte>, before: seq<byte>, packet: seq<byte>, totalPart: nat, pmtu: nat,
    id: nat, k: nat, partLen: nat)
    requires |packet| >= 20 && CommonFields(before, packet, totalPart, pmtu)
    requires b == before[..8] + Net16(id) + [k % 256, before[11]] + Net16(partLen) + before[14..]
    ensures CommonFields(b, packet, totalPart, pmtu)
    ensures b == EncodeHeader(Header(packet[12..16], packet[16..20], id % 0x10000, k, totalPart, partLen, pmtu))
  {
    Net16Truncates(id);
    assert before[..8] == before[0..4] + before[4..8];
    assert b[0..4] == before[0..4] && b[4..8] == before[4..8] && b[14..16] == before[14..16];
  }

  lemma {:induction false} LoopIndex(len: nat, pmtu: nat, i: nat)
    requires pmtu > 0 && len > 0
    requires i <= TotalPart(len, pmtu)
    ensures i < TotalPart(len, pmtu) <==> Offset(pmtu, i) < len
  {
    TotalPartIsCeiling(len, pmtu);
    if i < TotalPart(len, pmtu) - 1 {
      OffsetMonotone(pmtu, i, TotalPart(len, pmtu) - 1);
    }
  }
}
