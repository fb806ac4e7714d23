/** The internet checksum of src/ipv4/ipv4.c, against RFC 1071. */
module Checksum {
  import opened Bytes

  // ---- one's complement sums ----

  function Word(hi: byte, lo: byte): nat { hi as int * 256 + lo as int }

  /** The sum of the big-endian 16-bit words; an odd last byte is padded with a zero on the right. */
  function WordSum(b: seq<byte>): nat {
    if |b| == 0 then 0 else if |b| == 1 then Word(b[0], 0) else Word(b[0], b[1]) + WordSum(b[2..])
  }

  /** End-around carry: what RFC 1071 does with the bits above the sixteenth. */
  function CarryFold(s: nat): nat
    decreases s
  {
    if s <= 0xffff then s else CarryFold(s / 0x10000 + s % 0x10000)
  }

  /** What the code does instead: subtract 0xffff for as long as the sum is larger. */
  function SubFold(s: nat): (r: nat)
    ensures r <= 0xffff
  {
    if s <= 0xffff then s else SubFold(s - 0xffff)
  }

  lemma {:induction false} SubFoldMultiple(x: nat, q: nat)
    requires x > 0
    ensures SubFold(x + 0xffff * q) == SubFold(x)
  {
    if q > 0 { SubFoldMultiple(x, q - 1); }
  }

  /** Subtracting and carrying around come to the same number. */
  lemma {:induction false} SubIsCarry(s: nat)
    ensures SubFold(s) == CarryFold(s)
    decreases s
  {
    if s > 0xffff {
      var q, r := s / 0x10000, s % 0x10000;
      SubFoldMultiple(q + r, q);
      SubIsCarry(q + r);
    }
  }

  /** The RFC 1071 checksum. */
  function Rfc1071(b: seq<byte>): nat {
    var f := CarryFold(WordSum(b));
    if f <= 0xffff then 0xffff - f else 0
  }

  /** Adding the complement of a sum to it makes all sixteen bits one. */
  lemma {:induction false} ComplementCompletes(s: nat)
    ensures SubFold(s + (0xffff - SubFold(s))) == 0xffff
  {
    if s > 0xffff { ComplementCompletes(s - 0xffff); }
  }

  lemma {:induction false} WordSumConcat(a: seq<byte>, b: seq<byte>)
    requires |a| % 2 == 0
    ensures WordSum(a + b) == WordSum(a) + WordSum(b)
  {
    if a == [] {
      assert a + b == b;
    } else {
      WordSumConcat(a[2..], b);
      assert (a + b)[2..] == a[2..] + b;
    }
  }

  /** b with the checksum written over bytes k and k + 1. */
  function Stamp(b: seq<byte>, k: nat, c: nat): seq<byte>
    requires k + 2 <= |b|
  {
    b[..k] + Net16(c) + b[k + 2..]
  }

  lemma {:induction false} MiddleSum(pre: seq<byte>, hi: byte, lo: byte, post: seq<byte>)
    requires |pre| % 2 == 0
    ensures WordSum(pre + [hi, lo] + post) == WordSum(pre) + Word(hi, lo) + WordSum(post)
  {
    WordSumConcat(pre + [hi, lo], post);
    WordSumConcat(pre, [hi, lo]);
  }

  lemma {:induction false} StampSum(b: seq<byte>, k: nat, c: nat)
    requires k + 2 <= |b| && k % 2 == 0 && c <= 0xffff && b[k] == b[k + 1] == 0
    ensures WordSum(Stamp(b, k, c)) == WordSum(b) + c
  {
    var pre, post := b[..k], b[k + 2..];
    ZeroField(b, k);
    MiddleSum(pre, 0, 0, post);
    MiddleSum(pre, c / 256 % 256, c % 256, post);
    WordOfNet(c);
  }

  lemma {:induction false} ZeroField(b: seq<byte>, k: nat)
    requires k + 2 <= |b| && b[k] == b[k + 1] == 0
    ensures b[..k] + [0, 0] + b[k + 2..] == b
  {
  }

  lemma {:induction false} WordOfNet(c: nat)
    requires c <= 0xffff
    ensures Word(c / 256 % 256, c % 256) == c
  {
  }

  /** A receiver accepts data whose one's complement sum is all ones. */
  predicate Verifies(b: seq<byte>) { CarryFold(WordSum(b)) == 0xffff }

  /** Stamping the checksum into its zeroed field makes the data verify. */
  lemma {:induction false} StampedVerifies(b: seq<byte>, k: nat)
    requires k + 2 <= |b| && k % 2 == 0 && b[k] == b[k + 1] == 0
    ensures Verifies(Stamp(b, k, Rfc1071(b)))
  {
    var c := Rfc1071(b);
    ChecksumCompletes(WordSum(b), c);
    StampSum(b, k, c);
  }

  lemma {:induction false} ChecksumCompletes(s: nat, c: nat)
    requires c == if CarryFold(s) <= 0xffff then 0xffff - CarryFold(s) else 0
    ensures c <= 0xffff && CarryFold(s + c) == 0xffff
  {
    SubIsCarry(s);
    ComplementCompletes(s);
    SubIsCarry(s + c);
  }

  // ---- calc_checksum ----

  const TWO32: nat := 0x1_0000_0000

  /** What an uint32_t keeps of n: the remainder (WrapIsRemainder), by repeated subtraction. */
  function Wrap(n: nat): (r: nat)
    ensures r < TWO32
  {
    if n < TWO32 then n else Wrap(n - TWO32)
  }

  lemma {:induction false} WrapIsRemainder(n: nat)
    ensures Wrap(n) == n % TWO32
  {
    if n >= TWO32 {
      WrapIsRemainder(n - TWO32);
    }
  }

  lemma {:induction false} WrapSum(a: nat, b: nat)
    ensures Wrap(Wrap(a) + b) == Wrap(a + b)
  {
    if a >= TWO32 {
      WrapSum(a - TWO32, b);
    }
  }

  lemma {:induction false} WordSumBound(b: seq<byte>)
    ensures 2 * WordSum(b) <= 0xffff * (|b| + |b| % 2)
  {
    if |b| >= 2 { WordSumBound(b[2..]); }
  }

  const MAX_LEN: nat := 131074

  /** Up to 131074 bytes the 32-bit sum cannot wrap. */
  lemma {:induction false} NoWrap(b: seq<byte>)
    requires |b| <= MAX_LEN
    ensures Wrap(WordSum(b)) == WordSum(b)
  {
    WordSumBound(b);
  }

  /** The sum calc_checksum forms: an odd last byte is added as it is, not as a high byte. */
  function LowSum(b: seq<byte>): nat {
    if |b| % 2 == 0 then WordSum(b) else WordSum(b[..|b| - 1]) + b[|b| - 1] as int
  }

  /** One word more. */
  lemma {:induction false} NextWord(b: seq<byte>, k: nat)
    requires 2 * k + 2 <= |b|
    ensures Wrap(Wrap(WordSum(b[..2 * k])) + Word(b[2 * k], b[2 * k + 1])) == Wrap(WordSum(b[..2 * k + 2]))
  {
    SliceNext(b, 0, k, 0);
    assert b[0..2 * k] == b[..2 * k] && b[0..2 * k + 2] == b[..2 * k + 2];
  }

  /** calc_checksum */
  method CalcChecksum(buffer: seq<byte>) returns (c: nat)
    ensures c == 0xffff - SubFold(Wrap(LowSum(buffer)))
  {
    var sum, i := 0, 0;
    ghost var k := 0;
    while |buffer| - i > 1
      invariant i == 2 * k <= |buffer| && sum == Wrap(WordSum(buffer[..i]))
    {
      NextWord(buffer, k);
      sum := Wrap(sum + Word(buffer[i], buffer[i + 1]));
      i, k := i + 2, k + 1;
    }
    Parity(|buffer|, k);
    if |buffer| - i != 0 {
      WrapSum(WordSum(buffer[..i]), buffer[i]);
      sum := Wrap(sum + buffer[i]);
    } else {
      assert buffer[..i] == buffer;
    }
    c := Complement(sum);
  }

  lemma {:induction false} Parity(n: nat, k: nat)
    ensures 2 * k % 2 == 0
    ensures 2 * k <= n <= 2 * k + 1 ==> n % 2 == n - 2 * k
    ensures 2 * k + 2 <= n ==> n - n % 2 >= 2 * k + 2
  {
  }

  /** The last loop of both functions, and the complement cut to 16 bits. */
  method Complement(start: nat) returns (c: nat)
    ensures c == 0xffff - SubFold(start)
  {
    var sum := start;
    while sum > 0xffff
      invariant SubFold(sum) == SubFold(start)
    {
      sum := sum - 0xffff;
    }
    c := 0xffff - sum;
  }

  /** calc_checksum is the RFC 1071 checksum for data of even length, and for data of odd length
      exactly when its last byte is zero. */
  lemma {:induction false} CalcIsRfcIff(b: seq<byte>)
    requires |b| <= MAX_LEN
    ensures 0xffff - SubFold(Wrap(LowSum(b))) == Rfc1071(b) <==> |b| % 2 == 0 || b[|b| - 1] == 0
  {
    NoWrap(b);
    SubIsCarry(WordSum(b));
    if |b| % 2 == 1 {
      var p, t := b[..|b| - 1], b[|b| - 1];
      assert b == p + [t];
      WordSumConcat(p, [t]);
      NoWrapLow(p, t);
      if t != 0 { LowDiffers(WordSum(p), t); }
    }
  }

  lemma {:induction false} NoWrapLow(p: seq<byte>, t: byte)
    requires |p| % 2 == 0 && |p| < MAX_LEN
    ensures Wrap(WordSum(p) + t as int) == WordSum(p) + t as int
  {
    WordSumBound(p);
  }

  lemma {:induction false} LowDiffers(s: nat, t: byte)
    requires t != 0
    ensures SubFold(s + t as int) != SubFold(s + t as int * 256)
  {
    if s > 0xffff { LowDiffers(s - 0xffff, t); }
  }

  // ---- calc_payload_checksum ----

  /** A part that ends in the middle of a word must be followed by a part of exactly one byte, or by none. */
  predicate ChainOk(parts: seq<seq<byte>>, carry: bool) {
    parts == [] ||
    if carry then |parts[0]| == 1 && ChainOk(parts[1..], false)
    else ChainOk(parts[1..], |parts[0]| % 2 == 1)
  }

  /** The bytes whose words have been added when the parts before the i-th are done. */
  function Consumed(parts: seq<seq<byte>>, i: nat, carry: bool): seq<byte>
    requires i <= |parts|
  {
    Flat(parts[..i]) + if carry && i < |parts| && |parts[i]| > 0 then [parts[i][0]] else []
  }

  /** The state of the loop over the parts; `carry` says that the first byte of part i is already in the sum. */
  predicate Summed(parts: seq<seq<byte>>, i: nat, carry: bool, sum: nat) {
    && i <= |parts| && sum == Wrap(WordSum(Consumed(parts, i, carry)))
    && (ChainOk(parts, false) <==> ChainOk(parts[i..], carry))
    && (i < |parts| ==> |Consumed(parts, i, carry)| % 2 == 0 && (carry ==> |parts[i]| > 0))
  }

  /** What one part adds to the sum. */
  lemma {:induction false} ConsumeWords(done: seq<byte>, more: seq<byte>)
    requires |done| % 2 == 0
    ensures Wrap(Wrap(WordSum(done)) + WordSum(more)) == Wrap(WordSum(done + more))
  {
    WordSumConcat(done, more);
    WrapSum(WordSum(done), WordSum(more));
  }

  /** The inner loop, from byte `start` on: it fails when it would read behind the part. */
  method SumWords(part: seq<byte>, start: nat, len: nat, sum0: nat) returns (ok: bool, sum: nat, pos: nat)
    requires sum0 < TWO32
    ensures ok <==> len <= 1 || start + len - len % 2 <= |part|
    ensures ok ==> pos == start + len - len % 2
    ensures ok && start <= |part| ==> sum == Wrap(sum0 + WordSum(part[start..pos]))
    ensures len <= 1 ==> sum == sum0
  {
    sum, pos := sum0, start;
    var left := len;
    ghost var k := 0;
    while left > 1
      invariant 0 <= left == len - 2 * k && pos == start + 2 * k
      invariant start <= |part| ==> pos <= |part| && sum == Wrap(sum0 + WordSum(part[start..pos]))
      invariant k == 0 ==> sum == sum0
      invariant k > 0 ==> start <= |part|
    {
      if pos + 1 >= |part| {
        Parity(len, k);
        return false, sum, pos;
      }
      SliceNext(part, start, k, sum0);
      sum := Wrap(sum + Word(part[pos], part[pos + 1]));
      pos, left, k := pos + 2, left - 2, k + 1;
    }
    Parity(len, k);
    ok := true;
  }

  lemma {:induction false} SliceNext(part: seq<byte>, start: nat, k: nat, sum0: nat)
    requires start + 2 * k + 2 <= |part|
    ensures var pos := start + 2 * k;
      Wrap(Wrap(sum0 + WordSum(part[start..pos])) + Word(part[pos], part[pos + 1])) ==
      Wrap(sum0 + WordSum(part[start..pos + 2]))
  {
    var pos := start + 2 * k;
    Parity(2 * k, k);
    MiddleSum(part[start..pos], part[pos], part[pos + 1], []);
    assert part[start..pos + 2] == part[start..pos] + [part[pos], part[pos + 1]] + [];
    WrapSum(sum0 + WordSum(part[start..pos]), Word(part[pos], part[pos + 1]));
  }

  /** One turn of the outer loop; it fails exactly when a read would fall outside its part. */
  method AddPart(parts: seq<seq<byte>>, i: nat, offset: nat, sum0: nat) returns (ok: bool, sum: nat, offset': nat)
    requires i < |parts| && offset <= 1 && Summed(parts, i, offset == 1, sum0)
    ensures ok ==> offset' <= 1 && Summed(parts, i + 1, offset' == 1, sum)
    ensures !ok ==> !ChainOk(parts, false)
  {
    var part := parts[i];
    var len: nat := |part| - offset;
    var pos;
    offset' := len % 2;
    BadPart(parts, i, offset == 1);
    ok, sum, pos := SumWords(part, 2 * offset, len, sum0);
    if ok && len % 2 == 0 {
      EvenPart(parts, i, offset == 1, sum0);
      assert part[0..|part|] == part;
    } else if ok {
      ok := pos < |part| && (i + 1 < |parts| ==> |parts[i + 1]| > 0);
      if ok {
        OddPart(parts, i, sum0);
        assert part[0..pos] == part[..pos];
        sum := Wrap(sum + Word(part[pos], if i + 1 < |parts| then parts[i + 1][0] else 0));
      }
    }
  }

  lemma {:induction false} BadPart(parts: seq<seq<byte>>, i: nat, carry: bool)
    requires i < |parts| && (ChainOk(parts, false) <==> ChainOk(parts[i..], carry))
    ensures carry && |parts[i]| != 1 ==> !ChainOk(parts, false)
    ensures !carry && |parts[i]| % 2 == 1 && i + 1 < |parts| && parts[i + 1] == [] ==> !ChainOk(parts, false)
  {
    assert parts[i..][0] == parts[i] && parts[i..][1..] == parts[i + 1..];
    if i + 1 < |parts| { assert parts[i + 1..][0] == parts[i + 1]; }
  }

  lemma {:induction false} EvenPart(parts: seq<seq<byte>>, i: nat, carry: bool, sum0: nat)
    requires i < |parts| && Summed(parts, i, carry, sum0)
    ensures carry && |parts[i]| == 1 ==> Summed(parts, i + 1, false, sum0)
    ensures !carry && |parts[i]| % 2 == 0 ==> Summed(parts, i + 1, false, Wrap(sum0 + WordSum(parts[i])))
  {
    FlatNext(parts, i);
    assert parts[i..][0] == parts[i] && parts[i..][1..] == parts[i + 1..];
    if carry && |parts[i]| == 1 {
      assert Consumed(parts, i, true) == Flat(parts[..i + 1]);
      assert Consumed(parts, i + 1, false) == Flat(parts[..i + 1]);
    }
    if !carry && |parts[i]| % 2 == 0 {
      assert Consumed(parts, i, false) == Flat(parts[..i]);
      assert Consumed(parts, i + 1, false) == Flat(parts[..i + 1]);
      ConsumeWords(Flat(parts[..i]), parts[i]);
    }
  }

  lemma {:induction false} OddPart(parts: seq<seq<byte>>, i: nat, sum0: nat)
    requires i < |parts| && Summed(parts, i, false, sum0)
    requires |parts[i]| % 2 == 1 && (i + 1 < |parts| ==> |parts[i + 1]| > 0)
    ensures var p, n := parts[i], |parts[i]| - 1; var next := if i + 1 < |parts| then parts[i + 1][0] else 0;
      Summed(parts, i + 1, true, Wrap(Wrap(sum0 + WordSum(p[..n])) + Word(p[n], next)))
  {
    FlatNext(parts, i);
    assert parts[i..][0] == parts[i] && parts[i..][1..] == parts[i + 1..];
    var p, n := parts[i], |parts[i]| - 1;
    var next := if i + 1 < |parts| then parts[i + 1][0] else 0;
    var tail := if i + 1 < |parts| then [next] else [];
    var done := Flat(parts[..i]);
    ConsumedOdd(parts, i);
    OddSum(done, p, tail, next);
  }

  lemma {:induction false} ConsumedOdd(parts: seq<seq<byte>>, i: nat)
    requires i < |parts| && (i + 1 < |parts| ==> |parts[i + 1]| > 0)
    ensures Consumed(parts, i, false) == Flat(parts[..i])
    ensures Consumed(parts, i + 1, true) ==
      Flat(parts[..i]) + (parts[i] + if i + 1 < |parts| then [parts[i + 1][0]] else [])
  {
    FlatNext(parts, i);
    AddedLast(Flat(parts[..i]), parts[i], if i + 1 < |parts| then [parts[i + 1][0]] else []);
  }

  lemma {:induction false} OddSum(done: seq<byte>, p: seq<byte>, tail: seq<byte>, next: byte)
    requires |done| % 2 == 0 && |p| % 2 == 1 && (tail == [next] || (tail == [] && next == 0))
    ensures var n := |p| - 1;
      Wrap(Wrap(Wrap(WordSum(done)) + WordSum(p[..n])) + Word(p[n], next)) == Wrap(WordSum(done + (p + tail)))
  {
    ConsumeWords(done, p + tail);
    OddWords(p, tail, next);
    WrapSum(Wrap(WordSum(done)) + WordSum(p[..|p| - 1]), Word(p[|p| - 1], next));
  }

  lemma {:induction false} OddWords(p: seq<byte>, tail: seq<byte>, next: byte)
    requires |p| % 2 == 1 && (tail == [next] || (tail == [] && next == 0))
    ensures WordSum(p + tail) == WordSum(p[..|p| - 1]) + Word(p[|p| - 1], next)
  {
    var q := [p[|p| - 1]] + tail;
    assert p + tail == p[..|p| - 1] + q;
    WordSumConcat(p[..|p| - 1], q);
    assert tail == [next] ==> q[2..] == [];
  }

  /** calc_payload_checksum. It stays inside the parts exactly for the chains above, and then it is
      the checksum of the parts put together. */
  method CalcPayloadChecksum(parts: seq<seq<byte>>) returns (r: Option<nat>)
    ensures r.Some? <==> ChainOk(parts, false)
    ensures r.Some? ==> r.value == 0xffff - SubFold(Wrap(WordSum(Flat(parts))))
  {
    var sum, offset, i := 0, 0, 0;
    assert parts[0..] == parts && Consumed(parts, 0, false) == [];
    while i < |parts|
      invariant i <= |parts| && offset <= 1 && Summed(parts, i, offset == 1, sum)
    {
      var ok;
      ok, sum, offset := AddPart(parts, i, offset, sum);
      if !ok {
        return None;
      }
      i := i + 1;
    }
    assert parts[..i] == parts && parts[i..] == [];
    assert Consumed(parts, i, offset == 1) == Flat(parts);
    var c := Complement(sum);
    r := Some(c);
  }

  // ---- the headers that carry the checksums ----

  const TTL: byte := 128
  const PROTOCOL_UDP: byte := 17

  /** The IPv4 header before its checksum is written. */
  function BlankIpv4(src: Ip, dst: Ip, protocol: byte, id: nat, payloadLen: nat): (r: seq<byte>)
    ensures |r| == 20 && r[10] == r[11] == 0 && r[12..] == src + dst
  {
    [0x45, 0] + Net16(20 + payloadLen) + Net16(id) + [0, 0, TTL, protocol, 0, 0] + (src + dst)
  }

  /** The header of send_ipv4_ex: it verifies, and its fields read back, lengths and ids cut to 16 bits. */
  method Ipv4Header(src: Ip, dst: Ip, protocol: byte, id: nat, payloadLen: nat) returns (h: seq<byte>)
    ensures |h| == 20 && Verifies(h)
    ensures h[0] == 0x45 && h[1] == h[6] == h[7] == 0 && h[8] == 128 && h[9] == protocol
    ensures ReadNet16(h, 2) == (20 + payloadLen) % 0x10000 && ReadNet16(h, 4) == id % 0x10000
    ensures h[12..16] == src && h[16..20] == dst
  {
    var blank := BlankIpv4(src, dst, protocol, id, payloadLen);
    var c := CalcChecksum(blank);
    CalcIsRfcIff(blank);
    StampedVerifies(blank, 10);
    StampKeeps(blank, 10, c);
    h := Stamp(blank, 10, c);
    Ipv4Fields(h, src, dst, protocol, id, payloadLen);
  }

  lemma {:induction false} Ipv4Fields(h: seq<byte>, src: Ip, dst: Ip, protocol: byte, id: nat, payloadLen: nat)
    requires |h| == 20 && h[..10] == BlankIpv4(src, dst, protocol, id, payloadLen)[..10] && h[12..] == src + dst
    ensures h[0] == 0x45 && h[1] == h[6] == h[7] == 0 && h[8] == 128 && h[9] == protocol
    ensures ReadNet16(h, 2) == (20 + payloadLen) % 0x10000 && ReadNet16(h, 4) == id % 0x10000
    ensures h[12..16] == src && h[16..20] == dst
  {
    var blank := BlankIpv4(src, dst, protocol, id, payloadLen);
    assert forall i :: 0 <= i < 10 ==> h[i] == h[..10][i] == blank[i];
    assert h[2..4] == Net16(20 + payloadLen) && h[4..6] == Net16(id);
    Net16RoundTrip(20 + payloadLen, h, 2);
    Net16RoundTrip(id, h, 4);
    assert h[12..16] == h[12..][..4] && h[16..20] == h[12..][4..];
  }

  lemma {:induction false} StampKeeps(b: seq<byte>, k: nat, c: nat)
    requires k + 2 <= |b|
    ensures var s := Stamp(b, k, c); |s| == |b| && s[..k] == b[..k] && s[k + 2..] == b[k + 2..]
  {
  }

  function PseudoHeader(src: Ip, dst: Ip, udpLength: nat): (r: seq<byte>)
    ensures |r| == 12
  {
    src + dst + [0, PROTOCOL_UDP] + Net16(udpLength)
  }

  function BlankUdp(srcport: nat, dstport: nat, udpLength: nat): (r: seq<byte>)
    ensures |r| == 8 && r[6] == r[7] == 0
  {
    Net16(srcport) + Net16(dstport) + Net16(udpLength) + [0, 0]
  }

  lemma {:induction false} FlatFront(a: seq<byte>, b: seq<byte>, parts: seq<seq<byte>>)
    ensures Flat([a, b] + parts) == a + b + Flat(parts)
  {
    if parts == [] {
      FlatTwo(a, b);
      assert [a, b] + parts == [a, b] && a + b + [] == a + b;
    } else {
      var n := |parts| - 1;
      var p, x := parts[..n], parts[n];
      FlatFront(a, b, p);
      FlatLast(p, x);
      FlatLast([a, b] + p, x);
      assert [a, b] + parts == ([a, b] + p) + [x] && parts == p + [x];
      AddedLast(a + b, Flat(p), x);
      assert a + b + Flat(parts) == a + b + (Flat(p) + x);
    }
  }

  lemma {:induction false} FlatTwo(a: seq<byte>, b: seq<byte>)
    ensures Flat([a, b]) == a + b
  {
    FlatLast([], a);
    FlatLast([a], b);
    assert [] + [a] == [a] && [a] + [b] == [a, b] && Flat([]) + a == a;
  }

  lemma {:induction false} FlatLast(p: seq<seq<byte>>, x: seq<byte>)
    ensures Flat(p + [x]) == Flat(p) + x
  {
    assert (p + [x])[..|p|] == p;
  }

  lemma {:induction false} AddedLast(a: seq<byte>, b: seq<byte>, c: seq<byte>)
    ensures (a + b) + c == a + (b + c)
  {
  }

  lemma {:induction false} ChainFront(a: seq<byte>, b: seq<byte>, parts: seq<seq<byte>>)
    requires |a| % 2 == 0 && |b| % 2 == 0
    ensures ChainOk([a, b] + parts, false) <==> ChainOk(parts, false)
  {
    assert ([a, b] + parts)[1..] == [b] + parts && ([b] + parts)[1..] == parts;
  }

  /** The fields of the pseudo header. */
  lemma {:induction false} PseudoFields(src: Ip, dst: Ip, udpLength: nat)
    ensures var p := PseudoHeader(src, dst, udpLength);
      && p[0..4] == src && p[4..8] == dst && p[8] == 0 && p[9] == 17 && ReadNet16(p, 10) == udpLength % 0x10000
  {
    Net16RoundTrip(udpLength, PseudoHeader(src, dst, udpLength), 10);
  }

  lemma {:induction false} UdpFields(h: seq<byte>, srcport: nat, dstport: nat, udpLength: nat)
    requires |h| == 8 && h[..6] == BlankUdp(srcport, dstport, udpLength)[..6]
    ensures ReadNet16(h, 0) == srcport % 0x10000 && ReadNet16(h, 2) == dstport % 0x10000
    ensures ReadNet16(h, 4) == udpLength % 0x10000
  {
    var blank := BlankUdp(srcport, dstport, udpLength);
    assert forall i :: 0 <= i < 6 ==> h[i] == h[..6][i] == blank[i];
    assert h[0..2] == Net16(srcport) && h[2..4] == Net16(dstport) && h[4..6] == Net16(udpLength);
    Net16RoundTrip(srcport, h, 0);
    Net16RoundTrip(dstport, h, 2);
    Net16RoundTrip(udpLength, h, 4);
  }

  /** The UDP header of send_udp_ex. Its fields read back, and with its pseudo header (PseudoFields)
      and its payload it verifies. */
  method UdpHeader(src: Ip, srcport: nat, dst: Ip, dstport: nat, payload: seq<seq<byte>>) returns (h: Option<seq<byte>>)
    ensures h.Some? <==> ChainOk(payload, false)
    ensures var len := 8 + |Flat(payload)|; h.Some? ==>
      && |h.value| == 8 && ReadNet16(h.value, 0) == srcport % 0x10000 && ReadNet16(h.value, 2) == dstport % 0x10000
      && ReadNet16(h.value, 4) == len % 0x10000
      && (12 + len <= MAX_LEN ==> Verifies(PseudoHeader(src, dst, len) + h.value + Flat(payload)))
  {
    var payloadLen := TotalLen(payload);
    var len := 8 + payloadLen;
    var blank, pseudo := BlankUdp(srcport, dstport, len), PseudoHeader(src, dst, len);
    FlatFront(pseudo, blank, payload);
    ChainFront(pseudo, blank, payload);
    var c := CalcPayloadChecksum([pseudo, blank] + payload);
    if c == None {
      return None;
    }
    StampKeeps(blank, 6, c.value);
    h := Some(Stamp(blank, 6, c.value));
    UdpFields(h.value, srcport, dstport, len);
    if 12 + len <= MAX_LEN {
      UdpVerifies(pseudo, blank, Flat(payload), c.value);
    }
  }

  lemma {:induction false} UdpVerifies(pseudo: seq<byte>, blank: seq<byte>, data: seq<byte>, c: nat)
    requires |pseudo| == 12 && |blank| == 8 && blank[6] == blank[7] == 0 && 20 + |data| <= MAX_LEN
    requires c == 0xffff - SubFold(Wrap(WordSum(pseudo + blank + data)))
    ensures Verifies(pseudo + Stamp(blank, 6, c) + data)
  {
    var all := pseudo + blank + data;
    NoWrap(all);
    SubIsCarry(WordSum(all));
    StampedVerifies(all, 18);
    assert Stamp(all, 18, c) == pseudo + Stamp(blank, 6, c) + data;
  }
}
