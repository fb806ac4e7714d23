/** Bytes, 16-bit network-order fields and the other vocabulary shared by the models. */
module Bytes {

  type byte = b: int | 0 <= b < 256

  /** An IPv4 address as the four bytes found in a header. */
  type Ip = s: seq<byte> | |s| == 4 witness [0, 0, 0, 0]

  /** The message types of the relay protocol that carry an IPv4 packet, whole or in part. */
  const TYPE_IPV4: byte := 1
  const TYPE_IPV4_FRAG: byte := 3

  /** The magic number of LDN packets, 0x11451400, little-endian. */
  const LDN_MAGIC: seq<byte> := [0x00, 0x14, 0x45, 0x11]

  datatype Option<+T> = None | Some(value: T)

  function Min(a: int, b: int): int {
    if a < b then a else b
  }

  /** The pieces end to end. */
  function Flat(pieces: seq<seq<byte>>): (r: seq<byte>) {
    if pieces == [] then [] else Flat(pieces[..|pieces| - 1]) + pieces[|pieces| - 1]
  }

  lemma {:induction false} FlatNext(pieces: seq<seq<byte>>, k: nat)
    requires k < |pieces|
    ensures Flat(pieces[..k + 1]) == Flat(pieces[..k]) + pieces[k]
  {
    assert pieces[..k + 1][..k] == pieces[..k];
  }

  /** The length of the pieces together, added up piece by piece. */
  method TotalLen(pieces: seq<seq<byte>>) returns (n: nat)
    ensures n == |Flat(pieces)|
  {
    n := 0;
    for i := 0 to |pieces|
      invariant n == |Flat(pieces[..i])|
    {
      FlatNext(pieces, i);
      n := n + |pieces[i]|;
    }
    assert pieces[..|pieces|] == pieces;
  }

  function Zeros(n: nat): (r: seq<byte>)
    ensures |r| == n && forall i :: 0 <= i < n ==> r[i] == 0
  {
    seq(n, _ => 0)
  }

  /** WRITE_NET16: the low 16 bits, most significant byte first. */
  function Net16(v: nat): (r: seq<byte>)
    ensures |r| == 2
  {
    [v / 256 % 256, v % 256]
  }

  /** READ_NET16 */
  function ReadNet16(s: seq<byte>, off: nat): (r: nat)
    requires off + 2 <= |s|
    ensures r < 0x10000
  {
    s[off] as int * 256 + s[off + 1] as int
  }

  lemma {:induction false} Net16Truncates(v: nat)
    ensures Net16(v % 0x10000) == Net16(v)
  {
    var q, r := v / 0x10000, v % 0x10000;
    assert v == 0x10000 * q + r && v / 256 == 256 * q + r / 256;
  }

  lemma {:induction false} Net16RoundTrip(v: nat, s: seq<byte>, off: nat)
    requires off + 2 <= |s| && s[off..off + 2] == Net16(v)
    ensures ReadNet16(s, off) == v % 0x10000
  {
    assert s[off] == s[off..off + 2][0] && s[off + 1] == s[off..off + 2][1];
    Net16Value(v);
  }

  lemma {:induction false} Net16Value(v: nat)
    ensures v / 256 % 256 * 256 + v % 256 == v % 0x10000
  {
    var q, r := v / 0x10000, v % 0x10000;
    assert v / 256 == 256 * q + r / 256;
  }

  /** Network order: the high byte comes first. */
  lemma {:induction false} BigEndian(hi: byte, lo: byte)
    ensures Net16(256 * hi + lo) == [hi, lo] && ReadNet16([hi, lo], 0) == 256 * hi + lo
  {
    var v := 256 * hi as int + lo as int;
    assert v / 256 == hi && v % 256 == lo;
  }
}
