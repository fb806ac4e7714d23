/** base64_encode and base64_decode of src/rpc/base64.hpp, against section 4 of RFC 4648. Bytes and
    characters are bit-vectors, so that masks, shifts and truncation are those of the source. */
module Base64 {

  type Text = seq<bv8>

  const PAD: bv8 := 61 // '='

  // ---- the alphabet ----

  /** base64_chars[k]: A to Z, a to z, 0 to 9, + and /. */
  function Letter(k: bv8): bv8
    requires k < 64
  {
    if k < 26 then 65 + k else if k < 52 then 97 + (k - 26) else if k < 62 then 48 + (k - 52) else if k == 62 then 43
        else 47
  }

  /** is_base64 */
  predicate IsLetter(c: bv8) {
    65 <= c <= 90 || 97 <= c <= 122 || 48 <= c <= 57 || c == 43 || c == 47
  }

  /** base64_chars.find(c), for a letter c */
  function Find(c: bv8): (k: bv8)
    ensures k < 64
  {
    if 65 <= c <= 90 then c - 65
    else if 97 <= c <= 122 then c - 97 + 26
    else if 48 <= c <= 57 then c - 48 + 52
    else if c == 43 then 62 else 63
  }

  lemma {:induction false} FindLetter(k: bv8)
    requires k < 64
    ensures IsLetter(Letter(k)) && Letter(k) != PAD && Find(Letter(k)) == k
  {
  }

  // ---- RFC 4648: groups of 24 bits ----

  /** The 24-bit group that three bytes form, and its four 6-bit digits. */
  function Group(b0: bv8, b1: bv8, b2: bv8): bv24 {
    ((b0 as bv24) << 16) | ((b1 as bv24) << 8) | (b2 as bv24)
  }

  /** Digit i of the group, counted from the left. */
  function Digit(v: bv24, i: nat): (d: bv8)
    requires i < 4
    ensures d < 64
  {
    var w := (if i == 0 then v >> 18 else if i == 1 then v >> 12 else if i == 2 then v >> 6 else v) & 0x3f;
    assert w < 64;
    w as bv8
  }

  /** The group that four digits form, and its three bytes. */
  function Value(d0: bv8, d1: bv8, d2: bv8, d3: bv8): bv24 {
    ((d0 as bv24) << 18) | ((d1 as bv24) << 12) | ((d2 as bv24) << 6) | (d3 as bv24)
  }

  function Octet(v: bv24, i: nat): bv8
    requires i < 3
  {
    var w := (if i == 0 then v >> 16 else if i == 1 then v >> 8 else v) & 0xff;
    assert w < 256;
    w as bv8
  }

  /** The masks and shifts of the encoder give the digits of the group. */
  lemma {:induction false} MasksAreDigits(b0: bv8, b1: bv8, b2: bv8)
    ensures var v := Group(b0, b1, b2);
      && (b0 & 0xfc) >> 2 == Digit(v, 0)
      && ((b0 & 0x03) << 4) + ((b1 & 0xf0) >> 4) == Digit(v, 1)
      && ((b1 & 0x0f) << 2) + ((b2 & 0xc0) >> 6) == Digit(v, 2)
      && b2 & 0x3f == Digit(v, 3)
  {
  }

  /** The masks and shifts of the decoder give the bytes of the group. */
  lemma {:induction false} MasksAreOctets(d0: bv8, d1: bv8, d2: bv8, d3: bv8)
    requires d0 < 64 && d1 < 64 && d2 < 64 && d3 < 64
    ensures var v := Value(d0, d1, d2, d3);
      && (d0 << 2) + ((d1 & 0x30) >> 4) == Octet(v, 0)
      && ((d1 & 0xf) << 4) + ((d2 & 0x3c) >> 2) == Octet(v, 1)
      && ((d2 & 0x3) << 6) + d3 == Octet(v, 2)
  {
  }

  /** Putting the digits of a group together again gives its bytes. */
  lemma {:induction false} OctetsOfDigits(b0: bv8, b1: bv8, b2: bv8)
    ensures var v := Group(b0, b1, b2);
      var w := Value(Digit(v, 0), Digit(v, 1), Digit(v, 2), Digit(v, 3));
      Octet(w, 0) == b0 && Octet(w, 1) == b1 && Octet(w, 2) == b2
  {
  }

  lemma {:induction false} Quotient(n: nat, w: nat, k: nat, r: nat)
    requires (w == 3 || w == 4) && n == w * k + r && r < w
    ensures n / w == k
  {
  }

  // ---- encoding ----

  /** The four letters of a group. */
  function Quad(b: seq<bv8>): (s: Text)
    requires |b| == 3
    ensures |s| == 4
  {
    var v := Group(b[0], b[1], b[2]);
    [Letter(Digit(v, 0)), Letter(Digit(v, 1)), Letter(Digit(v, 2)), Letter(Digit(v, 3))]
  }

  /** The first k groups. */
  function EncodeGroups(x: seq<bv8>, k: nat): (s: Text)
    requires 3 * k <= |x|
    ensures |s| == 4 * k
  {
    if k == 0 then [] else EncodeGroups(x, k - 1) + Quad(x[3 * k - 3..3 * k])
  }

  function Fill(c: bv8, n: nat): (r: seq<bv8>)
    ensures |r| == n && forall i :: 0 <= i < n ==> r[i] == c
  {
    seq(n, _ => c)
  }

  /** One or two last bytes: padded with zero bits, the unused digits replaced by '='. */
  function EncodeLast(x: seq<bv8>): (s: Text)
    requires |x| < 3
  {
    if x == [] then [] else Quad(x + Fill(0, 3 - |x|))[..|x| + 1] + Fill(PAD, 3 - |x|)
  }

  /** The encoding of RFC 4648: four letters for every three bytes begun. */
  function Encoded(x: seq<bv8>): (s: Text)
    ensures |s| == 4 * ((|x| + 2) / 3)
  {
    EncodeGroups(x, |x| / 3) + EncodeLast(x[3 * (|x| / 3)..])
  }

  /** s encodes the first k groups of x; behind a quantifier, so that the loop need not look into it. */
  ghost predicate EncodedUpTo(x: seq<bv8>, k: nat, s: Text) {
    3 * k <= |x| && forall y :: Same(y, x) ==> s == EncodeGroups(y, k)
  }

  predicate Same(y: seq<bv8>, x: seq<bv8>) { y == x }

  lemma {:induction false} EncodedUpToIff(x: seq<bv8>, k: nat, s: Text)
    requires 3 * k <= |x|
    ensures EncodedUpTo(x, k, s) <==> s == EncodeGroups(x, k)
  {
    assert Same(x, x);
  }

  lemma {:induction false} EncodeNext(x: seq<bv8>, k: nat, s: Text, three: seq<bv8>, four: Text)
    requires EncodedUpTo(x, k, s) && 3 * k + 3 <= |x| && three == x[3 * k..3 * k + 3] && four == Quad(three)
    ensures EncodedUpTo(x, k + 1, s + four)
  {
    EncodedUpToIff(x, k, s);
    EncodedUpToIff(x, k + 1, s + four);
  }

  lemma {:induction false} EncodeEnd(x: seq<bv8>, k: nat, s: Text, last: seq<bv8>)
    requires EncodedUpTo(x, k, s) && last == x[3 * k..] && |last| < 3
    ensures s + EncodeLast(last) == Encoded(x)
  {
    Quotient(|x|, 3, k, |last|);
    EncodedUpToIff(x, k, s);
  }

  lemma {:induction false} SliceSnoc(s: seq<bv8>, a: nat, b: nat)
    requires a <= b < |s|
    ensures s[a..b] + [s[b]] == s[a..b + 1]
  {
  }

  /** base64_encode */
  method Encode(bytes: seq<bv8>) returns (ret: Text)
    ensures ret == Encoded(bytes)
  {
    ret := [];
    var three: seq<bv8> := [];
    var done := 0;
    ghost var k := 0;
    EncodedUpToIff(bytes, 0, []);
    while done < |bytes|
      invariant 3 * k + |three| == done <= |bytes| && |three| < 3 && three == bytes[3 * k..done]
      invariant EncodedUpTo(bytes, k, ret)
    {
      SliceSnoc(bytes, 3 * k, done);
      three := three + [bytes[done]];
      done := done + 1;
      if |three| == 3 {
        var four := FourOf(three);
        EncodeNext(bytes, k, ret, three, four);
        ret := ret + four;
        three, k := [], k + 1;
      }
    }
    EncodeEnd(bytes, k, ret, three);
    var last := EncodeTail(three);
    ret := ret + last;
  }

  /** The masks and shifts of the encoder. */
  method DigitsOf(b0: bv8, b1: bv8, b2: bv8) returns (d0: bv8, d1: bv8, d2: bv8, d3: bv8)
    ensures var v := Group(b0, b1, b2); d0 == Digit(v, 0) && d1 == Digit(v, 1) && d2 == Digit(v, 2) && d3 == Digit(v, 3)
  {
    MasksAreDigits(b0, b1, b2);
    d0 := (b0 & 0xfc) >> 2;
    d1 := ((b0 & 0x03) << 4) + ((b1 & 0xf0) >> 4);
    d2 := ((b1 & 0x0f) << 2) + ((b2 & 0xc0) >> 6);
    d3 := b2 & 0x3f;
  }

  /** The four letters of three bytes. */
  method FourOf(three: seq<bv8>) returns (s: Text)
    requires |three| == 3
    ensures s == Quad(three)
  {
    var d0, d1, d2, d3 := DigitsOf(three[0], three[1], three[2]);
    s := Spell([d0, d1, d2, d3]);
    assert s == [Letter(d0), Letter(d1), Letter(d2), Letter(d3)];
  }

  method Spell(digits: seq<bv8>) returns (s: Text)
    requires forall i :: 0 <= i < |digits| ==> digits[i] < 64
    ensures |s| == |digits| && forall i :: 0 <= i < |s| ==> s[i] == Letter(digits[i])
  {
    s := [];
    for i := 0 to |digits|
      invariant |s| == i && forall j :: 0 <= j < i ==> s[j] == Letter(digits[j])
    {
      s := s + [Letter(digits[i])];
    }
  }

  /** The last one or two bytes, through the same masks. */
  method EncodeTail(last: seq<bv8>) returns (s: Text)
    requires |last| < 3
    ensures s == EncodeLast(last)
  {
    if |last| == 0 {
      return [];
    }
    var four := FourOf(last + Fill(0, 3 - |last|));
    s := four[..|last| + 1];
    var i := |last|;
    while i < 3
      invariant |last| <= i <= 3 && s == four[..|last| + 1] + Fill(PAD, i - |last|)
    {
      s := s + [PAD];
      i := i + 1;
    }
  }

  // ---- decoding ----

  /** How many letters the text starts with. */
  function Prefix(s: Text): (n: nat)
    ensures n <= |s| && (n < |s| ==> !IsLetter(s[n])) && forall i :: 0 <= i < n ==> IsLetter(s[i])
  {
    if s == [] || !IsLetter(s[0]) then 0 else 1 + Prefix(s[1..])
  }

  /** The three bytes of four digits. */
  function Octets(d: seq<bv8>): (b: seq<bv8>)
    requires |d| == 4
    ensures |b| == 3
  {
    var v := Value(d[0], d[1], d[2], d[3]);
    [Octet(v, 0), Octet(v, 1), Octet(v, 2)]
  }

  function Finds(s: Text): (d: seq<bv8>)
    ensures |d| == |s| && forall i :: 0 <= i < |s| ==> d[i] == Find(s[i])
  {
    seq(|s|, i requires 0 <= i < |s| => Find(s[i]))
  }

  function DecodeGroups(s: Text, k: nat): (x: seq<bv8>)
    requires 4 * k <= |s|
    ensures |x| == 3 * k
  {
    if k == 0 then [] else DecodeGroups(s, k - 1) + Octets(Finds(s[4 * k - 4..4 * k]))
  }

  /** Up to three last letters: only whole bytes count. */
  function DecodeLast(s: Text): seq<bv8>
    requires |s| < 4
  {
    if s == [] then [] else Octets(Finds(s) + Fill(0, 4 - |s|))[..|s| - 1]
  }

  /** The letters the text starts with stand for these bytes; what follows them is ignored. */
  function Decoded(s: Text): seq<bv8> {
    var n := Prefix(s);
    DecodeGroups(s, n / 4) + DecodeLast(s[4 * (n / 4)..n])
  }

  /** x are the bytes of the first k groups of s, again behind a quantifier. */
  ghost predicate DecodedUpTo(s: Text, k: nat, x: seq<bv8>) {
    4 * k <= |s| && forall t :: Same(t, s) ==> x == DecodeGroups(t, k)
  }

  lemma {:induction false} DecodedUpToIff(s: Text, k: nat, x: seq<bv8>)
    requires 4 * k <= |s|
    ensures DecodedUpTo(s, k, x) <==> x == DecodeGroups(s, k)
  {
    assert Same(s, s);
  }

  lemma {:induction false} DecodeNext(s: Text, k: nat, x: seq<bv8>, four: Text, three: seq<bv8>)
    requires DecodedUpTo(s, k, x) && 4 * k + 4 <= |s| && four == s[4 * k..4 * k + 4] && three == Octets(Finds(four))
    ensures DecodedUpTo(s, k + 1, x + three)
  {
    DecodedUpToIff(s, k, x);
    DecodedUpToIff(s, k + 1, x + three);
  }

  lemma {:induction false} DecodeEnd(s: Text, k: nat, x: seq<bv8>, last: Text)
    requires DecodedUpTo(s, k, x) && |last| < 4 && 4 * k + |last| == Prefix(s) && last == s[4 * k..Prefix(s)]
    ensures x + DecodeLast(last) == Decoded(s)
  {
    Quotient(Prefix(s), 4, k, |last|);
    DecodedUpToIff(s, k, x);
  }

  /** k groups have been read, and then the letters `four`. */
  predicate Reading(s: Text, k: nat, read: nat, four: Text) {
    4 * k + |four| == read <= Prefix(s) && four == s[4 * k..read]
  }

  lemma {:induction false} ReadLetter(s: Text, k: nat, read: nat, four: Text)
    requires Reading(s, k, read, four) && read < |s| && IsLetter(s[read])
    ensures Reading(s, k, read + 1, four + [s[read]])
    ensures |four| == 3 ==> Reading(s, k + 1, read + 1, [])
  {
    SliceSnoc(s, 4 * k, read);
  }

  lemma {:induction false} ReadEnd(s: Text, k: nat, read: nat, four: Text)
    requires Reading(s, k, read, four) && (read < |s| ==> !IsLetter(s[read]))
    ensures read == Prefix(s)
  {
  }

  /** base64_decode. `stale` is what the four-byte scratch array happens to hold behind the last letters. */
  method Decode(encoded: Text, stale: seq<bv8>) returns (ret: seq<bv8>)
    requires |stale| == 4
    ensures ret == Decoded(encoded)
  {
    ret := [];
    var four: Text := [];
    var read := 0;
    ghost var k := 0;
    DecodedUpToIff(encoded, 0, []);
    while read < |encoded| && encoded[read] != PAD && IsLetter(encoded[read])
      invariant Reading(encoded, k, read, four) && |four| < 4
      invariant DecodedUpTo(encoded, k, ret)
    {
      ReadLetter(encoded, k, read, four);
      four := four + [encoded[read]];
      read := read + 1;
      if |four| == 4 {
        ret := DecodeQuad(encoded, k, ret, four);
        four, k := [], k + 1;
      }
    }
    ReadEnd(encoded, k, read, four);
    DecodeEnd(encoded, k, ret, four);
    var last := DecodeTail(four, stale);
    ret := ret + last;
  }

  method DecodeQuad(ghost encoded: Text, ghost k: nat, x: seq<bv8>, four: Text) returns (x': seq<bv8>)
    requires DecodedUpTo(encoded, k, x) && 4 * k + 4 <= |encoded| && four == encoded[4 * k..4 * k + 4]
    ensures DecodedUpTo(encoded, k + 1, x')
  {
    var three := ThreeOf(Finds(four));
    DecodeNext(encoded, k, x, four, three);
    x' := x + three;
  }

  /** The masks and shifts of the decoder. */
  method ThreeOf(four: seq<bv8>) returns (three: seq<bv8>)
    requires |four| == 4 && forall i :: 0 <= i < 4 ==> four[i] < 64
    ensures three == Octets(four)
  {
    MasksAreOctets(four[0], four[1], four[2], four[3]);
    three := [ (four[0] << 2) + ((four[1] & 0x30) >> 4)
             , ((four[1] & 0xf) << 4) + ((four[2] & 0x3c) >> 2)
             , ((four[2] & 0x3) << 6) + four[3] ];
  }

  /** The last letters, through the same masks. The stale entries do not reach the bytes that are kept. */
  method DecodeTail(last: Text, stale: seq<bv8>) returns (x: seq<bv8>)
    requires |last| < 4 && |stale| == 4
    ensures x == DecodeLast(last)
  {
    if |last| == 0 {
      return [];
    }
    var four := Finds(last) + stale[|last|..];
    StaleIsIgnored(four[0], four[1], four[2]);
    var three := [(four[0] << 2) + ((four[1] & 0x30) >> 4), ((four[1] & 0xf) << 4) + ((four[2] & 0x3c) >> 2)];
    x := three[..|last| - 1];
  }

  lemma {:induction false} StaleIsIgnored(d0: bv8, d1: bv8, d2: bv8)
    requires d0 < 64
    ensures d1 < 64 ==> (d0 << 2) + ((d1 & 0x30) >> 4) == Octet(Value(d0, d1, 0, 0), 0)
    ensures d1 < 64 && d2 < 64 ==>
      && (d0 << 2) + ((d1 & 0x30) >> 4) == Octet(Value(d0, d1, d2, 0), 0)
      && ((d1 & 0xf) << 4) + ((d2 & 0x3c) >> 2) == Octet(Value(d0, d1, d2, 0), 1)
  {
  }

  lemma {:induction false} PrefixIs(s: Text, n: nat)
    requires n <= |s| && (forall i :: 0 <= i < n ==> IsLetter(s[i])) && (n < |s| ==> !IsLetter(s[n]))
    ensures Prefix(s) == n
  {
    var _ := Prefix(s);
  }

  // ---- there and back ----

  lemma {:induction false} OctetsQuad(b: seq<bv8>)
    requires |b| == 3
    ensures Octets(Finds(Quad(b))) == b
    ensures forall i :: 0 <= i < 4 ==> IsLetter(Quad(b)[i])
  {
    var v := Group(b[0], b[1], b[2]);
    FindLetter(Digit(v, 0));
    FindLetter(Digit(v, 1));
    FindLetter(Digit(v, 2));
    FindLetter(Digit(v, 3));
    OctetsOfDigits(b[0], b[1], b[2]);
  }

  lemma {:induction false} GroupAt(x: seq<bv8>, m: nat, k: nat)
    requires k < m && 3 * m <= |x|
    ensures EncodeGroups(x, m)[4 * k..4 * k + 4] == Quad(x[3 * k..3 * k + 3])
  {
    if k < m - 1 {
      GroupAt(x, m - 1, k);
      assert EncodeGroups(x, m)[4 * k..4 * k + 4] == EncodeGroups(x, m - 1)[4 * k..4 * k + 4];
    }
  }

  /** Each group of the encoding decodes to its bytes. */
  lemma {:induction false} GroupBack(x: seq<bv8>, s: Text, m: nat, k: nat)
    requires k < m && 3 * m <= |x| && EncodeGroups(x, m) <= s
    ensures Octets(Finds(s[4 * k..4 * k + 4])) == x[3 * k..3 * k + 3]
    ensures forall i :: 4 * k <= i < 4 * k + 4 ==> IsLetter(s[i])
  {
    GroupAt(x, m, k);
    var g, q := x[3 * k..3 * k + 3], s[4 * k..4 * k + 4];
    assert q == EncodeGroups(x, m)[4 * k..4 * k + 4];
    OctetsQuad(g);
    forall i | 4 * k <= i < 4 * k + 4 ensures IsLetter(s[i]) { assert s[i] == q[i - 4 * k]; }
  }

  lemma {:induction false} GroupsBack(x: seq<bv8>, s: Text, m: nat, k: nat)
    requires k <= m && 3 * m <= |x| && EncodeGroups(x, m) <= s
    ensures DecodeGroups(s, k) == x[..3 * k]
  {
    if k > 0 {
      var j := k - 1;
      GroupsBack(x, s, m, j);
      GroupBack(x, s, m, j);
      DecodeOneMore(s, j);
      TakeThree(x, 3 * j);
    }
  }

  lemma {:induction false} DecodeOneMore(s: Text, j: nat)
    requires 4 * j + 4 <= |s|
    ensures DecodeGroups(s, j + 1) == DecodeGroups(s, j) + Octets(Finds(s[4 * j..4 * j + 4]))
  {
  }

  lemma {:induction false} TakeThree(x: seq<bv8>, n: nat)
    requires n + 3 <= |x|
    ensures x[..n + 3] == x[..n] + x[n..n + 3]
  {
  }

  lemma {:induction false} GroupLetters(x: seq<bv8>, s: Text, m: nat, i: nat)
    requires i < 4 * m && 3 * m <= |x| && EncodeGroups(x, m) <= s
    ensures IsLetter(s[i])
  {
    GroupBack(x, s, m, i / 4);
  }

  /** The last bytes come back, and their letters end at the padding. */
  lemma {:induction false} LastBack(x: seq<bv8>)
    requires |x| < 3
    ensures var s, n := EncodeLast(x), if x == [] then 0 else |x| + 1;
      && n <= |s| && (forall i :: 0 <= i < n ==> IsLetter(s[i])) && (forall i :: n <= i < |s| ==> s[i] == PAD)
      && DecodeLast(s[..n]) == x
  {
    if x != [] {
      var b, n := x + Fill(0, 3 - |x|), |x| + 1;
      var q := Quad(b);
      OctetsQuad(b);
      LastDigits(b[0], b[1]);
      assert EncodeLast(x)[..n] == q[..n];
      assert Finds(q[..n]) + Fill(0, 4 - n) == Finds(q);
      assert b[..|x|] == x;
    }
  }

  /** Bytes that are zero leave zero digits. */
  lemma {:induction false} LastDigits(b0: bv8, b1: bv8)
    ensures Find(Letter(Digit(Group(b0, b1, 0), 3))) == 0
    ensures Find(Letter(Digit(Group(b0, 0, 0), 2))) == 0 == Find(Letter(Digit(Group(b0, 0, 0), 3)))
  {
  }

  lemma {:induction false} JoinedPrefix(a: Text, b: Text, n: nat)
    requires (forall i :: 0 <= i < |a| ==> IsLetter(a[i])) && n <= |b|
    requires (forall i :: 0 <= i < n ==> IsLetter(b[i])) && (n < |b| ==> b[n] == PAD)
    ensures Prefix(a + b) == |a| + n && (a + b)[|a|..|a| + n] == b[..n]
  {
    PrefixIs(a + b, |a| + n);
  }

  lemma {:induction false} EncodedBack(x: seq<bv8>, m: nat, last: seq<bv8>)
    requires 3 * m <= |x| && last == x[3 * m..] && |last| < 3
    ensures Decoded(EncodeGroups(x, m) + EncodeLast(last)) == x[..3 * m] + last
  {
    var a, b, n := EncodeGroups(x, m), EncodeLast(last), if last == [] then 0 else |last| + 1;
    LastBack(last);
    GroupsBack(x, a + b, m, m);
    forall i | 0 <= i < |a| ensures IsLetter(a[i]) { GroupLetters(x, a, m, i); }
    JoinedPrefix(a, b, n);
    DecodedUpToIff(a + b, m, x[..3 * m]);
    DecodeEnd(a + b, m, x[..3 * m], b[..n]);
  }

  /** Decoding an encoding gives back the bytes. */
  lemma {:induction false} DecodedEncoded(x: seq<bv8>)
    ensures Decoded(Encoded(x)) == x
  {
    var m := |x| / 3;
    var last := x[3 * m..];
    EncodedBack(x, m, last);
    Rejoin(x, 3 * m);
  }

  lemma {:induction false} Rejoin(x: seq<bv8>, n: nat)
    requires n <= |x|
    ensures x[..n] + x[n..] == x
  {
  }

  /** One '=' for each byte missing from the last group, at the end and nowhere else. */
  lemma {:induction false} Padding(x: seq<bv8>)
    ensures var s, n := Encoded(x), |x| + (|x| + 2) / 3;
      // four letters for three bytes, one more than the bytes left over
      n <= |s| && forall i :: 0 <= i < |s| ==> if i < n then IsLetter(s[i]) else s[i] == PAD
  {
    var m := |x| / 3;
    var last := x[3 * m..];
    Quotient(|x| + 2, 3, if last == [] then m else m + 1, if last == [] then 2 else |last| - 1);
    PaddedLetters(x, m, last);
  }

  lemma {:induction false} PaddedLetters(x: seq<bv8>, m: nat, last: seq<bv8>)
    requires 3 * m <= |x| && last == x[3 * m..] && |last| < 3
    ensures var s, n := EncodeGroups(x, m) + EncodeLast(last), 4 * m + if last == [] then 0 else |last| + 1;
      n <= |s| && forall i :: 0 <= i < |s| ==> if i < n then IsLetter(s[i]) else s[i] == PAD
  {
    LastBack(last);
    forall i | 0 <= i < 4 * m ensures IsLetter(EncodeGroups(x, m)[i]) { GroupLetters(x, EncodeGroups(x, m), m, i); }
  }

  // ---- RFC 4648 in letters ----

  /** The alphabet of table 1, four letters at a time: the letters of the digits 0 to 31, */
  lemma {:induction false} LowAlphabet()
    ensures Quad([0, 16, 131]) == [65, 66, 67, 68]
    ensures Quad([16, 81, 135]) == [69, 70, 71, 72]
    ensures Quad([32, 146, 139]) == [73, 74, 75, 76]
    ensures Quad([48, 211, 143]) == [77, 78, 79, 80]
    ensures Quad([65, 20, 147]) == [81, 82, 83, 84]
    ensures Quad([81, 85, 151]) == [85, 86, 87, 88]
    ensures Quad([97, 150, 155]) == [89, 90, 97, 98]
    ensures Quad([113, 215, 159]) == [99, 100, 101, 102]
  {
  }

  /** and of the digits 32 to 63. */
  lemma {:induction false} HighAlphabet()
    ensures Quad([130, 24, 163]) == [103, 104, 105, 106]
    ensures Quad([146, 89, 167]) == [107, 108, 109, 110]
    ensures Quad([162, 154, 171]) == [111, 112, 113, 114]
    ensures Quad([178, 219, 175]) == [115, 116, 117, 118]
    ensures Quad([195, 28, 179]) == [119, 120, 121, 122]
    ensures Quad([211, 93, 183]) == [48, 49, 50, 51]
    ensures Quad([227, 158, 187]) == [52, 53, 54, 55]
    ensures Quad([243, 223, 191]) == [56, 57, 43, 47]
  {
  }

  /** Three of the test vectors of section 10: "foo", "fo" and "f". */
  lemma {:induction false} Vectors()
    ensures Encoded([102, 111, 111]) == [90, 109, 57, 118]
    ensures Encoded([102, 111]) == [90, 109, 56, 61]
    ensures Encoded([102]) == [90, 103, 61, 61]
  {
    assert EncodeGroups([102, 111, 111], 1) == EncodeGroups([102, 111, 111], 0) + Quad([102, 111, 111][0..3]);
    assert [102, 111, 111][0..3] == [102, 111, 111] && [102, 111, 111][3..] == [];
    assert [102, 111][0..] == [102, 111] && [102][0..] == [102];
  }
}
