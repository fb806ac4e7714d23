/** SHA-1 as FIPS PUB 180-1 defines it: the padding of section 4 and the 80-word method of section 7. */
module Sha1Spec {

  datatype Regs = Regs(a: bv32, b: bv32, c: bv32, d: bv32, e: bv32)

  /** S^1, S^5 and S^30: circular left shifts (section 3). */
  function Rol1(x: bv32): bv32 { (x << 1) | (x >> 31) }
  function Rol5(x: bv32): bv32 { (x << 5) | (x >> 27) }
  function Rol30(x: bv32): bv32 { (x << 30) | (x >> 2) }

  /** The logical functions of section 5. */
  function Ch(b: bv32, c: bv32, d: bv32): bv32 { (b & c) | ((!b) & d) }
  function Parity(b: bv32, c: bv32, d: bv32): bv32 { b ^ c ^ d }
  function Maj(b: bv32, c: bv32, d: bv32): bv32 { (b & c) | (b & d) | (c & d) }

  function F(t: nat, b: bv32, c: bv32, d: bv32): bv32 {
    if t < 20 then Ch(b, c, d) else if t < 40 then Parity(b, c, d) else if t < 60 then Maj(b, c, d) else Parity(b, c, d)
  }

  /** The constants of section 6. */
  function K(t: nat): bv32 {
    if t < 20 then 0x5A827999 else if t < 40 then 0x6ED9EBA1 else if t < 60 then 0x8F1BBCDC else 0xCA62C1D6
  }

  /** k is the integer part of the square root of n, times 2 to the 30. */
  predicate IsRoot(k: nat, n: nat) { k * k <= n * 0x1000_0000_0000_0000 < (k + 1) * (k + 1) }

  /** Where the constants come from: the square roots of 2, 3, 5 and 10. */
  lemma {:induction false} ConstantsAreRoots(t: nat)
    ensures IsRoot(K(t) as nat, if t < 20 then 2 else if t < 40 then 3 else if t < 60 then 5 else 10)
  {
    assert IsRoot(0x5A827999, 2) && IsRoot(0x6ED9EBA1, 3) && IsRoot(0x8F1BBCDC, 5) && IsRoot(0xCA62C1D6, 10);
  }

  function Mix(p: bv32, q: bv32, r: bv32, s: bv32): bv32 { Rol1(p ^ q ^ r ^ s) }

  /** Addition modulo 2^32 (section 3). */
  function Add(x: bv32, y: bv32): bv32 { x + y }

  function Add5(v: bv32, w: bv32, x: bv32, y: bv32, z: bv32): bv32 { v + w + x + y + z }

  /** Section 7 (a) and (b): the 80 words made from the 16 words of a block. */
  function W(m: seq<bv32>, t: nat): bv32
    requires |m| == 16
  {
    if t < 16 then m[t] else Mix(W(m, t - 3), W(m, t - 8), W(m, t - 14), W(m, t - 16))
  }

  /** Section 7 (d): one round, all five registers shifting. */
  function Round(r: Regs, t: nat, w: bv32): Regs {
    Regs(Add5(Rol5(r.a), F(t, r.b, r.c, r.d), r.e, w, K(t)), r.a, Rol30(r.b), r.c, r.d)
  }

  function Rounds(m: seq<bv32>, h: Regs, t: nat): Regs
    requires |m| == 16
  {
    if t == 0 then h else Round(Rounds(m, h, t - 1), t - 1, W(m, t - 1))
  }

  /** Four bytes as a word, most significant first (section 2). */
  function Word(b0: bv8, b1: bv8, b2: bv8, b3: bv8): bv32 {
    (b0 as bv32 << 24) | (b1 as bv32 << 16) | (b2 as bv32 << 8) | b3 as bv32
  }

  function Words(block: seq<bv8>): (m: seq<bv32>)
    requires |block| == 64
    ensures |m| == 16
  {
    seq(16, i requires 0 <= i < 16 => Word(block[4 * i], block[4 * i + 1], block[4 * i + 2], block[4 * i + 3]))
  }

  /** Section 7 (c) and (e). The number of rounds, 80, is five for each of the sixteen words. */
  function Compress(h: Regs, block: seq<bv8>): Regs
    requires |block| == 64
  {
    var m := Words(block);
    var r := Rounds(m, h, 5 * |m|);
    Regs(Add(h.a, r.a), Add(h.b, r.b), Add(h.c, r.c), Add(h.d, r.d), Add(h.e, r.e))
  }

  const H0: Regs := Regs(0x67452301, 0xEFCDAB89, 0x98BADCFE, 0x10325476, 0xC3D2E1F0)

  /** All complete blocks of a message, in order. */
  function Blocks(msg: seq<bv8>): Regs
    requires |msg| % 64 == 0
  {
    if msg == [] then H0 else Compress(Blocks(msg[..|msg| - 64]), msg[|msg| - 64..])
  }

  /** Byte k of a number below 2^32, counted from the most significant end. */
  function NatByte(n: nat, k: nat): bv8 {
    if k == 0 then (n / 0x1000000 % 256) as bv8
    else if k == 1 then (n / 0x10000 % 256) as bv8
    else if k == 2 then (n / 0x100 % 256) as bv8
    else (n % 256) as bv8
  }

  /** Section 4 (c): the length in bits as two words. */
  function Be64(n: nat): (r: seq<bv8>)
    ensures |r| == 8
  {
    seq(8, i requires 0 <= i < 8 =>
      NatByte(if i < 4 then n / 0x1_0000_0000 % 0x1_0000_0000 else n % 0x1_0000_0000, i % 4))
  }

  function Zeros(n: nat): (r: seq<bv8>)
    ensures |r| == n
  {
    if n == 0 then [] else Zeros(n - 1) + [0]
  }

  /** How many zero bytes section 4 (b) asks for: the fewest that leave 8 bytes in the last block. */
  function PadZeros(n: nat): (k: nat)
    ensures k < 64 && (n + 1 + k) % 64 == 56
  {
    (119 - n % 64) % 64
  }

  lemma {:induction false} WholeBlocks(n: nat)
    ensures (n + 1 + PadZeros(n) + 8) % 64 == 0
  {
    NextBlock(n + 1 + PadZeros(n));
  }

  lemma {:induction false} NextBlock(m: nat)
    requires m % 64 == 56
    ensures (m + 8) % 64 == 0
  {
  }

  function Pad(msg: seq<bv8>): (r: seq<bv8>)
    ensures |r| == |msg| + 1 + PadZeros(|msg|) + 8 && |r| % 64 == 0
  {
    WholeBlocks(|msg|);
    msg + [0x80] + Zeros(PadZeros(|msg|)) + Be64(8 * |msg|)
  }

  function WordByte(w: bv32, k: nat): bv8 {
    if k == 0 then ((w >> 24) & 255) as bv8
    else if k == 1 then ((w >> 16) & 255) as bv8
    else if k == 2 then ((w >> 8) & 255) as bv8
    else (w & 255) as bv8
  }

  function Digest(h: Regs): (r: seq<bv8>)
    ensures |r| == 20
  {
    seq(20, i requires 0 <= i < 20 => WordByte(WordOf(h, i / 4), i % 4))
  }

  function WordOf(h: Regs, k: nat): bv32 {
    if k == 0 then h.a else if k == 1 then h.b else if k == 2 then h.c else if k == 3 then h.d else h.e
  }

  function Sha1(msg: seq<bv8>): (r: seq<bv8>)
    ensures |r| == 20
  {
    Digest(Blocks(Pad(msg)))
  }
}
