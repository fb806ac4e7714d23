/** SHA1Transform of src/sha1.c: a 16-word schedule overwritten in place, registers renamed instead
    of shifted, and cheaper forms of two of the logical functions. */
module Sha1Transform {
  import opened Sha1Spec

  // ---- the rewritten word operations ----

  method ChRewritten(w: bv32, x: bv32, y: bv32) returns (f: bv32)
    ensures f == Ch(w, x, y)
  {
    assert (w & (x ^ y)) ^ y == (w & x) | (!w & y);
    f := (w & (x ^ y)) ^ y;
  }

  method MajRewritten(w: bv32, x: bv32, y: bv32) returns (f: bv32)
    ensures f == Maj(w, x, y)
  {
    assert ((w | x) & y) | (w & x) == (w & x) | (w & y) | (x & y);
    f := ((w | x) & y) | (w & x);
  }

  method AddInto(z: bv32, f: bv32, word: bv32, k: bv32, r5: bv32) returns (z': bv32)
    ensures z' == Add5(r5, f, z, word, k)
  {
    assert z + (f + word + k + r5) == r5 + f + z + word + k;
    z' := z + (f + word + k + r5);
  }

  /** The words as memcpy leaves them on a little-endian machine. */
  function LittleWord(b0: bv8, b1: bv8, b2: bv8, b3: bv8): bv32 {
    (b3 as bv32 << 24) | (b2 as bv32 << 16) | (b1 as bv32 << 8) | b0 as bv32
  }

  function Rol24(x: bv32): bv32 { (x << 24) | (x >> 8) }
  function Rol8(x: bv32): bv32 { (x << 8) | (x >> 24) }

  /** blk0 turns them into the words of the standard. */
  function SwapBytes(x: bv32): bv32 { (Rol24(x) & 0xFF00FF00) | (Rol8(x) & 0x00FF00FF) }

  lemma {:induction false} SwapIsBigEndian(b0: bv8, b1: bv8, b2: bv8, b3: bv8)
    ensures SwapBytes(LittleWord(b0, b1, b2, b3)) == Word(b0, b1, b2, b3)
  {
  }

  // ---- the circular schedule ----

  /** Before round i the 16 words are the last 16 words of the 80-word schedule, or, at the start,
      raw words not yet swapped. */
  ghost predicate Circular(l: seq<bv32>, m: seq<bv32>, i: nat)
    requires |m| == 16
  {
    && |l| == 16
    && (forall t :: 0 <= t < i && i - 16 <= t ==> l[t % 16] == W(m, t))
    && (forall j :: i <= j < 16 ==> SwapBytes(l[j]) == m[j])
  }

  lemma {:induction false} CircularStep(l: seq<bv32>, l': seq<bv32>, m: seq<bv32>, i: nat)
    requires |m| == 16 && Circular(l, m, i) && l' == l[i % 16 := W(m, i)]
    ensures Circular(l', m, i + 1)
  {
    forall t | 0 <= t < i + 1 && i + 1 - 16 <= t
      ensures l'[t % 16] == W(m, t)
    {
      if t < i { ResiduesDiffer(t, i); }
    }
  }

  lemma {:induction false} ResiduesDiffer(t: nat, i: nat)
    requires t < i < t + 16
    ensures t % 16 != i % 16
  {
  }

  /** blk0(i) and blk(i): compute word i and store it over the oldest one. */
  method Blk(block: array<bv32>, i: nat, ghost m: seq<bv32>) returns (w: bv32)
    requires block.Length == 16 && |m| == 16 && Circular(block[..], m, i)
    modifies block
    ensures w == W(m, i) && Circular(block[..], m, i + 1)
  {
    if i < 16 {
      w := SwapBytes(block[i]);
    } else {
      CircularReads(block[..], m, i);
      w := Mix(block[(i + 13) % 16], block[(i + 8) % 16], block[(i + 2) % 16], block[i % 16]);
    }
    ghost var before := block[..];
    block[i % 16] := w;
    assert block[..] == before[i % 16 := W(m, i)];
    CircularStep(before, block[..], m, i);
  }

  lemma {:induction false} CircularReads(l: seq<bv32>, m: seq<bv32>, i: nat)
    requires |m| == 16 && i >= 16 && Circular(l, m, i)
    ensures l[(i + 13) % 16] == W(m, i - 3) && l[(i + 8) % 16] == W(m, i - 8)
    ensures l[(i + 2) % 16] == W(m, i - 14) && l[i % 16] == W(m, i - 16)
  {
    assert (i + 13) % 16 == (i - 3) % 16 && (i + 8) % 16 == (i - 8) % 16;
    assert (i + 2) % 16 == (i - 14) % 16 && i % 16 == (i - 16) % 16;
  }

  /** R0 to R4: z and w are updated where they are; the caller rotates the names instead of the values. */
  method R(block: array<bv32>, i: nat, v: bv32, w: bv32, x: bv32, y: bv32, z: bv32, ghost m: seq<bv32>)
    returns (z': bv32, w': bv32)
    requires block.Length == 16 && |m| == 16 && Circular(block[..], m, i)
    modifies block
    ensures Circular(block[..], m, i + 1)
    ensures Regs(z', v, w', x, y) == Round(Regs(v, w, x, y, z), i, W(m, i))
  {
    var word := Blk(block, i, m);
    var f := Choose(i, w, x, y);
    z' := AddInto(z, f, word, K(i), Rol5(v));
    w' := Rol30(w);
  }

  method Choose(i: nat, w: bv32, x: bv32, y: bv32) returns (f: bv32)
    ensures f == F(i, w, x, y)
  {
    if i < 20 {
      f := ChRewritten(w, x, y);
    } else if 40 <= i < 60 {
      f := MajRewritten(w, x, y);
    } else {
      f := w ^ x ^ y;
    }
  }

  /** memcpy(block, buffer, 64) */
  method Load(buffer: seq<bv8>) returns (block: array<bv32>)
    requires |buffer| == 64
    ensures fresh(block) && block.Length == 16 && Circular(block[..], Words(buffer), 0)
  {
    block := new bv32[16](_ => 0);
    for i := 0 to 16
      invariant forall j :: 0 <= j < i ==> SwapBytes(block[j]) == Words(buffer)[j]
    {
      block[i] := LittleWord(buffer[4 * i], buffer[4 * i + 1], buffer[4 * i + 2], buffer[4 * i + 3]);
      SwapIsBigEndian(buffer[4 * i], buffer[4 * i + 1], buffer[4 * i + 2], buffer[4 * i + 3]);
    }
  }

  /** Five rounds bring the register names back into place. */
  method FiveRounds(block: array<bv32>, i: nat, r: Regs, ghost m: seq<bv32>, ghost h: Regs) returns (r': Regs)
    requires block.Length == 16 && |m| == 16 && Circular(block[..], m, i)
    requires r == Rounds(m, h, i)
    modifies block
    ensures Circular(block[..], m, i + 5)
    ensures r' == Rounds(m, h, i + 5)
  {
    var a, b, c, d, e := r.a, r.b, r.c, r.d, r.e;
    e, b := R(block, i, a, b, c, d, e, m);
    assert Regs(e, a, b, c, d) == Rounds(m, h, i + 1);
    d, a := R(block, i + 1, e, a, b, c, d, m);
    assert Regs(d, e, a, b, c) == Rounds(m, h, i + 2);
    c, e := R(block, i + 2, d, e, a, b, c, m);
    assert Regs(c, d, e, a, b) == Rounds(m, h, i + 3);
    b, d := R(block, i + 3, c, d, e, a, b, m);
    assert Regs(b, c, d, e, a) == Rounds(m, h, i + 4);
    a, c := R(block, i + 4, b, c, d, e, a, m);
    r' := Regs(a, b, c, d, e);
  }

  ghost function RegsOf(state: seq<bv32>): Regs
    requires |state| == 5
  {
    Regs(state[0], state[1], state[2], state[3], state[4])
  }

  /** SHA1Transform. The source lists the 80 rounds one by one; here they are sixteen groups of five. */
  method Transform(state: array<bv32>, buffer: seq<bv8>)
    requires state.Length == 5 && |buffer| == 64
    modifies state
    ensures RegsOf(state[..]) == Compress(old(RegsOf(state[..])), buffer)
  {
    var block := Load(buffer);
    ghost var m, h := Words(buffer), RegsOf(state[..]);
    var r := Regs(state[0], state[1], state[2], state[3], state[4]);
    for g := 0 to 16
      invariant Circular(block[..], m, 5 * g) && r == Rounds(m, h, 5 * g)
      invariant state[..] == old(state[..])
    {
      r := FiveRounds(block, 5 * g, r, m, h);
    }
    state[0] := Add(state[0], r.a);
    state[1] := Add(state[1], r.b);
    state[2] := Add(state[2], r.c);
    state[3] := Add(state[3], r.d);
    state[4] := Add(state[4], r.e);
  }
}
