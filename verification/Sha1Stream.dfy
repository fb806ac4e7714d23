/** SHA1Init, SHA1Update and SHA1Final of src/sha1.c: hashing a message that arrives in chunks. */
module Sha1Stream {
  import opened Sha1Spec
  import opened Sha1Transform

  const TWO32: nat := 0x1_0000_0000

  /** count[0] and count[1]: the low and the high word of the length in bits. */
  predicate CountIs(count0: nat, count1: nat, bits: nat) {
    count0 == bits % TWO32 && count1 == bits / TWO32 % TWO32
  }

  predicate SameLength(k: nat, n: nat) { k == n }

  /** The words count n bytes. Stated through SameLength, to keep the division folded away. */
  ghost predicate Counts(count0: nat, count1: nat, n: nat) {
    forall k: nat {:trigger SameLength(k, n)} :: SameLength(k, n) ==> CountIs(count0, count1, 8 * k)
  }

  lemma {:induction false} CountsIff(count0: nat, count1: nat, n: nat)
    ensures Counts(count0, count1, n) <==> CountIs(count0, count1, 8 * n)
  {
    assert SameLength(n, n);
  }

  /** The carry test of SHA1Update: the new low word is smaller than the old one exactly on overflow. */
  lemma {:induction false} CountStep(count0: nat, count1: nat, bits: nat, len: nat)
    requires CountIs(count0, count1, bits) && len < TWO32
    ensures var low := (count0 + len * 8 % TWO32) % TWO32;
            var high := (count1 + (if low < count0 then 1 else 0)) % TWO32;
            CountIs(low, (high + len / 0x2000_0000) % TWO32, bits + 8 * len)
  {
    var q1, q2, r2 := bits / TWO32, len / 0x2000_0000, len * 8 % TWO32;
    LengthInBits(len);
    var carry := if count0 + r2 >= TWO32 then 1 else 0;
    LowWord(count0, r2);
    SumOfParts(bits, q1, count0, 8 * len, q2, r2, carry);
    QuotientIs(bits + 8 * len, q1 + q2 + carry, count0 + r2 - carry * TWO32);
    ModSum(q1, carry, q2);
  }

  /** The low word wraps at most once, and is then smaller than before. */
  lemma {:induction false} LowWord(c: nat, r: nat)
    requires c < TWO32 && r < TWO32
    ensures (c + r) % TWO32 == if c + r >= TWO32 then c + r - TWO32 else c + r
    ensures (c + r) % TWO32 < c <==> c + r >= TWO32
  {
  }

  lemma {:induction false} SumOfParts(a: nat, qa: nat, ra: nat, b: nat, qb: nat, rb: nat, carry: nat)
    requires a == qa * TWO32 + ra && b == qb * TWO32 + rb
    ensures a + b == (qa + qb + carry) * TWO32 + (ra + rb - carry * TWO32)
  {
  }

  lemma {:induction false} CountsStep(count0: nat, count1: nat, n: nat, len: nat)
    requires Counts(count0, count1, n) && len < TWO32
    ensures var low := (count0 + len * 8 % TWO32) % TWO32;
            var high := if low < count0 then (count1 + 1) % TWO32 else count1;
            Counts(low, (high + len / 0x2000_0000) % TWO32, n + len)
  {
    CountsIff(count0, count1, n);
    CountStep(count0, count1, 8 * n, len);
    Unwrapped(count1);
    var low := (count0 + len * 8 % TWO32) % TWO32;
    var high := if low < count0 then (count1 + 1) % TWO32 else count1;
    CountsFrom(low, (high + len / 0x2000_0000) % TWO32, n, len);
  }

  lemma {:induction false} Unwrapped(c: nat)
    requires c < TWO32
    ensures (c + 0) % TWO32 == c
  {
  }

  lemma {:induction false} CountsFrom(low: nat, high: nat, n: nat, len: nat)
    requires CountIs(low, high, 8 * n + 8 * len)
    ensures Counts(low, high, n + len)
  {
    CountsIff(low, high, n + len);
  }

  lemma {:induction false} LengthInBits(len: nat)
    ensures len * 8 == len / 0x2000_0000 * TWO32 + len * 8 % TWO32
  {
    QuotientIs(len * 8, len / 0x2000_0000, len % 0x2000_0000 * 8);
  }

  lemma {:induction false} QuotientIs(n: nat, q: nat, r: nat)
    requires n == q * TWO32 + r && r < TWO32
    ensures n / TWO32 == q && n % TWO32 == r
  {
  }

  lemma {:induction false} ModSum(a: nat, b: nat, c: nat)
    ensures ((a % TWO32 + b) % TWO32 + c) % TWO32 == (a + b + c) % TWO32
  {
  }

  /** (count[0] >> 3) & 63 is the fill level of the buffer. */
  lemma {:induction false} FillLevel(count0: nat, count1: nat, n: nat)
    requires Counts(count0, count1, n)
    ensures count0 / 8 % 64 == n % 64
  {
    CountsIff(count0, count1, n);
    var q := 8 * n / TWO32;
    assert 8 * n == q * TWO32 + count0;
    assert count0 / 8 == n - q * 0x2000_0000;
  }

  /** The test whether the input reaches the end of the 64-byte buffer, in 32 bits as the source makes it,
      is right exactly if the sum does not wrap around. Where it wraps, the whole input is copied to
      level j of the buffer, and beyond its end. */
  lemma {:induction false} ReachTestIff(j: nat, len: nat)
    requires j < 64 && len < TWO32
    ensures ((j + len) % TWO32 > 63 <==> j + len > 63) <==> j + len < TWO32
  {
  }

  lemma {:induction false} BlocksAppend(msg: seq<bv8>, block: seq<bv8>)
    requires |msg| % 64 == 0 && |block| == 64
    ensures |msg + block| % 64 == 0 && Blocks(msg + block) == Compress(Blocks(msg), block)
  {
    var m := msg + block;
    assert m[..|m| - 64] == msg && m[|m| - 64..] == block;
  }

  predicate Same(x: seq<bv8>, m: seq<bv8>) { x == m }

  /** The whole blocks m compress to r. Stated through Same, so that the definition of the
      compression function stays folded away until a proof names the message. */
  ghost predicate HashedTo(m: seq<bv8>, r: Regs) {
    |m| % 64 == 0 && forall x {:trigger Same(x, m)} :: Same(x, m) ==> r == Blocks(x)
  }

  lemma {:induction false} HashedToBlocks(m: seq<bv8>, r: Regs)
    requires |m| % 64 == 0
    ensures HashedTo(m, r) <==> r == Blocks(m)
  {
    assert Same(m, m);
  }

  lemma {:induction false} PadProgress(n: nat, k: nat)
    requires k <= PadZeros(n)
    ensures (n + 1 + k) % 64 == 56 <==> k == PadZeros(n)
  {
  }

  /** count[0] & 504: eight times the fill level. */
  function Masked504(count0: nat): nat { count0 / 8 % 64 * 8 }

  /** The loop test of SHA1Final sees exactly when enough zero bytes have been added. */
  lemma {:induction false} PaddedEnough(count0: nat, count1: nat, n: nat, k: nat)
    requires k <= PadZeros(n) && Counts(count0, count1, n + 1 + k)
    ensures Masked504(count0) == 448 <==> k == PadZeros(n)
  {
    FillLevel(count0, count1, n + 1 + k);
    PadProgress(n, k);
  }

  /** SHA1_CTX. `msg` is everything fed in so far, `done` how much of it has been compressed. */
  class Context {
    const state: array<bv32>
    const buffer: array<bv8>
    var count0: nat
    var count1: nat
    ghost var msg: seq<bv8>
    ghost var done: nat

    /** The compressed part, the buffered part and the counter account for the whole message. */
    ghost predicate Valid()
      reads this, state, buffer
    {
      && state.Length == 5 && buffer.Length == 64
      && Counts(count0, count1, |msg|)
      && Stored(msg)
    }

    /** The message m, compressed up to `done` and buffered after that. */
    ghost predicate Stored(m: seq<bv8>)
      requires state.Length == 5 && buffer.Length == 64
      reads this, state, buffer
    {
      && done % 64 == 0 && done <= |m| < done + 64
      && HashedTo(m[..done], RegsOf(state[..]))
      && buffer[..|m| - done] == m[done..]
    }

    /** SHA1Init */
    constructor ()
      ensures Valid() && msg == [] && fresh(state) && fresh(buffer)
    {
      state := new bv32[5](_ => 0);
      buffer := new bv8[64](_ => 0);
      count0, count1, msg, done := 0, 0, [], 0;
      new;
      state[0], state[1], state[2], state[3], state[4] := 0x67452301, 0xEFCDAB89, 0x98BADCFE, 0x10325476, 0xC3D2E1F0;
      HashedToBlocks([], H0);
      CountsIff(0, 0, 0);
    }

    /** SHA1Update. j + len must not wrap around in 32 bits. */
    method Update(data: seq<bv8>)
      requires Valid() && |msg| % 64 + |data| < TWO32
      modifies this, state, buffer
      ensures Valid() && msg == old(msg) + data
    {
      var j := Level();
      AddCount(|data|, |msg|);
      Absorb(j, data);
      msg := msg + data;
    }

    /** How full the buffer is. */
    method Level() returns (j: nat)
      requires Valid()
      ensures j == |msg| - done
    {
      FillLevel(count0, count1, |msg|);
      j := count0 / 8 % 64;
    }

    method AddCount(len: nat, ghost n: nat)
      requires Counts(count0, count1, n) && len < TWO32
      modifies this`count0, this`count1
      ensures Counts(count0, count1, n + len)
    {
      CountsStep(count0, count1, n, len);
      var j := count0;
      count0 := (count0 + len * 8 % TWO32) % TWO32;
      if count0 < j {
        count1 := (count1 + 1) % TWO32;
      }
      count1 := (count1 + len / 0x2000_0000) % TWO32;
    }

    /** The copying and compressing part of SHA1Update. */
    method Absorb(j: nat, data: seq<bv8>)
      requires state.Length == 5 && buffer.Length == 64 && Stored(msg) && j == |msg| - done
      modifies this`done, state, buffer
      ensures Stored(msg + data)
    {
      ghost var all := msg + data;
      assert all[..done] == msg[..done];
      if j + |data| > 63 {
        AbsorbLong(j, data, all);
      } else {
        CopyIn(j, data);
        assert buffer[..j + |data|] == all[done..];
      }
    }

    /** The input reaches the end of the buffer. */
    method AbsorbLong(j: nat, data: seq<bv8>, ghost all: seq<bv8>)
      requires state.Length == 5 && buffer.Length == 64 && Stored(msg) && j == |msg| - done && j + |data| > 63
      requires all == msg + data
      modifies this`done, state, buffer
      ensures Stored(all)
    {
      FillBuffer(j, data, all);
      var i := CompressWhole(data, 64 - j, all);
      CopyIn(0, data[i..]);
      assert buffer[..|data| - i] == data[i..] == all[done..];
    }

    /** Top the buffer up and compress it. */
    method FillBuffer(j: nat, data: seq<bv8>, ghost all: seq<bv8>)
      requires state.Length == 5 && buffer.Length == 64 && Stored(msg) && j == |msg| - done && j + |data| > 63
      requires all == msg + data
      modifies this`done, state, buffer
      ensures done == old(done) + 64 <= |all| && done % 64 == 0 && HashedTo(all[..done], RegsOf(state[..]))
    {
      CopyIn(j, data[..64 - j]);
      assert buffer[..] == all[done..done + 64];
      assert all[..done] == msg[..done];
      CompressBlock(buffer[..], all);
    }

    method CompressBlock(block: seq<bv8>, ghost all: seq<bv8>)
      requires state.Length == 5 && |block| == 64 && done % 64 == 0 && done + 64 <= |all|
      requires HashedTo(all[..done], RegsOf(state[..])) && block == all[done..done + 64]
      modifies this`done, state
      ensures done == old(done) + 64 && HashedTo(all[..done], RegsOf(state[..]))
    {
      HashedToBlocks(all[..done], RegsOf(state[..]));
      Transform(state, block);
      BlocksAppend(all[..done], block);
      done := done + 64;
      assert all[..old(done)] + block == all[..done];
      HashedToBlocks(all[..done], RegsOf(state[..]));
    }

    /** Compress whole blocks straight from the input. */
    method CompressWhole(data: seq<bv8>, start: nat, ghost all: seq<bv8>) returns (i: nat)
      requires state.Length == 5 && start <= |data| <= |all| && data == all[|all| - |data|..]
      requires done == |all| - |data| + start && done % 64 == 0 && HashedTo(all[..done], RegsOf(state[..]))
      modifies this`done, state
      ensures start <= i <= |data| < i + 64
      ensures done == |all| - |data| + i && done % 64 == 0 && HashedTo(all[..done], RegsOf(state[..]))
    {
      i := start;
      while i + 63 < |data|
        invariant start <= i <= |data| && done == |all| - |data| + i && done % 64 == 0
        invariant HashedTo(all[..done], RegsOf(state[..]))
      {
        CompressAt(data, i, all);
        i := i + 64;
      }
    }

    method CompressAt(data: seq<bv8>, i: nat, ghost all: seq<bv8>)
      requires state.Length == 5 && i + 64 <= |data| <= |all| && data == all[|all| - |data|..]
      requires done == |all| - |data| + i && done % 64 == 0 && HashedTo(all[..done], RegsOf(state[..]))
      modifies this`done, state
      ensures done == old(done) + 64 && done % 64 == 0 && HashedTo(all[..done], RegsOf(state[..]))
    {
      assert data[i..i + 64] == all[done..done + 64];
      CompressBlock(data[i..i + 64], all);
    }

    /** memcpy(&buffer[j], data, |data|) */
    method CopyIn(j: nat, data: seq<bv8>)
      requires buffer.Length == 64 && j + |data| <= 64
      modifies buffer
      ensures buffer[..] == old(buffer[..j]) + data + old(buffer[j + |data|..])
    {
      for k := 0 to |data|
        invariant buffer[..] == old(buffer[..j]) + data[..k] + old(buffer[j + k..])
      {
        buffer[j + k] := data[k];
      }
    }

    /** SHA1Final */
    method Final() returns (digest: seq<bv8>)
      requires Valid()
      modifies this, state, buffer
      ensures digest == Sha1(old(msg))
      ensures count0 == 0 && count1 == 0 && (forall i :: 0 <= i < state.Length ==> state[i] == 0) &&
        (forall i :: 0 <= i < buffer.Length ==> buffer[i] == 0)
    {
      ghost var m := msg;
      var finalcount := CountBytes();
      Update([0x80]);
      PadWithZeros(m);
      Update(finalcount);
      assert msg == Pad(m);
      WholeMessageCompressed();
      digest := StateBytes();
      Wipe();
    }

    /** Second word first, most significant byte first. */
    method CountBytes() returns (bytes: seq<bv8>)
      requires Valid()
      ensures bytes == Be64(8 * |msg|)
    {
      CountsIff(count0, count1, |msg|);
      bytes := [];
      ghost var want := Be64(8 * |msg|);
      for i := 0 to 8
        invariant bytes == want[..i]
      {
        bytes := bytes + [NatByte(if i >= 4 then count0 else count1, i % 4)];
      }
    }

    method StateBytes() returns (bytes: seq<bv8>)
      requires state.Length == 5
      ensures bytes == Digest(RegsOf(state[..]))
    {
      bytes := [];
      ghost var want := Digest(RegsOf(state[..]));
      for i := 0 to 20
        invariant bytes == want[..i]
      {
        DigestAt(state[..], i);
        var byte := WordByte(state[i / 4], i % 4);
        TakeMore(want, i, byte);
        bytes := bytes + [byte];
      }
    }

    static lemma {:induction false} DigestAt(state: seq<bv32>, i: nat)
      requires |state| == 5 && i < 20
      ensures i / 4 < 5 && Digest(RegsOf(state))[i] == WordByte(state[i / 4], i % 4)
    {
      WordAt(state, i / 4);
    }

    static lemma {:induction false} WordAt(state: seq<bv32>, k: nat)
      requires |state| == 5 && k < 5
      ensures WordOf(RegsOf(state), k) == state[k]
    {
    }

    static lemma {:induction false} TakeMore(want: seq<bv8>, i: nat, byte: bv8)
      requires i < |want| && want[i] == byte
      ensures want[..i] + [byte] == want[..i + 1]
    {
    }

    lemma {:induction false} WholeMessageCompressed()
      requires Valid() && |msg| % 64 == 0
      ensures RegsOf(state[..]) == Blocks(msg)
    {
      assert done == |msg| && msg[..done] == msg;
      HashedToBlocks(msg, RegsOf(state[..]));
    }

    /** The loop of SHA1Final: zero bytes one at a time until 56 bytes of the last block are filled.
        count[0] & 504 is eight times the fill level. */
    method PadWithZeros(ghost m: seq<bv8>)
      requires Valid() && msg == m + [0x80]
      modifies this, state, buffer
      ensures Valid() && msg == m + [0x80] + Zeros(PadZeros(|m|))
    {
      ghost var k := 0;
      var enough := Enough(m, k);
      while !enough
        invariant Valid() && k <= PadZeros(|m|) && msg == m + [0x80] + Zeros(k)
        invariant enough <==> k == PadZeros(|m|)
        decreases PadZeros(|m|) - k
      {
        UpdateZero(m + [0x80], k);
        k := k + 1;
        enough := Enough(m, k);
      }
    }

    method UpdateZero(ghost p: seq<bv8>, ghost k: nat)
      requires Valid() && msg == p + Zeros(k)
      modifies this, state, buffer
      ensures Valid() && msg == p + Zeros(k + 1)
    {
      Update([0]);
      assert p + Zeros(k) + [0] == p + (Zeros(k) + [0]);
    }

    method Enough(ghost m: seq<bv8>, ghost k: nat) returns (enough: bool)
      requires Valid() && k <= PadZeros(|m|) && |msg| == |m| + 1 + k
      ensures enough <==> k == PadZeros(|m|)
    {
      PaddedEnough(count0, count1, |m|, k);
      enough := Masked504(count0) == 448;
    }

    method Wipe()
      modifies this, state, buffer
      ensures count0 == 0 && count1 == 0 && (forall i :: 0 <= i < state.Length ==> state[i] == 0) &&
        (forall i :: 0 <= i < buffer.Length ==> buffer[i] == 0)
    {
      count0, count1 := 0, 0;
      forall i | 0 <= i < state.Length { state[i] := 0; }
      forall i | 0 <= i < buffer.Length { buffer[i] := 0; }
    }
  }

  /** Every split of a message into chunks hashes to the same digest, the one of the standard. */
  method HashChunks(chunks: seq<seq<bv8>>) returns (digest: seq<bv8>)
    requires forall i :: 0 <= i < |chunks| ==> |Joined(chunks[..i])| % 64 + |chunks[i]| < TWO32
    ensures digest == Sha1(Joined(chunks))
  {
    var ctx := new Context();
    for i := 0 to |chunks|
      invariant ctx.Valid() && fresh(ctx) && fresh(ctx.state) && fresh(ctx.buffer)
      invariant ctx.msg == Joined(chunks[..i])
    {
      ctx.Update(chunks[i]);
      assert chunks[..i + 1][..i] == chunks[..i];
    }
    assert chunks[..|chunks|] == chunks;
    digest := ctx.Final();
  }

  /** The chunks end to end. */
  function Joined(chunks: seq<seq<bv8>>): seq<bv8> {
    if chunks == [] then [] else Joined(chunks[..|chunks| - 1]) + chunks[|chunks| - 1]
  }
}
