/** LanSocket::compress and decompress of lan_protocol.cpp: run-length coding of zero bytes. */
module ZeroRun {
  import opened Bytes

  /** The number of leading zeros, at most cap. */
  function LeadingZeros(x: seq<byte>, cap: nat): (n: nat)
    ensures n <= cap && n <= |x|
    ensures forall i :: 0 <= i < n ==> x[i] == 0
  {
    if cap > 0 && x != [] && x[0] == 0 then 1 + LeadingZeros(x[1..], cap - 1) else 0
  }

  /** The greedy encoding: a zero is followed by the number of zeros, up to 255, that come after it. */
  function Encode(x: seq<byte>): (r: seq<byte>)
    ensures x != [] ==> r != []
    ensures x != [] && x[0] == 0 ==> |r| >= 2
  {
    if x == [] then []
    else if x[0] != 0 then [x[0]] + Encode(x[1..])
    else
      var n := LeadingZeros(x[1..], 255);
      [0, n] + Encode(x[1 + n..])
  }

  datatype Outcome = Outcome(ok: bool, bytes: seq<byte>)

  /** What decompress does to any input: expand until the input or the capacity is used up. A run that
      does not fit is cut short without an error. */
  function Decode(y: seq<byte>, cap: nat): (r: Outcome)
    ensures |r.bytes| <= cap
    decreases |y|
  {
    if y == [] then Outcome(true, [])
    else if cap == 0 then Outcome(false, [])
    else if y[0] != 0 then Decode(y[1..], cap - 1).(bytes := [y[0]] + Decode(y[1..], cap - 1).bytes)
    else if |y| == 1 then Outcome(false, [0])
    else
      var n := Min(1 + y[1] as int, cap);
      var rest := Decode(y[2..], cap - n);
      rest.(bytes := Zeros(n) + rest.bytes)
  }

  predicate Recovers(x: seq<byte>, cap: nat) {
    var r := Decode(Encode(x), cap);
    r.bytes == x[..Min(cap, |x|)] && (cap >= |x| ==> r.ok)
  }

  /** Decompressing a compressed string yields the string, cut to the capacity; it is reported as a
      success whenever the capacity is large enough. */
  lemma {:induction false} DecodeEncode(x: seq<byte>, cap: nat)
    ensures Recovers(x, cap)
    decreases |x|
  {
    if x == [] || cap == 0 {
      assert x[..Min(cap, |x|)] == [];
    } else if x[0] != 0 {
      DecodeEncode(x[1..], cap - 1);
      RecoversByte(x, cap);
    } else {
      var n := LeadingZeros(x[1..], 255);
      DecodeEncode(x[1 + n..], cap - Min(1 + n, cap));
      RecoversRun(x, n, cap);
    }
  }

  lemma {:induction false} RecoversByte(x: seq<byte>, cap: nat)
    requires x != [] && x[0] != 0 && cap > 0 && Recovers(x[1..], cap - 1)
    ensures Recovers(x, cap)
  {
    var n := Min(cap, |x|);
    DecodeByte(x, cap);
    ConsTake(x, n);
    assert Decode(Encode(x[1..]), cap - 1).bytes == x[1..][..n - 1];
  }

  lemma {:induction false} ConsTake(x: seq<byte>, n: nat)
    requires 1 <= n <= |x|
    ensures x[..n] == [x[0]] + x[1..][..n - 1]
  {
  }

  lemma {:induction false} RecoversRun(x: seq<byte>, n: nat, cap: nat)
    requires x != [] && x[0] == 0 && cap > 0 && n == LeadingZeros(x[1..], 255)
    requires Recovers(x[1 + n..], cap - Min(1 + n, cap))
    ensures Recovers(x, cap)
  {
    DecodeRun(x, n, cap);
    TakeSplit(x, 1 + n, cap);
  }

  lemma {:induction false} TakeSplit(x: seq<byte>, n: nat, cap: nat)
    requires n <= |x|
    ensures var m := Min(n, cap); x[..Min(cap, |x|)] == x[..m] + x[n..][..Min(cap - m, |x| - n)]
  {
    if n < cap {
      var k := Min(cap - n, |x| - n);
      assert x[..n + k] == x[..n] + x[n..][..k];
    } else {
      assert x[n..][..0] == [];
    }
  }

  lemma {:induction false} DecodeByte(x: seq<byte>, cap: nat)
    requires x != [] && x[0] != 0 && cap > 0
    ensures var rest := Decode(Encode(x[1..]), cap - 1);
            Decode(Encode(x), cap) == rest.(bytes := [x[0]] + rest.bytes)
  {
    assert Encode(x)[1..] == Encode(x[1..]);
  }

  lemma {:induction false} DecodeRun(x: seq<byte>, n: nat, cap: nat)
    requires x != [] && x[0] == 0 && cap > 0 && n == LeadingZeros(x[1..], 255)
    ensures var m := Min(1 + n, cap); var rest := Decode(Encode(x[1 + n..]), cap - m);
            Decode(Encode(x), cap) == rest.(bytes := x[..m] + rest.bytes)
  {
    var y, m := Encode(x), Min(1 + n, cap);
    assert y == [0, n] + Encode(x[1 + n..]) && y[2..] == Encode(x[1 + n..]);
    assert x[..m] == Zeros(m) by {
      assert forall i :: 0 <= i < n ==> x[1 + i] == x[1..][i] == 0;
    }
  }

  /** Success with the announced length is exactly a capacity that holds the whole string. */
  lemma {:induction false} CompleteIffItFits(x: seq<byte>, cap: nat)
    ensures Decode(Encode(x), cap).ok && |Decode(Encode(x), cap).bytes| == |x| <==> cap >= |x|
    ensures cap >= |x| ==> Decode(Encode(x), cap) == Outcome(true, x)
  {
    DecodeEncode(x, cap);
    assert x[..|x|] == x;
  }

  // ---- the two loops ----

  /** Writes exactly the greedy encoding if it fits, and fails otherwise. */
  method Compress(x: seq<byte>, output: array<byte>) returns (ok: bool, size: nat)
    modifies output
    ensures ok <==> |Encode(x)| <= output.Length
    ensures ok ==> size == |Encode(x)| && output[..size] == Encode(x)
  {
    var i, out := 0, 0;
    size := 0;
    while out < output.Length && i < |x|
      invariant 0 <= out <= output.Length && 0 <= i <= |x|
      invariant output[..out] + Encode(x[i..]) == Encode(x)
      decreases |x| - i
    {
      if x[i] == 0 {
        var fits;
        fits, i, out := EmitRun(x, i, output, out);
        if !fits {
          return false, 0;
        }
      } else {
        i, out := EmitByte(x, i, output, out);
      }
    }
    size := out;
    ok := i == |x|;
    assert x[|x|..] == [];
  }

  method EmitByte(x: seq<byte>, i: nat, output: array<byte>, out: nat) returns (i': nat, out': nat)
    requires i < |x| && x[i] != 0 && out < output.Length
    requires output[..out] + Encode(x[i..]) == Encode(x)
    modifies output
    ensures i' == i + 1 && out' == out + 1 && output[..out'] + Encode(x[i'..]) == Encode(x)
  {
    EncodeByte(x, i);
    ghost var before := output[..out];
    output[out] := x[i];
    i', out' := i + 1, out + 1;
    assert output[..out'] == before + [x[i]];
  }

  /** One zero and its count, as far as there is room for them. */
  method EmitRun(x: seq<byte>, i: nat, output: array<byte>, out: nat) returns (fits: bool, i': nat, out': nat)
    requires i < |x| && x[i] == 0 && out < output.Length
    requires output[..out] + Encode(x[i..]) == Encode(x)
    modifies output
    ensures !fits ==> |Encode(x)| > output.Length
    ensures fits ==> i < i' <= |x| && out' <= output.Length && output[..out'] + Encode(x[i'..]) == Encode(x)
  {
    ghost var before := output[..out];
    EncodeZero(x, i);
    var count := CountZeros(x, i + 1);
    i' := i + 1 + count;
    Regroup(before, [0, count], Encode(x[i'..]));
    fits, out' := PutPair(output, out, count);
  }

  lemma {:induction false} Regroup(a: seq<byte>, b: seq<byte>, c: seq<byte>)
    ensures a + (b + c) == a + b + c
  {
  }

  /** A zero and its count; the count may find no room. */
  method PutPair(output: array<byte>, out: nat, count: byte) returns (fits: bool, out': nat)
    requires out < output.Length
    modifies output
    ensures fits <==> out + 2 <= output.Length
    ensures fits ==> out' == out + 2 && output[..out'] == old(output[..out]) + [0, count]
  {
    output[out] := 0;
    out' := out + 1;
    if out' == output.Length {
      return false, out';
    }
    output[out'] := count;
    out' := out' + 1;
    fits := true;
  }

  /** The inner loop of compress. */
  method CountZeros(x: seq<byte>, start: nat) returns (count: nat)
    requires start <= |x|
    ensures count == LeadingZeros(x[start..], 255)
  {
    count := 0;
    while start + count < |x| && x[start + count] == 0 && count < 255
      invariant start + count <= |x| && count <= 255
      invariant LeadingZeros(x[start..], 255) == count + LeadingZeros(x[start + count..], 255 - count)
    {
      assert x[start + count..][1..] == x[start + count + 1..];
      count := count + 1;
    }
  }

  lemma {:induction false} EncodeZero(x: seq<byte>, i: nat)
    requires i < |x| && x[i] == 0
    ensures var n := LeadingZeros(x[i + 1..], 255); Encode(x[i..]) == [0, n] + Encode(x[i + 1 + n..])
  {
    assert x[i..][1..] == x[i + 1..];
    var n := LeadingZeros(x[i + 1..], 255);
    assert x[i..][1 + n..] == x[i + 1 + n..];
  }

  lemma {:induction false} EncodeByte(x: seq<byte>, i: nat)
    requires i < |x| && x[i] != 0
    ensures Encode(x[i..]) == [x[i]] + Encode(x[i + 1..])
  {
    assert x[i..][1..] == x[i + 1..];
  }

  method Decompress(y: seq<byte>, output: array<byte>) returns (ok: bool, size: nat)
    modifies output
    ensures ok == Decode(y, output.Length).ok
    ensures ok ==> size <= output.Length && output[..size] == Decode(y, output.Length).bytes
  {
    var i, out := 0, 0;
    size := 0;
    while i < |y| && out < output.Length
      invariant 0 <= i <= |y| && 0 <= out <= output.Length
      invariant Resumes(y, output.Length, output[..out], i)
      decreases |y| - i
    {
      if y[i] == 0 && i + 1 == |y| {
        assert y[i..] == [0];
        output[out] := 0;
        return false, 0;
      }
      out := Expand(y, i, output, out);
      i := if y[i] == 0 then i + 2 else i + 1;
    }
    size := out;
    ok := i == |y|;
    assert y[|y|..] == [];
  }

  /** One byte, or a zero and the run behind it. */
  method Expand(y: seq<byte>, i: nat, output: array<byte>, start: nat) returns (out: nat)
    requires i < |y| && (y[i] == 0 ==> i + 1 < |y|) && start < output.Length
    requires Resumes(y, output.Length, output[..start], i)
    modifies output
    ensures out <= output.Length
    ensures Resumes(y, output.Length, output[..out], if y[i] == 0 then i + 2 else i + 1)
  {
    ghost var before := output[..start];
    output[start] := y[i];
    out := start + 1;
    if y[i] == 0 {
      ResumeZeros(y, output.Length, before, i);
      out := FillZeros(output, out, y[i + 1]);
      ThenZeros(output[..out], before);
    } else {
      ResumeByte(y, output.Length, before, i);
      assert output[..out] == before + [y[i]];
    }
  }

  lemma {:induction false} ThenZeros(x: seq<byte>, before: seq<byte>)
    requires before <= x && forall j :: |before| <= j < |x| ==> x[j] == 0
    ensures x == before + Zeros(|x| - |before|)
  {
  }

  /** The for loop of decompress: stops silently at the end of the output. */
  method FillZeros(output: array<byte>, start: nat, count: nat) returns (out: nat)
    requires start <= output.Length
    modifies output
    ensures out == Min(start + count, output.Length)
    ensures output[..start] == old(output[..start])
    ensures forall j :: start <= j < out ==> output[j] == 0
  {
    out := start;
    for i := 0 to count
      invariant out == Min(start + i, output.Length)
      invariant output[..start] == old(output[..start])
      invariant forall j :: start <= j < out ==> output[j] == 0
    {
      if out == output.Length {
        break;
      }
      output[out] := 0;
      out := out + 1;
    }
  }

  /** After the first i input bytes the output is `done`; the rest decodes into the space left. */
  ghost predicate Resumes(y: seq<byte>, cap: nat, done: seq<byte>, i: nat) {
    && i <= |y| && |done| <= cap
    && var rest := Decode(y[i..], cap - |done|);
       Decode(y, cap) == rest.(bytes := done + rest.bytes)
  }

  lemma {:induction false} ResumeByte(y: seq<byte>, cap: nat, done: seq<byte>, i: nat)
    requires Resumes(y, cap, done, i) && i < |y| && |done| < cap && y[i] != 0
    ensures Resumes(y, cap, done + [y[i]], i + 1)
  {
    assert y[i..][1..] == y[i + 1..];
  }

  lemma {:induction false} ResumeZeros(y: seq<byte>, cap: nat, done: seq<byte>, i: nat)
    requires Resumes(y, cap, done, i) && i + 1 < |y| && |done| < cap && y[i] == 0
    ensures var n := Min(1 + y[i + 1] as int, cap - |done|); Resumes(y, cap, done + Zeros(n), i + 2)
  {
    assert y[i..][2..] == y[i + 2..];
  }

  /** Compressing into a buffer and decompressing from it gives the string back. */
  method RoundTrip(x: seq<byte>, packed: array<byte>, unpacked: array<byte>) returns (ok: bool, size: nat)
    requires packed != unpacked && |Encode(x)| <= packed.Length && |x| <= unpacked.Length
    modifies packed, unpacked
    ensures ok && size == |x| && unpacked[..size] == x
  {
    var _, n := Compress(x, packed);
    CompleteIffItFits(x, unpacked.Length);
    ok, size := Decompress(packed[..n], unpacked);
  }

  // ---- what coding gains ----

  lemma {:induction false} LeadingAll(k: nat, cap: nat)
    requires k <= cap
    ensures LeadingZeros(Zeros(k), cap) == k
  {
    if k > 0 {
      assert Zeros(k)[1..] == Zeros(k - 1);
      LeadingAll(k - 1, cap - 1);
    }
  }

  /** Up to 256 zeros become two bytes. */
  lemma {:induction false} ZerosEncode(k: nat)
    requires 1 <= k <= 256
    ensures Encode(Zeros(k)) == [0, k - 1]
  {
    var x := Zeros(k);
    assert x[1..] == Zeros(k - 1) && x[1 + (k - 1)..] == [];
    LeadingAll(k - 1, 255);
  }

  /** Bytes other than zero stay as they are. */
  lemma {:induction false} OthersEncode(x: seq<byte>)
    requires forall i :: 0 <= i < |x| ==> x[i] != 0
    ensures Encode(x) == x
  {
    if x != [] {
      OthersEncode(x[1..]);
      assert x == [x[0]] + x[1..];
    }
  }
}
