/** src/filter.c: a FIR filter over a buffer that is moved back when it is full.
    Samples and sums are reals; the conversion of a sum to short is a parameter. */
module Filter {
  const BUFFER_LEN := 1024

  type Short = i: int | -0x8000 <= i < 0x8000

  function Zeros(n: nat): (z: seq<real>)
    ensures |z| == n && forall i :: 0 <= i < n ==> z[i] == 0.0
  {
    seq(n, _ => 0.0)
  }

  function Dot(a: seq<real>, b: seq<real>): real
    requires |a| == |b|
  {
    if a == [] then 0.0 else Dot(a[..|a| - 1], b[..|b| - 1]) + a[|a| - 1] * b[|b| - 1]
  }

  /** Output `k`: the taps against the `|taps|` inputs before input `k`, with
      zeros before the start. */
  function Output(taps: seq<real>, input: seq<real>, k: nat): real
    requires k <= |input|
  {
    Dot((Zeros(|taps|) + input)[k..k + |taps|], taps)
  }

  /** All outputs for a chunk of input that follows `past`. */
  function Outputs(taps: seq<real>, past: seq<real>, chunk: seq<real>): (out: seq<real>)
    ensures |out| == |chunk|
  {
    seq(|chunk|, i requires 0 <= i < |chunk| => Output(taps, past + chunk, |past| + i))
  }

  /** An output depends on the inputs before it alone. */
  lemma OutputCausal(taps: seq<real>, a: seq<real>, b: seq<real>, k: nat)
    requires k <= |a|
    ensures Output(taps, a + b, k) == Output(taps, a, k)
  {
    var z := Zeros(|taps|);
    assert (z + (a + b))[k..k + |taps|] == (z + a)[k..k + |taps|];
  }

  /** Two chunks, one after the other, are filtered like one. */
  lemma OutputsCompose(taps: seq<real>, past: seq<real>, a: seq<real>, b: seq<real>)
    ensures Outputs(taps, past, a + b) == Outputs(taps, past, a) + Outputs(taps, past + a, b)
  {
    assert past + (a + b) == (past + a) + b;
    forall i | 0 <= i < |a| ensures Outputs(taps, past, a + b)[i] == Outputs(taps, past, a)[i] {
      OutputCausal(taps, past + a, b, |past| + i);
    }
  }

  lemma OutputsExtend(taps: seq<real>, past: seq<real>, a: seq<real>, x: real)
    ensures Outputs(taps, past, a + [x]) == Outputs(taps, past, a) + [Output(taps, past + a + [x], |past + a|)]
  {
    OutputsCompose(taps, past, a, [x]);
  }

  /** The window after one more sample. */
  lemma WindowMoves(n: nat, past: seq<real>, x: real)
    ensures (Zeros(n) + (past + [x]))[|past| + 1..] == ((Zeros(n) + past)[|past|..] + [x])[1..]
  {
    assert Zeros(n) + (past + [x]) == (Zeros(n) + past) + [x];
  }

  lemma WindowSlides(mem: seq<real>, at: nat, n: nat, recent: seq<real>, x: real)
    requires n <= at < |mem| && mem[at - n..at] == recent && mem[at] == x
    ensures mem[at + 1 - n..at + 1] == (recent + [x])[1..]
  {
    assert mem[at - n..at + 1] == recent + [x];
    assert mem[at + 1 - n..at + 1] == mem[at - n..at + 1][1..];
  }

  /** Input `i`, zero before the start and after the end. */
  function At(input: seq<real>, i: int): real {
    if 0 <= i < |input| then input[i] else 0.0
  }

  /** The convolution sum: taps[0] x(k - L) + ... + taps[n - 1] x(k - L + n - 1). */
  function Convolution(taps: seq<real>, input: seq<real>, k: int, n: nat): real
    requires n <= |taps|
  {
    if n == 0 then 0.0
    else Convolution(taps, input, k, n - 1) + At(input, k - |taps| + n - 1) * taps[n - 1]
  }

  lemma {:induction false} DotIsConvolution(taps: seq<real>, input: seq<real>, k: nat, n: nat)
    requires k <= |input| && n <= |taps|
    ensures Dot((Zeros(|taps|) + input)[k..k + n], taps[..n]) == Convolution(taps, input, k, n)
  {
    if n > 0 {
      var x := Zeros(|taps|) + input;
      assert x[k..k + n][..n - 1] == x[k..k + n - 1] && taps[..n][..n - 1] == taps[..n - 1];
      assert x[k + n - 1] == At(input, k - |taps| + n - 1);
      DotIsConvolution(taps, input, k, n - 1);
    }
  }

  /** Every output is the plain convolution sum. */
  lemma OutputIsConvolution(taps: seq<real>, input: seq<real>, k: nat)
    requires k <= |input|
    ensures Output(taps, input, k) == Convolution(taps, input, k, |taps|)
  {
    DotIsConvolution(taps, input, k, |taps|);
    assert taps[..|taps|] == taps;
  }

  lemma {:induction false} ImpulseSum(taps: seq<real>, k: nat, n: nat, input: seq<real>)
    requires n <= |taps| && |input| > 0 && input[0] == 1.0 && forall i :: 0 < i < |input| ==> input[i] == 0.0
    ensures Convolution(taps, input, k, n) == if 0 <= |taps| - k < n then taps[|taps| - k] else 0.0
  {
    if n > 0 { ImpulseSum(taps, k, n - 1, input); }
  }

  /** A unit impulse comes out as the taps, last one first, one sample late. */
  lemma ImpulseResponse(taps: seq<real>, input: seq<real>, k: nat)
    requires |input| > 0 && input[0] == 1.0 && forall i :: 0 < i < |input| ==> input[i] == 0.0
    requires k < |input|
    ensures Output(taps, input, k) == if 1 <= k <= |taps| then taps[|taps| - k] else 0.0
  {
    OutputIsConvolution(taps, input, k);
    ImpulseSum(taps, k, |taps|, input);
  }

  /** mac */
  method Mac(a: array<real>, from: nat, b: seq<real>, size: nat) returns (sum: real)
    requires from + size <= a.Length && size <= |b|
    ensures sum == Dot(a[from..from + size], b[..size])
  {
    sum := 0.0;
    for i := 0 to size
      invariant sum == Dot(a[from..from + i], b[..i])
    {
      assert a[from..from + i + 1][..i] == a[from..from + i] && b[..i + 1][..i] == b[..i];
      sum := sum + a[from + i] * b[i];
    }
  }

  /** Where sample `i` of a stride stands. */
  function Place(i: nat, step: nat): nat { i * step }

  lemma PlaceNext(i: nat, j: nat, step: nat)
    ensures Place(0, step) == 0 && Place(i + 1, step) == Place(i, step) + step
    ensures i <= j ==> Place(i, step) <= Place(j, step)
  {
    if i <= j { assert i * step + (j - i) * step == j * step; }
  }

  /** Every `step`-th sample, `len` of them. */
  function Strided(s: seq<Short>, step: nat, len: nat): (r: seq<Short>)
    requires len > 0 ==> Place(len - 1, step) < |s|
    ensures |r| == len
  {
    if len == 0 then []
    else
      PlaceNext(if len > 1 then len - 2 else 0, len - 1, step);
      Strided(s, step, len - 1) + [s[Place(len - 1, step)]]
  }

  lemma {:induction false} StridedAt(s: seq<Short>, step: nat, len: nat, i: nat)
    requires i < len && Place(len - 1, step) < |s|
    ensures i * step < |s| && Strided(s, step, len)[i] == s[i * step]
  {
    if i < len - 1 {
      PlaceNext(len - 2, len - 1, step);
      StridedAt(s, step, len - 1, i);
    }
  }

  function Reals(s: seq<Short>): (r: seq<real>)
    ensures |r| == |s|
  {
    seq(|s|, i requires 0 <= i < |s| => s[i] as real)
  }

  function Shorts(s: seq<real>, toShort: real -> Short): (r: seq<Short>)
    ensures |r| == |s|
  {
    seq(|s|, i requires 0 <= i < |s| => toShort(s[i]))
  }

  lemma ShortsExtend(done: seq<real>, y: real, toShort: real -> Short, rest: seq<Short>, od: nat)
    requires |done| == od < |rest|
    ensures (Shorts(done, toShort) + rest[od..])[od := toShort(y)] == Shorts(done + [y], toShort) + rest[od + 1..]
  {
  }

  /** The largest of the samples and 0. */
  function Peak(samples: seq<Short>): (m: Short)
    ensures m >= 0 && forall i :: 0 <= i < |samples| ==> samples[i] <= m
    ensures m == 0 || exists i :: 0 <= i < |samples| && samples[i] == m
  {
    if samples == [] then 0
    else
      var p, x := Peak(samples[..|samples| - 1]), samples[|samples| - 1];
      if x > p then x else p
  }

  /** One more sample of the stride, and what it adds to the outputs and the peak. */
  lemma Stride(s: seq<Short>, step: nat, od: nat, taps: seq<real>, past: seq<real>)
    requires Place(od, step) < |s| && (od > 0 ==> Place(od - 1, step) < |s|)
    ensures var seen, x := Strided(s, step, od), s[Place(od, step)];
            && Strided(s, step, od + 1) == seen + [x] && past + Reals(seen + [x]) == past + Reals(seen) + [x as real]
            && Outputs(taps, past, Reals(seen + [x]))
               == Outputs(taps, past, Reals(seen)) + [Output(taps, past + Reals(seen) + [x as real],
                       |past + Reals(seen)|)]
            && Peak(seen + [x]) == if x > Peak(seen) then x else Peak(seen)
  {
    hide Output, Dot, Place;
    var seen, x := Strided(s, step, od), s[Place(od, step)];
    assert Reals(seen + [x]) == Reals(seen) + [x as real];
    OutputsExtend(taps, past, Reals(seen), x as real);
    assert (seen + [x])[..|seen|] == seen;
  }

  lemma NothingYet(s: seq<Short>, step: nat, taps: seq<real>, past: seq<real>, rest: seq<Short>, toShort: real -> Short)
    ensures Strided(s, step, 0) == [] && Peak([]) == 0 && Reals([]) == [] && past + [] == past
    ensures Shorts(Outputs(taps, past, []), toShort) + rest[0..] == rest
  {
  }

  /** The next place of an output array is written. */
  method WriteShort(outs: array<Short>, od: nat, ghost done: seq<real>, y: real, toShort: real -> Short,
          ghost rest: seq<Short>)
    requires |done| == od < |rest| && outs.Length == |rest| && outs[..] == Shorts(done, toShort) + rest[od..]
    modifies outs
    ensures outs[..] == Shorts(done + [y], toShort) + rest[od + 1..]
  {
    outs[od] := toShort(y);
    ShortsExtend(done, y, toShort, rest, od);
  }

  /** struct filter */
  class FirFilter {
    const length: nat
    const taps: seq<real>
    const buffer: array<real>
    var pointer: nat
    /** All input since filter_init. */
    ghost var input: seq<real>

    /** The samples before `pointer` are the last ones of the input. */
    ghost predicate Valid()
      reads this, buffer
    {
      && |taps| == length && buffer.Length == BUFFER_LEN && 2 * length <= BUFFER_LEN
      && length <= pointer < BUFFER_LEN
      && buffer[pointer - length..pointer] == Recent()
    }

    ghost function Recent(): seq<real>
      reads this
    {
      (Zeros(length) + input)[|input|..]
    }

    /** filter_init.  The move at the end of the buffer is a memcpy of `length`
        samples, so more than half the buffer would overlap. */
    constructor (len: nat, taps: array<real>)
      requires len <= taps.Length && 2 * len <= BUFFER_LEN
      ensures Valid() && length == len && this.taps == taps[..len] && input == [] && fresh(buffer)
    {
      length := len;
      this.taps := taps[..len];
      buffer := new real[BUFFER_LEN](_ => 0.0);
      pointer := len;
      input := [];
      new;
      assert buffer[pointer - length..pointer] == Zeros(length);
    }

    /** One sample goes into the buffer: the window before it is not touched. */
    method Put(x: real)
      requires Valid()
      modifies buffer
      ensures buffer[..] == old(buffer[..])[pointer := x]
      ensures buffer[pointer - length..pointer] == Recent()
    {
      buffer[pointer] := x;
      assert buffer[pointer - length..pointer] == old(buffer[pointer - length..pointer]);
    }

    /** The pointer moves on, back to the start of the buffer when it is full. */
    method Advance(x: real)
      requires |taps| == length && buffer.Length == BUFFER_LEN && 2 * length <= BUFFER_LEN
      requires length <= pointer < BUFFER_LEN
      requires buffer[pointer - length..pointer] == Recent() && buffer[pointer] == x
      modifies this`pointer, this`input, buffer
      ensures Valid() && input == old(input) + [x]
    {
      WindowMoves(length, input, x);
      WindowSlides(buffer[..], pointer, length, Recent(), x);
      pointer := pointer + 1;
      input := input + [x];
      hide Zeros;
      assert buffer[pointer - length..pointer] == buffer[..][pointer - length..pointer] == Recent();
      if pointer == BUFFER_LEN {
        WrapAround();
      }
    }

    /** memcpy of the last inputs to the start of the buffer. */
    method WrapAround()
      requires |taps| == length && buffer.Length == BUFFER_LEN == pointer && 2 * length <= BUFFER_LEN
      requires buffer[pointer - length..pointer] == Recent()
      modifies this`pointer, buffer
      ensures Valid()
    {
      hide Zeros;
      forall i | 0 <= i < length {
        buffer[i] := buffer[BUFFER_LEN - length + i];
      }
      pointer := length;
      assert buffer[..length] == old(buffer[BUFFER_LEN - length..]);
    }

    /** filter_run */
    method Run(x: real) returns (out: real)
      requires Valid()
      modifies this`pointer, this`input, buffer
      ensures Valid() && input == old(input) + [x]
      ensures out == Output(taps, input, |old(input)|)
    {
      Put(x);
      out := Mac(buffer, pointer - length, taps, length);
      ghost var past := input;
      Advance(x);
      WindowOutput(past, x);
    }

    lemma WindowOutput(past: seq<real>, x: real)
      requires |taps| == length
      ensures Output(taps, past + [x], |past|) == Dot((Zeros(length) + past)[|past|..], taps[..length])
    {
      assert taps[..length] == taps;
      OutputCausal(taps, past, [x], |past|);
      assert (Zeros(length) + past)[|past|..|past| + length] == (Zeros(length) + past)[|past|..];
    }

    /** The body of the loop of filter_run_buf, but for the indices: src/filter.c:106-128. */
    method Round(x: Short, peak: Short) returns (y: real, maxval: Short)
      requires Valid()
      modifies this`pointer, this`input, buffer
      ensures Valid() && input == old(input) + [x as real]
      ensures y == Output(taps, input, |old(input)|)
      ensures maxval == (if x > peak then x else peak)
    {
      WindowOutput(input, x as real);
      hide Output, Dot;
      maxval := peak;
      Put(x as real);
      if x > maxval {
        maxval := x;
      }
      y := Mac(buffer, pointer - length, taps, length);
      Advance(x as real);
    }

    /** filter_run_buf; `in` points `from` samples into the array. */
    method RunBuf(ins: array<Short>, from: nat, outs: array<Short>, step: nat, len: nat,
            toShort: real -> Short) returns (maxval: Short)
      requires Valid() && len <= outs.Length && from <= ins.Length
      requires len > 0 ==> Place(len - 1, step) < ins.Length - from
      requires outs != ins
      modifies this`pointer, this`input, buffer, outs
      ensures Valid() && input == old(input) + Reals(Strided(ins[from..], step, len))
      ensures outs[..] == Shorts(Outputs(taps, old(input), Reals(Strided(ins[from..], step, len))),
              toShort) + old(outs[len..])
      ensures maxval == Peak(Strided(ins[from..], step, len))
    {
      hide *;
      ghost var past, samples, rest := input, ins[from..], outs[..];
      var id, od := 0, 0;
      maxval := 0;
      PlaceNext(0, 0, step);
      Begun(outs, step, toShort, past, samples, rest);
      assert rest[len..] == outs[len..];
      while od < len
        invariant od <= len && Valid() && id == Place(od, step) && ins[from..] == samples
        invariant Partly(outs, od, step, toShort, past, samples, rest, maxval)
      {
        PlaceNext(od, len - 1, step);
        maxval := RunOne(ins[from + id], maxval, od, outs, step, toShort, past, samples, rest);
        id := id + step;
        od := od + 1;
      }
      AllRun(outs, len, step, toShort, past, samples, rest, maxval);
    }

    /** After `od` rounds of the loop of filter_run_buf. */
    ghost predicate Partly(outs: array<Short>, od: nat, step: nat, toShort: real -> Short,
                           past: seq<real>, samples: seq<Short>, rest: seq<Short>, maxval: Short)
      reads this, outs
    {
      && od <= |rest| && (od > 0 ==> Place(od - 1, step) < |samples|)
      && input == past + Reals(Strided(samples, step, od)) && maxval == Peak(Strided(samples, step, od))
      && outs[..] == Shorts(Outputs(taps, past, Reals(Strided(samples, step, od))), toShort) + rest[od..]
    }

    lemma Begun(outs: array<Short>, step: nat, toShort: real -> Short, past: seq<real>, samples: seq<Short>,
                rest: seq<Short>)
      requires past == input && rest == outs[..]
      ensures Partly(outs, 0, step, toShort, past, samples, rest, 0)
    {
      NothingYet(samples, step, taps, past, rest, toShort);
      hide Outputs, Shorts;
    }

    lemma AllRun(outs: array<Short>, od: nat, step: nat, toShort: real -> Short,
                 past: seq<real>, samples: seq<Short>, rest: seq<Short>, maxval: Short)
      requires Partly(outs, od, step, toShort, past, samples, rest, maxval)
      ensures od <= |rest| && (od > 0 ==> Place(od - 1, step) < |samples|)
      ensures input == past + Reals(Strided(samples, step, od)) && maxval == Peak(Strided(samples, step, od))
      ensures outs[..] == Shorts(Outputs(taps, past, Reals(Strided(samples, step, od))), toShort) + rest[od..]
    {
      hide Place, Reals, Strided, Peak, Shorts, Outputs;
    }

    /** One round of the loop of filter_run_buf. */
    method RunOne(x: Short, peak: Short, od: nat, outs: array<Short>, step: nat, toShort: real -> Short,
                  ghost past: seq<real>, ghost samples: seq<Short>, ghost rest: seq<Short>)
      returns (maxval: Short)
      requires Valid() && od < |rest| && Place(od, step) < |samples| && x == samples[Place(od, step)]
      requires Partly(outs, od, step, toShort, past, samples, rest, peak)
      modifies this`pointer, this`input, buffer, outs
      ensures Valid() && Partly(outs, od + 1, step, toShort, past, samples, rest, maxval)
    {
      AllRun(outs, od, step, toShort, past, samples, rest, peak);
      hide Place, Reals, Strided, Peak, Shorts, Outputs, Valid, Output;
      Stride(samples, step, od, taps, past);
      ghost var done := Outputs(taps, past, Reals(Strided(samples, step, od)));
      var y;
      y, maxval := Round(x, peak);
      WriteShort(outs, od, done, y, toShort, rest);
    }
  }
}
