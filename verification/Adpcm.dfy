// The IMA ADPCM codec (dev/module/adpcm/adpcm.c).
module Adpcm {
  import opened Nor

  type Sample = x: int | -32768 <= x <= 32767
  type Code = x: int | 0 <= x < 16

  function StepSizeTable(index: nat): (step: nat)
    requires index <= 88
    ensures 7 <= step <= 32767
  {
    if index < 10 then [7, 8, 9, 10, 11, 12, 13, 14, 16, 17][index]
    else if index < 20 then [19, 21, 23, 25, 28, 31, 34, 37, 41, 45][index - 10]
    else if index < 30 then [50, 55, 60, 66, 73, 80, 88, 97, 107, 118][index - 20]
    else if index < 40 then [130, 143, 157, 173, 190, 209, 230, 253, 279, 307][index - 30]
    else if index < 50 then [337, 371, 408, 449, 494, 544, 598, 658, 724, 796][index - 40]
    else if index < 60 then [876, 963, 1060, 1166, 1282, 1411, 1552, 1707, 1878, 2066][index - 50]
    else if index < 70 then [2272, 2499, 2749, 3024, 3327, 3660, 4026, 4428, 4871, 5358][index - 60]
    else if index < 80 then [5894, 6484, 7132, 7845, 8630, 9493, 10442, 11487, 12635, 13899][index - 70]
    else [15289, 16818, 18500, 20350, 22385, 24623, 27086, 29794, 32767][index - 80]
  }

  function IndexTable(code: Code): int {
    [-1, -1, -1, -1, 2, 4, 6, 8, -1, -1, -1, -1, 2, 4, 6, 8][code]
  }

  // From 7 to the greatest sample the steps grow by a tenth each, to within one; the last is cut off.
  lemma StepsGrow(i: nat)
    requires i < 88
    ensures StepSizeTable(0) == 7 && StepSizeTable(88) == 32767 && StepSizeTable(i) < StepSizeTable(i + 1)
    ensures i < 87 ==> -10 < 10 * StepSizeTable(i + 1) - 11 * StepSizeTable(i) < 10
    ensures 0 <= 11 * StepSizeTable(87) - 10 * StepSizeTable(88) < 70
  {
    hide StepSizeTable;
    if i < 29 {
      LowStepsGrow(i);
    } else if i < 59 {
      MiddleStepsGrow(i);
    } else {
      HighStepsGrow(i);
    }
    FirstAndLastStep();
  }

  lemma FirstAndLastStep()
    ensures StepSizeTable(0) == 7 && StepSizeTable(87) == 29794 && StepSizeTable(88) == 32767
  {
  }

  ghost predicate Grows(i: nat) {
    && i < 88 && StepSizeTable(i) < StepSizeTable(i + 1)
    && (i < 87 ==> -10 < 10 * StepSizeTable(i + 1) - 11 * StepSizeTable(i) < 10)
  }

  lemma LowStepsGrow(i: nat)
    requires i < 29
    ensures Grows(i)
  {
  }

  lemma MiddleStepsGrow(i: nat)
    requires 29 <= i < 59
    ensures Grows(i)
  {
  }

  lemma HighStepsGrow(i: nat)
    requires 59 <= i < 88
    ensures Grows(i)
  {
  }

  // The bit of weight `b`, a power of two.
  predicate Has(code: Code, b: nat)
    requires b > 0
  {
    code / b % 2 == 1
  }

  function Clamp(x: int, low: int, high: int): int {
    if x < low then low else if x > high then high else x
  }

  // What either end keeps between samples.
  datatype State = State(index: int, pred: int)
  {
    predicate Ok() { 0 <= index <= 88 && -32768 <= pred <= 32767 }

    function Step(): nat
      requires Ok()
    {
      StepSizeTable(index)
    }
  }

  // The difference a code stands for.
  function Delta(step: nat, code: Code): nat {
    step / 8 + (if Has(code, 4) then step else 0) + (if Has(code, 2) then step / 2 else 0) + (if Has(code, 1) then step / 4 else 0)
  }

  // The reference: how a code moves the state at the receiving end.
  function Received(s: State, code: Code): (r: State)
    requires s.Ok()
    ensures r.Ok()
  {
    var d := Delta(s.Step(), code);
    State(Clamp(s.index + IndexTable(code), 0, 88), Clamp(if Has(code, 8) then s.pred - d else s.pred + d, -32768, 32767))
  }

  // The code says on which side of the predictor the sample lies, and how far in eighths of two steps.
  ghost predicate Quantized(s: State, sample: int, code: Code)
    requires s.Ok()
  {
    && Has(code, 8) == (sample < s.pred)
    && var diff, step := (if sample < s.pred then s.pred - sample else sample - s.pred), s.Step();
       && Has(code, 4) == (diff >= step)
       && var rest := if Has(code, 4) then diff - step else diff;
          && Has(code, 2) == (rest >= step / 2)
          && Has(code, 1) == ((if Has(code, 2) then rest - step / 2 else rest) >= step / 4)
  }

  // ---- What a code means ----

  // How far the sample is from the predictor
  function Distance(s: State, sample: int): nat { if sample < s.pred then s.pred - sample else sample - s.pred }

  // A code is a sign and a number from 0 to 7.
  lemma CodeBits(code: Code)
    ensures Has(code, 8) <==> code >= 8
    ensures code % 8 == (if Has(code, 4) then 4 else 0) + (if Has(code, 2) then 2 else 0) + (if Has(code, 1) then 1 else 0)
  {
  }

  // The number stands for that many quarters of a step and a half, rounded down.
  lemma CodeStandsFor(step: nat, code: Code)
    ensures 0 <= (2 * (code % 8) + 1) * step - 8 * Delta(step, code) <= 17
  {
    CodeBits(code);
    hide Has;
    Halves(step);
    Eighths(step, Has(code, 4), Has(code, 2), Has(code, 1));
  }

  lemma Eighths(step: nat, b4: bool, b2: bool, b1: bool)
    ensures var m := (if b4 then 4 else 0) + (if b2 then 2 else 0) + (if b1 then 1 else 0);
            (2 * m + 1) * step == step + (if b4 then 8 * step else 0) + (if b2 then 4 * step else 0) + (if b1 then 2 * step else 0)
  {
  }

  // The index falls by one for a number below 4, and rises by twice what the number exceeds 3 by; predictor
  // and index stay in their ranges.
  lemma CodeMoves(s: State, code: Code)
    requires s.Ok()
    ensures var r, n := Received(s, code), code % 8;
            && (n < 4 ==> r.index == if s.index == 0 then 0 else s.index - 1)
            && (n >= 4 ==> r.index == if s.index + 2 * (n - 3) > 88 then 88 else s.index + 2 * (n - 3))
            && (code < 8 ==> s.pred <= r.pred)
            && (code < 8 ==> r.pred == s.pred + Delta(s.Step(), code) || r.pred == 32767 < s.pred + Delta(s.Step(), code))
            && (code >= 8 ==> s.pred >= r.pred)
            && (code >= 8 ==> r.pred == s.pred - Delta(s.Step(), code) || r.pred == -32768 > s.pred - Delta(s.Step(), code))
  {
    CodeBits(code);
    hide StepSizeTable, Delta;
  }

  // The number is that of the quarters of a step in the sample's distance, but 7 at most, to within the
  // rounding of the quarters.
  lemma CodeCounts(s: State, sample: int, code: Code)
    requires s.Ok() && Quantized(s, sample, code)
    ensures var d, step, n := Distance(s, sample), s.Step(), code % 8;
            && 4 * d >= n * step - 5 && (n < 7 ==> 4 * d < (n + 1) * step)
            && (d >= step <==> n >= 4) && (code >= 8 <==> sample < s.pred)
  {
    CodeBits(code);
    hide StepSizeTable, Has;
    Halves(s.Step());
    Quarters(s.Step(), Distance(s, sample), Has(code, 4), Has(code, 2), Has(code, 1));
  }

  lemma Quarters(step: nat, d: nat, b4: bool, b2: bool, b1: bool)
    requires b4 == (d >= step)
    requires var rest := if b4 then d - step else d;
             && b2 == (rest >= step / 2) && b1 == ((if b2 then rest - step / 2 else rest) >= step / 4)
    ensures var n := (if b4 then 4 else 0) + (if b2 then 2 else 0) + (if b1 then 1 else 0);
            4 * d >= n * step - 5 && (n < 7 ==> 4 * d < (n + 1) * step)
  {
    Halves(step);
  }

  lemma Halves(step: nat)
    ensures step / 2 / 2 == step / 4
    ensures step / 2 + step / 2 <= step <= step / 2 + step / 2 + 1
    ensures step / 4 * 2 <= step / 2 <= step / 4 * 2 + 1
    ensures step / 8 * 2 <= step / 4 <= step / 8 * 2 + 1
  {
  }

  lemma DeltaBound(step: nat, diff: nat, code: Code)
    requires step > 0 && Has(code, 4) == (diff >= step)
    requires var rest := if Has(code, 4) then diff - step else diff;
             && Has(code, 2) == (rest >= step / 2)
             && Has(code, 1) == ((if Has(code, 2) then rest - step / 2 else rest) >= step / 4)
    ensures diff < 2 * step ==> -(step / 8) - 2 <= Delta(step, code) - diff <= step / 8 + 2
    ensures diff >= 2 * step ==> 0 < Delta(step, code) <= diff
  {
    hide Has;
    Halves(step);
  }

  // The error the quantizer is allowed: an eighth of a step, and two for the shifts.
  lemma ErrorBound(s: State, sample: Sample, code: Code)
    requires s.Ok() && Quantized(s, sample, code)
    ensures var step, error := s.Step(), Received(s, code).pred - sample;
            -2 * step < sample - s.pred < 2 * step ==> -(step / 8) - 2 <= error <= step / 8 + 2
    ensures var step, error, before := s.Step(), Received(s, code).pred - sample, s.pred - sample;
            && (before >= 2 * step ==> 0 <= error < before)
            && (before <= -2 * step ==> before < error <= 0)
  {
    hide StepSizeTable, Has, IndexTable, Delta;
    DeltaBound(s.Step(), if sample < s.pred then s.pred - sample else sample - s.pred, code);
  }

  // ---- Codes and samples in sequence ----

  // The state after a sequence of codes.
  function After(s: State, codes: seq<Code>): (r: State)
    requires s.Ok()
    ensures r.Ok()
  {
    if codes == [] then s else Received(After(s, codes[..|codes| - 1]), codes[|codes| - 1])
  }

  // `codes` are what an encoder in state `s` makes of the samples `xs`.
  ghost predicate Encodes(s: State, xs: seq<Sample>, codes: seq<Code>)
    requires s.Ok()
  {
    |codes| == |xs| && forall i :: 0 <= i < |xs| ==> Quantized(After(s, codes[..i]), xs[i], codes[i])
  }

  // `ys` are what a decoder in state `s` makes of the codes.
  ghost predicate Decodes(s: State, codes: seq<Code>, ys: seq<Sample>)
    requires s.Ok()
  {
    |ys| == |codes| && forall i :: 0 <= i < |ys| ==> ys[i] == After(s, codes[..i + 1]).pred
  }

  lemma AfterNext(s: State, codes: seq<Code>, i: nat)
    requires s.Ok() && i < |codes|
    ensures After(s, codes[..i + 1]) == Received(After(s, codes[..i]), codes[i])
  {
    hide Received;
    assert codes[..i + 1][..i] == codes[..i];
  }

  // Within two steps of the predictor, the sample comes back within an eighth of a step and two.
  ghost predicate Close(before: State, x: Sample, y: Sample) {
    && before.Ok()
    && (-2 * before.Step() < x - before.pred < 2 * before.Step() ==>
          -(before.Step() / 8) - 2 <= y - x <= before.Step() / 8 + 2)
  }

  // Every decoded sample is within the error bound of what was encoded.
  lemma TransmissionError(s: State, xs: seq<Sample>, codes: seq<Code>, ys: seq<Sample>, i: nat)
    requires s.Ok() && Encodes(s, xs, codes) && Decodes(s, codes, ys) && i < |xs|
    ensures Close(After(s, codes[..i]), xs[i], ys[i])
  {
    hide State.Step, Received, After, Quantized;
    AfterNext(s, codes, i);
    var before := After(s, codes[..i]);
    assert Quantized(before, xs[i], codes[i]) && ys[i] == Received(before, codes[i]).pred;
    hide Encodes, Decodes;
    ErrorBound(before, xs[i], codes[i]);
  }

  // ---- Nibbles ----

  // Code `i` of a frame: the low half of a byte, then its high half.
  function Nibble(buf: seq<byte>, i: nat): Code
    requires i / 2 < |buf|
  {
    if i % 2 == 0 then buf[i / 2] % 16 else buf[i / 2] / 16
  }

  function Unpacked(buf: seq<byte>, n: nat): (codes: seq<Code>)
    requires n <= 2 * |buf|
    ensures |codes| == n && forall i :: 0 <= i < n ==> codes[i] == Nibble(buf, i)
  {
    seq(n, i requires 0 <= i < n => Nibble(buf, i))
  }

  // The codes one byte at a time; a last odd code has a byte to itself.
  ghost predicate Packed(buf: seq<byte>, codes: seq<Code>) {
    && |codes| <= 2 * |buf|
    && (forall i :: 0 <= i < |codes| ==> Nibble(buf, i) == codes[i])
    && (|codes| % 2 == 1 ==> buf[|codes| / 2] < 16)
  }

  lemma UnpacksWhatWasPacked(buf: seq<byte>, codes: seq<Code>)
    requires Packed(buf, codes)
    ensures Unpacked(buf, |codes|) == codes
  {
  }

  // Two codes to a byte, the first in the low half
  lemma PackedBytes(buf: seq<byte>, codes: seq<Code>, j: nat)
    requires Packed(buf, codes) && 2 * j < |codes|
    ensures (buf[j] as int) == (codes[2 * j] as int) + if 2 * j + 1 < |codes| then 16 * (codes[2 * j + 1] as int) else 0
  {
    assert Nibble(buf, 2 * j) == codes[2 * j];
    if 2 * j + 1 < |codes| {
      assert Nibble(buf, 2 * j + 1) == codes[2 * j + 1];
    }
  }

  lemma PacksNothing(buf: seq<byte>)
    ensures Packed(buf, [])
  {
  }

  lemma HighHalfIsFree(buf: seq<byte>, codes: seq<Code>)
    requires Packed(buf, codes)
    ensures |codes| % 2 == 1 ==> |codes| / 2 < |buf| && buf[|codes| / 2] < 16
  {
  }

  // One more code: `|=` into the high half, or a new byte.
  lemma PacksOneMore(buf: seq<byte>, buf': seq<byte>, codes: seq<Code>, c: Code)
    requires Packed(buf, codes) && |codes| < 2 * |buf|
    requires var j := |codes| / 2;
             buf' == buf[j := if |codes| % 2 == 1 then (buf[j] as int) + 16 * (c as int) else c]
    ensures Packed(buf', codes + [c])
  {
    var n, j := |codes|, |codes| / 2;
    assert forall i :: 0 <= i < |buf| && i != j ==> buf'[i] == buf[i];
    forall i | 0 <= i < n + 1
      ensures Nibble(buf', i) == (codes + [c])[i]
    {
      if i < n {
        assert Nibble(buf, i) == codes[i];
      }
    }
  }

  function Bit(on: bool, weight: nat): nat { if on then weight else 0 }

  lemma BitsOfCode(b8: bool, b4: bool, b2: bool, b1: bool)
    ensures var code := Bit(b8, 8) + Bit(b4, 4) + Bit(b2, 2) + Bit(b1, 1);
            code < 16 && Has(code, 8) == b8 && Has(code, 4) == b4 && Has(code, 2) == b2 && Has(code, 1) == b1
  {
  }

  // The parameter of the encoders has 32 bits; its difference from the predictor must have no more.
  predicate InRange(sample: int, s: State) {
    -0x8000_0000 <= sample <= 0x7fff_ffff && -0x7fff_ffff <= sample - s.pred <= 0x7fff_ffff
  }

  // Steps 2 to 4 of the encoder: the code, and the difference it stands for
  method QuantizeDifference(sample: int, s: State) returns (code: Code, diffq: nat)
    requires s.Ok() && InRange(sample, s)
    ensures Quantized(s, sample, code) && diffq == Delta(s.Step(), code)
  {
    hide StepSizeTable, Has;
    var step, b8, b4, b2, b1 := StepSizeTable(s.index), false, false, false, false;
    Halves(step);
    var diff := sample - s.pred;
    if diff < 0 {
      b8 := true;
      diff := -diff;
    }
    var tmpstep := step;
    diffq := step / 8;
    if diff >= tmpstep {
      b4 := true;
      diff := diff - tmpstep;
      diffq := diffq + step;
    }
    tmpstep := tmpstep / 2;
    if diff >= tmpstep {
      b2 := true;
      diff := diff - tmpstep;
      diffq := diffq + step / 2;
    }
    tmpstep := tmpstep / 2;
    if diff >= tmpstep {
      b1 := true;
      diffq := diffq + step / 4;
    }
    BitsOfCode(b8, b4, b2, b1);
    code := Bit(b8, 8) + Bit(b4, 4) + Bit(b2, 2) + Bit(b1, 1);
  }

  // Steps 5 and 6, the same at both ends: predictor and step index move, and are kept in range.
  method Move(code: Code, diffq: nat, s: State) returns (r: State)
    requires s.Ok() && diffq == Delta(s.Step(), code)
    ensures r == Received(s, code)
  {
    hide StepSizeTable, Delta;
    var index, predsample := s.index, s.pred;
    if code / 8 % 2 == 1 {
      predsample := predsample - diffq;
    } else {
      predsample := predsample + diffq;
    }
    if predsample > 32767 {
      predsample := 32767;
    } else if predsample < -32768 {
      predsample := -32768;
    }
    index := index + IndexTable(code);
    if index < 0 {
      index := 0;
    } else if index > 88 {
      index := 88;
    }
    r := State(index, predsample);
  }

  lemma CodesGoOn(s: State, xs: seq<Sample>, codes: seq<Code>, n: nat, c: Code)
    requires s.Ok() && n < |xs| && Encodes(s, xs[..n], codes) && Quantized(After(s, codes), xs[n], c)
    ensures Encodes(s, xs[..n + 1], codes + [c]) && After(s, codes + [c]) == Received(After(s, codes), c)
  {
    hide Quantized, Received, After;
    var codes' := codes + [c];
    AfterNext(s, codes', n);
    assert codes'[..n] == codes && codes'[..n + 1] == codes';
    forall i | 0 <= i <= n
      ensures Quantized(After(s, codes'[..i]), xs[..n + 1][i], codes'[i])
    {
      assert codes'[..i] == codes[..i];
      if i < n {
        assert Quantized(After(s, codes[..i]), xs[..n][i], codes[i]);
      }
    }
  }

  // The statics of ADPCM_Encode
  class Encoder {
    var index: int
    var predsample: int

    constructor ()
      ensures Now() == State(0, 0)
    {
      index, predsample := 0, 0;
    }

    function Now(): State
      reads this
    {
      State(index, predsample)
    }

    // ADPCM_Encode: the encoder moves as the receiver of its code will.
    method Encode(sample: int) returns (code: Code)
      requires Now().Ok() && InRange(sample, Now())
      modifies this
      ensures Quantized(old(Now()), sample, code) && Now() == Received(old(Now()), code)
      ensures var s, d := old(Now()), Distance(old(Now()), sample);
              && (d < s.Step() ==> Now().index == if s.index == 0 then 0 else s.index - 1)
              && (d >= s.Step() ==>
                    && code % 8 >= 4
                    && var up := s.index + 2 * (code % 8 - 3); Now().index == if up > 88 then 88 else up)
              && 4 * d >= (code % 8) * s.Step() - 5 && (code % 8 < 7 ==> 4 * d < (code % 8 + 1) * s.Step())
              && (code >= 8 <==> sample < s.pred)
    {
      hide Quantized, Received, Delta;
      var diffq;
      code, diffq := QuantizeDifference(sample, Now());
      CodeCounts(Now(), sample, code);
      CodeMoves(Now(), code);
      var r := Move(code, diffq, Now());
      index, predsample := r.index, r.pred;
    }

    // Adpcm_FrameEncode
    method FrameEncode(pcm: seq<Sample>, buf: array<byte>) returns (ghost codes: seq<Code>)
      requires Now().Ok() && |pcm| <= 2 * buf.Length
      modifies this, buf
      ensures Encodes(old(Now()), pcm, codes) && Now() == After(old(Now()), codes)
      ensures Packed(buf[..], codes)
      ensures forall j :: (|pcm| + 1) / 2 <= j < buf.Length ==> buf[j] == old(buf[j])
    {
      hide Quantized, Received, State.Step, Distance, Packed;
      PacksNothing(buf[..]);
      ghost var s := Now();
      codes := [];
      var highBits, p := false, 0;
      var i := 0;
      while i < |pcm|
        invariant 0 <= i <= |pcm| && |codes| == i && p == i / 2 && highBits == (i % 2 == 1)
        invariant Encodes(s, pcm[..i], codes) && Now() == After(s, codes) && Packed(buf[..], codes)
        invariant forall j :: (i + 1) / 2 <= j < buf.Length ==> buf[j] == old(buf[j])
      {
        var code := Encode(pcm[i]);
        CodesGoOn(s, pcm, codes, i, code);
        ghost var before := buf[..];
        HighHalfIsFree(before, codes);
        if highBits {
          buf[p] := (buf[p] as int) + 16 * (code as int);
          p := p + 1;
          highBits := false;
        } else {
          buf[p] := code;
          highBits := true;
        }
        PacksOneMore(before, buf[..], codes, code);
        codes := codes + [code];
        i := i + 1;
      }
      assert pcm[..|pcm|] == pcm;
    }
  }

  // The statics of ADPCM_Decode
  class Decoder {
    var index: int
    var predsample: int

    constructor ()
      ensures Now() == State(0, 0)
    {
      index, predsample := 0, 0;
    }

    // A receiver that starts from a state it was sent
    constructor From(s: State)
      ensures Now() == s
    {
      index, predsample := s.index, s.pred;
    }

    function Now(): State
      reads this
    {
      State(index, predsample)
    }

    // ADPCM_Decode
    method Decode(code: Code) returns (sample: Sample)
      requires Now().Ok()
      modifies this
      ensures Now() == Received(old(Now()), code) && sample == Now().pred
    {
      hide StepSizeTable;
      var step := StepSizeTable(index);
      var diffq := step / 8;
      if code / 4 % 2 == 1 {
        diffq := diffq + step;
      }
      if code / 2 % 2 == 1 {
        diffq := diffq + step / 2;
      }
      if code % 2 == 1 {
        diffq := diffq + step / 4;
      }
      hide Received;
      var r := Move(code, diffq, Now());
      index, predsample := r.index, r.pred;
      sample := predsample;
    }

    // Adpcm_FrameDecode
    method FrameDecode(pcm: array<Sample>, buf: seq<byte>, len: nat)
      requires Now().Ok() && len <= pcm.Length && len <= 2 * |buf|
      modifies this, pcm
      ensures var codes := Unpacked(buf, len);
              Decodes(old(Now()), codes, pcm[..len]) && Now() == After(old(Now()), codes)
      ensures forall j :: len <= j < pcm.Length ==> pcm[j] == old(pcm[j])
    {
      hide Received, After;
      ghost var s, codes := Now(), Unpacked(buf, len);
      assert codes[..0] == [] && After(s, []) == s by {
        Unmoved(s);
      }
      var highBits, p := false, 0;
      var i := 0;
      while i < len
        invariant 0 <= i <= len && p == i / 2 && highBits == (i % 2 == 1)
        invariant Now() == After(s, codes[..i])
        invariant forall j :: 0 <= j < i ==> pcm[j] == After(s, codes[..j + 1]).pred
        invariant forall j :: len <= j < pcm.Length ==> pcm[j] == old(pcm[j])
      {
        var code;
        if highBits {
          code := buf[p] / 16;
          p := p + 1;
          highBits := false;
        } else {
          code := buf[p] % 16;
          highBits := true;
        }
        AfterNext(s, codes, i);
        pcm[i] := Decode(code);
        i := i + 1;
      }
      assert codes[..len] == codes;
    }
  }

  lemma Unmoved(s: State)
    requires s.Ok()
    ensures After(s, []) == s
  {
  }

  // ---- From one end to the other ----

  // Frame `f` goes from the one state `states[f]` of both ends to `states[f + 1]`, and each of its samples comes
  // back within the error bound of the state it was coded from.
  ghost predicate Sent(s: State, frame: seq<Sample>, codes: seq<Code>, ys: seq<Sample>, s': State) {
    && s.Ok() && Encodes(s, frame, codes) && Decodes(s, codes, ys) && s' == After(s, codes)
    && forall i :: 0 <= i < |frame| ==> Close(After(s, codes[..i]), frame[i], ys[i])
  }

  // From equal states, for any frames, the two ends go through the same states, sample by sample.
  method Transmit(enc: Encoder, dec: Decoder, frames: seq<seq<Sample>>)
    returns (out: seq<seq<Sample>>, ghost states: seq<State>, ghost codes: seq<seq<Code>>)
    requires enc.Now().Ok() && enc.Now() == dec.Now()
    modifies enc, dec
    ensures |out| == |frames| == |codes| && |states| == |frames| + 1
    ensures states[0] == old(enc.Now()) && states[|frames|] == enc.Now() == dec.Now()
    ensures forall f :: 0 <= f < |frames| ==> Sent(states[f], frames[f], codes[f], out[f], states[f + 1])
  {
    hide Sent, After;
    out, states, codes := [], [enc.Now()], [];
    for f := 0 to |frames|
      invariant enc.Now().Ok() && |out| == |codes| == f && |states| == f + 1
      invariant states[0] == old(enc.Now()) && states[f] == enc.Now() == dec.Now()
      invariant forall g :: 0 <= g < f ==> Sent(states[g], frames[g], codes[g], out[g], states[g + 1])
    {
      var ys;
      ghost var cs;
      ys, cs := TransmitFrame(enc, dec, frames[f]);
      out, codes, states := out + [ys], codes + [cs], states + [enc.Now()];
    }
  }

  method TransmitFrame(enc: Encoder, dec: Decoder, frame: seq<Sample>) returns (ys: seq<Sample>, ghost codes: seq<Code>)
    requires enc.Now().Ok() && enc.Now() == dec.Now()
    modifies enc, dec
    ensures enc.Now().Ok() && enc.Now() == dec.Now()
    ensures Sent(old(enc.Now()), frame, codes, ys, enc.Now())
  {
    hide After;
    ghost var s := enc.Now();
    var buf := new byte[(|frame| + 1) / 2](_ => 0);
    codes := enc.FrameEncode(frame, buf);
    UnpacksWhatWasPacked(buf[..], codes);
    var pcm := new Sample[|frame|](_ => 0);
    dec.FrameDecode(pcm, buf[..], |frame|);
    ys := pcm[..];
    AllClose(s, frame, codes, ys);
  }

  lemma AllClose(s: State, frame: seq<Sample>, codes: seq<Code>, ys: seq<Sample>)
    requires s.Ok() && Encodes(s, frame, codes) && Decodes(s, codes, ys)
    ensures Sent(s, frame, codes, ys, After(s, codes))
  {
    hide Encodes, Decodes, After, Close;
    FrameLength(s, frame, codes, ys);
    forall i | 0 <= i < |frame|
      ensures Close(After(s, codes[..i]), frame[i], ys[i])
    {
      TransmissionError(s, frame, codes, ys, i);
    }
  }

  lemma FrameLength(s: State, frame: seq<Sample>, codes: seq<Code>, ys: seq<Sample>)
    requires s.Ok() && Encodes(s, frame, codes) && Decodes(s, codes, ys)
    ensures |frame| == |codes| == |ys|
  {
  }

  // ---- The Google TV variant ----

  // A 32-bit pattern read as a signed number, and back.
  function AsInt32(x: nat): int { if x % 0x1_0000_0000 < 0x8000_0000 then x % 0x1_0000_0000 else x % 0x1_0000_0000 - 0x1_0000_0000 }

  function AsUint32(x: int): nat { x % 0x1_0000_0000 }

  lemma TwosComplement(x: Sample)
    ensures AsUint32(x) == if x >= 0 then x else x + 0x1_0000_0000
  {
  }

  lemma SignedRoundTrip(x: Sample)
    ensures AsInt32(AsUint32(x)) == x
  {
  }

  // google_tv_audio_adpcm
  datatype TvAdpcm = TvAdpcm(previousPredictAdpcm: nat, tableIndex: u16)
  {
    function Now(): State { State(tableIndex, AsInt32(previousPredictAdpcm)) }
  }

  // google_tv_audio_header
  datatype TvHeader = TvHeader(frameNumber: u16, remoteId: byte, adpcmVal: TvAdpcm)

  // gAudioAdpcmVal and the header that a remote keeps
  class TvEncoder {
    var val: TvAdpcm
    var header: TvHeader

    // Adpcm_FrameEncode_Restart
    constructor ()
      ensures val.Now() == State(0, 0) && header == TvHeader(0, 0, val)
    {
      val := TvAdpcm(0, 0);
      header := TvHeader(0, 0, TvAdpcm(0, 0));
    }

    // ADPCM_Encode_Google_TV_Audio
    method Encode(sample: int) returns (code: Code)
      requires val.Now().Ok() && InRange(sample, val.Now())
      modifies `val
      ensures Quantized(old(val.Now()), sample, code) && val.Now() == Received(old(val.Now()), code)
      ensures var s, d := old(val.Now()), Distance(old(val.Now()), sample);
              && (d < s.Step() ==> val.Now().index == if s.index == 0 then 0 else s.index - 1)
              && (d >= s.Step() ==>
                    && code % 8 >= 4
                    && var up := s.index + 2 * (code % 8 - 3); val.Now().index == if up > 88 then 88 else up)
              && 4 * d >= (code % 8) * s.Step() - 5 && (code % 8 < 7 ==> 4 * d < (code % 8 + 1) * s.Step())
              && (code >= 8 <==> sample < s.pred)
    {
      hide Quantized, Received, Delta;
      var s, diffq := val.Now(), 0;
      code, diffq := QuantizeDifference(sample, s);
      CodeCounts(s, sample, code);
      CodeMoves(s, code);
      var r := Move(code, diffq, s);
      SignedRoundTrip(r.pred);
      val := TvAdpcm(AsUint32(r.pred), r.index);
    }

    // Adpcm_FrameEncode_Google_TV_Audio: the header holds the state that the frame starts from, so that any
    // frame can be decoded on its own.
    method FrameEncode(pcm: seq<Sample>, buf: array<byte>) returns (ghost codes: seq<Code>)
      requires val.Now().Ok() && |pcm| <= 2 * buf.Length
      modifies this, buf
      ensures header == TvHeader((old(header).frameNumber + 1) % 0x1_0000, old(header).remoteId, old(val))
      ensures header.adpcmVal.Now().Ok() && Encodes(header.adpcmVal.Now(), pcm, codes)
      ensures val.Now() == After(header.adpcmVal.Now(), codes) && Packed(buf[..], codes)
      ensures forall j :: (|pcm| + 1) / 2 <= j < buf.Length ==> buf[j] == old(buf[j])
    {
      hide Quantized, Received, State.Step, Distance, Packed;
      PacksNothing(buf[..]);
      header := TvHeader((header.frameNumber + 1) % 0x1_0000, header.remoteId, val);
      ghost var s := val.Now();
      codes := [];
      var highBits, p := false, 0;
      var i := 0;
      while i < |pcm|
        invariant 0 <= i <= |pcm| && |codes| == i && p == i / 2 && highBits == (i % 2 == 1)
        invariant Encodes(s, pcm[..i], codes) && val.Now() == After(s, codes) && Packed(buf[..], codes)
        invariant header == TvHeader((old(header).frameNumber + 1) % 0x1_0000, old(header).remoteId, old(val))
        invariant forall j :: (i + 1) / 2 <= j < buf.Length ==> buf[j] == old(buf[j])
      {
        var code := Encode(pcm[i]);
        CodesGoOn(s, pcm, codes, i, code);
        ghost var before := buf[..];
        HighHalfIsFree(before, codes);
        if highBits {
          buf[p] := (buf[p] as int) + 16 * (code as int);
          p := p + 1;
          highBits := false;
        } else {
          buf[p] := code;
          highBits := true;
        }
        PacksOneMore(before, buf[..], codes, code);
        codes := codes + [code];
        i := i + 1;
      }
      assert pcm[..|pcm|] == pcm;
    }
  }

  // A frame of the remote control is decoded from its header and its bytes alone, whatever frames were lost
  // before it, and every sample is within the error bound.
  method ReceiveTvFrame(enc: TvEncoder, pcm: seq<Sample>) returns (ys: seq<Sample>, ghost codes: seq<Code>)
    requires enc.val.Now().Ok()
    modifies enc
    ensures Sent(old(enc.val.Now()), pcm, codes, ys, enc.val.Now())
  {
    hide After;
    var buf := new byte[(|pcm| + 1) / 2](_ => 0);
    codes := enc.FrameEncode(pcm, buf);
    UnpacksWhatWasPacked(buf[..], codes);
    var dec := new Decoder.From(enc.header.adpcmVal.Now());
    var out := new Sample[|pcm|](_ => 0);
    dec.FrameDecode(out, buf[..], |pcm|);
    ys := out[..];
    AllClose(enc.header.adpcmVal.Now(), pcm, codes, ys);
  }
}
