/** A block of ADC samples from the pins to the host: sampling, the printed frame, its parser, and the
    decoder that puts the bits back in order. */
module AdcFrames {
  import opened Prelude
  import opened Digits
  import DataBus

  // ---------------------------------------------------------------- the firmware

  /** The 32 bits the ADC presents, as two halves on the bus. */
  datatype AdcWord = AdcWord(high: bv16, low: bv16) {
    /** Bit `i` of the whole word. */
    function BitOf(i: nat): bool
      requires i < 32
    {
      if i < 16 then DataBus.Bit(low, i) else DataBus.Bit(high, i - 16)
    }

    function Bits(): (bits: seq<bool>)
      ensures |bits| == 32
    {
      HalfBits(low, 16) + HalfBits(high, 16)
    }
  }

  /** The lowest `k` bits of one half. */
  function HalfBits(half: bv16, k: nat): (bits: seq<bool>)
    requires k <= 16
    ensures |bits| == k
  {
    if k == 0 then [] else HalfBits(half, k - 1) + [DataBus.Bit(half, k - 1)]
  }

  lemma HalfBitsStep(half: bv16, k: nat)
    requires 0 < k <= 16
    ensures HalfBits(half, k)[..k - 1] == HalfBits(half, k - 1)
    ensures HalfBits(half, k)[k - 1] == DataBus.Bit(half, k - 1)
  {
  }

  lemma {:induction false} HalfBitsAt(half: bv16, k: nat, i: nat)
    requires i < k <= 16
    ensures HalfBits(half, k)[i] == DataBus.Bit(half, i)
  {
    HalfBitsStep(half, k);
    if i < k - 1 {
      HalfBitsAt(half, k - 1, i);
      assert HalfBits(half, k)[i] == HalfBits(half, k)[..k - 1][i];
    }
  }

  lemma BitsAt(w: AdcWord, i: nat)
    requires i < 32
    ensures w.Bits()[i] == w.BitOf(i)
  {
    if i < 16 {
      HalfBitsAt(w.low, 16, i);
    } else {
      HalfBitsAt(w.high, 16, i - 16);
    }
  }

  /** `(MSB_16 << 16) | LSB_16` on two packed readings, as a number. */
  function RawWord(msb: bv16, lsb: bv16): nat {
    Value(AdcWord(msb, lsb).Bits())
  }

  /** What the firmware stores for a word that the ADC puts on the pins, half by half. */
  function Sampled(w: AdcWord): nat {
    RawWord(DataBus.Packed(DataBus.PortA(w.high), DataBus.PortC(w.high)),
            DataBus.Packed(DataBus.PortA(w.low), DataBus.PortC(w.low)))
  }

  /** Where bit `i` of the ADC's word stands in the stored word. */
  function RawPlace(i: nat): (p: nat)
    requires i < 32
    ensures p < 32
  {
    if i < 16 then DataBus.Place(i) else 16 + DataBus.Place(i - 16)
  }

  lemma SampledBit(w: AdcWord, i: nat)
    requires i < 32
    ensures BitAt(Sampled(w), RawPlace(i)) == w.BitOf(i)
  {
    var msb := DataBus.Packed(DataBus.PortA(w.high), DataBus.PortC(w.high));
    var lsb := DataBus.Packed(DataBus.PortA(w.low), DataBus.PortC(w.low));
    BitOfValue(AdcWord(msb, lsb).Bits(), RawPlace(i));
    BitsAt(AdcWord(msb, lsb), RawPlace(i));
    var half, k := if i < 16 then w.low else w.high, if i < 16 then i else i - 16;
    DataBus.WriteBit(half, k);
    DataBus.ReadBit(DataBus.PortA(half), DataBus.PortC(half), k);
  }

  lemma SampledBelow(w: AdcWord)
    ensures Sampled(w) < Pow2(32)
  {
    ValueBelow(AdcWord(DataBus.Packed(DataBus.PortA(w.high), DataBus.PortC(w.high)),
                       DataBus.Packed(DataBus.PortA(w.low), DataBus.PortC(w.low))).Bits());
  }

  function SampledAll(words: seq<AdcWord>): (samples: seq<nat>)
    ensures |samples| == |words|
  {
    seq(|words|, i requires 0 <= i < |words| => Sampled(words[i]))
  }

  /** What the interrupts of the ADC leave behind: the block, where its next sample goes, the ready
      flag, and whether the interrupt is still on. */
  datatype Gathering = Gathering(block: seq<nat>, index: nat, ready: bool, sampling: bool)

  /** One interrupt of the ADC. */
  function Gathered(g: Gathering, w: AdcWord): Gathering {
    if g.index < |g.block| then g.(block := g.block[g.index := Sampled(w)], index := g.index + 1)
    else g.(index := 0, ready := true, sampling := false)
  }

  function GatheredAll(g: Gathering, words: seq<AdcWord>): Gathering {
    if words == [] then g else Gathered(GatheredAll(g, words[..|words| - 1]), words[|words| - 1])
  }

  lemma {:induction false} GathersInOrder(g: Gathering, words: seq<AdcWord>)
    requires g.index == 0 && |words| <= |g.block|
    ensures GatheredAll(g, words) == g.(block := SampledAll(words) + g.block[|words|..], index := |words|)
    decreases |words|
  {
    if words == [] {
      assert SampledAll(words) + g.block[0..] == g.block;
    } else {
      var n := |words| - 1;
      GathersInOrder(g, words[..n]);
      var before := SampledAll(words[..n]) + g.block[n..];
      assert before[n := Sampled(words[n])] == SampledAll(words) + g.block[|words|..];
    }
  }

  /** A block is ready exactly when one interrupt more than it has places has come; it then holds the
      words in order, and the next block starts afresh. */
  lemma BlockIsReady(g: Gathering, words: seq<AdcWord>, last: AdcWord)
    requires g.index == 0 && |words| <= |g.block|
    ensures GatheredAll(g, words).ready == g.ready && GatheredAll(g, words).sampling == g.sampling
    ensures |words| == |g.block| ==>
      Gathered(GatheredAll(g, words), last) == Gathering(SampledAll(words), 0, true, false)
  {
    GathersInOrder(g, words);
    if |words| == |g.block| {
      assert SampledAll(words) + g.block[|words|..] == SampledAll(words);
    }
  }

  /** The levels of all pins of the two ports. */
  datatype Levels = Levels(a: bv16, c: bv16)

  /** The sampling side of `ADC_Class`. */
  class Sampler {
    const bus: DataBus.DataBusClass
    const sampleArray: array<nat>
    var sampleIndex: nat
    var dataReady: bool
    var interruptEnabled: bool

    function State(): Gathering
      reads this, sampleArray
    {
      Gathering(sampleArray[..], sampleIndex, dataReady, interruptEnabled)
    }

    constructor (bus: DataBus.DataBusClass, numberOfSamples: nat)
      ensures this.bus == bus && fresh(sampleArray) && sampleArray.Length == numberOfSamples
      ensures sampleIndex == 0 && !dataReady && !interruptEnabled
    {
      this.bus := bus;
      sampleArray := new nat[numberOfSamples];
      sampleIndex, dataReady, interruptEnabled := 0, false, false;
    }

    /** Two reads of the bus, on which the ADC puts `w` half by half. The other pins of the two ports may
        have any levels. */
    method ReadDataWord(w: AdcWord, high: Levels, low: Levels) returns (word: nat)
      requires DataBus.Carries(high.a, high.c, w.high) && DataBus.Carries(low.a, low.c, w.low)
      modifies bus
      ensures word == Sampled(w)
    {
      bus.levelsA, bus.levelsC := high.a, high.c;
      var msb := bus.Read();
      bus.levelsA, bus.levelsC := low.a, low.c;
      var lsb := bus.Read();
      DataBus.PackedIsDetermined(msb, w.high);
      DataBus.PackedIsDetermined(lsb, w.low);
      word := RawWord(msb, lsb);
    }

    method CollectSamples(w: AdcWord, high: Levels, low: Levels)
      requires DataBus.Carries(high.a, high.c, w.high) && DataBus.Carries(low.a, low.c, w.low)
      modifies this, bus, sampleArray
      ensures State() == Gathered(old(State()), w)
    {
      if sampleIndex < sampleArray.Length {
        sampleArray[sampleIndex] := ReadDataWord(w, high, low);
        sampleIndex := sampleIndex + 1;
      } else {
        interruptEnabled := false;
        sampleIndex := 0;
        dataReady := true;
      }
    }
  }

  /** The lines `data_tx` prints. */
  function Frame(samples: seq<nat>): seq<string> {
    ["start"] + HexLines(samples) + ["stop"]
  }

  function HexLines(samples: seq<nat>): (lines: seq<string>)
    ensures |lines| == |samples|
  {
    seq(|samples|, i requires 0 <= i < |samples| => Hex(samples[i], 8))
  }

  method DataTx(sampleArray: array<nat>, numberOfSamplesToTX: nat) returns (lines: seq<string>)
    requires numberOfSamplesToTX <= sampleArray.Length
    ensures lines == Frame(sampleArray[..numberOfSamplesToTX])
  {
    lines := ["start"];
    for txIndex := 0 to numberOfSamplesToTX
      invariant lines == ["start"] + HexLines(sampleArray[..txIndex])
    {
      lines := lines + [Hex(sampleArray[txIndex], 8)];
      assert sampleArray[..txIndex + 1] == sampleArray[..txIndex] + [sampleArray[txIndex]];
    }
    lines := lines + ["stop"];
  }

  // ---------------------------------------------------------------- acquisition_loop

  /** `sub in s`. */
  predicate Contains(s: string, sub: string) {
    sub <= s || (s != "" && Contains(s[1..], sub))
  }

  /** `readline`; nothing more comes after the last line. */
  function LineAt(lines: seq<string>, i: nat): string {
    if i < |lines| then lines[i] else ""
  }

  /** The outer loop, with `left` lines to look at. `stop(k)` is what the k-th look at `stop_loops`
      finds. */
  function Search(lines: seq<string>, pos: nat, left: nat, n: nat, stop: nat -> bool, looks: nat): Option<seq<nat>>
    decreases left
  {
    if left == 0 || stop(looks) then None
    else if Contains(LineAt(lines, pos), "start") then Collect(lines, pos + 1, 2 * n, [], stop, looks + 1)
    else Search(lines, pos + 1, left - 1, n, stop, looks + 1)
  }

  /** The inner loop, with the line at `pos` in hand. Lines that are not numbers are skipped. */
  function Collect(lines: seq<string>, pos: nat, left: nat, data: seq<nat>, stop: nat -> bool, looks: nat)
    : Option<seq<nat>>
    decreases left
  {
    var line := LineAt(lines, pos);
    if left == 0 || Contains(line, "stop") then Some(data)
    else if stop(looks) then None
    else
      Collect(lines, pos + 1, left - 1, data + Numbers(line), stop, looks + 1)
  }

  /** What one line adds to the buffer. */
  function Numbers(line: string): seq<nat> {
    match ParseHex(line)
    case Some(x) => [x]
    case None => []
  }

  /** `acquisition_loop`: what it puts into the input queue, if anything. */
  method AcquisitionLoop(lines: seq<string>, numberOfSamples: nat, stop: nat -> bool) returns (queued: Option<seq<nat>>)
    ensures queued == Search(lines, 0, 6 * numberOfSamples, numberOfSamples, stop, 0)
  {
    var pos, looks := 0, 0;
    for nn := 0 to 6 * numberOfSamples
      invariant Search(lines, 0, 6 * numberOfSamples, numberOfSamples, stop, 0) ==
                Search(lines, pos, 6 * numberOfSamples - nn, numberOfSamples, stop, looks)
    {
      if stop(looks) {
        return None;
      }
      looks := looks + 1;
      var curLine := LineAt(lines, pos);
      pos := pos + 1;
      if Contains(curLine, "start") {
        queued := CollectBuffer(lines, pos, numberOfSamples, stop, looks);
        return;
      }
    }
    return None;
  }

  /** The part after the start line. */
  method CollectBuffer(lines: seq<string>, first: nat, numberOfSamples: nat, stop: nat -> bool, look: nat)
    returns (queued: Option<seq<nat>>)
    ensures queued == Collect(lines, first, 2 * numberOfSamples, [], stop, look)
  {
    var pos, looks := first, look;
    var curLine := LineAt(lines, pos);
    var dataBuffer := [];
    for kk := 0 to 2 * numberOfSamples
      invariant curLine == LineAt(lines, pos)
      invariant Collect(lines, first, 2 * numberOfSamples, [], stop, look) ==
                Collect(lines, pos, 2 * numberOfSamples - kk, dataBuffer, stop, looks)
    {
      if Contains(curLine, "stop") {
        break;
      }
      if stop(looks) {
        return None;
      }
      looks := looks + 1;
      dataBuffer := dataBuffer + Numbers(curLine);
      pos := pos + 1;
      curLine := LineAt(lines, pos);
    }
    return Some(dataBuffer);
  }

  // ---------------------------------------------------------------- decode_loop

  /** The reordered string: the character for bit 31 of the ADC's word first. */
  function Untangled(t: string): (u: string)
    requires |t| >= 32
    ensures |u| == 32
  {
    [t[0], t[1], t[8], t[9], t[15], t[14], t[11], t[13],
     t[5], t[7], t[6], t[4], t[3], t[10], t[2], t[12],
     t[16], t[17], t[24], t[25], t[31], t[30], t[27], t[29],
     t[21], t[23], t[22], t[20], t[19], t[26], t[18], t[28]]
  }

  /** The number appended for a sample, before scaling. */
  function DecodedValue(u: string): int
    requires |u| == 32
  {
    if u[0] == '1' then ParseBinary(u[0..24]) - 0x100_0000 else ParseBinary(u[1..24])
  }

  const SCALE_FACTOR: real := 8.44190

  /** The scaling to a signal, full scale being 2^23 - 1. */
  function Scaled(value: int): real {
    value as real / 8388607.0 * SCALE_FACTOR
  }

  /** Scaling is linear and takes the largest value to the scale factor, which says all about it. */
  lemma ScaledIsLinear(a: int, b: int)
    ensures Scaled(a + b) == Scaled(a) + Scaled(b)
    ensures Scaled(0x7F_FFFF) == 8.44190
  {
  }

  /** Scaling keeps every difference between two values, and their order. */
  lemma ScaledKeepsOrder(a: int, b: int)
    ensures Scaled(a) < Scaled(b) <==> a < b
    ensures Scaled(a) == Scaled(b) <==> a == b
  {
  }

  /** `int(s, 2)` and `format(x, '#010b')`, with the `0b` prefix. */
  function ParsePrefixed(s: string): nat {
    if |s| >= 2 && s[..2] == "0b" then ParseBinary(s[2..]) else ParseBinary(s)
  }

  function FormatPrefixed(x: nat): string {
    "0b" + FormatBinary(x, 8)
  }

  function StatusWith(status: string, u: string): string
    requires |u| == 32
  {
    FormatPrefixed(BitOr(ParsePrefixed(status), ParseBinary(u[24..])))
  }

  function Text(sample: nat): (t: string)
    ensures |t| >= 32
  {
    FormatBinary(sample, 32)
  }

  function DecodedAll(samples: seq<nat>): (values: seq<real>)
    ensures |values| == |samples|
  {
    seq(|samples|, i requires 0 <= i < |samples| => Scaled(DecodedValue(Untangled(Text(samples[i])))))
  }

  function StatusOf(samples: seq<nat>): string {
    if samples == [] then "0b0"
    else StatusWith(StatusOf(samples[..|samples| - 1]), Untangled(Text(samples[|samples| - 1])))
  }

  /** `decode_loop` on one queued buffer: the decoded values and `accumulated_status`. */
  method DecodeLoop(tangledBuffer: seq<nat>) returns (untangledBuffer: seq<real>, accumulatedStatus: string)
    ensures untangledBuffer == DecodedAll(tangledBuffer)
    ensures accumulatedStatus == StatusOf(tangledBuffer)
  {
    untangledBuffer, accumulatedStatus := [], "0b0";
    for i := 0 to |tangledBuffer|
      invariant untangledBuffer == DecodedAll(tangledBuffer[..i])
      invariant accumulatedStatus == StatusOf(tangledBuffer[..i])
    {
      var value;
      value, accumulatedStatus := DecodeSample(tangledBuffer[i], accumulatedStatus);
      untangledBuffer := untangledBuffer + [value];
      OneMore(tangledBuffer, i);
    }
    assert tangledBuffer[..|tangledBuffer|] == tangledBuffer;
  }

  lemma OneMore(samples: seq<nat>, i: nat)
    requires i < |samples|
    ensures var u := Untangled(Text(samples[i]));
      && DecodedAll(samples[..i + 1]) == DecodedAll(samples[..i]) + [Scaled(DecodedValue(u))]
      && StatusOf(samples[..i + 1]) == StatusWith(StatusOf(samples[..i]), u)
  {
    assert samples[..i + 1][..i] == samples[..i];
  }

  method DecodeSample(tangledSample: nat, accumulatedStatus: string) returns (value: real, status: string)
    ensures var u := Untangled(Text(tangledSample));
      value == Scaled(DecodedValue(u)) && status == StatusWith(accumulatedStatus, u)
  {
    var untangledString := Untangled(Text(tangledSample));
    status := FormatPrefixed(BitOr(ParsePrefixed(accumulatedStatus), ParseBinary(untangledString[24..])));
    if untangledString[0] == '1' {
      value := Scaled(ParseBinary(untangledString[0..24]) - 0x100_0000);
    } else {
      value := Scaled(ParseBinary(untangledString[1..24]));
    }
  }

  // ---------------------------------------------------------------- decoding undoes packing

  lemma UntangledAt(t: string, i: nat)
    requires |t| >= 32 && i < 32
    ensures Untangled(t)[i] == t[31 - RawPlace(31 - i)]
  {
  }

  /** The reordered string spells the ADC's word, bit 31 first. */
  lemma UntangledInOrder(w: AdcWord, i: nat)
    requires i < 32
    ensures Untangled(Text(Sampled(w)))[i] == BitChar(w.Bits()[31 - i])
  {
    SampledBelow(w);
    BitLengthWithin(Sampled(w), 32);
    UntangledAt(Text(Sampled(w)), i);
    BinaryDigit(Sampled(w), 32, 31 - RawPlace(31 - i));
    SampledBit(w, 31 - i);
    BitsAt(w, 31 - i);
  }

  /** The conversion result: the top 24 bits in two's complement. */
  function Signed24(w: AdcWord): int {
    Value(w.Bits()[8..]) - if w.Bits()[31] then 0x100_0000 else 0
  }

  lemma {:induction false} HighZero(bits: seq<bool>)
    ensures Value(bits + [false]) == Value(bits)
  {
    if bits != [] {
      assert (bits + [false])[1..] == bits[1..] + [false];
      HighZero(bits[1..]);
    }
  }

  /** `u` spells `bits`, the last one first. */
  ghost predicate Spells(u: string, bits: seq<bool>) {
    |u| == |bits| && forall i :: 0 <= i < |u| ==> u[i] == BitChar(bits[|u| - 1 - i])
  }

  lemma WordIsSpelled(w: AdcWord)
    ensures Spells(Untangled(Text(Sampled(w))), w.Bits())
  {
    var u := Untangled(Text(Sampled(w)));
    forall i | 0 <= i < 32 ensures u[i] == BitChar(w.Bits()[31 - i]) {
      UntangledInOrder(w, i);
    }
  }

  lemma SpelledSlice(u: string, bits: seq<bool>, from: nat, upTo: nat)
    requires Spells(u, bits) && from <= upTo <= |u|
    ensures ParseBinary(u[from..upTo]) == Value(bits[|u| - upTo..|u| - from])
  {
    ParsedBits(u[from..upTo], bits[|u| - upTo..|u| - from]);
  }

  lemma DecodedIsSigned(w: AdcWord)
    ensures DecodedValue(Untangled(Text(Sampled(w)))) == Signed24(w)
  {
    WordIsSpelled(w);
    SpelledValue(Untangled(Text(Sampled(w))), w.Bits());
  }

  lemma SpelledValue(u: string, bits: seq<bool>)
    requires Spells(u, bits) && |u| == 32
    ensures DecodedValue(u) == Value(bits[8..]) - if bits[31] then 0x100_0000 else 0
  {
    assert u[0] == BitChar(bits[31]);
    if bits[31] {
      SpelledSlice(u, bits, 0, 24);
      assert bits[8..32] == bits[8..];
    } else {
      SpelledSlice(u, bits, 1, 24);
      HighZero(bits[8..31]);
      assert bits[8..] == bits[8..31] + [false];
    }
  }

  lemma StatusByte(w: AdcWord)
    ensures ParseBinary(Untangled(Text(Sampled(w)))[24..]) == Value(w.Bits()[..8])
  {
    WordIsSpelled(w);
    SpelledStatus(Untangled(Text(Sampled(w))), w.Bits());
  }

  lemma SpelledStatus(u: string, bits: seq<bool>)
    requires Spells(u, bits) && |u| == 32
    ensures ParseBinary(u[24..]) == Value(bits[..8])
  {
    SpelledSlice(u, bits, 24, 32);
    assert u[24..32] == u[24..] && bits[0..8] == bits[..8];
  }

  lemma PrefixedRoundTrip(x: nat)
    requires x < Pow2(8)
    ensures ParsePrefixed(FormatPrefixed(x)) == x
  {
    BitLengthWithin(x, 8);
    BinaryRoundTrip(x, 8);
    assert FormatPrefixed(x)[2..] == Binary(x, 8);
  }

  lemma StatusStep(status: string, w: AdcWord, b: nat)
    requires ParsePrefixed(status) < Pow2(8) && b < 8
    ensures var r := ParsePrefixed(StatusWith(status, Untangled(Text(Sampled(w)))));
      r < Pow2(8) && BitAt(r, b) == (BitAt(ParsePrefixed(status), b) || w.Bits()[b])
  {
    var byte := Value(w.Bits()[..8]);
    StatusByte(w);
    ValueBelow(w.Bits()[..8]);
    OrBelow(ParsePrefixed(status), byte, 8);
    PrefixedRoundTrip(BitOr(ParsePrefixed(status), byte));
    BitOfOr(ParsePrefixed(status), byte, b);
    BitOfValue(w.Bits()[..8], b);
  }

  lemma NoStatus(b: nat)
    ensures ParsePrefixed("0b0") == 0 && !BitAt(0, b)
  {
    assert "0b0"[2..] == "0" && "0"[..0] == "";
    NoBits(b);
  }

  /** Whether bit `b` is set in any of the words. */
  ghost predicate SomeHas(words: seq<AdcWord>, b: nat)
    requires b < 32
  {
    exists i :: 0 <= i < |words| && words[i].Bits()[b]
  }

  lemma SomeHasLast(words: seq<AdcWord>, b: nat)
    requires words != [] && b < 32
    ensures SomeHas(words, b) <==> SomeHas(words[..|words| - 1], b) || words[|words| - 1].Bits()[b]
  {
    var earlier := words[..|words| - 1];
    assert forall i :: 0 <= i < |earlier| ==> words[i] == earlier[i];
  }

  /** The accumulated status is the OR of all status bytes. */
  lemma {:induction false} StatusAccumulates(words: seq<AdcWord>, b: nat)
    requires b < 8
    ensures ParsePrefixed(StatusOf(SampledAll(words))) < Pow2(8)
    ensures BitAt(ParsePrefixed(StatusOf(SampledAll(words))), b) <==> SomeHas(words, b)
    decreases |words|
  {
    if words == [] {
      NoStatus(b);
    } else {
      var earlier, w := words[..|words| - 1], words[|words| - 1];
      assert SampledAll(words)[..|words| - 1] == SampledAll(earlier);
      StatusAccumulates(earlier, b);
      StatusStep(StatusOf(SampledAll(earlier)), w, b);
      SomeHasLast(words, b);
    }
  }


  /** The text of the accumulated status: a prefix and eight digits, each telling whether its bit is set in
      any of the words. */
  lemma StatusText(words: seq<AdcWord>, b: nat)
    requires words != [] && b < 8
    ensures var t := StatusOf(SampledAll(words));
      |t| == 10 && t[..2] == "0b" && t[9 - b] == BitChar(SomeHas(words, b))
  {
    var n := |words| - 1;
    var status, w := StatusOf(SampledAll(words[..n])), words[n];
    assert SampledAll(words)[..n] == SampledAll(words[..n]);
    StatusAccumulates(words[..n], b);
    StatusAccumulates(words, b);
    var byte := Value(w.Bits()[..8]);
    StatusByte(w);
    ValueBelow(w.Bits()[..8]);
    var x := BitOr(ParsePrefixed(status), byte);
    OrBelow(ParsePrefixed(status), byte, 8);
    assert StatusOf(SampledAll(words)) == FormatPrefixed(x);
    PrefixedRoundTrip(x);
    PrefixedDigit(x, b);
  }

  lemma PrefixedDigit(x: nat, b: nat)
    requires x < Pow2(8) && b < 8
    ensures var t := FormatPrefixed(x);
      |t| == 10 && t[..2] == "0b" && t[9 - b] == BitChar(BitAt(x, b))
  {
    BitLengthWithin(x, 8);
    BinaryDigit(x, 8, 7 - b);
  }

  // ---------------------------------------------------------------- looking for words in lines

  lemma {:induction false} NothingFrom(s: string, sub: string)
    requires sub != "" && forall i :: 0 <= i < |s| ==> s[i] != sub[0]
    ensures !Contains(s, sub)
  {
    if s != "" {
      assert s[0] != sub[0];
      assert forall i :: 0 <= i < |s[1..]| ==> s[1..][i] == s[i + 1];
      NothingFrom(s[1..], sub);
    }
  }

  lemma HexLineHasNoS(x: nat, sub: string)
    requires sub != "" && sub[0] == 's'
    ensures !Contains(Hex(x, 8), sub)
  {
    var line := Hex(x, 8);
    forall i | 0 <= i < |line| ensures line[i] != 's' {
      HexAlphabet(x, 8, i);
    }
    NothingFrom(line, sub);
  }

  lemma ContainsItself(s: string)
    ensures Contains(s, s)
  {
    assert s <= s;
  }

  /** `sub in s`, said with a position. */
  lemma {:induction false} ContainsIff(s: string, sub: string)
    ensures Contains(s, sub) <==> exists i :: 0 <= i <= |s| && sub <= s[i..]
  {
    if s != "" {
      ContainsIff(s[1..], sub);
      assert s[0..] == s;
      assert forall i :: 0 <= i <= |s[1..]| ==> s[1..][i..] == s[i + 1..];
      if Contains(s[1..], sub) {
        var i :| 0 <= i <= |s[1..]| && sub <= s[1..][i..];
        assert sub <= s[i + 1..];
      }
      if i :| 0 <= i <= |s| && sub <= s[i..] {
        assert i == 0 || sub <= s[1..][i - 1..];
      }
    } else {
      assert s[0..] == s;
    }
  }

  // ---------------------------------------------------------------- what any lines give

  /** One of the next `n` looks at `stop_loops`, from `looks` on, finds it set. */
  predicate Stopped(stop: nat -> bool, looks: nat, n: nat) {
    exists k :: looks <= k < looks + n && stop(k)
  }

  lemma StoppedStep(stop: nat -> bool, looks: nat, n: nat)
    requires n > 0
    ensures Stopped(stop, looks, n) == (stop(looks) || Stopped(stop, looks + 1, n - 1))
  {
  }

  /** The numbers in `count` lines from `pos` on. */
  function NumbersOf(lines: seq<string>, pos: nat, count: nat): seq<nat>
    decreases count
  {
    if count == 0 then [] else Numbers(LineAt(lines, pos)) + NumbersOf(lines, pos + 1, count - 1)
  }

  /** The inner loop takes `count` lines from `pos` on: none of them says stop, and then one does, or it has
      taken all it takes. */
  ghost predicate TakesLines(lines: seq<string>, pos: nat, count: nat, left: nat) {
    && count <= left
    && (forall i :: pos <= i < pos + count ==> !Contains(LineAt(lines, i), "stop"))
    && (count == left || Contains(LineAt(lines, pos + count), "stop"))
  }

  /** What the inner loop makes of any lines, damaged ones included: all the numbers in them, in order,
      unless a stop is requested at one of its looks. */
  lemma {:induction false} CollectsNumbers(lines: seq<string>, pos: nat, count: nat, left: nat, data: seq<nat>,
                                           all: seq<nat>, stop: nat -> bool, looks: nat)
    requires TakesLines(lines, pos, count, left) && all == data + NumbersOf(lines, pos, count)
    ensures Collect(lines, pos, left, data, stop, looks) == if Stopped(stop, looks, count) then None else Some(all)
    decreases count
  {
    if count == 0 {
      assert data + [] == data;
    } else {
      StoppedStep(stop, looks, count);
      LineTaken(lines, pos, left, data, stop, looks);
      NumbersMore(lines, pos, count, data);
      CollectsNumbers(lines, pos + 1, count - 1, left - 1, data + Numbers(LineAt(lines, pos)), all, stop, looks + 1);
    }
  }

  lemma LineTaken(lines: seq<string>, pos: nat, left: nat, data: seq<nat>, stop: nat -> bool, looks: nat)
    requires left > 0 && !Contains(LineAt(lines, pos), "stop")
    ensures Collect(lines, pos, left, data, stop, looks) ==
      if stop(looks) then None
      else Collect(lines, pos + 1, left - 1, data + Numbers(LineAt(lines, pos)), stop, looks + 1)
  {
  }

  lemma NumbersMore(lines: seq<string>, pos: nat, count: nat, data: seq<nat>)
    requires count > 0
    ensures data + Numbers(LineAt(lines, pos)) + NumbersOf(lines, pos + 1, count - 1) ==
            data + NumbersOf(lines, pos, count)
  {
  }

  /** `noise` lines without a start from `pos` on, then one with it. */
  ghost predicate StartsAfter(lines: seq<string>, pos: nat, noise: nat) {
    && Contains(LineAt(lines, pos + noise), "start")
    && forall i :: pos <= i < pos + noise ==> !Contains(LineAt(lines, i), "start")
  }

  lemma {:induction false} FindsStart(lines: seq<string>, pos: nat, noise: nat, left: nat, n: nat, stop: nat -> bool,
                                      looks: nat)
    requires StartsAfter(lines, pos, noise) && noise < left
    ensures Search(lines, pos, left, n, stop, looks) ==
      if Stopped(stop, looks, noise + 1) then None
      else Collect(lines, pos + noise + 1, 2 * n, [], stop, looks + noise + 1)
    decreases noise
  {
    StoppedStep(stop, looks, noise + 1);
    if noise > 0 {
      assert !Contains(LineAt(lines, pos), "start");
      FindsStart(lines, pos + 1, noise - 1, left - 1, n, stop, looks + 1);
    }
  }

  lemma {:induction false} NothingWithoutStart(lines: seq<string>, pos: nat, left: nat, n: nat,
                                             stop: nat -> bool, looks: nat)
    requires forall i :: pos <= i < pos + left ==> !Contains(LineAt(lines, i), "start")
    ensures Search(lines, pos, left, n, stop, looks) == None
    decreases left
  {
    if left > 0 {
      assert !Contains(LineAt(lines, pos), "start");
      NothingWithoutStart(lines, pos + 1, left - 1, n, stop, looks + 1);
    }
  }

  lemma StoppedSplit(stop: nat -> bool, looks: nat, a: nat, b: nat)
    ensures Stopped(stop, looks, a + b) == (Stopped(stop, looks, a) || Stopped(stop, looks + a, b))
  {
  }

  /** What the parser makes of any lines: behind fewer than 6n lines without a start it takes all the
      numbers in the lines up to the stop, or 2n lines of them, unless a stop is requested at one of
      the looks it makes on the way, one for each line up to then. */
  lemma WhatIsReceived(lines: seq<string>, noise: nat, count: nat, n: nat, stop: nat -> bool)
    requires StartsAfter(lines, 0, noise) && noise < 6 * n && TakesLines(lines, noise + 1, count, 2 * n)
    ensures Search(lines, 0, 6 * n, n, stop, 0) ==
      if Stopped(stop, 0, noise + 1 + count) then None else Some(NumbersOf(lines, noise + 1, count))
  {
    FindsStart(lines, 0, noise, 6 * n, n, stop, 0);
    var all := NumbersOf(lines, noise + 1, count);
    assert all == [] + all;
    CollectsNumbers(lines, noise + 1, count, 2 * n, [], all, stop, noise + 1);
    StoppedSplit(stop, 0, noise + 1, count);
  }

  // ---------------------------------------------------------------- parsing undoes printing

  /** The samples and the closing line stand from `first` on. */
  ghost predicate Printed(lines: seq<string>, first: nat, samples: seq<nat>) {
    && first + |samples| < |lines|
    && (forall i {:trigger samples[i]} :: 0 <= i < |samples| ==>
      samples[i] < Pow2(32) && lines[first + i] == Hex(samples[i], 8))
    && lines[first + |samples|] == "stop"
  }

  lemma PrintedLine(lines: seq<string>, first: nat, samples: seq<nat>, j: nat)
    requires Printed(lines, first, samples) && j < |samples|
    ensures Numbers(LineAt(lines, first + j)) == [samples[j]]
    ensures !Contains(LineAt(lines, first + j), "stop")
  {
    assert samples[j] < Pow2(32) && lines[first + j] == Hex(samples[j], 8);
    HexLineHasNoS(samples[j], "stop");
    HexRoundTrip(samples[j], 8);
  }

  /** One number on each line. */
  ghost predicate OneEach(lines: seq<string>, pos: nat, numbers: seq<nat>) {
    forall i: nat :: i < |numbers| ==> Numbers(LineAt(lines, pos + i)) == [numbers[i]]
  }

  lemma {:induction false} OneEachRead(lines: seq<string>, pos: nat, numbers: seq<nat>)
    requires OneEach(lines, pos, numbers)
    ensures NumbersOf(lines, pos, |numbers|) == numbers
    decreases |numbers|
  {
    if numbers != [] {
      assert Numbers(LineAt(lines, pos + 0)) == [numbers[0]];
      forall i: nat | i < |numbers[1..]| ensures Numbers(LineAt(lines, pos + 1 + i)) == [numbers[1..][i]] {
        assert Numbers(LineAt(lines, pos + (i + 1))) == [numbers[i + 1]];
      }
      OneEachRead(lines, pos + 1, numbers[1..]);
    }
  }

  lemma PrintedIsTaken(lines: seq<string>, first: nat, samples: seq<nat>)
    requires Printed(lines, first, samples)
    ensures TakesLines(lines, first, |samples|, 2 * |samples|)
  {
    forall i | first <= i < first + |samples| ensures !Contains(LineAt(lines, i), "stop") {
      PrintedLine(lines, first, samples, i - first);
    }
    ContainsItself("stop");
  }

  lemma PrintedIsRead(lines: seq<string>, first: nat, samples: seq<nat>)
    requires Printed(lines, first, samples)
    ensures NumbersOf(lines, first, |samples|) == samples
  {
    forall i: nat | i < |samples| ensures Numbers(LineAt(lines, first + i)) == [samples[i]] {
      PrintedLine(lines, first, samples, i);
    }
    OneEachRead(lines, first, samples);
  }

  lemma FrameLines(noise: seq<string>, samples: seq<nat>, rest: seq<string>)
    requires forall i :: 0 <= i < |samples| ==> samples[i] < Pow2(32)
    requires forall i :: 0 <= i < |noise| ==> !Contains(noise[i], "start")
    ensures StartsAfter(noise + Frame(samples) + rest, 0, |noise|)
    ensures Printed(noise + Frame(samples) + rest, |noise| + 1, samples)
  {
    var lines, frame := noise + Frame(samples) + rest, Frame(samples);
    assert forall i :: 0 <= i < |noise| ==> LineAt(lines, i) == noise[i];
    assert forall i :: 0 <= i < |frame| ==> lines[|noise| + i] == frame[i];
    assert frame[0] == "start" && frame[1 + |samples|] == "stop";
    assert lines[|noise| + 0] == frame[0];
    ContainsItself("start");
    forall i | 0 <= i < |samples| ensures lines[|noise| + 1 + i] == Hex(samples[i], 8) {
      assert frame[1 + i] == HexLines(samples)[i];
      assert lines[|noise| + (1 + i)] == frame[1 + i];
    }
  }

  /** A line adds its number, and nothing at all if it is not one: if it is empty or has a character that is no
      hexadecimal digit. */
  lemma OnlyNumbersCount(line: string)
    ensures Numbers(line) == [] <==> line == "" || exists i :: 0 <= i < |line| && HexValue(line[i]).None?
    ensures Numbers(line) != [] ==> HexFrom(line).Some? && Numbers(line) == [HexFrom(line).value]
  {
    ParsesIff(line);
  }

  /** The samples whose lines got through. */
  function Kept(samples: seq<nat>, good: seq<bool>): seq<nat>
    requires |good| == |samples|
  {
    if samples == [] then [] else (if good[0] then [samples[0]] else []) + Kept(samples[1..], good[1..])
  }

  /** Printed samples from `pos` on, some of them damaged beyond reading. */
  ghost predicate Damaged(lines: seq<string>, pos: nat, samples: seq<nat>, good: seq<bool>)
    requires |good| == |samples|
  {
    forall i: nat :: i < |samples| ==>
      if good[i] then samples[i] < Pow2(32) && LineAt(lines, pos + i) == Hex(samples[i], 8)
      else ParseHex(LineAt(lines, pos + i)).None?
  }

  function Piece(x: nat, good: bool): seq<nat> {
    if good then [x] else []
  }

  ghost predicate InPieces(lines: seq<string>, pos: nat, samples: seq<nat>, good: seq<bool>)
    requires |good| == |samples|
  {
    forall i: nat :: i < |samples| ==> Numbers(LineAt(lines, pos + i)) == Piece(samples[i], good[i])
  }

  /** Damaged lines are skipped, and the samples on the others are received in order. */
  lemma DamagedAreSkipped(lines: seq<string>, pos: nat, samples: seq<nat>, good: seq<bool>)
    requires |good| == |samples| && Damaged(lines, pos, samples, good)
    ensures NumbersOf(lines, pos, |samples|) == Kept(samples, good)
  {
    forall i: nat | i < |samples| ensures Numbers(LineAt(lines, pos + i)) == Piece(samples[i], good[i]) {
      if good[i] {
        HexRoundTrip(samples[i], 8);
      }
    }
    PiecesAreKept(lines, pos, samples, good);
  }

  lemma {:induction false} PiecesAreKept(lines: seq<string>, pos: nat, samples: seq<nat>, good: seq<bool>)
    requires |good| == |samples| && InPieces(lines, pos, samples, good)
    ensures NumbersOf(lines, pos, |samples|) == Kept(samples, good)
    decreases |samples|
  {
    if samples != [] {
      assert Numbers(LineAt(lines, pos + 0)) == Piece(samples[0], good[0]);
      forall i: nat | i < |samples[1..]|
        ensures Numbers(LineAt(lines, pos + 1 + i)) == Piece(samples[1..][i], good[1..][i])
      {
        assert Numbers(LineAt(lines, pos + (i + 1))) == Piece(samples[i + 1], good[i + 1]);
      }
      PiecesAreKept(lines, pos + 1, samples[1..], good[1..]);
    }
  }

  /** A block of n samples, behind noise and followed by anything, comes through the wire unchanged exactly
      when the noise is shorter than 6n lines, so that an empty block never does, and no stop is
      requested at any of the looks, one for each line of the noise, the start, and the samples. */
  lemma FrameRoundTrip(noise: seq<string>, samples: seq<nat>, rest: seq<string>, stop: nat -> bool)
    requires forall i :: 0 <= i < |samples| ==> samples[i] < Pow2(32)
    requires forall i :: 0 <= i < |noise| ==> !Contains(noise[i], "start")
    ensures Search(noise + Frame(samples) + rest, 0, 6 * |samples|, |samples|, stop, 0) ==
      if |noise| < 6 * |samples| && !Stopped(stop, 0, |noise| + 1 + |samples|) then Some(samples) else None
  {
    var lines := noise + Frame(samples) + rest;
    if |noise| < 6 * |samples| {
      FrameLines(noise, samples, rest);
      PrintedIsTaken(lines, |noise| + 1, samples);
      PrintedIsRead(lines, |noise| + 1, samples);
      WhatIsReceived(lines, |noise|, |samples|, |samples|, stop);
    } else {
      assert forall i :: 0 <= i < |noise| ==> LineAt(lines, i) == noise[i];
      NothingWithoutStart(lines, 0, 6 * |samples|, |samples|, stop, 0);
    }
  }

  lemma AllDecoded(words: seq<AdcWord>)
    ensures forall i :: 0 <= i < |words| ==> DecodedAll(SampledAll(words))[i] == Scaled(Signed24(words[i]))
  {
    forall i | 0 <= i < |words| ensures DecodedAll(SampledAll(words))[i] == Scaled(Signed24(words[i])) {
      DecodedIsSigned(words[i]);
    }
  }

  /** What arrives compares as the conversion results do. */
  lemma OrderArrives(words: seq<AdcWord>, i: nat, j: nat)
    requires i < |words| && j < |words|
    ensures var values := DecodedAll(SampledAll(words));
      && (values[i] < values[j] <==> Signed24(words[i]) < Signed24(words[j]))
      && (values[i] == values[j] <==> Signed24(words[i]) == Signed24(words[j]))
  {
    AllDecoded(words);
    ScaledKeepsOrder(Signed24(words[i]), Signed24(words[j]));
  }

  /** From the ADC's pins to the host: every word arrives in order as the scaled signed value of its top
      24 bits, and the status collects every bit of every low byte. */
  lemma SamplesArrive(noise: seq<string>, words: seq<AdcWord>, rest: seq<string>, stop: nat -> bool)
    requires forall i :: 0 <= i < |noise| ==> !Contains(noise[i], "start")
    ensures var lines := noise + Frame(SampledAll(words)) + rest;
      Search(lines, 0, 6 * |words|, |words|, stop, 0) ==
        if |noise| < 6 * |words| && !Stopped(stop, 0, |noise| + 1 + |words|) then Some(SampledAll(words)) else None
    ensures forall i :: 0 <= i < |words| ==> DecodedAll(SampledAll(words))[i] == Scaled(Signed24(words[i]))
    ensures forall b :: 0 <= b < 8 ==>
      (BitAt(ParsePrefixed(StatusOf(SampledAll(words))), b) <==> SomeHas(words, b))
  {
    var samples := SampledAll(words);
    forall i | 0 <= i < |words| ensures samples[i] < Pow2(32) {
      SampledBelow(words[i]);
    }
    AllDecoded(words);
    FrameRoundTrip(noise, samples, rest, stop);
    forall b | 0 <= b < 8
      ensures BitAt(ParsePrefixed(StatusOf(SampledAll(words))), b) <==> SomeHas(words, b)
    {
      StatusAccumulates(words, b);
    }
  }
}
