/** HID input reports: the two parsers, the report layouts they undo, frame differences and the
    unwrapping of 10-bit encoder positions. */
module HidIn {
  import opened Proto
  import opened Words

  const PAD_COUNT := 16
  const MACROS := 8
  const CONTROLS_LEN := 37

  datatype ControlsReport = ControlsReport(
    buttons: u64, macros: seq<u16>, master: u16, touchStrip: Option<(u16, u16)>,
    micGain: u16, headphones: u16, masterVol: u16)

  datatype PadSample = PadSample(pad: u8, pressure: u16)

  datatype InReport = Controls(c: ControlsReport) | Pads(samples: seq<PadSample>)

  datatype Parsed<+T> = Ok(value: T) | Err(error: ProtoError)

  predicate TenBit(v: int) {
    0 <= v < 0x400
  }

  /** What every parsed controls report satisfies. */
  predicate WellFormed(c: ControlsReport) {
    && |c.macros| == MACROS && (forall i :: 0 <= i < MACROS ==> TenBit(c.macros[i]))
    && TenBit(c.master) && TenBit(c.micGain) && TenBit(c.headphones) && TenBit(c.masterVol)
    && (c.touchStrip.Some? ==>
          TenBit(c.touchStrip.value.0) && TenBit(c.touchStrip.value.1) && c.touchStrip.value.1 != 0)
  }

  // ----- parsing -----

  /** A little-endian pair masked to ten bits. */
  function Field(buf: seq<u8>, off: nat): u16
    requires off + 2 <= |buf|
  {
    FromLe16(buf[off], buf[off + 1]) % 0x400
  }

  method ParseControls(buf: seq<u8>) returns (r: Parsed<ControlsReport>)
    ensures |buf| < CONTROLS_LEN ==> r == Err(Short(CONTROLS_LEN, |buf|))
    ensures |buf| >= CONTROLS_LEN ==> r.Ok? && WellFormed(r.value) && CarriesControls(buf, r.value)
  {
    if |buf| < CONTROLS_LEN { return Err(Short(CONTROLS_LEN, |buf|)); }
    FromLeFits(buf[1..9]);
    Pow2Of64();
    var buttons: u64 := FromLe(buf[1..9]);
    var macros: seq<u16> := [];
    for i := 0 to MACROS
      invariant |macros| == i && forall k :: 0 <= k < i ==> macros[k] == Field(buf, 9 + 2 * k)
    {
      var off := 9 + 2 * i;
      macros := macros + [Field(buf, off)];
    }
    var pos, prs := Field(buf, 27), Field(buf, 29);
    var report := ControlsReport(buttons, macros, Field(buf, 25), if prs == 0 then None else Some((pos, prs)),
                                 Field(buf, 31), Field(buf, 33), Field(buf, 35));
    LeBytesOfFromLe(buf[1..9]);
    forall n: nat | n < 14 && (n == 9 ==> report.touchStrip.Some?)
      ensures HasPair(buf, 9 + 2 * n, FieldValue(report, n))
    {
      FieldIsPair(buf, 9 + 2 * n);
    }
    return Ok(report);
  }

  /** One 3-byte entry after another; an all-zero entry is an empty slot, at most two bytes are left over. */
  function PadEntries(body: seq<u8>): Parsed<seq<PadSample>> {
    if |body| < 3 then Ok([])
    else
      var pad, pressure := body[0], FromLe16(body[1], body[2]);
      if pad == 0 && pressure == 0 then PadEntries(body[3..])
      else if pad >= PAD_COUNT then Err(BadPad(pad))
      else
        match PadEntries(body[3..])
        case Err(e) => Err(e)
        case Ok(rest) => Ok([PadSample(pad, pressure)] + rest)
  }

  method ParsePads(buf: seq<u8>) returns (r: Parsed<seq<PadSample>>)
    requires |buf| >= 1
    ensures r == PadEntries(buf[1..])
    ensures r.Ok? ==> forall i :: 0 <= i < |r.value| ==> r.value[i].pad < PAD_COUNT
  {
    var body := buf[1..];
    var samples: seq<PadSample> := [];
    var at := 0;
    assert body[at..] == body;
    PrependNothing(PadEntries(body));
    while at + 3 <= |body|
      invariant at <= |body|
      invariant PadEntries(body) == Prepend(samples, PadEntries(body[at..]))
      invariant forall i :: 0 <= i < |samples| ==> samples[i].pad < PAD_COUNT
    {
      var pad, pressure := body[at], FromLe16(body[at + 1], body[at + 2]);
      assert body[at..][3..] == body[at + 3..];
      if pad == 0 && pressure == 0 {
      } else if pad >= PAD_COUNT {
        return Err(BadPad(pad));
      } else {
        PrependTwice(samples, [PadSample(pad, pressure)], PadEntries(body[at + 3..]));
        samples := samples + [PadSample(pad, pressure)];
      }
      at := at + 3;
    }
    assert samples + [] == samples;
    return Ok(samples);
  }

  lemma PrependNothing(rest: Parsed<seq<PadSample>>)
    ensures Prepend([], rest) == rest
  {
    if rest.Ok? { assert [] + rest.value == rest.value; }
  }

  function Prepend(front: seq<PadSample>, rest: Parsed<seq<PadSample>>): Parsed<seq<PadSample>> {
    match rest
    case Err(e) => Err(e)
    case Ok(more) => Ok(front + more)
  }

  method Parse(buf: seq<u8>) returns (r: Parsed<InReport>)
    ensures |buf| == 0 ==> r == Err(Short(1, 0))
    ensures |buf| > 0 && buf[0] !in {1, 2} ==> r == Err(UnknownReport(buf[0]))
    ensures |buf| > 0 && buf[0] == 1 && |buf| < CONTROLS_LEN ==> r == Err(Short(CONTROLS_LEN, |buf|))
    ensures |buf| >= CONTROLS_LEN && buf[0] == 1 ==>
              r.Ok? && r.value.Controls? && WellFormed(r.value.c) && CarriesControls(buf, r.value.c)
    ensures |buf| > 0 && buf[0] == 2 ==>
              r == match PadEntries(buf[1..]) case Err(e) => Err(e) case Ok(s) => Ok(Pads(s))
    ensures r.Ok? && r.value.Pads? ==>
              forall i :: 0 <= i < |r.value.samples| ==> r.value.samples[i].pad < PAD_COUNT
  {
    if |buf| == 0 { return Err(Short(1, 0)); }
    if buf[0] == 1 {
      var c := ParseControls(buf);
      return match c case Err(e) => Err(e) case Ok(v) => Ok(Controls(v));
    } else if buf[0] == 2 {
      var p := ParsePads(buf);
      return match p case Err(e) => Err(e) case Ok(v) => Ok(Pads(v));
    } else {
      return Err(UnknownReport(buf[0]));
    }
  }

  // ----- layouts -----

  /** A ten-bit value, low byte first; the upper six bits of the pair are free. */
  predicate HasPair(buf: seq<u8>, off: nat, v: u16)
    requires off + 2 <= |buf|
  {
    buf[off] == v % 0x100 && buf[off + 1] % 4 == v / 0x100
  }

  /** The 14 ten-bit fields in report order: macros, master, strip position and pressure, knobs. */
  function FieldValue(c: ControlsReport, n: nat): u16
    requires |c.macros| == MACROS && n < 14
  {
    if n < 8 then c.macros[n]
    else if n == 8 then c.master
    else if n == 9 then (if c.touchStrip.Some? then c.touchStrip.value.0 else 0)
    else if n == 10 then (if c.touchStrip.Some? then c.touchStrip.value.1 else 0)
    else if n == 11 then c.micGain
    else if n == 12 then c.headphones
    else c.masterVol
  }

  /** The documented layout of a controls report; bytes from 37 on are free, and so is the strip
      position while the strip is untouched. */
  ghost predicate CarriesControls(buf: seq<u8>, c: ControlsReport) {
    && |buf| >= CONTROLS_LEN && |c.macros| == MACROS
    && buf[1..9] == LeBytes(c.buttons, 8)
    && forall n: nat :: n < 14 && (n == 9 ==> c.touchStrip.Some?) ==> HasPair(buf, 9 + 2 * n, FieldValue(c, n))
  }

  /** Masking to ten bits loses nothing of a ten-bit value. */
  lemma FieldOfPair(buf: seq<u8>, off: nat, v: u16)
    requires off + 2 <= |buf| && TenBit(v) && HasPair(buf, off, v)
    ensures Field(buf, off) == v
  {
  }

  lemma FieldIsPair(buf: seq<u8>, off: nat)
    requires off + 2 <= |buf|
    ensures HasPair(buf, off, Field(buf, off))
  {
  }

  /** Every buffer carries at most one report, so parsing what carries a report gives that report. */
  lemma ReportUnique(buf: seq<u8>, c: ControlsReport, d: ControlsReport)
    requires CarriesControls(buf, c) && WellFormed(c)
    requires CarriesControls(buf, d) && WellFormed(d)
    ensures c == d
  {
    Pow2Of64();
    LeRoundTrip(c.buttons, 8);
    LeRoundTrip(d.buttons, 8);
    FieldsAgree(buf, c, d, 10);
    forall n: nat | n < 14 && n != 9 ensures FieldValue(c, n) == FieldValue(d, n) {
      FieldsAgree(buf, c, d, n);
    }
    assert c.touchStrip.Some? <==> FieldValue(c, 10) != 0;
    assert d.touchStrip.Some? <==> FieldValue(d, 10) != 0;
    if c.touchStrip.Some? { FieldsAgree(buf, c, d, 9); }
    assert forall n: nat :: n < 8 ==> FieldValue(c, n) == c.macros[n] && FieldValue(d, n) == d.macros[n];
    assert c.macros == d.macros;
    assert FieldValue(c, 8) == c.master && FieldValue(d, 8) == d.master;
    assert FieldValue(c, 11) == c.micGain && FieldValue(d, 11) == d.micGain;
    assert FieldValue(c, 12) == c.headphones && FieldValue(d, 12) == d.headphones;
    assert FieldValue(c, 13) == c.masterVol && FieldValue(d, 13) == d.masterVol;
  }

  lemma FieldsAgree(buf: seq<u8>, c: ControlsReport, d: ControlsReport, n: nat)
    requires CarriesControls(buf, c) && WellFormed(c) && CarriesControls(buf, d) && WellFormed(d)
    requires n < 14 && (n == 9 ==> c.touchStrip.Some? && d.touchStrip.Some?)
    ensures FieldValue(c, n) == FieldValue(d, n)
  {
    FieldOfPair(buf, 9 + 2 * n, FieldValue(c, n));
    FieldOfPair(buf, 9 + 2 * n, FieldValue(d, n));
  }

  /** One report layout, as a device would send it. */
  function LayoutByte(c: ControlsReport, i: nat): u8
    requires WellFormed(c) && i < CONTROLS_LEN
  {
    if i == 0 then 1
    else if i < 9 then LeBytes(c.buttons, 8)[i - 1]
    else
      var v := FieldValue(c, (i - 9) / 2);
      if i % 2 == 1 then v % 0x100 else v / 0x100
  }

  function Layout(c: ControlsReport, tail: seq<u8>): seq<u8>
    requires WellFormed(c)
  {
    seq(CONTROLS_LEN, (i: nat) requires i < CONTROLS_LEN => LayoutByte(c, i)) + tail
  }

  /** Every report has such a layout, with any bytes after it. */
  lemma LayoutCarries(c: ControlsReport, tail: seq<u8>)
    requires WellFormed(c)
    ensures CarriesControls(Layout(c, tail), c) && Layout(c, tail)[0] == 1
  {
    var buf := Layout(c, tail);
    assert buf[1..9] == LeBytes(c.buttons, 8);
    forall n: nat | n < 14 ensures HasPair(buf, 9 + 2 * n, FieldValue(c, n)) {
      assert (9 + 2 * n - 9) / 2 == n && (9 + 2 * n + 1 - 9) / 2 == n;
      assert buf[9 + 2 * n] == LayoutByte(c, 9 + 2 * n) && buf[9 + 2 * n + 1] == LayoutByte(c, 9 + 2 * n + 1);
    }
  }

  datatype PadSlot = Empty | Sample(s: PadSample)

  function EntryBytes(slot: PadSlot): (s: seq<u8>)
    ensures |s| == 3
  {
    match slot
    case Empty => [0, 0, 0]
    case Sample(s) => [s.pad, s.pressure % 0x100, s.pressure / 0x100]
  }

  function EntrySamples(slot: PadSlot): seq<PadSample> {
    match slot case Empty => [] case Sample(s) => [s]
  }

  function SlotBytes(slots: seq<PadSlot>): seq<u8> {
    if slots == [] then [] else EntryBytes(slots[0]) + SlotBytes(slots[1..])
  }

  function Samples(slots: seq<PadSlot>): seq<PadSample> {
    if slots == [] then [] else EntrySamples(slots[0]) + Samples(slots[1..])
  }

  predicate Sendable(slot: PadSlot) {
    slot.Sample? ==> slot.s.pad < PAD_COUNT && (slot.s.pad != 0 || slot.s.pressure != 0)
  }

  lemma EntryParses(slot: PadSlot, rest: seq<u8>)
    requires Sendable(slot)
    ensures PadEntries(EntryBytes(slot) + rest) == Prepend(EntrySamples(slot), PadEntries(rest))
  {
    var body := EntryBytes(slot) + rest;
    assert body[3..] == rest;
    PrependNothing(PadEntries(rest));
    if slot.Sample? {
      assert FromLe16(body[1], body[2]) == slot.s.pressure;
    }
  }

  /** Sendable entries parse to their samples, whatever follows. */
  lemma {:induction false} SlotsParse(slots: seq<PadSlot>, rest: seq<u8>)
    requires forall i :: 0 <= i < |slots| ==> Sendable(slots[i])
    ensures PadEntries(SlotBytes(slots) + rest) == Prepend(Samples(slots), PadEntries(rest))
    decreases |slots|
  {
    if slots == [] {
      assert SlotBytes(slots) + rest == rest;
      PrependNothing(PadEntries(rest));
    } else {
      SlotsParse(slots[1..], rest);
      EntryParses(slots[0], SlotBytes(slots[1..]) + rest);
      AppendAssoc(EntryBytes(slots[0]), SlotBytes(slots[1..]), rest);
      PrependTwice(EntrySamples(slots[0]), Samples(slots[1..]), PadEntries(rest));
    }
  }

  lemma PrependTwice(a: seq<PadSample>, b: seq<PadSample>, rest: Parsed<seq<PadSample>>)
    ensures Prepend(a, Prepend(b, rest)) == Prepend(a + b, rest)
  {
    if rest.Ok? { AppendAssoc(a, b, rest.value); }
  }

  /** Any samples, with empty slots anywhere and up to two stray bytes at the end, parse to themselves. */
  lemma PadsRoundTrip(slots: seq<PadSlot>, stray: seq<u8>)
    requires (forall i :: 0 <= i < |slots| ==> Sendable(slots[i])) && |stray| < 3
    ensures PadEntries(SlotBytes(slots) + stray) == Ok(Samples(slots))
  {
    SlotsParse(slots, stray);
    assert Samples(slots) + [] == Samples(slots);
  }

  /** The first entry with an index of 16 or more fails the whole report with that index. */
  lemma BadPadRejected(slots: seq<PadSlot>, bad: PadSample, rest: seq<u8>)
    requires (forall i :: 0 <= i < |slots| ==> Sendable(slots[i])) && bad.pad >= PAD_COUNT
    ensures PadEntries(SlotBytes(slots) + (EntryBytes(Sample(bad)) + rest)) == Err(BadPad(bad.pad))
  {
    SlotsParse(slots, EntryBytes(Sample(bad)) + rest);
  }

  /** Where each field of a report lies in the buffer that carries it. */
  lemma ControlsAtOffsets(buf: seq<u8>, c: ControlsReport)
    requires CarriesControls(buf, c) && WellFormed(c)
    ensures forall i: nat :: i < 8 ==> c.macros[i] == FromLe16(buf[9 + 2 * i], buf[10 + 2 * i]) % 0x400
    ensures c.master == FromLe16(buf[25], buf[26]) % 0x400
    ensures var at, force := FromLe16(buf[27], buf[28]) % 0x400, FromLe16(buf[29], buf[30]) % 0x400;
            c.touchStrip == if force == 0 then None else Some((at, force))
    ensures c.micGain == FromLe16(buf[31], buf[32]) % 0x400
    ensures c.headphones == FromLe16(buf[33], buf[34]) % 0x400
    ensures c.masterVol == FromLe16(buf[35], buf[36]) % 0x400
  {
    forall i: nat | i < 8 ensures c.macros[i] == FromLe16(buf[9 + 2 * i], buf[10 + 2 * i]) % 0x400 {
      FieldOfPair(buf, 9 + 2 * i, FieldValue(c, i));
    }
    FieldOfPair(buf, 25, FieldValue(c, 8));
    if c.touchStrip.Some? { FieldOfPair(buf, 27, FieldValue(c, 9)); }
    FieldOfPair(buf, 29, FieldValue(c, 10));
    FieldOfPair(buf, 31, FieldValue(c, 11));
    FieldOfPair(buf, 33, FieldValue(c, 12));
    FieldOfPair(buf, 35, FieldValue(c, 13));
  }

  /** Button `k` is bit `k % 8` of byte `1 + k / 8`. */
  lemma ButtonBits(buf: seq<u8>, c: ControlsReport, k: nat)
    requires CarriesControls(buf, c) && WellFormed(c) && k < 64
    ensures Bit(c.buttons, k) <==> Bit(buf[1 + k / 8], k % 8)
  {
    Pow2Of64();
    LeRoundTrip(c.buttons, 8);
    LeBit(buf[1..9], k);
  }

  // ----- differences between frames -----

  /** The changed buttons from `from` on, lowest bit first. */
  function ButtonsDiff(now: u64, prev: u64, from: nat): seq<(nat, bool)>
    requires from <= 64
    decreases 64 - from
  {
    if from == 64 then []
    else (if Bit(Xor(now, prev), from) then [(from, Bit(now, from))] else []) + ButtonsDiff(now, prev, from + 1)
  }

  /** Exactly the bits that differ, each once, with their new state. */
  lemma {:induction false} ButtonsDiffMeaning(now: u64, prev: u64, from: nat, i: nat, pressed: bool)
    requires from <= 64
    ensures (i, pressed) in ButtonsDiff(now, prev, from) <==>
            from <= i < 64 && Bit(now, i) != Bit(prev, i) && pressed == Bit(now, i)
    decreases 64 - from
  {
    if from == 64 {
    } else {
      XorBit(now, prev, from);
      ButtonsDiffMeaning(now, prev, from + 1, i, pressed);
    }
  }

  /** Strictly in bit order, so no button is listed twice. */
  lemma {:induction false} ButtonsDiffIncreasing(now: u64, prev: u64, from: nat)
    requires from <= 64
    ensures forall i :: 0 <= i < |ButtonsDiff(now, prev, from)| ==> from <= ButtonsDiff(now, prev, from)[i].0 < 64
    ensures forall i, j :: 0 <= i < j < |ButtonsDiff(now, prev, from)| ==>
              ButtonsDiff(now, prev, from)[i].0 < ButtonsDiff(now, prev, from)[j].0
    decreases 64 - from
  {
    if from == 64 {
    } else {
      ButtonsDiffIncreasing(now, prev, from + 1);
    }
  }

  /** `(now - prev) & 0x3ff` of the 32-bit difference, folded to the short way around. */
  function EncoderDelta(prev: u16, now: u16): int {
    var raw := (now - prev) % 0x400;
    if raw > 0x200 then raw - 0x400 else raw
  }

  /** The delta is the only number in -511..512 congruent to the difference of the readings. */
  lemma EncoderDeltaUnique(prev: u16, now: u16, d: int)
    ensures -511 <= d <= 512 && (d - (now - prev)) % 0x400 == 0 <==> d == EncoderDelta(prev, now)
  {
  }

  function TotalDelta(readings: seq<u16>): int {
    if |readings| < 2 then 0 else EncoderDelta(readings[0], readings[1]) + TotalDelta(readings[1..])
  }

  ghost predicate SmallSteps(positions: seq<int>) {
    |positions| < 2 || (-511 <= positions[1] - positions[0] <= 512 && SmallSteps(positions[1..]))
  }

  function Wrapped(positions: seq<int>): (readings: seq<u16>) {
    seq(|positions|, (i: nat) requires i < |positions| => positions[i] % 0x400)
  }

  /** A short enough step shows in full in the wrapped readings. */
  lemma StepSeen(from: int, to: int)
    requires -511 <= to - from <= 512
    ensures EncoderDelta(from % 0x400, to % 0x400) == to - from
  {
    var a, b := from % 0x400, to % 0x400;
    var m, n := from / 0x400, to / 0x400;
    assert to - from - (b - a) == (n - m) * 0x400;
    EncoderDeltaUnique(a, b, to - from);
  }

  /** Summed over a whole run of wrapped readings, the deltas give the true total movement. */
  lemma {:induction false} UnwrapsTravel(positions: seq<int>)
    requires |positions| > 0 && SmallSteps(positions)
    ensures TotalDelta(Wrapped(positions)) == positions[|positions| - 1] - positions[0]
  {
    if |positions| > 1 {
      StepSeen(positions[0], positions[1]);
      assert Wrapped(positions)[1..] == Wrapped(positions[1..]);
      UnwrapsTravel(positions[1..]);
    }
  }
}
