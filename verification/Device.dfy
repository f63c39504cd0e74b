/** From parsed reports to events: control edges that lose nothing, and the per-pad press machine. */
module Device {
  import opened Words
  import opened HidIn

  datatype PadPhase = Attack | Pressure | Release
  datatype Knob = MicGain | Headphones | MasterVolume

  datatype Event =
    | Pad(pad: nat, pressure: u16, velocity: Option<nat>, phase: PadPhase)
    | Button(bit: nat, pressed: bool)
    | MacroEncoder(index: nat, delta: int, absolute: u16)
    | MasterEncoder(masterDelta: int, position: u16)
    | TouchStrip(at: u16, force: u16)
    | TouchStripReleased
    | Analog(which: Knob, value: u16)

  datatype Options = Options(padOff: u16, padOn: u16, padStep: u16, rawPads: bool)

  // ----- controls -----

  const REST := ControlsReport(0, [0, 0, 0, 0, 0, 0, 0, 0], 0, None, 0, 0, 0)

  function ButtonEvents(diff: seq<(nat, bool)>): seq<Event> {
    seq(|diff|, (i: nat) requires i < |diff| => Button(diff[i].0, diff[i].1))
  }

  function MacroEvent(prev: seq<u16>, now: seq<u16>, i: nat): seq<Event>
    requires |prev| == |now| == MACROS && i < MACROS
  {
    var delta := EncoderDelta(prev[i], now[i]);
    if delta != 0 then [MacroEncoder(i, delta, now[i])] else []
  }

  function MacroEvents(prev: seq<u16>, now: seq<u16>, from: nat): seq<Event>
    requires |prev| == |now| == MACROS && from <= MACROS
    decreases MACROS - from
  {
    if from == MACROS then [] else MacroEvent(prev, now, from) + MacroEvents(prev, now, from + 1)
  }

  function MasterEvents(prev: u16, now: u16): seq<Event> {
    var delta := EncoderDelta(prev, now);
    if delta != 0 then [MasterEncoder(delta, now)] else []
  }

  function StripEvents(prev: Option<(u16, u16)>, now: Option<(u16, u16)>): seq<Event> {
    if now.Some? then [TouchStrip(now.value.0, now.value.1)]
    else if prev.Some? then [TouchStripReleased] else []
  }

  function KnobEvents(which: Knob, prev: u16, now: u16): seq<Event> {
    if prev != now then [Analog(which, now)] else []
  }

  function ControlEvents(prev: ControlsReport, c: ControlsReport): seq<Event>
    requires |prev.macros| == |c.macros| == MACROS
  {
    ButtonEvents(ButtonsDiff(c.buttons, prev.buttons, 0))
    + MacroEvents(prev.macros, c.macros, 0)
    + MasterEvents(prev.master, c.master)
    + StripEvents(prev.touchStrip, c.touchStrip)
    + KnobEvents(MicGain, prev.micGain, c.micGain)
    + KnobEvents(Headphones, prev.headphones, c.headphones)
    + KnobEvents(MasterVolume, prev.masterVol, c.masterVol)
  }

  /** What a client that only sees events knows. */
  datatype View = View(
    buttons: seq<bool>, macros: seq<u16>, master: u16, strip: Option<(u16, u16)>,
    micGain: u16, headphones: u16, masterVol: u16)

  function Observe(v: View, e: Event): View {
    match e
    case Button(bit, pressed) => if bit < |v.buttons| then v.(buttons := v.buttons[bit := pressed]) else v
    case MacroEncoder(i, _, absolute) => if i < |v.macros| then v.(macros := v.macros[i := absolute]) else v
    case MasterEncoder(_, position) => v.(master := position)
    case TouchStrip(at, force) => v.(strip := Some((at, force)))
    case TouchStripReleased => v.(strip := None)
    case Analog(MicGain, value) => v.(micGain := value)
    case Analog(Headphones, value) => v.(headphones := value)
    case Analog(MasterVolume, value) => v.(masterVol := value)
    case Pad(_, _, _, _) => v
  }

  function ObserveAll(v: View, events: seq<Event>): View
    decreases |events|
  {
    if events == [] then v else ObserveAll(Observe(v, events[0]), events[1..])
  }

  function ViewOf(c: ControlsReport): View {
    View(seq(64, (i: nat) => Bit(c.buttons, i)), c.macros, c.master, c.touchStrip,
         c.micGain, c.headphones, c.masterVol)
  }

  /** A view shows a whole report: no two reports look the same. */
  lemma ViewDeterminesReport(c: ControlsReport, d: ControlsReport)
    requires ViewOf(c) == ViewOf(d)
    ensures c == d
  {
    forall k: nat | k < 64 ensures Bit(c.buttons, k) <==> Bit(d.buttons, k) {
      assert ViewOf(c).buttons[k] == ViewOf(d).buttons[k];
    }
    Pow2Of64();
    BitsDetermine(c.buttons, d.buttons, 64);
  }

  lemma {:induction false} ObserveAppend(v: View, a: seq<Event>, b: seq<Event>)
    ensures ObserveAll(v, a + b) == ObserveAll(ObserveAll(v, a), b)
    decreases |a|
  {
    if a == [] {
      assert a + b == b;
    } else {
      assert (a + b)[1..] == a[1..] + b;
      ObserveAppend(Observe(v, a[0]), a[1..], b);
    }
  }

  lemma {:induction false} ObserveButtons(v: View, now: u64, prev: u64, from: nat)
    requires from <= 64 && |v.buttons| == 64
    requires forall i :: 0 <= i < 64 ==> v.buttons[i] == if i < from then Bit(now, i) else Bit(prev, i)
    ensures ObserveAll(v, ButtonEvents(ButtonsDiff(now, prev, from)))
         == v.(buttons := seq(64, (i: nat) => Bit(now, i)))
    decreases 64 - from
  {
    var diff := ButtonsDiff(now, prev, from);
    if from == 64 {
      assert v.buttons == seq(64, (i: nat) => Bit(now, i));
    } else {
      XorBit(now, prev, from);
      var rest := ButtonsDiff(now, prev, from + 1);
      if Bit(now, from) != Bit(prev, from) {
        assert diff == [(from, Bit(now, from))] + rest;
        assert ButtonEvents(diff)[1..] == ButtonEvents(rest);
        ObserveButtons(v.(buttons := v.buttons[from := Bit(now, from)]), now, prev, from + 1);
      } else {
        assert diff == rest;
        ObserveButtons(v, now, prev, from + 1);
      }
    }
  }

  lemma DeltaZeroIffEqual(prev: u16, now: u16)
    requires TenBit(prev) && TenBit(now)
    ensures EncoderDelta(prev, now) == 0 <==> prev == now
  {
  }

  lemma ObserveOne(v: View, e: Event)
    ensures ObserveAll(v, [e]) == Observe(v, e)
  {
    assert [e][1..] == [];
    assert ObserveAll(Observe(v, e), []) == Observe(v, e);
  }

  lemma ObserveMacro(v: View, prev: seq<u16>, now: seq<u16>, i: nat)
    requires |prev| == |now| == |v.macros| == MACROS && i < MACROS
    requires TenBit(prev[i]) && TenBit(now[i]) && v.macros[i] == prev[i]
    ensures ObserveAll(v, MacroEvent(prev, now, i)) == v.(macros := v.macros[i := now[i]])
  {
    DeltaZeroIffEqual(prev[i], now[i]);
    ObserveOne(v, MacroEncoder(i, EncoderDelta(prev[i], now[i]), now[i]));
  }

  lemma {:induction false} ObserveMacros(v: View, prev: seq<u16>, now: seq<u16>, from: nat)
    requires |prev| == |now| == |v.macros| == MACROS && from <= MACROS
    requires forall i :: 0 <= i < MACROS ==> TenBit(prev[i]) && TenBit(now[i])
    requires forall i :: 0 <= i < MACROS ==> v.macros[i] == if i < from then now[i] else prev[i]
    ensures ObserveAll(v, MacroEvents(prev, now, from)) == v.(macros := now)
    decreases MACROS - from
  {
    if from == MACROS {
      assert v.macros == now;
    } else {
      ObserveMacro(v, prev, now, from);
      ObserveAppend(v, MacroEvent(prev, now, from), MacroEvents(prev, now, from + 1));
      ObserveMacros(v.(macros := v.macros[from := now[from]]), prev, now, from + 1);
    }
  }

  /** The events between two reports take a client's view from the first to the second. */
  lemma ControlsLossless(prev: ControlsReport, c: ControlsReport)
    requires WellFormed(prev) && WellFormed(c)
    ensures ObserveAll(ViewOf(prev), ControlEvents(prev, c)) == ViewOf(c)
  {
    var e0 := ButtonEvents(ButtonsDiff(c.buttons, prev.buttons, 0));
    var e1 := MacroEvents(prev.macros, c.macros, 0);
    var e2 := MasterEvents(prev.master, c.master);
    var e3 := StripEvents(prev.touchStrip, c.touchStrip);
    var e4 := KnobEvents(MicGain, prev.micGain, c.micGain);
    var e5 := KnobEvents(Headphones, prev.headphones, c.headphones);
    var e6 := KnobEvents(MasterVolume, prev.masterVol, c.masterVol);
    var v := ViewOf(prev);
    ObserveAppend(v, e0 + e1 + e2 + e3 + e4 + e5, e6);
    ObserveAppend(v, e0 + e1 + e2 + e3 + e4, e5);
    ObserveAppend(v, e0 + e1 + e2 + e3, e4);
    ObserveAppend(v, e0 + e1 + e2, e3);
    ObserveAppend(v, e0 + e1, e2);
    ObserveAppend(v, e0, e1);
    ObserveButtons(v, c.buttons, prev.buttons, 0);
    var v0 := v.(buttons := ViewOf(c).buttons);
    ObserveMacros(v0, prev.macros, c.macros, 0);
    var v1 := v0.(macros := c.macros);
    ObserveSmall(v1, prev, c);
  }

  lemma ObserveSmall(v: View, prev: ControlsReport, c: ControlsReport)
    requires WellFormed(prev) && WellFormed(c)
    requires v.master == prev.master && v.strip == prev.touchStrip
    requires v.micGain == prev.micGain && v.headphones == prev.headphones && v.masterVol == prev.masterVol
    ensures ObserveAll(ObserveAll(ObserveAll(ObserveAll(ObserveAll(v,
              MasterEvents(prev.master, c.master)), StripEvents(prev.touchStrip, c.touchStrip)),
              KnobEvents(MicGain, prev.micGain, c.micGain)), KnobEvents(Headphones, prev.headphones, c.headphones)),
              KnobEvents(MasterVolume, prev.masterVol, c.masterVol))
         == View(v.buttons, v.macros, c.master, c.touchStrip, c.micGain, c.headphones, c.masterVol)
  {
    ObserveMaster(v, prev.master, c.master);
    var v2 := v.(master := c.master);
    ObserveStrip(v2, prev.touchStrip, c.touchStrip);
    var v3 := v2.(strip := c.touchStrip);
    ObserveKnob(v3, MicGain, prev.micGain, c.micGain);
    var v4 := v3.(micGain := c.micGain);
    ObserveKnob(v4, Headphones, prev.headphones, c.headphones);
    var v5 := v4.(headphones := c.headphones);
    ObserveKnob(v5, MasterVolume, prev.masterVol, c.masterVol);
  }

  lemma ObserveMaster(v: View, prev: u16, now: u16)
    requires v.master == prev && TenBit(prev) && TenBit(now)
    ensures ObserveAll(v, MasterEvents(prev, now)) == v.(master := now)
  {
    DeltaZeroIffEqual(prev, now);
    ObserveOne(v, MasterEncoder(EncoderDelta(prev, now), now));
  }

  lemma ObserveStrip(v: View, prev: Option<(u16, u16)>, now: Option<(u16, u16)>)
    requires v.strip == prev
    ensures ObserveAll(v, StripEvents(prev, now)) == v.(strip := now)
  {
    if now.Some? { ObserveOne(v, TouchStrip(now.value.0, now.value.1)); }
    else if prev.Some? { ObserveOne(v, TouchStripReleased); }
  }

  function KnobValue(v: View, which: Knob): u16 {
    match which case MicGain => v.micGain case Headphones => v.headphones case MasterVolume => v.masterVol
  }

  lemma ObserveKnob(v: View, which: Knob, prev: u16, now: u16)
    requires KnobValue(v, which) == prev
    ensures ObserveAll(v, KnobEvents(which, prev, now)) == Observe(v, Analog(which, now))
  {
    if prev != now { ObserveOne(v, Analog(which, now)); }
  }

  // ----- whole runs of controls reports -----

  function AllControlEvents(prev: ControlsReport, reports: seq<ControlsReport>): seq<Event>
    requires WellFormed(prev) && forall i :: 0 <= i < |reports| ==> WellFormed(reports[i])
    decreases |reports|
  {
    if reports == [] then []
    else
      assert WellFormed(reports[0]);
      ControlEvents(prev, reports[0]) + AllControlEvents(reports[0], reports[1..])
  }

  /** Folding the events of any run of reports over the rest state gives back the last report, exactly. */
  lemma {:induction false} RunLossless(prev: ControlsReport, reports: seq<ControlsReport>)
    requires WellFormed(prev) && forall i :: 0 <= i < |reports| ==> WellFormed(reports[i])
    ensures ObserveAll(ViewOf(prev), AllControlEvents(prev, reports))
         == ViewOf(if reports == [] then prev else reports[|reports| - 1])
    decreases |reports|
  {
    if reports == [] {
    } else {
      ControlsLossless(prev, reports[0]);
      ObserveAppend(ViewOf(prev), ControlEvents(prev, reports[0]), AllControlEvents(reports[0], reports[1..]));
      RunLossless(reports[0], reports[1..]);
    }
  }

  /** A repeated report is silent, apart from a touched strip reporting where it is touched. */
  lemma RepeatIsSilent(c: ControlsReport)
    requires WellFormed(c)
    ensures ControlEvents(c, c)
         == if c.touchStrip.Some? then [TouchStrip(c.touchStrip.value.0, c.touchStrip.value.1)] else []
  {
    NoButtonChange(c.buttons, 0);
    NoMacroChange(c.macros, 0);
  }

  lemma {:induction false} NoButtonChange(b: u64, from: nat)
    requires from <= 64
    ensures ButtonsDiff(b, b, from) == []
    decreases 64 - from
  {
    if from == 64 {
    } else {
      XorBit(b, b, from);
      NoButtonChange(b, from + 1);
    }
  }

  lemma {:induction false} NoMacroChange(m: seq<u16>, from: nat)
    requires |m| == MACROS && from <= MACROS
    ensures MacroEvents(m, m, from) == []
    decreases MACROS - from
  {
    if from == MACROS {
    } else {
      NoMacroChange(m, from + 1);
    }
  }

  // ----- exactly one event per change -----

  /** What an event is about, in sending order: 64 buttons, 8 macros, master, strip, three knobs. */
  function Rank(e: Event): nat {
    match e
    case Button(bit, _) => bit
    case MacroEncoder(i, _, _) => 64 + i
    case MasterEncoder(_, _) => 72
    case TouchStrip(_, _) => 73
    case TouchStripReleased => 73
    case Analog(MicGain, _) => 74
    case Analog(Headphones, _) => 75
    case Analog(MasterVolume, _) => 76
    case Pad(_, _, _, _) => 77
  }

  ghost predicate Ordered(events: seq<Event>, lo: nat, hi: nat) {
    && (forall i :: 0 <= i < |events| ==> lo <= Rank(events[i]) < hi)
    && forall i, j :: 0 <= i < j < |events| ==> Rank(events[i]) < Rank(events[j])
  }

  lemma OrderedAppend(a: seq<Event>, b: seq<Event>, lo: nat, mid: nat, hi: nat)
    requires Ordered(a, lo, mid) && Ordered(b, mid, hi) && lo <= mid <= hi
    ensures Ordered(a + b, lo, hi)
  {
  }

  lemma ButtonEventsOrdered(diff: seq<(nat, bool)>)
    requires forall i :: 0 <= i < |diff| ==> diff[i].0 < 64
    requires forall i, j :: 0 <= i < j < |diff| ==> diff[i].0 < diff[j].0
    ensures Ordered(ButtonEvents(diff), 0, 64)
  {
    assert forall i :: 0 <= i < |diff| ==> Rank(ButtonEvents(diff)[i]) == diff[i].0;
  }

  lemma ButtonsOrdered(now: u64, prev: u64)
    ensures Ordered(ButtonEvents(ButtonsDiff(now, prev, 0)), 0, 64)
  {
    ButtonsDiffIncreasing(now, prev, 0);
    ButtonEventsOrdered(ButtonsDiff(now, prev, 0));
  }

  lemma {:induction false} MacrosOrdered(prev: seq<u16>, now: seq<u16>, from: nat)
    requires |prev| == |now| == MACROS && from <= MACROS
    ensures Ordered(MacroEvents(prev, now, from), 64 + from, 72)
    decreases MACROS - from
  {
    if from == MACROS {
    } else {
      MacrosOrdered(prev, now, from + 1);
      OrderedAppend(MacroEvent(prev, now, from), MacroEvents(prev, now, from + 1), 64 + from, 65 + from, 72);
    }
  }

  lemma OrderedParts(all: seq<Event>, e0: seq<Event>, e1: seq<Event>, e2: seq<Event>, e3: seq<Event>,
                     e4: seq<Event>, e5: seq<Event>, e6: seq<Event>)
    requires all == e0 + e1 + e2 + e3 + e4 + e5 + e6
    requires Ordered(e0, 0, 64) && Ordered(e1, 64, 72) && Ordered(e2, 72, 73) && Ordered(e3, 73, 74)
    requires Ordered(e4, 74, 75) && Ordered(e5, 75, 76) && Ordered(e6, 76, 77)
    ensures Ordered(all, 0, 77)
  {
    OrderedAppend(e0, e1, 0, 64, 72);
    OrderedAppend(e0 + e1, e2, 0, 72, 73);
    OrderedAppend(e0 + e1 + e2, e3, 0, 73, 74);
    OrderedAppend(e0 + e1 + e2 + e3, e4, 0, 74, 75);
    OrderedAppend(e0 + e1 + e2 + e3 + e4, e5, 0, 75, 76);
    OrderedAppend(e0 + e1 + e2 + e3 + e4 + e5, e6, 0, 76, 77);
  }

  lemma SmallEventsOrdered(prev: ControlsReport, c: ControlsReport)
    ensures Ordered(MasterEvents(prev.master, c.master), 72, 73)
    ensures Ordered(StripEvents(prev.touchStrip, c.touchStrip), 73, 74)
  {
  }

  lemma KnobEventsOrdered(which: Knob, prev: u16, now: u16, rank: nat)
    requires rank == match which case MicGain => 74 case Headphones => 75 case MasterVolume => 76
    ensures Ordered(KnobEvents(which, prev, now), rank, rank + 1)
  {
  }

  /** Between two reports there is at most one event for each button, macro, the master, the strip and each
      knob, in this order. */
  lemma OneEventEach(prev: ControlsReport, c: ControlsReport)
    requires |prev.macros| == |c.macros| == MACROS
    ensures Ordered(ControlEvents(prev, c), 0, 77)
  {
    ButtonsOrdered(c.buttons, prev.buttons);
    MacrosOrdered(prev.macros, c.macros, 0);
    SmallEventsOrdered(prev, c);
    KnobEventsOrdered(MicGain, prev.micGain, c.micGain, 74);
    KnobEventsOrdered(Headphones, prev.headphones, c.headphones, 75);
    KnobEventsOrdered(MasterVolume, prev.masterVol, c.masterVol, 76);
    OrderedParts(ControlEvents(prev, c),
                 ButtonEvents(ButtonsDiff(c.buttons, prev.buttons, 0)),
                 MacroEvents(prev.macros, c.macros, 0),
                 MasterEvents(prev.master, c.master),
                 StripEvents(prev.touchStrip, c.touchStrip),
                 KnobEvents(MicGain, prev.micGain, c.micGain),
                 KnobEvents(Headphones, prev.headphones, c.headphones),
                 KnobEvents(MasterVolume, prev.masterVol, c.masterVol));
  }

  /** What an event says is true of the two reports. A touched strip is always reported. */
  ghost predicate Tells(prev: ControlsReport, c: ControlsReport, e: Event)
    requires |prev.macros| == |c.macros| == MACROS
  {
    match e
    case Button(bit, pressed) =>
      bit < 64 && Bit(c.buttons, bit) != Bit(prev.buttons, bit) && pressed == Bit(c.buttons, bit)
    case MacroEncoder(i, delta, absolute) =>
      i < MACROS && absolute == c.macros[i] && delta == EncoderDelta(prev.macros[i], c.macros[i]) != 0
    case MasterEncoder(delta, position) => position == c.master && delta == EncoderDelta(prev.master, c.master) != 0
    case TouchStrip(at, force) => c.touchStrip == Some((at, force))
    case TouchStripReleased => prev.touchStrip.Some? && c.touchStrip.None?
    case Analog(MicGain, value) => value == c.micGain != prev.micGain
    case Analog(Headphones, value) => value == c.headphones != prev.headphones
    case Analog(MasterVolume, value) => value == c.masterVol != prev.masterVol
    case Pad(_, _, _, _) => false
  }

  lemma ButtonEventsTell(now: u64, prev: u64, bit: nat, pressed: bool)
    ensures Button(bit, pressed) in ButtonEvents(ButtonsDiff(now, prev, 0))
       <==> bit < 64 && Bit(now, bit) != Bit(prev, bit) && pressed == Bit(now, bit)
  {
    var diff := ButtonsDiff(now, prev, 0);
    ButtonsDiffMeaning(now, prev, 0, bit, pressed);
    if (bit, pressed) in diff {
      var i :| 0 <= i < |diff| && diff[i] == (bit, pressed);
      assert ButtonEvents(diff)[i] == Button(bit, pressed);
    }
    if Button(bit, pressed) in ButtonEvents(diff) {
      var i :| 0 <= i < |diff| && ButtonEvents(diff)[i] == Button(bit, pressed);
      assert diff[i] == (bit, pressed);
    }
  }

  lemma {:induction false} MacroEventsTell(prev: seq<u16>, now: seq<u16>, from: nat, e: Event)
    requires |prev| == |now| == MACROS && from <= MACROS
    ensures e in MacroEvents(prev, now, from)
       <==> e.MacroEncoder? && from <= e.index < MACROS && e.absolute == now[e.index]
            && e.delta == EncoderDelta(prev[e.index], now[e.index]) != 0
    decreases MACROS - from
  {
    if from == MACROS {
    } else {
      MacroEventsTell(prev, now, from + 1, e);
    }
  }

  lemma InSeven(e: Event, e0: seq<Event>, e1: seq<Event>, e2: seq<Event>, e3: seq<Event>, e4: seq<Event>,
                e5: seq<Event>, e6: seq<Event>)
    ensures e in e0 + e1 + e2 + e3 + e4 + e5 + e6
       <==> e in e0 || e in e1 || e in e2 || e in e3 || e in e4 || e in e5 || e in e6
  {
  }

  lemma SmallEventsTell(prev: ControlsReport, c: ControlsReport, e: Event)
    requires |prev.macros| == |c.macros| == MACROS
    ensures e in MasterEvents(prev.master, c.master) <==> e.MasterEncoder? && Tells(prev, c, e)
    ensures e in StripEvents(prev.touchStrip, c.touchStrip)
       <==> (e.TouchStrip? || e.TouchStripReleased?) && Tells(prev, c, e)
    ensures e in KnobEvents(MicGain, prev.micGain, c.micGain) <==> e.Analog? && e.which.MicGain? && Tells(prev, c, e)
    ensures e in KnobEvents(Headphones, prev.headphones, c.headphones)
       <==> e.Analog? && e.which.Headphones? && Tells(prev, c, e)
    ensures e in KnobEvents(MasterVolume, prev.masterVol, c.masterVol)
       <==> e.Analog? && e.which.MasterVolume? && Tells(prev, c, e)
  {
  }

  /** An event is sent exactly if it tells of a difference between the reports. */
  lemma SentIffTells(prev: ControlsReport, c: ControlsReport, e: Event)
    requires |prev.macros| == |c.macros| == MACROS
    ensures e in ControlEvents(prev, c) <==> Tells(prev, c, e)
  {
    var e0 := ButtonEvents(ButtonsDiff(c.buttons, prev.buttons, 0));
    var e1 := MacroEvents(prev.macros, c.macros, 0);
    InSeven(e, e0, e1, MasterEvents(prev.master, c.master), StripEvents(prev.touchStrip, c.touchStrip),
            KnobEvents(MicGain, prev.micGain, c.micGain), KnobEvents(Headphones, prev.headphones, c.headphones),
            KnobEvents(MasterVolume, prev.masterVol, c.masterVol));
    if e.Button? { ButtonEventsTell(c.buttons, prev.buttons, e.bit, e.pressed); }
    MacroEventsTell(prev.macros, c.macros, 0, e);
    SmallEventsTell(prev, c, e);
  }

  // ----- encoder travel over a run -----

  datatype Encoder = Macro(index: nat) | Master

  function DeltaOf(e: Event, which: Encoder): int {
    match which
    case Macro(i) => if e.MacroEncoder? && e.index == i then e.delta else 0
    case Master => if e.MasterEncoder? then e.masterDelta else 0
  }

  function PositionOf(c: ControlsReport, which: Encoder): u16
    requires |c.macros| == MACROS && (which.Macro? ==> which.index < MACROS)
  {
    match which case Macro(i) => c.macros[i] case Master => c.master
  }

  /** The movement a client adds up for one encoder. */
  function Travel(events: seq<Event>, which: Encoder): int {
    if events == [] then 0 else DeltaOf(events[0], which) + Travel(events[1..], which)
  }

  lemma {:induction false} TravelAppend(a: seq<Event>, b: seq<Event>, which: Encoder)
    ensures Travel(a + b, which) == Travel(a, which) + Travel(b, which)
  {
    if a == [] {
      assert a + b == b;
    } else {
      assert (a + b)[1..] == a[1..] + b;
      TravelAppend(a[1..], b, which);
    }
  }

  predicate NoEncoder(events: seq<Event>) {
    forall k :: 0 <= k < |events| ==> !events[k].MacroEncoder? && !events[k].MasterEncoder?
  }

  lemma {:induction false} NoTravel(events: seq<Event>, which: Encoder)
    requires NoEncoder(events)
    ensures Travel(events, which) == 0
  {
    if events == [] {
    } else {
      NoTravel(events[1..], which);
    }
  }

  lemma {:induction false} TravelOfMacros(prev: seq<u16>, now: seq<u16>, from: nat, which: Encoder)
    requires |prev| == |now| == MACROS && from <= MACROS && (which.Macro? ==> which.index < MACROS)
    ensures Travel(MacroEvents(prev, now, from), which)
         == if which.Macro? && which.index >= from then EncoderDelta(prev[which.index], now[which.index]) else 0
    decreases MACROS - from
  {
    if from == MACROS {
    } else {
      TravelOfMacros(prev, now, from + 1, which);
      TravelAppend(MacroEvent(prev, now, from), MacroEvents(prev, now, from + 1), which);
      assert Travel(MacroEvent(prev, now, from), which)
          == if which == Macro(from) then EncoderDelta(prev[from], now[from]) else 0;
    }
  }

  lemma TravelOfMaster(prev: u16, now: u16, which: Encoder)
    ensures Travel(MasterEvents(prev, now), which) == if which.Master? then EncoderDelta(prev, now) else 0
  {
    assert MasterEvents(prev, now) != [] ==> MasterEvents(prev, now)[1..] == [];
  }

  lemma TravelSkips(a: seq<Event>, b: seq<Event>, which: Encoder)
    requires NoEncoder(b)
    ensures Travel(a + b, which) == Travel(a, which)
  {
    TravelAppend(a, b, which);
    NoTravel(b, which);
  }

  lemma TravelOfParts(e0: seq<Event>, e1: seq<Event>, e2: seq<Event>, e3: seq<Event>, e4: seq<Event>,
                      e5: seq<Event>, e6: seq<Event>, which: Encoder)
    requires NoEncoder(e0) && NoEncoder(e3) && NoEncoder(e4) && NoEncoder(e5) && NoEncoder(e6)
    ensures Travel(e0 + e1 + e2 + e3 + e4 + e5 + e6, which) == Travel(e1, which) + Travel(e2, which)
  {
    NoTravel(e0, which);
    TravelAppend(e0, e1, which);
    TravelAppend(e0 + e1, e2, which);
    TravelSkips(e0 + e1 + e2, e3, which);
    TravelSkips(e0 + e1 + e2 + e3, e4, which);
    TravelSkips(e0 + e1 + e2 + e3 + e4, e5, which);
    TravelSkips(e0 + e1 + e2 + e3 + e4 + e5, e6, which);
  }

  lemma OthersAreNotEncoders(prev: ControlsReport, c: ControlsReport)
    ensures NoEncoder(ButtonEvents(ButtonsDiff(c.buttons, prev.buttons, 0)))
    ensures NoEncoder(StripEvents(prev.touchStrip, c.touchStrip))
  {
  }

  lemma KnobsAreNotEncoders(which: Knob, prev: u16, now: u16)
    ensures NoEncoder(KnobEvents(which, prev, now))
  {
  }

  lemma TravelOfReport(prev: ControlsReport, c: ControlsReport, which: Encoder)
    requires |prev.macros| == |c.macros| == MACROS && (which.Macro? ==> which.index < MACROS)
    ensures Travel(ControlEvents(prev, c), which) == EncoderDelta(PositionOf(prev, which), PositionOf(c, which))
  {
    OthersAreNotEncoders(prev, c);
    KnobsAreNotEncoders(MicGain, prev.micGain, c.micGain);
    KnobsAreNotEncoders(Headphones, prev.headphones, c.headphones);
    KnobsAreNotEncoders(MasterVolume, prev.masterVol, c.masterVol);
    TravelOfParts(ButtonEvents(ButtonsDiff(c.buttons, prev.buttons, 0)),
                  MacroEvents(prev.macros, c.macros, 0),
                  MasterEvents(prev.master, c.master),
                  StripEvents(prev.touchStrip, c.touchStrip),
                  KnobEvents(MicGain, prev.micGain, c.micGain),
                  KnobEvents(Headphones, prev.headphones, c.headphones),
                  KnobEvents(MasterVolume, prev.masterVol, c.masterVol), which);
    TravelOfMacros(prev.macros, c.macros, 0, which);
    TravelOfMaster(prev.master, c.master, which);
  }

  /** Reports that show an encoder at the wrapped positions of a true movement, one per position. */
  ghost predicate Shows(reports: seq<ControlsReport>, which: Encoder, positions: seq<int>)
    requires which.Macro? ==> which.index < MACROS
  {
    && |reports| == |positions|
    && forall k :: 0 <= k < |reports| ==> ShowsAt(reports[k], which, positions[k])
  }

  ghost predicate ShowsAt(c: ControlsReport, which: Encoder, position: int)
    requires which.Macro? ==> which.index < MACROS
  {
    WellFormed(c) && PositionOf(c, which) == position % 0x400
  }

  lemma ShowsTail(prev: ControlsReport, reports: seq<ControlsReport>, which: Encoder, positions: seq<int>)
    requires (which.Macro? ==> which.index < MACROS) && reports != [] && WellFormed(prev) && WellFormed(reports[0])
    requires Shows([prev] + reports, which, positions)
    ensures |positions| >= 2 && Shows([reports[0]] + reports[1..], which, positions[1..])
    ensures ShowsAt(prev, which, positions[0]) && ShowsAt(reports[0], which, positions[1])
  {
    var all := [prev] + reports;
    assert [reports[0]] + reports[1..] == reports;
    assert forall k :: 0 <= k < |reports| ==> reports[k] == all[k + 1];
    assert all[0] == prev && all[1] == reports[0];
  }

  lemma StepTravel(prev: ControlsReport, c: ControlsReport, which: Encoder, from: int, to: int)
    requires (which.Macro? ==> which.index < MACROS) && ShowsAt(prev, which, from) && ShowsAt(c, which, to)
    requires -511 <= to - from <= 512
    ensures Travel(ControlEvents(prev, c), which) == to - from
  {
    TravelOfReport(prev, c, which);
    StepSeen(from, to);
  }

  lemma TravelOfRun(prev: ControlsReport, reports: seq<ControlsReport>, which: Encoder)
    requires WellFormed(prev) && reports != [] && forall k :: 0 <= k < |reports| ==> WellFormed(reports[k])
    ensures Travel(AllControlEvents(prev, reports), which)
         == Travel(ControlEvents(prev, reports[0]), which) + Travel(AllControlEvents(reports[0], reports[1..]), which)
  {
    TravelAppend(ControlEvents(prev, reports[0]), AllControlEvents(reports[0], reports[1..]), which);
  }

  /** Over any run whose steps between reports are at most half a turn of the 10-bit counter, the deltas
      a client receives for a macro encoder or the master encoder add up to the true movement. */
  lemma {:induction false} TravelIsTrueMovement(
      prev: ControlsReport, reports: seq<ControlsReport>, which: Encoder, positions: seq<int>)
    requires (which.Macro? ==> which.index < MACROS) && WellFormed(prev)
    requires Shows([prev] + reports, which, positions) && SmallSteps(positions)
    requires forall k :: 0 <= k < |reports| ==> WellFormed(reports[k])
    ensures Travel(AllControlEvents(prev, reports), which) == positions[|positions| - 1] - positions[0]
    decreases |reports|
  {
    if reports == [] {
    } else {
      ShowsTail(prev, reports, which, positions);
      TravelIsTrueMovement(reports[0], reports[1..], which, positions[1..]);
      StepTravel(prev, reports[0], which, positions[0], positions[1]);
      TravelOfRun(prev, reports, which);
    }
  }

  // ----- one pad -----

  datatype PadState = PadState(on: bool, last: u16, peak: u16)
  datatype PadOut = PadOut(phase: PadPhase, pressure: u16)

  const PAD_REST := PadState(false, 0, 0)

  function AbsDiff(a: nat, b: nat): nat {
    if a >= b then a - b else b - a
  }

  /** One sample of one pad, without the raw stream. */
  function PadStep(s: PadState, p: u16, o: Options): (PadState, Option<PadOut>) {
    if !s.on && p >= o.padOn then (PadState(true, p, p), Some(PadOut(Attack, p)))
    else if s.on && p <= o.padOff then (PadState(false, p, s.peak), Some(PadOut(Release, p)))
    else if s.on then
      (PadState(true, p, if p > s.peak then p else s.peak),
       if AbsDiff(p, s.last) >= o.padStep then Some(PadOut(Pressure, p)) else None)
    else (s.(last := p), None)
  }

  /** The pad's state after a list of its samples. */
  function PadAfter(ps: seq<u16>, o: Options): PadState {
    if ps == [] then PAD_REST else PadStep(PadAfter(ps[..|ps| - 1], o), ps[|ps| - 1], o).0
  }

  /** What its sample number `k` causes. */
  function OutAt(ps: seq<u16>, k: nat, o: Options): Option<PadOut>
    requires k < |ps|
  {
    PadStep(PadAfter(ps[..k], o), ps[k], o).1
  }

  function OptSeq<T>(x: Option<T>): seq<T> {
    if x.Some? then [x.value] else []
  }

  /** All its events in order. */
  function PadEvents(ps: seq<u16>, o: Options): seq<PadOut> {
    if ps == [] then [] else PadEvents(ps[..|ps| - 1], o) + OptSeq(OutAt(ps, |ps| - 1, o))
  }

  /** A prefix of (Attack Pressure* Release)*: an attack starts the list or follows a release; anything
      else follows an attack or a pressure. */
  ghost predicate WellBracketed(events: seq<PadOut>) {
    forall k: nat :: k < |events| ==> Follows(events, k)
  }

  ghost predicate Follows(events: seq<PadOut>, k: nat)
    requires k < |events|
  {
    if events[k].phase.Attack? then k == 0 || events[k - 1].phase.Release?
    else k > 0 && !events[k - 1].phase.Release?
  }

  ghost predicate EndsInside(events: seq<PadOut>) {
    events != [] && !events[|events| - 1].phase.Release?
  }

  lemma BracketedAppend(events: seq<PadOut>, e: PadOut)
    ensures WellBracketed(events + [e])
       <==> WellBracketed(events) && (e.phase.Attack? <==> !EndsInside(events))
    ensures EndsInside(events + [e]) <==> !e.phase.Release?
  {
    var all := events + [e];
    assert forall k: nat :: k < |events| ==> (Follows(all, k) <==> Follows(events, k));
    assert Follows(all, |events|) <==> (e.phase.Attack? <==> !EndsInside(events));
  }

  /** For every threshold setting and every run of samples: the pad's events are well bracketed, and
      the pad is on exactly when they end inside a press. */
  lemma {:induction false} PadBracketed(ps: seq<u16>, o: Options)
    ensures WellBracketed(PadEvents(ps, o))
    ensures PadAfter(ps, o).on <==> EndsInside(PadEvents(ps, o))
  {
    if ps == [] {
    } else {
      var n := |ps| - 1;
      var out := OutAt(ps, n, o);
      PadBracketed(ps[..n], o);
      if out.Some? {
        BracketedAppend(PadEvents(ps[..n], o), out.value);
      } else {
        assert PadEvents(ps, o) == PadEvents(ps[..n], o);
      }
    }
  }

  function PreviousSample(ps: seq<u16>, k: nat): u16
    requires k < |ps|
  {
    if k == 0 then 0 else ps[k - 1]
  }

  lemma LastIsPrevious(ps: seq<u16>, k: nat, o: Options)
    requires k < |ps|
    ensures PadAfter(ps[..k], o).last == PreviousSample(ps, k)
  {
    if k > 0 { assert ps[..k][..k - 1] == ps[..k - 1]; }
  }

  /** Every event carries its sample's pressure: an attack at or above the on threshold, a release at or
      below the off threshold, a pressure at least the step away from the pad's previous sample. */
  lemma PadEventBounds(ps: seq<u16>, k: nat, o: Options)
    requires k < |ps| && OutAt(ps, k, o).Some?
    ensures var e := OutAt(ps, k, o).value;
            && e.pressure == ps[k]
            && (e.phase.Attack? ==> ps[k] >= o.padOn)
            && (e.phase.Release? ==> ps[k] <= o.padOff)
            && (e.phase.Pressure? ==> ps[k] > o.padOff && AbsDiff(ps[k], PreviousSample(ps, k)) >= o.padStep)
  {
    LastIsPrevious(ps, k, o);
  }

  /** Exactly when a sample causes an event, and which, from whether the pad is on before it, the thresholds
      and the step from its previous sample. A pad that is on reports every other sample above the off
      threshold that moved by at least the step. */
  lemma PadEventExactly(ps: seq<u16>, k: nat, o: Options)
    requires k < |ps|
    ensures var on, p := PadAfter(ps[..k], o).on, ps[k];
            var moved := p >= PreviousSample(ps, k) + o.padStep || p + o.padStep <= PreviousSample(ps, k);
            && (OutAt(ps, k, o) == Some(PadOut(Attack, p)) <==> !on && p >= o.padOn)
            && (OutAt(ps, k, o) == Some(PadOut(Release, p)) <==> on && p <= o.padOff)
            && (OutAt(ps, k, o) == Some(PadOut(Pressure, p)) <==> on && p > o.padOff && moved)
            && (OutAt(ps, k, o).Some? ==> OutAt(ps, k, o).value.pressure == p)
  {
    LastIsPrevious(ps, k, o);
  }

  /** A pad turns on and off exactly at its attacks and releases. */
  lemma OnFollowsEvents(ps: seq<u16>, k: nat, o: Options)
    requires k < |ps|
    ensures PadAfter(ps[..k + 1], o).on
       <==> OutAt(ps, k, o) == Some(PadOut(Attack, ps[k]))
            || (PadAfter(ps[..k], o).on && OutAt(ps, k, o) != Some(PadOut(Release, ps[k])))
  {
    assert ps[..k + 1][..k] == ps[..k];
  }

  ghost predicate IsMaximum(m: u16, ps: seq<u16>) {
    m in ps && forall i :: 0 <= i < |ps| ==> ps[i] <= m
  }

  ghost predicate PressSince(ps: seq<u16>, a: nat, o: Options) {
    && a < |ps| && OutAt(ps, a, o) == Some(PadOut(Attack, ps[a]))
    && forall k :: a < k < |ps| ==> OutAt(ps, k, o).Some? ==> OutAt(ps, k, o).value.phase.Pressure?
  }

  /** While a pad is on, its recorded peak is the largest sample since its attack. */
  lemma {:induction false} PeakSinceAttack(ps: seq<u16>, o: Options) returns (a: nat)
    requires PadAfter(ps, o).on
    ensures PressSince(ps, a, o) && IsMaximum(PadAfter(ps, o).peak, ps[a..])
  {
    var n := |ps| - 1;
    var before := ps[..n];
    if PadAfter(before, o).on {
      a := PeakSinceAttack(before, o);
      assert before[a..] == ps[a..n] && ps[a..] == ps[a..n] + [ps[n]];
      forall k | a <= k < n ensures OutAt(ps, k, o) == OutAt(before, k, o) {
        assert before[..k] == ps[..k];
      }
      assert ps[a..][n - a] == ps[n];
    } else {
      a := n;
      assert ps[a..] == [ps[n]];
    }
  }

  /** Some sample reached the on threshold and every later one stayed above the off threshold. */
  ghost predicate HeldDown(ps: seq<u16>, o: Options) {
    exists a: nat :: HeldSince(ps, a, o)
  }

  ghost predicate HeldSince(ps: seq<u16>, a: nat, o: Options) {
    a < |ps| && ps[a] >= o.padOn && forall k :: a < k < |ps| ==> ps[k] > o.padOff
  }

  lemma HeldDownAppend(ps: seq<u16>, p: u16, o: Options)
    ensures HeldDown(ps + [p], o) <==> p >= o.padOn || (HeldDown(ps, o) && p > o.padOff)
  {
    var all := ps + [p];
    assert all[|ps|] == p;
    if p >= o.padOn { assert HeldSince(all, |ps|, o); }
    if HeldDown(ps, o) && p > o.padOff {
      var a: nat :| HeldSince(ps, a, o);
      assert HeldSince(all, a, o);
    }
    if HeldDown(all, o) && p < o.padOn {
      var a: nat :| HeldSince(all, a, o);
      assert a < |ps| && all[|ps|] > o.padOff;
      assert forall k :: 0 <= k < |ps| ==> ps[k] == all[k];
      assert HeldSince(ps, a, o);
    }
  }

  lemma {:induction false} HysteresisOver(ps: seq<u16>, o: Options)
    requires o.padOff < o.padOn
    ensures PadAfter(ps, o).on <==> HeldDown(ps, o)
    decreases |ps|
  {
    if ps == [] {
    } else {
      var n := |ps| - 1;
      assert ps == ps[..n] + [ps[n]];
      HysteresisOver(ps[..n], o);
      HeldDownAppend(ps[..n], ps[n], o);
    }
  }

  /** With no gap between the thresholds the same pressure twice is a press and its release. */
  lemma PressedTwice(o: Options)
    requires o.padOff >= o.padOn
    ensures !PadAfter([o.padOn, o.padOn], o).on && HeldDown([o.padOn, o.padOn], o)
  {
    var twice: seq<u16> := [] + [o.padOn] + [o.padOn];
    PadAppend([], o.padOn, o);
    PadAppend([] + [o.padOn], o.padOn, o);
    assert twice == [o.padOn, o.padOn];
    assert HeldSince(twice, 1, o);
  }

  /** The thresholds work as hysteresis, on any run of samples, exactly if the off threshold is below the on
      threshold: a pad is on if and only if it is held down. */
  lemma Hysteresis(o: Options)
    ensures o.padOff < o.padOn <==> forall ps: seq<u16> :: PadAfter(ps, o).on <==> HeldDown(ps, o)
  {
    if o.padOff < o.padOn {
      forall ps: seq<u16> ensures PadAfter(ps, o).on <==> HeldDown(ps, o) { HysteresisOver(ps, o); }
    } else {
      PressedTwice(o);
    }
  }

  // ----- all pads -----

  /** The pressures of one pad's samples. */
  function Of(samples: seq<PadSample>, pad: nat): seq<u16> {
    if samples == [] then []
    else
      var n := |samples| - 1;
      Of(samples[..n], pad) + if samples[n].pad == pad then [samples[n].pressure] else []
  }

  function Velocity(e: PadOut): Option<nat> {
    if e.phase.Attack? then Some(PressureToVelocity(e.pressure)) else None
  }

  function ToEvent(pad: nat, e: PadOut): Event {
    Pad(pad, e.pressure, Velocity(e), e.phase)
  }

  /** The pad events among `events` that belong to `pad`. */
  function Projection(events: seq<Event>, pad: nat): seq<PadOut> {
    if events == [] then []
    else
      var n := |events| - 1;
      Projection(events[..n], pad)
      + if events[n].Pad? && events[n].pad == pad then [PadOut(events[n].phase, events[n].pressure)] else []
  }

  /** `u16` saturating subtraction, clipped to the usable range and scaled to 0..127. */
  function PressureToVelocity(p: u16): (v: nat)
    ensures v <= 127
  {
    var above := if p >= 0x4000 then p - 0x4000 else 0;
    var clipped := if above < 0x0FFD then above else 0x0FFD;
    clipped * 127 / 0x0FFD
  }

  /** Inside the pressure range the velocity is the linear scale to 0..127, rounded down. */
  lemma VelocityIsLinear(p: u16)
    requires 0x4000 <= p <= 0x4FFD
    ensures var v := PressureToVelocity(p); v * 4093 <= 127 * (p - 0x4000) < (v + 1) * 4093
  {
  }

  /** Velocity grows with pressure, is 0 at and below the base pressure and 127 exactly from the top of
      the range on. */
  lemma VelocityMonotone(p: u16, q: u16)
    ensures p <= q ==> PressureToVelocity(p) <= PressureToVelocity(q)
    ensures PressureToVelocity(p) == 127 <==> p >= 0x4FFD
    ensures p <= 0x4000 ==> PressureToVelocity(p) == 0
  {
  }

  lemma OfAppend(samples: seq<PadSample>, s: PadSample, pad: nat)
    ensures Of(samples + [s], pad) == Of(samples, pad) + if s.pad == pad then [s.pressure] else []
  {
    assert (samples + [s])[..|samples|] == samples;
  }

  lemma ProjectionAppend(events: seq<Event>, e: Event, pad: nat)
    ensures Projection(events + [e], pad)
         == Projection(events, pad) + if e.Pad? && e.pad == pad then [PadOut(e.phase, e.pressure)] else []
  {
    assert (events + [e])[..|events|] == events;
  }

  lemma PadAppend(ps: seq<u16>, p: u16, o: Options)
    ensures PadAfter(ps + [p], o) == PadStep(PadAfter(ps, o), p, o).0
    ensures PadEvents(ps + [p], o) == PadEvents(ps, o) + OptSeq(PadStep(PadAfter(ps, o), p, o).1)
  {
    assert (ps + [p])[..|ps|] == ps;
  }

  ghost predicate NoPads(events: seq<Event>) {
    forall i :: 0 <= i < |events| ==> !events[i].Pad?
  }

  lemma NoPadsParts(e0: seq<Event>, e1: seq<Event>, e2: seq<Event>, e3: seq<Event>, e4: seq<Event>,
                    e5: seq<Event>, e6: seq<Event>)
    requires NoPads(e0) && NoPads(e1) && NoPads(e2) && NoPads(e3) && NoPads(e4) && NoPads(e5) && NoPads(e6)
    ensures NoPads(e0 + e1 + e2 + e3 + e4 + e5 + e6)
  {
  }

  lemma SmallEventsAreNotPads(prev: ControlsReport, c: ControlsReport)
    ensures NoPads(ButtonEvents(ButtonsDiff(c.buttons, prev.buttons, 0)))
    ensures NoPads(MasterEvents(prev.master, c.master)) && NoPads(StripEvents(prev.touchStrip, c.touchStrip))
  {
  }

  lemma KnobsAreNotPads(which: Knob, prev: u16, now: u16)
    ensures NoPads(KnobEvents(which, prev, now))
  {
  }

  lemma ControlEventsAreNotPads(prev: ControlsReport, c: ControlsReport)
    requires |prev.macros| == |c.macros| == MACROS
    ensures NoPads(ControlEvents(prev, c))
  {
    MacroEventsAreNotPads(prev.macros, c.macros, 0);
    SmallEventsAreNotPads(prev, c);
    KnobsAreNotPads(MicGain, prev.micGain, c.micGain);
    KnobsAreNotPads(Headphones, prev.headphones, c.headphones);
    KnobsAreNotPads(MasterVolume, prev.masterVol, c.masterVol);
    NoPadsParts(ButtonEvents(ButtonsDiff(c.buttons, prev.buttons, 0)),
                MacroEvents(prev.macros, c.macros, 0),
                MasterEvents(prev.master, c.master),
                StripEvents(prev.touchStrip, c.touchStrip),
                KnobEvents(MicGain, prev.micGain, c.micGain),
                KnobEvents(Headphones, prev.headphones, c.headphones),
                KnobEvents(MasterVolume, prev.masterVol, c.masterVol));
  }

  lemma {:induction false} MacroEventsAreNotPads(prev: seq<u16>, now: seq<u16>, from: nat)
    requires |prev| == |now| == MACROS && from <= MACROS
    ensures NoPads(MacroEvents(prev, now, from))
    decreases MACROS - from
  {
    if from == MACROS {
    } else {
      MacroEventsAreNotPads(prev, now, from + 1);
    }
  }

  lemma {:induction false} NoPadEvents(all: seq<Event>, events: seq<Event>, pad: nat)
    requires NoPads(events)
    ensures Projection(all + events, pad) == Projection(all, pad)
  {
    if events == [] {
      assert all + events == all;
    } else {
      var n := |events| - 1;
      NoPadEvents(all, events[..n], pad);
      ProjectionAppend(all + events[..n], events[n], pad);
      AppendAssoc(all, events[..n], [events[n]]);
      assert events == events[..n] + [events[n]];
    }
  }

  /** Pad events tell a client nothing about the controls. */
  lemma PadEventUnseen(v: View, events: seq<Event>, e: Option<Event>)
    requires e.Some? ==> e.value.Pad?
    ensures ObserveAll(v, events + OptSeq(e)) == ObserveAll(v, events)
  {
    ObserveAppend(v, events, OptSeq(e));
    if e.Some? { ObserveOne(ObserveAll(v, events), e.value); }
  }

  // ----- a pad reported at rest -----

  lemma {:induction false} OfConcat(a: seq<PadSample>, b: seq<PadSample>, pad: nat)
    ensures Of(a + b, pad) == Of(a, pad) + Of(b, pad)
    decreases |b|
  {
    if b == [] {
      assert a + b == a;
    } else {
      var n := |b| - 1;
      OfConcat(a, b[..n], pad);
      AppendAssoc(a, b[..n], [b[n]]);
      assert b == b[..n] + [b[n]];
      OfAppend(a + b[..n], b[n], pad);
    }
  }

  predicate OtherPads(slots: seq<PadSlot>, pad: nat) {
    forall i :: 0 <= i < |slots| ==> Sendable(slots[i]) && (slots[i].Sample? ==> slots[i].s.pad != pad)
  }

  lemma {:induction false} OfOthers(slots: seq<PadSlot>, pad: nat)
    requires OtherPads(slots, pad)
    ensures Of(Samples(slots), pad) == []
  {
    if slots == [] {
    } else {
      OfOthers(slots[1..], pad);
      OfConcat(EntrySamples(slots[0]), Samples(slots[1..]), pad);
      if slots[0].Sample? { OfAppend([], slots[0].s, pad); assert [] + [slots[0].s] == [slots[0].s]; }
    }
  }

  /** What a report brings for one pad when its only entry for that pad says pressure zero. */
  lemma RestEntry(before: seq<PadSlot>, pad: u8, after: seq<PadSlot>)
    requires pad < PAD_COUNT && OtherPads(before, pad) && OtherPads(after, pad)
    ensures var r := PadEntries(SlotBytes(before) + (EntryBytes(Sample(PadSample(pad, 0))) + SlotBytes(after)));
            r.Ok? && Of(r.value, pad) == if pad == 0 then [] else [0]
  {
    var entry := if pad == 0 then Empty else Sample(PadSample(pad, 0));
    assert EntryBytes(entry) == EntryBytes(Sample(PadSample(pad, 0)));
    PadsRoundTrip(after, []);
    assert SlotBytes(after) + [] == SlotBytes(after);
    EntryParses(entry, SlotBytes(after));
    SlotsParse(before, EntryBytes(entry) + SlotBytes(after));
    OfOthers(before, pad);
    OfOthers(after, pad);
    OfConcat(EntrySamples(entry), Samples(after), pad);
    OfConcat(Samples(before), EntrySamples(entry) + Samples(after), pad);
    OfAppend([], PadSample(pad, 0), pad);
    assert [] + [PadSample(pad, 0)] == [PadSample(pad, 0)];
  }

  lemma ReleasedAtZero(ps: seq<u16>, o: Options)
    ensures !PadAfter(ps + [0], o).on || !PadAfter(ps, o).on
  {
    PadAppend(ps, 0, o);
  }

  /** A pad that is on and is reported at pressure zero is released by that report exactly if it is not pad
      0, whose entry then is an empty slot. */
  lemma RestReleasesAllButPadZero(ps: seq<u16>, before: seq<PadSlot>, pad: u8, after: seq<PadSlot>, o: Options)
    requires pad < PAD_COUNT && OtherPads(before, pad) && OtherPads(after, pad) && PadAfter(ps, o).on
    ensures var r := PadEntries(SlotBytes(before) + (EntryBytes(Sample(PadSample(pad, 0))) + SlotBytes(after)));
            r.Ok? && (!PadAfter(ps + Of(r.value, pad), o).on <==> pad != 0)
  {
    RestEntry(before, pad, after);
    ReleasedAtZero(ps, o);
    assert ps + [] == ps;
  }

  // ----- sending the edges between two reports -----

  method SendButtons(diff: seq<(nat, bool)>) returns (events: seq<Event>)
    ensures events == ButtonEvents(diff)
  {
    events := [];
    for i := 0 to |diff|
      invariant events == ButtonEvents(diff)[..i]
    {
      events := events + [Button(diff[i].0, diff[i].1)];
    }
  }

  method SendMacros(prev: seq<u16>, now: seq<u16>) returns (events: seq<Event>)
    requires |prev| == |now| == MACROS
    ensures events == MacroEvents(prev, now, 0)
  {
    events := [];
    for i := 0 to MACROS
      invariant events + MacroEvents(prev, now, i) == MacroEvents(prev, now, 0)
    {
      AppendAssoc(events, MacroEvent(prev, now, i), MacroEvents(prev, now, i + 1));
      events := events + MacroEvent(prev, now, i);
    }
  }

  /** The edges between two reports: every event that tells of a difference, each subject at most once. */
  method SendControls(prev: ControlsReport, c: ControlsReport) returns (events: seq<Event>)
    requires |prev.macros| == |c.macros| == MACROS
    ensures events == ControlEvents(prev, c)
    ensures Ordered(events, 0, 77) && forall e :: e in events <==> Tells(prev, c, e)
  {
    var buttons := SendButtons(ButtonsDiff(c.buttons, prev.buttons, 0));
    var macros := SendMacros(prev.macros, c.macros);
    events := buttons + macros;
    events := events + MasterEvents(prev.master, c.master);
    events := events + StripEvents(prev.touchStrip, c.touchStrip);
    events := events + KnobEvents(MicGain, prev.micGain, c.micGain);
    events := events + KnobEvents(Headphones, prev.headphones, c.headphones);
    events := events + KnobEvents(MasterVolume, prev.masterVol, c.masterVol);
    ControlsExact(prev, c, events);
  }

  lemma ControlsExact(prev: ControlsReport, c: ControlsReport, events: seq<Event>)
    requires |prev.macros| == |c.macros| == MACROS && events == ControlEvents(prev, c)
    ensures Ordered(events, 0, 77) && forall e :: e in events <==> Tells(prev, c, e)
  {
    OneEventEach(prev, c);
    forall e: Event ensures e in events <==> Tells(prev, c, e) { SentIffTells(prev, c, e); }
  }

  /** Sending a report's edges brings the client up to date and moves no pad. */
  lemma ControlsAppended(emitted: seq<Event>, prev: ControlsReport, c: ControlsReport)
    requires WellFormed(prev) && WellFormed(c)
    requires ObserveAll(ViewOf(REST), emitted) == ViewOf(prev)
    ensures ObserveAll(ViewOf(REST), emitted + ControlEvents(prev, c)) == ViewOf(c)
    ensures forall i: nat :: Projection(emitted + ControlEvents(prev, c), i) == Projection(emitted, i)
  {
    ControlsLossless(prev, c);
    ObserveAppend(ViewOf(REST), emitted, ControlEvents(prev, c));
    ControlEventsAreNotPads(prev, c);
    forall i: nat ensures Projection(emitted + ControlEvents(prev, c), i) == Projection(emitted, i) {
      NoPadEvents(emitted, ControlEvents(prev, c), i);
    }
  }

  // ----- the state kept between frames -----

  class DiffState {
    const opts: Options
    var controls: Option<ControlsReport>
    const padPressures: array<u16>
    const padOn: array<bool>
    const padPeak: array<u16>

    /** Every pad sample taken in and every event sent so far. */
    ghost var seen: seq<PadSample>
    ghost var emitted: seq<Event>

    ghost function LastReport(): ControlsReport
      reads this
    {
      if controls.Some? then controls.value else REST
    }

    ghost function PadNow(i: nat): PadState
      requires padOn.Length == padPressures.Length == padPeak.Length == PAD_COUNT && i < PAD_COUNT
      reads this, padPressures, padOn, padPeak
    {
      PadState(padOn[i], padPressures[i], padPeak[i])
    }

    /** The events so far show a client the last controls report; without the raw stream, every pad
        is where its samples so far put it and has sent exactly the events they cause. */
    ghost predicate Valid()
      reads this, padPressures, padOn, padPeak
    {
      && padOn.Length == padPressures.Length == padPeak.Length == PAD_COUNT && padPressures != padPeak
      && WellFormed(LastReport())
      && ObserveAll(ViewOf(REST), emitted) == ViewOf(LastReport())
      && (!opts.rawPads ==>
            forall i: nat :: i < PAD_COUNT ==>
              PadNow(i) == PadAfter(Of(seen, i), opts) && Projection(emitted, i) == PadEvents(Of(seen, i), opts))
    }

    constructor (opts: Options)
      ensures Valid() && this.opts == opts && seen == [] && emitted == [] && controls == None
      ensures fresh(padPressures) && fresh(padOn) && fresh(padPeak)
    {
      this.opts := opts;
      controls := None;
      padPressures := new u16[16](_ => 0);
      padOn := new bool[16](_ => false);
      padPeak := new u16[16](_ => 0);
      seen, emitted := [], [];
    }

    method EmitControls(c: ControlsReport) returns (events: seq<Event>)
      requires Valid() && WellFormed(c)
      modifies this
      ensures Valid() && controls == Some(c) && seen == old(seen)
      ensures events == ControlEvents(old(LastReport()), c) && emitted == old(emitted) + events
    {
      var prev := if controls.Some? then controls.value else REST;
      events := SendControls(prev, c);
      controls := Some(c);
      ControlsAppended(emitted, prev, c);
      emitted := emitted + events;
    }

    /** The press machine on one pad's fields. */
    method StepPad(i: nat, pressure: u16) returns (event: Option<Event>)
      requires padOn.Length == padPressures.Length == padPeak.Length == PAD_COUNT && padPressures != padPeak
      requires i < PAD_COUNT
      modifies padPressures, padOn, padPeak
      ensures forall k: nat :: k < PAD_COUNT && k != i ==> PadNow(k) == old(PadNow(k))
      ensures event.Some? ==>
                && event.value.Pad? && event.value.pad == i && event.value.pressure == pressure
                && event.value.velocity
                   == if event.value.phase.Attack? then Some(PressureToVelocity(pressure)) else None
      ensures opts.rawPads ==> event == Some(Pad(i, pressure, None, Pressure))
      ensures !opts.rawPads ==>
                var (next, out) := PadStep(old(PadNow(i)), pressure, opts);
                PadNow(i) == next && event == if out.Some? then Some(ToEvent(i, out.value)) else None
      ensures !opts.rawPads ==>
                var on, last := old(padOn[i]), old(padPressures[i]);
                var moved := pressure >= last + opts.padStep || pressure + opts.padStep <= last;
                && (event.Some? && event.value.phase.Attack? <==> !on && pressure >= opts.padOn)
                && (event.Some? && event.value.phase.Release? <==> on && pressure <= opts.padOff)
                && (event.Some? && event.value.phase.Pressure? <==> on && pressure > opts.padOff && moved)
    {
      event := None;
      if opts.rawPads {
        event := Some(Pad(i, pressure, None, Pressure));
        padPressures[i] := pressure;
        return;
      }
      var wasOn := padOn[i];
      if !wasOn && pressure >= opts.padOn {
        padOn[i] := true;
        padPeak[i] := pressure;
        event := Some(Pad(i, pressure, Some(PressureToVelocity(pressure)), Attack));
      } else if wasOn && pressure <= opts.padOff {
        padOn[i] := false;
        event := Some(Pad(i, pressure, None, Release));
      } else if wasOn {
        if pressure > padPeak[i] { padPeak[i] := pressure; }
        if AbsDiff(pressure, padPressures[i]) >= opts.padStep {
          event := Some(Pad(i, pressure, None, Pressure));
        }
      }
      padPressures[i] := pressure;
    }

    /** One sample; `event` is what is sent for it. */
    method EmitPad(sample: PadSample) returns (event: Option<Event>)
      requires Valid() && sample.pad < PAD_COUNT
      modifies this`seen, this`emitted, padPressures, padOn, padPeak
      ensures Valid() && seen == old(seen) + [sample] && emitted == old(emitted) + OptSeq(event)
      ensures event.Some? ==>
                && event.value.Pad? && event.value.pad == sample.pad && event.value.pressure == sample.pressure
                && event.value.velocity
                   == if event.value.phase.Attack? then Some(PressureToVelocity(sample.pressure)) else None
      ensures opts.rawPads ==> event == Some(Pad(sample.pad, sample.pressure, None, Pressure))
    {
      ghost var was := PadNow(sample.pad);
      event := StepPad(sample.pad, sample.pressure);
      OtherPadsKept(seen, emitted, sample, event);
      if !opts.rawPads { OwnPadKept(seen, emitted, sample, was, event, opts); }
      PadEventUnseen(ViewOf(REST), emitted, event);
      seen := seen + [sample];
      emitted := emitted + OptSeq(event);
    }

    method EmitPads(samples: seq<PadSample>) returns (events: seq<Event>)
      requires Valid() && forall i :: 0 <= i < |samples| ==> samples[i].pad < PAD_COUNT
      modifies this`seen, this`emitted, padPressures, padOn, padPeak
      ensures Valid() && seen == old(seen) + samples && emitted == old(emitted) + events
    {
      events := [];
      for i := 0 to |samples|
        invariant Valid() && seen == old(seen) + samples[..i] && emitted == old(emitted) + events
      {
        var event := EmitPad(samples[i]);
        events := events + OptSeq(event);
      }
      assert samples[..|samples|] == samples;
    }

    /** One raw frame; a frame that does not parse is dropped. */
    method Feed(raw: seq<u8>) returns (events: seq<Event>)
      requires Valid()
      modifies this, padPressures, padOn, padPeak
      ensures Valid() && emitted == old(emitted) + events
      ensures |raw| == 0 || raw[0] !in {1, 2} || (raw[0] == 1 && |raw| < CONTROLS_LEN) ==>
                events == [] && controls == old(controls) && seen == old(seen)
      ensures |raw| >= CONTROLS_LEN && raw[0] == 1 ==>
                controls.Some? && CarriesControls(raw, controls.value) && seen == old(seen)
      ensures |raw| > 0 && raw[0] == 2 ==>
                controls == old(controls)
                && seen == old(seen) + match PadEntries(raw[1..]) case Ok(s) => s case Err(_) => []
    {
      var parsed := Parse(raw);
      match parsed
      case Err(_) => events := [];
      case Ok(Controls(c)) => events := EmitControls(c);
      case Ok(Pads(samples)) => events := EmitPads(samples);
    }
  }

  lemma ProjectionOfSent(emitted: seq<Event>, event: Option<Event>, pad: nat)
    requires event.Some? ==> event.value.Pad?
    ensures Projection(emitted + OptSeq(event), pad) == Projection(emitted, pad)
         + if event.Some? && event.value.pad == pad then [PadOut(event.value.phase, event.value.pressure)] else []
  {
    if event.Some? { ProjectionAppend(emitted, event.value, pad); } else { assert emitted + [] == emitted; }
  }

  /** A sample of one pad says nothing about another. */
  lemma OtherPadKept(seen: seq<PadSample>, emitted: seq<Event>, s: PadSample, event: Option<Event>, i: nat)
    requires (event.Some? ==> event.value.Pad? && event.value.pad == s.pad) && i != s.pad
    ensures Of(seen + [s], i) == Of(seen, i)
    ensures Projection(emitted + OptSeq(event), i) == Projection(emitted, i)
  {
    OfAppend(seen, s, i);
    ProjectionOfSent(emitted, event, i);
  }

  lemma OtherPadsKept(seen: seq<PadSample>, emitted: seq<Event>, s: PadSample, event: Option<Event>)
    requires event.Some? ==> event.value.Pad? && event.value.pad == s.pad
    ensures forall i: nat :: i != s.pad ==>
              Of(seen + [s], i) == Of(seen, i) && Projection(emitted + OptSeq(event), i) == Projection(emitted, i)
  {
    forall i: nat | i != s.pad
      ensures Of(seen + [s], i) == Of(seen, i) && Projection(emitted + OptSeq(event), i) == Projection(emitted, i)
    {
      OtherPadKept(seen, emitted, s, event, i);
    }
  }

  /** One more sample steps its own pad's machine, and the event sent for it is the machine's. */
  lemma OwnPadKept(
      seen: seq<PadSample>, emitted: seq<Event>, s: PadSample, was: PadState, event: Option<Event>, o: Options)
    requires was == PadAfter(Of(seen, s.pad), o) && Projection(emitted, s.pad) == PadEvents(Of(seen, s.pad), o)
    requires event == var out := PadStep(was, s.pressure, o).1;
                      if out.Some? then Some(ToEvent(s.pad, out.value)) else None
    ensures PadAfter(Of(seen + [s], s.pad), o) == PadStep(was, s.pressure, o).0
    ensures Projection(emitted + OptSeq(event), s.pad) == PadEvents(Of(seen + [s], s.pad), o)
  {
    OfAppend(seen, s, s.pad);
    ProjectionOfSent(emitted, event, s.pad);
    PadAppend(Of(seen, s.pad), s.pressure, o);
  }
}
