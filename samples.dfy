/** The sample walk (cressi_goa_parser_samples_foreach): a state machine over
    the packed 16-bit words that follow the mode-specific header region. */
module Samples {
  import opened Wrappers
  import opened Bytes
  import opened Layouts
  import opened Header

  /** Record types, in the low two bits of each sample word. */
  const DEPTH: nat := 0
  const DEPTH2: nat := 1
  const TIME: nat := 2
  const TEMPERATURE: nat := 3

  /** Sample times are unsigned 32-bit milliseconds. */
  const U32: nat := 0x1_0000_0000

  /** A sample handed to the caller: elapsed time in milliseconds, depth in
      decimetres, temperature in tenths of a degree Celsius, or a gas-mix index. */
  datatype Event = Time(ms: nat) | Depth(decimetres: nat) | Temperature(tenths: nat) | GasMix(index: nat)

  /** What the walk carries from one word to the next: the time accumulator in
      seconds, the current depth and gas mix, the last gas mix reported (None
      before the first), and the pending temperature with its flag. */
  datatype SampleState = SampleState(
    time: nat,
    depth: nat,
    gasmix: nat,
    previous: Option<nat>,
    temperature: nat,
    haveTemperature: bool)

  const Start := SampleState(0, 0, 0, None, 0, false)

  /** Seconds between depth samples: 2 in freedive mode, 5 otherwise. */
  function Interval(mode: nat): (iv: nat)
    ensures iv > 0
  {
    if mode == FREEDIVE then 2 else 5
  }

  /** A time in seconds as the 32-bit millisecond value the decoder reports. */
  function Ms(t: nat): (ms: nat)
    ensures ms < U32
    ensures t * 1000 < U32 ==> ms == t * 1000
  {
    (t * 1000) % U32
  }

  /** Emits a completed record: its time, the pending temperature if any, its
      depth, and in scuba and nitrox mode the gas mix when it changed. */
  function Record(mode: nat, s: SampleState): (r: (SampleState, seq<Event>))
    ensures r.0 == s.(haveTemperature := false, previous := r.0.previous)
    ensures r.0.previous == s.previous || r.0.previous == Some(s.gasmix)
    ensures mode != SCUBA && mode != NITROX ==> r.0.previous == s.previous
    ensures 2 <= |r.1| <= 4 && r.1[0] == Time(Ms(s.time))
  {
    var temperature := if s.haveTemperature then [Temperature(s.temperature)] else [];
    var change := (mode == SCUBA || mode == NITROX) && s.previous != Some(s.gasmix);
    var mix := if change then [GasMix(s.gasmix)] else [];
    (s.(haveTemperature := false, previous := if change then Some(s.gasmix) else s.previous),
     [Time(Ms(s.time))] + temperature + [Depth(s.depth)] + mix)
  }

  /** A time word whose payload exceeds the interval: a surface interval. */
  predicate SurfaceInterval(mode: nat, raw: word)
  {
    raw % 4 == TIME && raw / 4 > Interval(mode)
  }

  /** The first half of decoding a word: the state it leaves, the events of a
      surface interval it reports first, and whether it completes a record. */
  function Decode(mode: nat, s: SampleState, raw: word): (r: (SampleState, seq<Event>, bool))
    ensures r.0.previous == s.previous && s.time <= r.0.time
    ensures r.0.haveTemperature == (s.haveTemperature || raw % 4 == TEMPERATURE)
    ensures r.2 <==> raw % 4 != TEMPERATURE
    ensures r.1 != [] <==> SurfaceInterval(mode, raw)
  {
    var kind := raw % 4;
    var value := raw / 4;
    if kind == DEPTH || kind == DEPTH2 then
      (s.(depth := value % 0x800, gasmix := (value / 0x800) % 2, time := s.time + Interval(mode)), [], true)
    else if kind == TEMPERATURE then
      (s.(temperature := value, haveTemperature := true), [], false)
    else if value > Interval(mode) then
      var bumped := s.time + Interval(mode);
      (s.(time := bumped + (value - Interval(mode)), depth := 0), [Time(Ms(bumped)), Depth(0)], true)
    else
      (s.(time := s.time + value, depth := 0), [], true)
  }

  /** Decodes one sample word: the state after it and the events it emits. */
  function Step(mode: nat, s: SampleState, raw: word): (SampleState, seq<Event>)
  {
    var d := Decode(mode, s, raw);
    if d.2 then
      var r := Record(mode, d.0);
      (r.0, d.1 + r.1)
    else
      (d.0, d.1)
  }

  /** Decodes a sequence of words from state `s`, one word after the other. */
  function Run(mode: nat, s: SampleState, words: seq<word>): (r: (SampleState, seq<Event>))
    ensures s.time <= r.0.time
  {
    if words == [] then (s, [])
    else
      var prefix := Run(mode, s, words[..|words| - 1]);
      var last := Step(mode, prefix.0, words[|words| - 1]);
      (last.0, prefix.1 + last.1)
  }

  /** A step is the word's decoding followed, when it completes a record, by
      the record's emission. */
  lemma StepFromParts(mode: nat, s: SampleState, raw: word, decoded: SampleState, surface: seq<Event>, complete: bool,
                      after: SampleState, out: seq<Event>)
    requires (decoded, surface, complete) == Decode(mode, s, raw)
    requires complete ==> (after, out) == Record(mode, decoded)
    requires !complete ==> after == decoded && out == []
    ensures Step(mode, s, raw) == (after, surface + out)
  {
    if !complete {
      assert surface + out == surface;
    }
  }

  /** Running one more word of `words` steps the state reached on the prefix. */
  lemma RunPrefix(mode: nat, s: SampleState, words: seq<word>, k: nat)
    requires k < |words|
    ensures Run(mode, s, words[..k + 1])
         == (Step(mode, Run(mode, s, words[..k]).0, words[k]).0,
             Run(mode, s, words[..k]).1 + Step(mode, Run(mode, s, words[..k]).0, words[k]).1)
  {
    assert words[..k + 1][..k] == words[..k];
  }

  /** The number of whole words in `n` bytes is `k` when 2k <= n < 2k + 2. */
  lemma Half(n: nat, k: nat)
    requires 2 * k <= n < 2 * k + 2
    ensures n / 2 == k
  {
  }

  /** The words of the sample region starting at byte `from`: every complete
      two-byte word, a trailing odd byte left out. */
  function Words(data: seq<byte>, from: nat): (ws: seq<word>)
    requires from <= |data|
    ensures |ws| == (|data| - from) / 2
    ensures forall i :: 0 <= i < |ws| ==> ws[i] == LE16(data, from + 2 * i)
  {
    seq((|data| - from) / 2, i requires 0 <= i < (|data| - from) / 2 => LE16(data, from + 2 * i))
  }

  /** The events of a record's sample region. */
  function SampleEvents(ctx: Context, data: seq<byte>): seq<Event>
    requires ctx.headersize + ctx.layout.headersize <= |data|
  {
    Run(ctx.divemode, Start, Words(data, ctx.headersize + ctx.layout.headersize)).1
  }

  /** Decodes one sample word into the accumulator, depth, gas mix and pending
      temperature; returns the events of a surface interval, reported before
      the record, and whether the word completes a record. */
  method DecodeWord(mode: nat, raw: word, time: nat, depth: nat, gasmix: nat, previous: Option<nat>, temperature: nat, haveTemperature: bool)
    returns (newTime: nat, newDepth: nat, newGasmix: nat, newTemperature: nat, newHaveTemperature: bool, surface: seq<Event>, complete: bool)
    ensures (SampleState(newTime, newDepth, newGasmix, previous, newTemperature, newHaveTemperature), surface, complete)
         == Decode(mode, SampleState(time, depth, gasmix, previous, temperature, haveTemperature), raw)
  {
    var interval := Interval(mode);
    newTime, newDepth, newGasmix, newTemperature, newHaveTemperature := time, depth, gasmix, temperature, haveTemperature;
    surface, complete := [], false;
    var kind := raw % 4;
    var value := raw / 4;
    if kind == DEPTH || kind == DEPTH2 {
      newDepth := value % 0x800;
      newGasmix := (value / 0x800) % 2;
      newTime := newTime + interval;
      complete := true;
    } else if kind == TEMPERATURE {
      newTemperature := value;
      newHaveTemperature := true;
    } else if kind == TIME {
      var surftime := value;
      if surftime > interval {
        surftime := surftime - interval;
        newTime := newTime + interval;
        surface := [Time(Ms(newTime)), Depth(0)];
      }
      newTime := newTime + surftime;
      newDepth := 0;
      complete := true;
    }
  }

  /** Emits the events of a completed record, in order, and returns the gas
      mix now reported last; the pending temperature is consumed. */
  method EmitRecord(mode: nat, time: nat, depth: nat, gasmix: nat, previous: Option<nat>, temperature: nat, haveTemperature: bool)
    returns (out: seq<Event>, reported: Option<nat>)
    ensures (SampleState(time, depth, gasmix, reported, temperature, false), out)
         == Record(mode, SampleState(time, depth, gasmix, previous, temperature, haveTemperature))
  {
    out := [Time(Ms(time))];
    if haveTemperature {
      out := out + [Temperature(temperature)];
    } else {
      assert out + [] == out;
    }
    out := out + [Depth(depth)];
    assert out + [] == out;
    reported := previous;
    if mode == SCUBA || mode == NITROX {
      if previous != Some(gasmix) {
        out := out + [GasMix(gasmix)];
        reported := Some(gasmix);
      }
    }
  }

  /** One pass of the walk's loop body: decodes the word, then emits the
      record it completes, appending both to `events`. */
  method ProcessWord(mode: nat, raw: word, time: nat, depth: nat, gasmix: nat, previous: Option<nat>,
                     temperature: nat, haveTemperature: bool, events: seq<Event>)
    returns (newTime: nat, newDepth: nat, newGasmix: nat, newPrevious: Option<nat>,
             newTemperature: nat, newHaveTemperature: bool, newEvents: seq<Event>)
    ensures var step := Step(mode, SampleState(time, depth, gasmix, previous, temperature, haveTemperature), raw);
      && step.0 == SampleState(newTime, newDepth, newGasmix, newPrevious, newTemperature, newHaveTemperature)
      && newEvents == events + step.1
  {
    var surface: seq<Event>;
    var complete: bool;
    newTime, newDepth, newGasmix, newTemperature, newHaveTemperature, surface, complete :=
      DecodeWord(mode, raw, time, depth, gasmix, previous, temperature, haveTemperature);
    ghost var decoded := SampleState(newTime, newDepth, newGasmix, previous, newTemperature, newHaveTemperature);
    newPrevious := previous;
    var out: seq<Event> := [];
    if complete {
      out, newPrevious := EmitRecord(mode, newTime, newDepth, newGasmix, previous, newTemperature, newHaveTemperature);
      newHaveTemperature := false;
    }
    StepFromParts(mode, SampleState(time, depth, gasmix, previous, temperature, haveTemperature), raw,
      decoded, surface, complete,
      SampleState(newTime, newDepth, newGasmix, newPrevious, newTemperature, newHaveTemperature), out);
    newEvents := events + (surface + out);
  }

  /** Walks the sample region word by word, as the decoder does, collecting
      the events it hands to the caller; the walk never fails. */
  method DecodeSamples(ctx: Context, data: seq<byte>) returns (events: seq<Event>)
    requires ctx.headersize + ctx.layout.headersize <= |data|
    ensures events == Run(ctx.divemode, Start, Words(data, ctx.headersize + ctx.layout.headersize)).1
  {
    var base := ctx.headersize;
    var size := |data| - base;
    var time: nat, depth: nat, gasmix: nat := 0, 0, 0;
    var previous: Option<nat> := None;
    var temperature: nat, haveTemperature := 0, false;
    ghost var words := Words(data, base + ctx.layout.headersize);
    var offset := ctx.layout.headersize;
    ghost var k: nat := 0;
    events := [];
    while offset + 2 <= size
      invariant offset == ctx.layout.headersize + 2 * k <= size
      invariant k <= |words|
      invariant Run(ctx.divemode, Start, words[..k]).0 == SampleState(time, depth, gasmix, previous, temperature, haveTemperature)
      invariant Run(ctx.divemode, Start, words[..k]).1 == events
      decreases size - offset
    {
      var raw := LE16(data, base + offset);
      assert raw == words[k];
      RunPrefix(ctx.divemode, Start, words, k);
      time, depth, gasmix, previous, temperature, haveTemperature, events :=
        ProcessWord(ctx.divemode, raw, time, depth, gasmix, previous, temperature, haveTemperature, events);
      offset := offset + 2;
      k := k + 1;
    }
    Half(size - ctx.layout.headersize, k);
    assert words[..k] == words;
  }

  // ---------------------------------------------------------------------
  // Properties of the walk

  /** The seconds a word adds to the accumulator: the interval for a depth
      record, the payload for a time record, nothing for a temperature. */
  function Advance(mode: nat, raw: word): nat
  {
    var kind := raw % 4;
    if kind == DEPTH || kind == DEPTH2 then Interval(mode)
    else if kind == TIME then raw / 4
    else 0
  }

  /** The seconds a sequence of words adds to the accumulator. */
  function Elapsed(mode: nat, words: seq<word>): nat
  {
    if words == [] then 0
    else Elapsed(mode, words[..|words| - 1]) + Advance(mode, words[|words| - 1])
  }

  /** A depth word sets depth and gas mix from its payload and adds the
      interval; a time word sets depth 0 and adds its whole payload, the
      surface part included; a temperature word only records a pending
      temperature. */
  lemma StepDecodes(mode: nat, s: SampleState, raw: word)
    ensures var q := Step(mode, s, raw).0;
      && q.time == s.time + Advance(mode, raw)
      && (raw % 4 == DEPTH || raw % 4 == DEPTH2 ==>
            q.depth == (raw / 4) % 0x800 && q.gasmix == (raw / 4 / 0x800) % 2 && !q.haveTemperature)
      && (raw % 4 == TIME ==> q.depth == 0 && q.gasmix == s.gasmix && !q.haveTemperature)
      && (raw % 4 == TEMPERATURE ==>
            q == s.(temperature := raw / 4, haveTemperature := true) && Step(mode, s, raw).1 == [])
  {
  }

  /** The accumulator after a walk is its start plus the seconds each word adds. */
  lemma {:induction false} RunTime(mode: nat, s: SampleState, words: seq<word>)
    ensures Run(mode, s, words).0.time == s.time + Elapsed(mode, words)
  {
    if words != [] {
      RunTime(mode, s, words[..|words| - 1]);
      StepDecodes(mode, Run(mode, s, words[..|words| - 1]).0, words[|words| - 1]);
    }
  }

  /** The events of a completed record, in order: its time, the pending
      temperature if there was one, its depth, and in scuba and nitrox mode the
      gas mix if it differs from the one reported last. A surface interval
      first reports the time one interval on and depth 0. */
  lemma RecordOrder(mode: nat, s: SampleState, raw: word)
    requires raw % 4 != TEMPERATURE
    ensures
      var q := Step(mode, s, raw).0;
      var ev := Step(mode, s, raw).1;
      var pending := if s.haveTemperature then [Temperature(s.temperature)] else [];
      var mixed := (mode == SCUBA || mode == NITROX) && s.previous != Some(q.gasmix);
      var surface := if SurfaceInterval(mode, raw) then [Time(Ms(s.time + Interval(mode))), Depth(0)] else [];
      && ev == surface + [Time(Ms(q.time))] + pending + [Depth(q.depth)] + (if mixed then [GasMix(q.gasmix)] else [])
      && q.previous == (if mixed then Some(q.gasmix) else s.previous)
      && !q.haveTemperature
  {
    if !SurfaceInterval(mode, raw) {
      var ev := Step(mode, s, raw).1;
      assert [] + ev == ev;
    }
  }

  /** A surface interval of payload p > interval reports time t + interval and
      depth 0, then completes its record at time t + p with depth 0. */
  lemma SurfaceIntervalEvents(mode: nat, s: SampleState, raw: word)
    requires SurfaceInterval(mode, raw)
    ensures
      var q := Step(mode, s, raw).0;
      var ev := Step(mode, s, raw).1;
      && |ev| >= 4
      && ev[0] == Time(Ms(s.time + Interval(mode)))
      && ev[1] == Depth(0)
      && ev[2] == Time(Ms(s.time + raw / 4))
      && q.time == s.time + raw / 4 && q.depth == 0
  {
    RecordOrder(mode, s, raw);
  }

  /** At the start of a non-freedive dive, a time word of payload 15 (interval
      plus 10) reports 5 s at depth 0, then 15 s at depth 0. */
  lemma SurfaceIntervalExample()
    ensures Step(GAUGE, Start, 15 * 4 + TIME).1 == [Time(5000), Depth(0), Time(15000), Depth(0)]
  {
  }

  /** A temperature word at the end of the walk is dropped: it leaves the
      events unchanged and is only pending. */
  lemma {:induction false} PendingTemperatureDropped(mode: nat, s: SampleState, words: seq<word>, raw: word)
    requires raw % 4 == TEMPERATURE
    ensures Run(mode, s, words + [raw]).1 == Run(mode, s, words).1
    ensures Run(mode, s, words + [raw]).0.haveTemperature
  {
    assert (words + [raw])[..|words|] == words;
    var r := Run(mode, s, words);
    StepDecodes(mode, r.0, raw);
    assert r.1 + [] == r.1;
  }

  /** Time events in order never decrease. */
  ghost predicate TimesSorted(ev: seq<Event>)
  {
    forall i, j :: 0 <= i < j < |ev| && ev[i].Time? && ev[j].Time? ==> ev[i].ms <= ev[j].ms
  }

  /** Every time event lies between `lo` and `hi` milliseconds. */
  ghost predicate TimesWithin(ev: seq<Event>, lo: nat, hi: nat)
  {
    forall i :: 0 <= i < |ev| && ev[i].Time? ==> lo <= ev[i].ms <= hi
  }

  lemma SortedConcat(a: seq<Event>, b: seq<Event>, lo: nat, mid: nat, hi: nat)
    requires lo <= mid <= hi
    requires TimesSorted(a) && TimesWithin(a, lo, mid)
    requires TimesSorted(b) && TimesWithin(b, mid, hi)
    ensures TimesSorted(a + b) && TimesWithin(a + b, lo, hi)
  {
    forall i, j | 0 <= i < j < |a + b| && (a + b)[i].Time? && (a + b)[j].Time?
      ensures (a + b)[i].ms <= (a + b)[j].ms
    {
      if j < |a| {
      } else if i >= |a| {
        assert (a + b)[i] == b[i - |a|] && (a + b)[j] == b[j - |a|];
      } else {
        assert (a + b)[j] == b[j - |a|];
      }
    }
  }

  /** One word reports times between the accumulator before and after it, in
      order, as long as the accumulator stays below 2^32 milliseconds. */
  lemma StepTimes(mode: nat, s: SampleState, raw: word)
    requires Step(mode, s, raw).0.time * 1000 < U32
    ensures TimesSorted(Step(mode, s, raw).1)
    ensures TimesWithin(Step(mode, s, raw).1, s.time * 1000, Step(mode, s, raw).0.time * 1000)
  {
    var q := Step(mode, s, raw).0;
    StepDecodes(mode, s, raw);
    if raw % 4 != TEMPERATURE {
      RecordOrder(mode, s, raw);
      if SurfaceInterval(mode, raw) {
        assert (s.time + Interval(mode)) * 1000 <= q.time * 1000;
      }
    }
  }

  /** Reported times never decrease over a walk whose accumulator stays below
      2^32 milliseconds, and lie between the start and the end of the walk. */
  lemma {:induction false} RunTimes(mode: nat, s: SampleState, words: seq<word>)
    requires Run(mode, s, words).0.time * 1000 < U32
    ensures s.time <= Run(mode, s, words).0.time
    ensures TimesSorted(Run(mode, s, words).1)
    ensures TimesWithin(Run(mode, s, words).1, s.time * 1000, Run(mode, s, words).0.time * 1000)
  {
    if words != [] {
      var prefix := Run(mode, s, words[..|words| - 1]);
      var last := words[|words| - 1];
      StepDecodes(mode, prefix.0, last);
      RunTimes(mode, s, words[..|words| - 1]);
      StepTimes(mode, prefix.0, last);
      SortedConcat(prefix.1, Step(mode, prefix.0, last).1, s.time * 1000, prefix.0.time * 1000,
        Step(mode, prefix.0, last).0.time * 1000);
    }
  }

  /** The gas-mix indices reported by a sequence of events, in order. */
  function Mixes(ev: seq<Event>): seq<nat>
  {
    if ev == [] then []
    else Mixes(ev[..|ev| - 1]) + (if ev[|ev| - 1].GasMix? then [ev[|ev| - 1].index] else [])
  }

  lemma {:induction false} MixesConcat(a: seq<Event>, b: seq<Event>)
    ensures Mixes(a + b) == Mixes(a) + Mixes(b)
  {
    if b != [] {
      assert (a + b)[..|a + b| - 1] == a + b[..|b| - 1];
      MixesConcat(a, b[..|b| - 1]);
    } else {
      assert a + b == a;
    }
  }

  /** Consecutive entries of a sequence differ. */
  ghost predicate Changes(m: seq<nat>)
  {
    forall i :: 0 <= i < |m| - 1 ==> m[i] != m[i + 1]
  }

  /** Events without a gas-mix change report no gas mix. */
  lemma {:induction false} NoMixes(ev: seq<Event>)
    requires forall i :: 0 <= i < |ev| ==> !ev[i].GasMix?
    ensures Mixes(ev) == []
  {
    if ev != [] {
      NoMixes(ev[..|ev| - 1]);
    }
  }

  /** A completed record reports its gas mix only when it changed. */
  lemma RecordMixes(mode: nat, s: SampleState)
    ensures var change := (mode == SCUBA || mode == NITROX) && s.previous != Some(s.gasmix);
      && Mixes(Record(mode, s).1) == (if change then [s.gasmix] else [])
      && Record(mode, s).0.previous == (if change then Some(s.gasmix) else s.previous)
      && Record(mode, s).0.gasmix == s.gasmix
  {
    var temperature := if s.haveTemperature then [Temperature(s.temperature)] else [];
    var change := (mode == SCUBA || mode == NITROX) && s.previous != Some(s.gasmix);
    var mix := if change then [GasMix(s.gasmix)] else [];
    var head := [Time(Ms(s.time))] + temperature + [Depth(s.depth)];
    NoMixes(head);
    MixesConcat(head, mix);
    assert Mixes(mix) == if change then [s.gasmix] else [];
  }

  /** One word reports at most one gas mix, only one different from the mix
      reported last, and then remembers it. */
  lemma StepMixes(mode: nat, s: SampleState, raw: word)
    ensures var q := Step(mode, s, raw).0;
      var m := Mixes(Step(mode, s, raw).1);
      && (m == [] ==> q.previous == s.previous)
      && (m != [] ==> m == [q.gasmix] && s.previous != Some(q.gasmix) && q.previous == Some(q.gasmix))
  {
    var d := Decode(mode, s, raw);
    assert d.0.previous == s.previous;
    if d.2 {
      var r := Record(mode, d.0);
      assert Step(mode, s, raw) == (r.0, d.1 + r.1);
      RecordMixes(mode, d.0);
      NoMixes(d.1);
      MixesConcat(d.1, r.1);
    } else {
      assert Step(mode, s, raw) == (d.0, []);
    }
  }

  /** Over a walk, consecutive reported gas mixes differ, the first differs
      from the mix reported before the walk, and the walk remembers the last. */
  lemma {:induction false} RunMixes(mode: nat, s: SampleState, words: seq<word>)
    ensures var m := Mixes(Run(mode, s, words).1);
      && Changes(m)
      && (m != [] ==> s.previous != Some(m[0]))
      && Run(mode, s, words).0.previous == (if m == [] then s.previous else Some(m[|m| - 1]))
  {
    if words != [] {
      var prefix := Run(mode, s, words[..|words| - 1]);
      var last := words[|words| - 1];
      RunMixes(mode, s, words[..|words| - 1]);
      StepMixes(mode, prefix.0, last);
      MixesConcat(prefix.1, Step(mode, prefix.0, last).1);
    }
  }

  /** Outside scuba and nitrox mode no gas mix is ever reported. */
  lemma {:induction false} NoGasMixOutsideOpenCircuit(mode: nat, s: SampleState, words: seq<word>)
    requires mode != SCUBA && mode != NITROX
    ensures forall i :: 0 <= i < |Run(mode, s, words).1| ==> !Run(mode, s, words).1[i].GasMix?
  {
    if words != [] {
      var prefix := Run(mode, s, words[..|words| - 1]);
      var last := words[|words| - 1];
      NoGasMixOutsideOpenCircuit(mode, s, words[..|words| - 1]);
      if last % 4 != TEMPERATURE {
        RecordOrder(mode, prefix.0, last);
      }
    }
  }

  /** In scuba and nitrox mode a completed record reports its gas mix exactly
      when it differs from the mix reported last; so the first record of a
      walk, with none reported yet, always reports it. */
  lemma GasMixReportedIff(mode: nat, s: SampleState, raw: word)
    requires mode == SCUBA || mode == NITROX
    requires raw % 4 != TEMPERATURE
    ensures var q := Step(mode, s, raw).0;
      && (GasMix(q.gasmix) in Step(mode, s, raw).1 <==> s.previous != Some(q.gasmix))
      && q.previous == Some(q.gasmix)
    ensures s.previous.None? ==> GasMix(Step(mode, s, raw).0.gasmix) in Step(mode, s, raw).1
  {
    RecordOrder(mode, s, raw);
  }

  /** The walk over a record reads whole words only: a trailing odd byte
      changes nothing. */
  lemma TrailingByteIgnored(ctx: Context, data: seq<byte>, b: byte)
    requires ctx.headersize + ctx.layout.headersize <= |data|
    requires (|data| - ctx.headersize - ctx.layout.headersize) % 2 == 0
    ensures SampleEvents(ctx, data + [b]) == SampleEvents(ctx, data)
  {
    var from := ctx.headersize + ctx.layout.headersize;
    var w1 := Words(data + [b], from);
    var w0 := Words(data, from);
    assert |w1| == |w0|;
    forall i | 0 <= i < |w0| ensures w1[i] == w0[i] {
      assert (data + [b])[from + 2 * i] == data[from + 2 * i];
      assert (data + [b])[from + 2 * i + 1] == data[from + 2 * i + 1];
    }
    assert w1 == w0;
  }

  /** Reported times never decrease over a record whose accumulated time stays
      below 2^32 milliseconds. */
  lemma SampleTimesNondecreasing(ctx: Context, data: seq<byte>)
    requires ctx.headersize + ctx.layout.headersize <= |data|
    requires Elapsed(ctx.divemode, Words(data, ctx.headersize + ctx.layout.headersize)) * 1000 < U32
    ensures TimesSorted(SampleEvents(ctx, data))
  {
    var words := Words(data, ctx.headersize + ctx.layout.headersize);
    RunTime(ctx.divemode, Start, words);
    RunTimes(ctx.divemode, Start, words);
  }

  /** Past 2^32 milliseconds the reported time wraps: two depth records
      either side of the boundary report a smaller time for the later one, so
      the bound in SampleTimesNondecreasing cannot be dropped. */
  lemma TimeWraps()
    ensures Run(GAUGE, SampleState(4294962, 0, 0, None, 0, false), [0, 0]).1
         == [Time(4294967000), Depth(0), Time(4704), Depth(0)]
    ensures !TimesSorted(Run(GAUGE, SampleState(4294962, 0, 0, None, 0, false), [0, 0]).1)
  {
    var s := SampleState(4294962, 0, 0, None, 0, false);
    var words: seq<word> := [0, 0];
    var first := Step(GAUGE, s, 0);
    assert Ms(4294967) == 4294967000;
    assert first.1 == [Time(4294967000), Depth(0)];
    RunPrefix(GAUGE, s, words, 0);
    assert words[..0] == [] && [] + first.1 == first.1;
    assert Run(GAUGE, s, words[..1]) == first;
    RunPrefix(GAUGE, s, words, 1);
    assert words[..2] == words;
    var second := Step(GAUGE, first.0, 0);
    assert Ms(4294972) == 4704;
    assert second.1 == [Time(4704), Depth(0)];
    var ev := Run(GAUGE, s, words).1;
    assert ev == first.1 + second.1;
    assert ev[0].Time? && ev[2].Time? && ev[0].ms > ev[2].ms;
  }

  /** (a * 2^32 + b) mod 2^32 == b mod 2^32. */
  lemma {:induction false} ModMultiple(a: nat, b: nat)
    ensures (a * U32 + b) % U32 == b % U32
  {
    if a > 0 {
      ModMultiple(a - 1, b);
      assert a * U32 + b == ((a - 1) * U32 + b) + U32;
    }
  }

  /** The decoder keeps the accumulator in 32 bits; the reported millisecond
      value is the same whether the accumulator wrapped or not. */
  lemma MsOfWrapped(t: nat)
    ensures Ms(t % U32) == Ms(t)
  {
    var q := t / U32;
    var r := t % U32;
    assert t * 1000 == (q * 1000) * U32 + r * 1000;
    ModMultiple(q * 1000, r * 1000);
  }

  /** Over a record, consecutive reported gas mixes differ; outside scuba and
      nitrox mode none is reported at all. */
  lemma SampleGasMixes(ctx: Context, data: seq<byte>)
    requires ctx.headersize + ctx.layout.headersize <= |data|
    ensures Changes(Mixes(SampleEvents(ctx, data)))
    ensures ctx.divemode != SCUBA && ctx.divemode != NITROX ==>
      forall e :: e in SampleEvents(ctx, data) ==> !e.GasMix?
  {
    var words := Words(data, ctx.headersize + ctx.layout.headersize);
    RunMixes(ctx.divemode, Start, words);
    if ctx.divemode != SCUBA && ctx.divemode != NITROX {
      NoGasMixOutsideOpenCircuit(ctx.divemode, Start, words);
    }
  }
}
