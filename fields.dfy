/** Field queries on a decoded header: the dive's date and time and its scalar
    fields (cressi_goa_parser_get_datetime, cressi_goa_parser_get_field). */
module Fields {
  import opened Wrappers
  import opened Bytes
  import opened Layouts
  import opened Header

  /** The field types a caller may ask for; `OtherField` stands for every
      field type the decoder has no case for. */
  datatype Field =
    | DiveTime
    | MaxDepth
    | AvgDepth
    | TemperatureMinimum
    | Atmospheric
    | GasMixCount
    | GasMix
    | DiveModeField
    | OtherField

  /** The dive modes reported to callers. */
  datatype DiveMode = OpenCircuit | Freedive | Gauge

  /** What a gas mix is used for. The decoder always reports `UsageNone`;
      `OtherUsage` stands for the library's other usages. */
  datatype Usage = UsageNone | OtherUsage

  /** A field value in the record's own integer units: seconds, decimetres,
      tenths of a degree Celsius, millibar, and gas fractions in percent. */
  datatype Value =
    | Seconds(seconds: nat)
    | Decimetres(decimetres: nat)
    | TenthsCelsius(tenths: nat)
    | Millibar(millibar: nat)
    | Count(count: nat)
    | Mix(usage: Usage, oxygen: int, helium: int, nitrogen: int)
    | Mode(mode: DiveMode)

  /** A calendar date and time; `timezone` is None when the record has none. */
  datatype DateTime = DateTime(year: nat, month: nat, day: nat, hour: nat, minute: nat, second: nat, timezone: Option<int>)

  /** The date and time at the layout's datetime offset; the record stores no
      seconds and no timezone. */
  function GetDatetime(ctx: Context, data: seq<byte>): (dt: DateTime)
    requires Valid(ctx, data)
    ensures dt.second == 0 && dt.timezone.None?
    ensures dt.year < 0x1_0000 && dt.month < 0x100 && dt.day < 0x100 && dt.hour < 0x100 && dt.minute < 0x100
  {
    var p := ctx.headersize + ctx.layout.datetime;
    DateTime(LE16(data, p), data[p + 2], data[p + 3], data[p + 4], data[p + 5], 0, None)
  }

  /** Writes a date and time where GetDatetime reads it. */
  function PutDatetime(ctx: Context, data: seq<byte>, year: word, month: byte, day: byte, hour: byte, minute: byte): (r: seq<byte>)
    requires Valid(ctx, data)
    ensures |r| == |data|
  {
    var p := ctx.headersize + ctx.layout.datetime;
    Put16(data, p, year)[p + 2 := month][p + 3 := day][p + 4 := hour][p + 5 := minute]
  }

  /** GetDatetime reads back exactly what PutDatetime wrote. */
  lemma DatetimeRoundTrip(ctx: Context, data: seq<byte>, year: word, month: byte, day: byte, hour: byte, minute: byte)
    requires Valid(ctx, data)
    ensures Valid(ctx, PutDatetime(ctx, data, year, month, day, hour, minute))
    ensures GetDatetime(ctx, PutDatetime(ctx, data, year, month, day, hour, minute))
         == DateTime(year, month, day, hour, minute, 0, None)
  {
    var p := ctx.headersize + ctx.layout.datetime;
    var w := Put16(data, p, year);
    var r := PutDatetime(ctx, data, year, month, day, hour, minute);
    assert r[p] == w[p] && r[p + 1] == w[p + 1];
    assert LE16(r, p) == LE16(w, p);
  }

  /** The number of leading gas-mix slots, from slot `i` on and at most
      NGASMIXES, whose oxygen byte (the second byte of the slot) is nonzero. */
  function LeadingMixes(data: seq<byte>, base: nat, i: nat): (n: nat)
    requires i <= NGASMIXES
    requires base + 2 * NGASMIXES <= |data|
    ensures i <= n <= NGASMIXES
    ensures forall j :: i <= j < n ==> data[base + 2 * j + 1] != 0
    ensures n < NGASMIXES ==> data[base + 2 * n + 1] == 0
    decreases NGASMIXES - i
  {
    if i == NGASMIXES || data[base + 2 * i + 1] == 0 then i
    else LeadingMixes(data, base, i + 1)
  }

  /** The number of gas mixes of the dive: none when the layout has no gas-mix
      table, else the leading slots with a nonzero oxygen percentage. */
  function MixCount(ctx: Context, data: seq<byte>): (n: nat)
    requires Valid(ctx, data)
    ensures n <= NGASMIXES
    ensures ctx.layout.gasmix.None? ==> n == 0
    ensures ctx.layout.gasmix.Some? ==>
      && (forall j :: 0 <= j < n ==> data[ctx.headersize + ctx.layout.gasmix.value + 2 * j + 1] != 0)
      && (n < NGASMIXES ==> data[ctx.headersize + ctx.layout.gasmix.value + 2 * n + 1] == 0)
  {
    match ctx.layout.gasmix
    case None => 0
    case Some(o) => LeadingMixes(data, ctx.headersize + o, 0)
  }

  /** The layout offset of a 16-bit scalar field, or None for the other fields. */
  function OffsetOf(l: Layout, f: Field): Option<nat>
  {
    match f
    case DiveTime => l.divetime
    case MaxDepth => l.maxdepth
    case AvgDepth => l.avgdepth
    case TemperatureMinimum => l.temperature
    case Atmospheric => l.atmospheric
    case _ => None
  }

  /** The 16-bit scalar fields: the ones read as one little-endian word. */
  predicate IsScalar(f: Field)
  {
    f.DiveTime? || f.MaxDepth? || f.AvgDepth? || f.TemperatureMinimum? || f.Atmospheric?
  }

  /** A raw 16-bit field value tagged with the unit of its field. */
  function Scaled(f: Field, raw: word): Value
    requires IsScalar(f)
  {
    match f
    case DiveTime => Seconds(raw)
    case MaxDepth => Decimetres(raw)
    case AvgDepth => Decimetres(raw)
    case TemperatureMinimum => TenthsCelsius(raw)
    case Atmospheric => Millibar(raw)
  }

  /** The reported dive mode for a raw mode byte; Failure for a byte no layout has. */
  function ModeOf(divemode: nat): (r: Result<DiveMode, Status>)
    ensures r.Success? <==> divemode < |Table|
    ensures r.Failure? ==> r.error == DataFormat
    ensures r == Success(OpenCircuit) <==> divemode == SCUBA || divemode == NITROX
  {
    if divemode == SCUBA || divemode == NITROX then Success(OpenCircuit)
    else if divemode == GAUGE then Success(Gauge)
    else if divemode == FREEDIVE then Success(Freedive)
    else Failure(DataFormat)
  }

  /** Answers a field query. A gas-mix query (with `flags` the slot index)
      must name a slot that is present, as the decoder checks neither the
      gas-mix offset nor the index. */
  function GetField(ctx: Context, data: seq<byte>, f: Field, flags: nat): (r: Result<Value, Status>)
    requires Valid(ctx, data)
    requires f.GasMix? ==> ctx.layout.gasmix.Some? && flags < MixCount(ctx, data)
    ensures r.Failure? <==> f.OtherField? || (IsScalar(f) && OffsetOf(ctx.layout, f).None?)
    ensures r.Failure? ==> r.error == Unsupported
  {
    match f
    case DiveTime | MaxDepth | AvgDepth | TemperatureMinimum | Atmospheric =>
      (match OffsetOf(ctx.layout, f)
       case None => Failure(Unsupported)
       case Some(o) => Success(Scaled(f, LE16(data, ctx.headersize + o))))
    case GasMixCount => Success(Count(MixCount(ctx, data)))
    case GasMix =>
      var oxygen: int := data[ctx.headersize + ctx.layout.gasmix.value + 2 * flags + 1];
      Success(Mix(UsageNone, oxygen, 0, 100 - oxygen))
    case DiveModeField =>
      (match ModeOf(ctx.divemode)
       case Success(m) => Success(Mode(m))
       case Failure(s) => Failure(s))
    case OtherField => Failure(Unsupported)
  }

  /** Every fixed-offset read of a valid context stays inside the buffer. */
  lemma FixedReadsInBounds(ctx: Context, data: seq<byte>)
    requires Valid(ctx, data)
    ensures ctx.headersize + ctx.layout.datetime + DATETIME_SIZE <= |data|
    ensures forall f :: IsScalar(f) && OffsetOf(ctx.layout, f).Some? ==>
      ctx.headersize + OffsetOf(ctx.layout, f).value + 2 <= |data|
    ensures ctx.layout.gasmix.Some? ==> ctx.headersize + ctx.layout.gasmix.value + 2 * NGASMIXES <= |data|
  {
  }

  /** After a successful init, every fixed-offset read stays inside the buffer. */
  lemma InitReadsInBounds(data: seq<byte>)
    requires Init(data).Success?
    ensures
      var ctx := Init(data).value;
      && ctx.headersize + ctx.layout.datetime + DATETIME_SIZE <= |data|
      && (forall f :: IsScalar(f) && OffsetOf(ctx.layout, f).Some? ==>
            ctx.headersize + OffsetOf(ctx.layout, f).value + 2 <= |data|)
      && (ctx.layout.gasmix.Some? ==> ctx.headersize + ctx.layout.gasmix.value + 2 * NGASMIXES <= |data|)
  {
    FixedReadsInBounds(Init(data).value, data);
  }

  /** A scalar field reads back the word stored at its offset, in its unit. */
  lemma ScalarRoundTrip(ctx: Context, data: seq<byte>, f: Field, v: word)
    requires Valid(ctx, data) && IsScalar(f) && OffsetOf(ctx.layout, f).Some?
    ensures ctx.headersize + OffsetOf(ctx.layout, f).value + 2 <= |data|
    ensures Valid(ctx, Put16(data, ctx.headersize + OffsetOf(ctx.layout, f).value, v))
    ensures GetField(ctx, Put16(data, ctx.headersize + OffsetOf(ctx.layout, f).value, v), f, 0)
         == Success(Scaled(f, v))
  {
  }

  /** Freedive records have no gas mixes, atmospheric pressure or average depth;
      gauge records have no gas mixes. */
  lemma ModeOmissions(ctx: Context, data: seq<byte>, flags: nat)
    requires Valid(ctx, data)
    ensures ctx.divemode == FREEDIVE ==>
      && GetField(ctx, data, GasMixCount, flags) == Success(Count(0))
      && GetField(ctx, data, Atmospheric, flags) == Failure(Unsupported)
      && GetField(ctx, data, AvgDepth, flags) == Failure(Unsupported)
    ensures ctx.divemode == GAUGE ==> GetField(ctx, data, GasMixCount, flags) == Success(Count(0))
  {
  }

  /** The dive-mode field maps scuba and nitrox to open circuit, freedive and
      gauge to themselves, and never fails on a valid context. */
  lemma DiveModeReported(ctx: Context, data: seq<byte>, flags: nat)
    requires Valid(ctx, data)
    ensures GetField(ctx, data, DiveModeField, flags).Success?
    ensures GetField(ctx, data, DiveModeField, flags).value
         == Mode(if ctx.divemode <= NITROX then OpenCircuit else if ctx.divemode == FREEDIVE then Freedive else Gauge)
  {
  }

  /** The gas mix in slot `flags` has no usage, the slot's oxygen percentage,
      no helium, and the rest nitrogen; the slot's oxygen byte is nonzero. */
  lemma GasMixReported(ctx: Context, data: seq<byte>, flags: nat)
    requires Valid(ctx, data)
    requires ctx.layout.gasmix.Some? && flags < MixCount(ctx, data)
    ensures
      var oxygen: int := data[ctx.headersize + ctx.layout.gasmix.value + 2 * flags + 1];
      && oxygen != 0
      && GetField(ctx, data, GasMix, flags) == Success(Mix(UsageNone, oxygen, 0, 100 - oxygen))
  {
  }
}
