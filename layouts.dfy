/** The constant per-dive-mode layouts of the mode-specific header region. */
module Layouts {
  import opened Wrappers

  /** Dive modes, as stored in the logbook block. */
  const SCUBA: nat := 0
  const NITROX: nat := 1
  const FREEDIVE: nat := 2
  const GAUGE: nat := 3

  /** Number of gas-mix slots in the header region, each two bytes wide. */
  const NGASMIXES: nat := 2

  /** Width of the datetime record: a 16-bit year, then month, day, hour, minute. */
  const DATETIME_SIZE: nat := 6

  /**
   * Size of the mode-specific header region and the byte offsets of the fields
   * within it; `None` stands for an offset the mode does not define.
   */
  datatype Layout = Layout(
    headersize: nat,
    datetime: nat,
    divetime: Option<nat>,
    gasmix: Option<nat>,
    atmospheric: Option<nat>,
    maxdepth: Option<nat>,
    avgdepth: Option<nat>,
    temperature: Option<nat>)

  const ScubaLayout := Layout(92, 12, Some(20), Some(26), Some(30), Some(73), Some(75), Some(77))
  const NitroxLayout := Layout(92, 12, Some(20), Some(26), Some(30), Some(73), Some(75), Some(77))
  const FreediveLayout := Layout(38, 12, Some(20), None, None, Some(23), None, Some(25))
  const GaugeLayout := Layout(40, 12, Some(20), None, Some(22), Some(24), Some(26), Some(28))

  /** The layout table, indexed by dive mode. */
  const Table: seq<Layout> := [ScubaLayout, NitroxLayout, FreediveLayout, GaugeLayout]

  /** An optional field of `width` bytes lies inside a region of `size` bytes. */
  predicate Fits(offset: Option<nat>, width: nat, size: nat)
  {
    offset.None? || offset.value + width <= size
  }

  /** Every field a layout defines lies inside its header region. */
  predicate WellFormed(l: Layout)
  {
    && l.datetime + DATETIME_SIZE <= l.headersize
    && Fits(l.divetime, 2, l.headersize)
    && Fits(l.gasmix, 2 * NGASMIXES, l.headersize)
    && Fits(l.atmospheric, 2, l.headersize)
    && Fits(l.maxdepth, 2, l.headersize)
    && Fits(l.avgdepth, 2, l.headersize)
    && Fits(l.temperature, 2, l.headersize)
  }

  /** Every entry of the table is well formed: fixed-offset reads stay in the region. */
  lemma TableWellFormed()
    ensures |Table| == 4
    ensures forall mode :: 0 <= mode < |Table| ==> WellFormed(Table[mode])
  {
  }

  /** Scuba and nitrox share one layout; freedive lacks gas mixes, atmospheric
      pressure and average depth; gauge lacks gas mixes. */
  lemma TableOmissions()
    ensures Table[SCUBA] == Table[NITROX]
    ensures Table[FREEDIVE].gasmix.None? && Table[FREEDIVE].atmospheric.None? && Table[FREEDIVE].avgdepth.None?
    ensures Table[GAUGE].gasmix.None?
    ensures forall mode :: 0 <= mode < |Table| ==> Table[mode].divetime.Some? && Table[mode].maxdepth.Some? && Table[mode].temperature.Some?
  {
  }
}
