/** A complete gauge-mode record, decoded end to end. */
module Scenarios {
  import opened Wrappers
  import opened Bytes
  import opened Layouts
  import opened Header
  import opened Fields
  import opened Samples

  /** An identifier block of nine zero bytes. */
  function Id(): (id: seq<byte>)
    ensures |id| == MIN_ID_LEN
  {
    seq(MIN_ID_LEN, i => 0)
  }

  /** A logbook block of minimum length that declares gauge mode. */
  function GaugeLogbook(): (lb: seq<byte>)
    ensures |lb| == SZ_HEADER && lb[MODE_OFFSET] == GAUGE
  {
    seq(SZ_HEADER, i => 0)[MODE_OFFSET := GAUGE]
  }

  /** A gauge header region holding 1013 mbar and a maximum depth of 30.5 m,
      followed by one depth word for 10.0 m on gas mix 0. */
  function GaugeBody(): (body: seq<byte>)
    ensures |body| == GaugeLayout.headersize + 2
  {
    Put16(Put16(seq(GaugeLayout.headersize + 2, i => 0), 22, 1013), 24, 305)[40 := 0x90][41 := 0x01]
  }

  lemma GaugeRecord()
    ensures Init(Frame(Id(), GaugeLogbook(), GaugeBody())).Success?
    ensures
      var data := Frame(Id(), GaugeLogbook(), GaugeBody());
      var ctx := Init(data).value;
      && ctx.divemode == GAUGE
      && GetField(ctx, data, Atmospheric, 0) == Success(Millibar(1013))
      && GetField(ctx, data, MaxDepth, 0) == Success(Decimetres(305))
      && GetField(ctx, data, DiveModeField, 0) == Success(Mode(Gauge))
      && GetField(ctx, data, GasMixCount, 0) == Success(Count(0))
      && SampleEvents(ctx, data) == [Time(5000), Depth(100)]
  {
    var data := Frame(Id(), GaugeLogbook(), GaugeBody());
    InitFrame(Id(), GaugeLogbook(), GaugeBody());
    var ctx := Init(data).value;
    var base := 2 + MIN_ID_LEN + SZ_HEADER;
    var body := GaugeBody();
    assert data[base..] == body;
    assert data[base + 22] == body[22] && data[base + 23] == body[23];
    assert data[base + 24] == body[24] && data[base + 25] == body[25];
    var words := Words(data, base + GaugeLayout.headersize);
    assert |words| == 1;
    assert data[base + 40] == 0x90 && data[base + 41] == 0x01;
    assert words == [400];
    assert words[..0] == [];
  }
}
