/** Header validation and layout selection (cressi_goa_init). */
module Header {
  import opened Wrappers
  import opened Bytes
  import opened Layouts

  /** Minimum length of the identifier block. */
  const MIN_ID_LEN: nat := 9
  /** Minimum length of the logbook block (SZ_HEADER). */
  const SZ_HEADER: nat := 23
  /** Offset of the dive-mode byte inside the logbook block. */
  const MODE_OFFSET: nat := 2

  /** Why a record was refused; each reason is reported with one status. */
  datatype Error = InvalidLength | InvalidHeader | InvalidMode

  /** The library status codes this decoder reports besides success. */
  datatype Status = DataFormat | Unsupported

  /** Every header failure is reported to the caller as a data-format error. */
  function StatusOf(e: Error): (s: Status)
  {
    match e
    case InvalidLength => DataFormat
    case InvalidHeader => DataFormat
    case InvalidMode => DataFormat
  }

  /** What a successful init records: the layout, where the mode-specific
      region begins, and the dive mode. */
  datatype Context = Context(layout: Layout, headersize: nat, divemode: nat)

  /** A context fits its record: the mode selects the layout and the whole
      mode-specific header region lies inside the buffer. */
  ghost predicate Valid(ctx: Context, data: seq<byte>)
  {
    && ctx.divemode < |Table|
    && ctx.layout == Table[ctx.divemode]
    && WellFormed(ctx.layout)
    && ctx.headersize + ctx.layout.headersize <= |data|
  }

  /** Reads the two length prefixes and the dive mode, and checks that the
      declared blocks and the mode's header region fit in the buffer. */
  function Init(data: seq<byte>): (r: Result<Context, Error>)
    ensures r.Success? ==> Valid(r.value, data)
    ensures r.Failure? ==> StatusOf(r.error) == DataFormat
  {
    if |data| < 2 then Failure(InvalidLength)
    else
      var idLen: nat := data[0];
      var logbookLen: nat := data[1];
      if idLen < MIN_ID_LEN || logbookLen < SZ_HEADER then Failure(InvalidHeader)
      else if |data| < 2 + idLen + logbookLen then Failure(InvalidLength)
      else
        var divemode: nat := data[2 + idLen + MODE_OFFSET];
        if divemode >= |Table| then Failure(InvalidMode)
        else
          var layout := Table[divemode];
          var headersize := 2 + idLen + logbookLen;
          if |data| < headersize + layout.headersize then Failure(InvalidLength)
          else
            TableWellFormed();
            Success(Context(layout, headersize, divemode))
  }

  /** The conditions under which a record is accepted, stated on the buffer. */
  ghost predicate Accepted(data: seq<byte>)
  {
    && |data| >= 2
    && data[0] >= MIN_ID_LEN
    && data[1] >= SZ_HEADER
    && |data| >= 2 + data[0] as nat + data[1] as nat
    && data[2 + data[0] + MODE_OFFSET] < |Table|
    && |data| >= 2 + data[0] as nat + data[1] as nat + Table[data[2 + data[0] + MODE_OFFSET]].headersize
  }

  /** Init succeeds exactly on accepted records, and then the header size is
      2 + id_len + logbook_len and the layout is the one the mode byte selects. */
  lemma InitSucceedsIff(data: seq<byte>)
    ensures Init(data).Success? <==> Accepted(data)
    ensures Init(data).Success? ==>
      var ctx := Init(data).value;
      && ctx.headersize == 2 + data[0] as nat + data[1] as nat
      && ctx.divemode == data[2 + data[0] + MODE_OFFSET]
      && ctx.layout == Table[ctx.divemode]
  {
  }

  /** A record assembled from an identifier block, a logbook block and a body. */
  function Frame(id: seq<byte>, logbook: seq<byte>, body: seq<byte>): (r: seq<byte>)
    requires |id| < 0x100 && |logbook| < 0x100
    ensures |r| == 2 + |id| + |logbook| + |body|
  {
    [|id| as byte, |logbook| as byte] + id + logbook + body
  }

  /** Init accepts every well-formed frame and recovers its mode and header size. */
  lemma {:induction false} InitFrame(id: seq<byte>, logbook: seq<byte>, body: seq<byte>)
    requires MIN_ID_LEN <= |id| < 0x100 && SZ_HEADER <= |logbook| < 0x100
    requires logbook[MODE_OFFSET] < |Table|
    requires |body| >= Table[logbook[MODE_OFFSET]].headersize
    ensures Init(Frame(id, logbook, body))
         == Success(Context(Table[logbook[MODE_OFFSET]], 2 + |id| + |logbook|, logbook[MODE_OFFSET]))
  {
    var data := Frame(id, logbook, body);
    assert data[0] == |id| && data[1] == |logbook|;
    assert data[2 + |id| + MODE_OFFSET] == logbook[MODE_OFFSET];
  }

  /** Conversely, every record Init accepts is such a frame: its blocks have the
      declared lengths, the logbook holds the mode, and the body holds the
      mode's whole header region. */
  lemma {:induction false} InitSplits(data: seq<byte>)
    requires Init(data).Success?
    ensures
      var ctx := Init(data).value;
      var id := data[2..2 + data[0]];
      var logbook := data[2 + data[0]..ctx.headersize];
      var body := data[ctx.headersize..];
      && MIN_ID_LEN <= |id| && SZ_HEADER <= |logbook|
      && logbook[MODE_OFFSET] == ctx.divemode
      && |body| >= ctx.layout.headersize
      && data == Frame(id, logbook, body)
  {
    var ctx := Init(data).value;
    var id := data[2..2 + data[0]];
    var logbook := data[2 + data[0]..ctx.headersize];
    var body := data[ctx.headersize..];
    assert data == data[..2] + id + logbook + body;
  }
}
