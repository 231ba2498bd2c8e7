# Cressi Goa dive-log decoder, modelled in Dafny

This project models the decoder for one dive record downloaded from a Cressi Goa
dive computer (`src/cressi_goa_parser.c` of libdivecomputer). A record is a byte
buffer. It starts with two length bytes, then an identifier block and a logbook
block of those lengths. After them comes a mode-specific header region and then the
sample region. The model covers three parts:

- **Header decoding** (`cressi_goa_init`). `Header.Init` checks the two length bytes,
  reads the dive mode from byte 2 of the logbook block, and selects one of the four
  constant layouts (`Layouts.Table`: scuba, nitrox, freedive, gauge). It also computes
  where the mode-specific region starts. Every failure is one of three tags
  (`InvalidLength`, `InvalidHeader`, `InvalidMode`). `Header.StatusOf` maps each tag to
  the single status the code returns, `DataFormat`.
- **Field queries** (`cressi_goa_parser_get_datetime`, `cressi_goa_parser_get_field`).
  These read a little-endian 16-bit word or a single byte at
  `headersize + layout offset`. A field whose offset the layout leaves undefined is
  `Unsupported`. The gas-mix count is the number of leading two-byte slots, at most
  two, whose oxygen byte is nonzero.
- **The sample walk** (`cressi_goa_parser_samples_foreach`). `Samples.DecodeSamples`
  is a `while` loop over the packed 16-bit sample words, with the code's local state
  (time accumulator, depth, gas mix, last reported gas mix, pending temperature). It
  returns the events the code hands to its callback, in order. It is proved equal to
  `Samples.Run`, a fold of the one-word transition `Samples.Step` over
  `Samples.Words`. The properties of the walk are lemmas about `Run`.

Values are in the record's integer units: decimetres, tenths of a degree Celsius,
millibar, oxygen percent, and seconds or milliseconds. The code turns them into
floating point by dividing by 10, 10, 1000 and 100.

For a surface interval the code adds the interval to the accumulator first and then
reports the synthetic time (lines 343-349). `Samples.SurfaceIntervalEvents` states this as
`Time(Ms(t + interval))`.

## Model

| member | source | states |
|---|---|---|
| Bytes.LE16 | src/cressi_goa_parser.c:329-331 | the word read at a position has the first byte as its low byte and the second as its high byte, so it is below 2^16 |
| Layouts.TableWellFormed | src/cressi_goa_parser.c:84-129 | in each of the four layouts, every defined offset plus its width (6 bytes for the datetime, 4 for the gas-mix slots, 2 for each word) lies inside the layout's header size |
| Layouts.TableOmissions | src/cressi_goa_parser.c:84-129 | scuba and nitrox share one layout; freedive has no gas mix, atmospheric pressure or average depth; gauge has no gas mix; every mode has dive time, maximum depth and temperature |
| Header.Init | src/cressi_goa_parser.c:131-178 | on success the context fits the buffer: the mode indexes the table, the layout is the mode's, and headersize + layout.headersize <= size; every failure is reported as DataFormat |
| Header.InitSucceedsIff | src/cressi_goa_parser.c:138-177 | init succeeds exactly when size >= 2, id_len >= 9, logbook_len >= 23, size >= 2 + id_len + logbook_len, the mode byte at 2 + id_len + 2 is below 4, and size >= headersize + layout.headersize; then headersize = 2 + id_len + logbook_len and the mode and layout are the byte's |
| Header.InitFrame | src/cressi_goa_parser.c:143-175 | a record assembled from an identifier block, a logbook block with a valid mode and a long enough body is accepted, with the block lengths and mode it was built from |
| Header.InitSplits | src/cressi_goa_parser.c:143-175 | every accepted record is such an assembly: blocks of the declared lengths, the mode in the logbook, a body holding the mode's header region |
| Fields.GetDatetime | src/cressi_goa_parser.c:209-227 | the date is a 16-bit year and single-byte month, day, hour and minute; seconds are 0 and there is no timezone |
| Fields.DatetimeRoundTrip | src/cressi_goa_parser.c:214-223 | reading the date and time returns exactly what was written at the layout's datetime offset |
| Fields.LeadingMixes | src/cressi_goa_parser.c:236-243 | the count is at most 2, every counted slot has a nonzero oxygen byte, and the first slot not counted (if any) has a zero one |
| Fields.MixCount | src/cressi_goa_parser.c:236-243 | 0 when the layout has no gas-mix offset, else the number of leading slots with a nonzero oxygen byte, at most 2 |
| Fields.GetField | src/cressi_goa_parser.c:229-305 | a query fails exactly for an unlisted field type or a scalar field whose layout offset is undefined, and then always with Unsupported; the dive-mode query never fails on a decoded context |
| Fields.ModeOf | src/cressi_goa_parser.c:283-297 | a mode byte maps to a dive mode exactly when it is below 4 (scuba and nitrox, and only they, to open circuit); any other byte is DataFormat |
| Fields.FixedReadsInBounds | src/cressi_goa_parser.c:214-221 | on a decoded context the 6 datetime bytes, each defined 2-byte field and both gas-mix slots lie inside the buffer |
| Fields.InitReadsInBounds | src/cressi_goa_parser.c:168-175 | after a successful init every fixed-offset read stays inside the buffer |
| Fields.ScalarRoundTrip | src/cressi_goa_parser.c:249-273 | dive time, maximum and average depth, minimum temperature and atmospheric pressure read back the 16-bit word stored at their offset, in seconds, decimetres, tenths of a degree or millibar |
| Fields.ModeOmissions | src/cressi_goa_parser.c:107-128 | in freedive the gas-mix count is 0 and atmospheric pressure and average depth are unsupported; in gauge the gas-mix count is 0 |
| Fields.DiveModeReported | src/cressi_goa_parser.c:283-297 | scuba and nitrox report open circuit, freedive reports freedive, gauge reports gauge; the default branch is unreachable after init |
| Fields.GasMixReported | src/cressi_goa_parser.c:277-282 | gas mix i has usage none, the slot's oxygen percent (nonzero for a counted slot), no helium, and 100 minus oxygen percent nitrogen |
| Samples.Interval | src/cressi_goa_parser.c:315 | the seconds per depth sample are positive: 2 in freedive mode, 5 otherwise |
| Samples.Ms | src/cressi_goa_parser.c:348 | a reported time is below 2^32 and equals seconds * 1000 while that product is below 2^32 |
| Samples.MsOfWrapped | src/cressi_goa_parser.c:317-348 | the millisecond value computed from the 32-bit accumulator equals the one computed from the unbounded time, so the model's unbounded accumulator loses nothing |
| Samples.Decode | src/cressi_goa_parser.c:329-357 | decoding a word keeps the last reported gas mix and never decreases the accumulator; it completes a record exactly for a non-temperature word, leaves a temperature pending exactly for a temperature word, and reports events of its own exactly for a surface interval |
| Samples.Record | src/cressi_goa_parser.c:359-385 | emitting a record changes only the pending-temperature flag (cleared) and the last reported gas mix (kept, or set to the current one, and always kept outside scuba and nitrox); it emits 2 to 4 events, starting with the record's time |
| Samples.Run | src/cressi_goa_parser.c:325-388 | the walk folds the one-word step over the words from the left; the accumulator never decreases (RunTime gives its exact value) |
| Samples.Words | src/cressi_goa_parser.c:324-329 | the walk reads (size - start) / 2 words, word i little-endian at start + 2i; a trailing odd byte is not read |
| Samples.DecodeWord | src/cressi_goa_parser.c:329-357 | decoding one word updates the accumulator, depth, gas mix and pending temperature, and returns the surface-interval events and the complete flag, as the transition `Decode` defines |
| Samples.EmitRecord | src/cressi_goa_parser.c:359-385 | a completed record's events and the new last-reported gas mix are those of `Record` |
| Samples.ProcessWord | src/cressi_goa_parser.c:329-385 | one pass of the loop body (decode, then emit a completed record) leaves the state and appends the events of `Step` |
| Samples.DecodeSamples | src/cressi_goa_parser.c:307-391 | the loop over the sample words returns exactly the events of `Run` over `Words` from the start state; the walk itself has no failure case |
| Samples.StepDecodes | src/cressi_goa_parser.c:333-357 | a depth word sets depth = payload bits 0-10 and gas mix = bit 11 and adds the interval (2 in freedive, 5 otherwise); a time word sets depth 0 and adds its whole payload; a temperature word only stores a pending temperature and emits nothing |
| Samples.RunTime | src/cressi_goa_parser.c:333-357 | after any walk the accumulator is its start plus the interval for each depth word and the payload of each time word |
| Samples.RecordOrder | src/cressi_goa_parser.c:343-385 | a completed record emits the surface-interval pair if any, then Time, then Temperature only if one is pending (clearing it), then Depth, then GasMix only in scuba or nitrox mode when the mix differs from the last reported |
| Samples.SurfaceIntervalEvents | src/cressi_goa_parser.c:341-357 | a time word with payload p > interval emits Time(t + interval), Depth 0, then Time(t + p); the accumulator ends at t + p with depth 0 |
| Samples.SurfaceIntervalExample | src/cressi_goa_parser.c:341-357 | payload 15 at the start of a gauge dive emits Time 5000 ms, Depth 0, Time 15000 ms, Depth 0 |
| Samples.PendingTemperatureDropped | src/cressi_goa_parser.c:338-340 | a temperature word at the end of the walk adds no event; it is left pending |
| Samples.StepTimes | src/cressi_goa_parser.c:343-362 | the times one word reports are in order and lie between the accumulator before and after it, below 2^32 ms |
| Samples.RunTimes | src/cressi_goa_parser.c:325-388 | over a walk whose accumulator stays below 2^32 ms, reported times never decrease |
| Samples.SampleTimesNondecreasing | src/cressi_goa_parser.c:307-391 | the times reported for a record never decrease while its total elapsed time stays below 2^32 ms |
| Samples.TimeWraps | src/cressi_goa_parser.c:336-362 | two gauge depth words from 4294962 s report 4294967000 ms and then 4704 ms: past 2^32 ms the reported time wraps and decreases |
| Samples.StepMixes | src/cressi_goa_parser.c:375-382 | one word reports at most one gas mix; it reports one only if it differs from the last reported, and then remembers it |
| Samples.RunMixes | src/cressi_goa_parser.c:375-382 | over a walk consecutive reported gas mixes differ, the first differs from the one reported before, and the last is remembered |
| Samples.NoGasMixOutsideOpenCircuit | src/cressi_goa_parser.c:376 | outside scuba and nitrox mode no GasMix event is emitted |
| Samples.GasMixReportedIff | src/cressi_goa_parser.c:319-382 | in scuba or nitrox mode a record reports its gas mix exactly when it differs from the last reported; with none reported yet (the initial state), the first record always reports it |
| Samples.TrailingByteIgnored | src/cressi_goa_parser.c:325 | appending one byte to a sample region of even length changes no event |
| Samples.SampleGasMixes | src/cressi_goa_parser.c:375-382 | over a record consecutive reported gas mixes differ, and freedive and gauge records report none |
| Scenarios.GaugeRecord | src/cressi_goa_parser.c:118-128 | a gauge record with 1013 mbar, maximum depth 305 dm and one depth word of 100 dm decodes to mode gauge, those two fields, no gas mixes, and exactly the events Time 5000 ms, Depth 100 dm |

## Left out

- Parser creation and allocation, the parser vtable and the instance check (lines 29, 72-82, 180-207). They belong to the library's framework and to memory management.
- The `ERROR` diagnostics and the library context. They do not change any result.
- Floating-point conversions (lines 257-281, 366, 372). Values stay in the record's integer units; the scale of each is given in the datatypes.
- The `value == NULL` and `datetime == NULL` checks (lines 216, 247). Results are returned as values, so there is no output pointer.
- The sample callback and its user data. The events are returned as a sequence in callback order.
- The unused `version` field (line 64).
- The buffer size is an unsigned 32-bit value in the code. The model uses unbounded lengths, which only differ for records of 4 GiB or more.
- Header.StatusOf: status codes other than DataFormat and Unsupported (success is the Success case of the result, and NOMEMORY belongs to allocation).
- Fields.GetField: the code counts gas mixes before every query. The model counts them only for the gas-mix queries, because the count does not change any other answer.
- Fields.GetField: the gas-mix query requires a defined gas-mix offset and an index below the gas-mix count. The code checks neither and relies on its callers.
- Samples.DecodeSamples: requires only that the mode-specific header region fits in the buffer. That is the one fact about the context the walk uses, and a successful init guarantees it.
- Samples.SampleTimesNondecreasing: holds only while the elapsed time * 1000 stays below 2^32. The code computes the millisecond value in 32-bit unsigned arithmetic, so beyond that the reported time wraps. `Samples.Ms` models the wrap exactly, `Samples.MsOfWrapped` shows a wrapped accumulator gives the same value, and `Samples.TimeWraps` exhibits a decrease once the bound is passed.
