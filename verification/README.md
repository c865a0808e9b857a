# Verified models of OpenAgentFleet's core algorithms

This project models, in Dafny 4.11, five parts of OpenAgentFleet whose correctness cannot be
read off one function, and proves what each of them is for.

* **The pairing QR encoder** (`client/src/pairingQr.ts`). The arithmetic tables are shown to be
  the field GF(256) modulo 0x11d, from carry-less multiplication up. The Reed-Solomon loop is
  polynomial division with a unique, linear remainder. Bit packing, block interleaving, zig-zag
  placement, the function patterns, the penalty and the choice of mask are the loops of the
  encoder over arrays and grids. Masks, function patterns and constant words are also given as
  they are drawn and printed, apart from the rules that compute them. The end result: a decoder that sees nothing but the finished
  grid gives back exactly the payload, for every payload that fits, and a symbol is produced
  exactly when some version and level fit.
* **Workflow Markdown and cron** (`client/src/workflowTemplates.ts`). The exporter and the
  importer's line-driven state machine are proved to be exact inverses for a list of valid
  templates exactly when every template is free of the characters the format cannot carry.
  Re-importing an exported import is stable. A file written by hand is imported as its outline
  means. The simple schedules mean the same minutes as the cron expressions they stand for, and
  every expression the client accepts is one the scheduler understands and fires.
* **The turn queue** (`internal/coordinator/queue.go`), as a transition system over every
  interleaving of submits, workers and cancellations, and as the objects whose methods are the
  regions under the mutex. One turn at a time per agent, in submission order; one result per
  job; a job cancelled before its start never runs; no lost wake-up; the queue drains.
* **Computer checkpoints, the status probe and the JSON writer** (`internal/compute/snapshots.go`,
  `internal/compute/docker.go`). Every Docker command may fail, fail after taking effect, or be
  the last thing the process does; the guest keeps writing while it is not paused. A catalogued
  checkpoint always holds exactly the state of the computer at one moment. Status callers share
  a single probe. The JSON writer and a reader after section 7 of RFC 8259 undo each other
  exactly on valid UTF-8.
* **The Colima profile editors** (`internal/compute/colima_mounts.go`,
  `internal/compute/colima_resources.go`): what an edit establishes, that a second edit changes
  nothing, and that everything else stays.

`dafny verify dfyconfig.toml` checks the whole project.

## Where the code and its own promises differ

The models follow the code. These properties are false of it; each has an input for which it
fails and the exact condition under which it holds.

* **Generator order.** The generator is stored lowest degree first and the division loop reads
  it highest degree first, so codewords do not vanish at the roots section 7.5.2 of ISO/IEC
  18004:2015 asks for. `ReedSolomon.CodewordWithoutRoot` gives a short block and
  `ReedSolomon.UnitMissesRoot` one of every length; `ReedSolomon.CodewordsHaveRootsExactly` says
  for which numbers of check bytes the property holds, and `QrTables.NoLayoutHasRoots` that it
  fails for the blocks of every version and level. `ReedSolomon.ReversedGeneratorHasRoots` shows
  that the other order has the roots. Everything else about the division holds for any divisor.
* **Exact export and import.** The comments promise exactness. It holds if and only if no name
  has a control character or line separator, no body has a control character other than a line
  feed or tab, and no zone has a line break or is written as inline code
  (`WorkflowRoundTrip.RoundTrip`). `WorkflowExamples.CarriageReturnIsLost`,
  `WorkflowExamples.LineSeparatorIsLost` and `WorkflowExamples.CodedZoneIsUnstable` are valid
  templates that change.
* **Adding mounts.** A `writable:` line under no location, or after an inline empty list, falls
  to the last added entry and can make it read-only; the next call then refuses it.
  `ColimaMountsKept.StrayExample` is a file for which this happens. A path whose entry, once
  taking off quotes has uncovered white space, no longer covers it is found missing again
  (`ColimaMountsKept.UnstableExample`). `ColimaMountsKept.AddedMountsServe` gives the exact
  condition for any paths, `ColimaMountsKept.OneMountServes` for a single one.
* **Starting from a checkpoint.** The image to run is asked for by reading the catalogue again,
  and a catalogue that cannot be read counts as one without an active checkpoint: the computer
  then starts from the base image, and a restore reports that it started.
  `Snapshots.UnreadableCatalog` is such a state. The image run is the active one if and only if
  the catalogue was read for the run or the two images are the same
  (`Snapshots.RunImageIsKept`, `SnapshotStore.Computer.Start`), and after a restore the captured
  files are back if and only if it was read or the base image holds the same files
  (`SnapshotStore.Computer.RestoreSnapshot`).
* **Restoring a profile** whose old volume cannot be removed unpacks the checkpoint over what is
  left of it. Every captured file is back, and the profile is the captured one if and only if
  nothing was left at a path of its own (`SnapshotStore.Computer.ReplaceProfile`, and
  `SnapshotStore.Computer.RestoreSnapshot` for the whole state). `SnapshotStore.InexactRestore`
  is a profile with such a path.
* **A lone tilde** as a mount location stands for a directory named ~ below the home directory,
  not for the home directory; every other tilde location stands for the home directory joined
  with the rest (`ColimaMountsKept.TildeIsHomeExactly`, and `ColimaMountsKept.LoneTilde` at a
  concrete home).

Not a broken promise, but easy to misread: an update that grows a disk reports the size the disk
had, as the repository's own tests expect. `ColimaResources.ReportIsCurrent` says exactly when the
report is the size now in the file, and `ColimaResources.GrowingDisk` is a file for which it is not.

## Files

| files | part |
|---|---|
| `Common` | the option type and distinctness |
| `Gf256`, `ReedSolomon` | field and code of the QR encoder |
| `BitStream`, `Interleave` | payload to codewords |
| `QrTables`, `QrLayout`, `QrCapacity`, `QrReserved` | versions, regions of the symbol, and the count of its free modules |
| `QrPlacement`, `QrMasks`, `QrMatrix`, `QrPenalty`, `QrSymbol` | filling, masking, choosing and reading a symbol |
| `QrPatterns` | what the finished patterns and constant words look like |
| `Text`, `Cron`, `CronMeaning` | strings as the client sees them, cron expressions and when they fire |
| `WorkflowByHand`, `WorkflowShapes` | files written by hand, and the shapes of lines |
| `WorkflowMarkdown`, `WorkflowLines`, `WorkflowScan`, `WorkflowRoundTrip`, `WorkflowExamples`, `WorkflowSelection` | exporter, importer, their round trip, templates that change, and the choice of routines |
| `TurnQueueModel`, `TurnQueueRuns`, `TurnQueueObjects` | transition system, its runs, and objects of the turn queue |
| `GoText`, `Paths` | Go's TrimSpace and path/filepath |
| `Snapshots`, `SnapshotStore` | catalogue and lifecycle of checkpoints |
| `StatusProbe` | single-flight status |
| `Utf8`, `JsonString`, `JsonBody` | UTF-8, JSON strings and objects |
| `ColimaResources`, `ColimaMounts`, `ColimaMountsKept`, `ColimaMountsText` | profile editors |

## Model

| member | source | states |
|---|---|---|
| Gf256.BuildTables | client/src/pairingQr.ts:10-21 | the loop fills EXP with the powers of x, repeated with period 255, and LOG with their exponents |
| Gf256.GfMul | client/src/pairingQr.ts:23-26 | the product through the tables is multiplication in GF(256) |
| Gf256.MulIsCarrylessRemainder | client/src/pairingQr.ts:10-26 | that multiplication is the carry-less product modulo 0x11d: the product leaves it as remainder, and no other byte |
| Gf256.MulCommutes | client/src/pairingQr.ts:23-26 | multiplication commutes |
| Gf256.MulAssociates | client/src/pairingQr.ts:23-26 | multiplication associates |
| Gf256.MulXorLeft | client/src/pairingQr.ts:23-26 | multiplication distributes over addition |
| Gf256.NoZeroDivisors | client/src/pairingQr.ts:23-26 | a product is zero only if a factor is |
| Gf256.NoShortPeriod | client/src/pairingQr.ts:14-19 | no power of x below the 255th is one |
| Gf256.EveryByteIsAPower | client/src/pairingQr.ts:14-19 | every non-zero byte is a power of x, so LOG has no hole |
| Gf256.LogOfExp | client/src/pairingQr.ts:14-19 | the logarithm of a power is its exponent |
| ReedSolomon.GeneratorPoly | client/src/pairingQr.ts:153-164 | the nested loop computes the generator, lowest degree first |
| ReedSolomon.GeneratorIsFactorProduct | client/src/pairingQr.ts:153-164 | it is the product of (x + x^i), i below the degree |
| ReedSolomon.GeneratorRoots | client/src/pairingQr.ts:153-164 | it vanishes at those powers and nowhere else |
| ReedSolomon.CheckBytesOf | client/src/pairingQr.ts:166-179 | the shift register leaves the check bytes of the generator's stored coefficients |
| ReedSolomon.DivisionWithRemainder | client/src/pairingQr.ts:166-179 | data times x^n is quotient times the monic divisor plus the check bytes, for every divisor and length |
| ReedSolomon.CodewordIsMultiple | client/src/pairingQr.ts:166-179 | data followed by its check bytes is a multiple of the divisor |
| ReedSolomon.RemainderIsUnique | client/src/pairingQr.ts:166-179 | no other check bytes make it one |
| ReedSolomon.CheckBytesAreLinear | client/src/pairingQr.ts:166-179 | the check bytes of an exclusive or are the exclusive or of the check bytes |
| ReedSolomon.CodewordVanishesAt | client/src/pairingQr.ts:166-179 | where a codeword vanishes, in terms of its quotient and the divisor |
| ReedSolomon.VanishesAtFirstRoot | client/src/pairingQr.ts:158-175 | when a codeword of the encoder vanishes at the first root, for every length and number of check bytes |
| ReedSolomon.ForwardRoots | client/src/pairingQr.ts:158-175 | the roots of the generator read in the order of the division loop are the inverse powers |
| ReedSolomon.CodewordWithoutRoot | client/src/pairingQr.ts:158-175 | the block [1] with two check bytes becomes [1, 3, 1], which is 3 at the first root |
| ReedSolomon.CodewordsHaveRootsExactly | client/src/pairingQr.ts:158-175 | for which numbers of check bytes all codewords have the roots of section 7.5.2 of ISO/IEC 18004:2015; for the others, blocks of every length have codewords without them |
| ReedSolomon.UnitMissesRoot | client/src/pairingQr.ts:158-175 | the block of zeros and a final one is such a block, at the first or second root |
| QrTables.NoLayoutHasRoots | client/src/pairingQr.ts:36-118 | at every version and level, blocks of the layout's own lengths have codewords without the roots |
| ReedSolomon.ReversedGeneratorHasRoots | client/src/pairingQr.ts:158-175 | with the coefficients in the other order all codewords have them |
| BitStream.PushBits | client/src/pairingQr.ts:181-185 | appends the low bits of a value, highest first |
| BitStream.NumberOfBits | client/src/pairingQr.ts:181-185 | those bits read back as the value |
| BitStream.BitsToBytes | client/src/pairingQr.ts:187-197 | packs bits into bytes, the last filled with zeros |
| BitStream.BytesOfBytesToBits | client/src/pairingQr.ts:187-197 | packing undoes unpacking |
| BitStream.EncodeData | client/src/pairingQr.ts:199-218 | mode, count, payload, terminator and alternating pads fill the capacity |
| BitStream.ParseEncoded | client/src/pairingQr.ts:199-218 | parsing mode, count and bytes of the encoded data gives back the payload |
| BitStream.EncodedIsMoved | client/src/pairingQr.ts:199-218 | for every payload that fits, the codewords are 0100, the length and the payload moved down by half a byte, four zero bits, and 236 and 17 in turn |
| Interleave.CutBlocks | client/src/pairingQr.ts:220-231 | the blocks are the data cut by the layout's sizes, each with its check bytes |
| Interleave.InterleaveBlocks | client/src/pairingQr.ts:220-243 | the column loops over the blocks give the interleaved codewords |
| Interleave.RowsReadBack | client/src/pairingQr.ts:232-241 | a reader of columns undoes the column order for any row lengths |
| Interleave.InterleavedReadsBack | client/src/pairingQr.ts:220-243 | it gives back the data and every block's check bytes, for any layout of two group sizes |
| Interleave.DataPartPermutes | client/src/pairingQr.ts:232-238 | the data part is a permutation of the data |
| Interleave.InterleavedLength | client/src/pairingQr.ts:220-243 | its length is the data codewords plus blocks times check bytes |
| QrTables.LayoutFacts | client/src/pairingQr.ts:36-118 | every layout of versions 1 to 20 fills its symbol's codewords and has the sizes the loops need |
| QrTables.AlignmentFacts | client/src/pairingQr.ts:120-141 | the alignment centres lie clear of the edges and of the timing lines |
| QrPatterns.CentresByStep | client/src/pairingQr.ts:120-141 | the centres are six and, from the far edge backwards, in equal steps computed from the version |
| QrPatterns.BlocksAreEven | client/src/pairingQr.ts:36-118 | the blocks of every layout share the data codewords out evenly, the shorter first |
| QrPatterns.CountBitsSuffice | client/src/pairingQr.ts:199-203 | the length has eight bits exactly when eight bits can count the data of the version |
| QrLayout.WalkVisitsOnce | client/src/pairingQr.ts:500-514 | for every odd size from nine the zig-zag walk visits each cell outside column 6 exactly once |
| QrLayout.WalkAt | client/src/pairingQr.ts:500-514 | the cell after any number of steps: pairs from the right, over column 6, first upwards and then in turns, right before left |
| QrLayout.FreeWalkCells | client/src/pairingQr.ts:500-514 | its free part is every module that is not reserved, once |
| QrCapacity.ReservedCovered | client/src/pairingQr.ts:479-494 | every reserved module lies in one of the listed rectangles |
| QrReserved.ReservedIffBlock | client/src/pairingQr.ts:479-494 | outside column 6 a module is reserved exactly when it is in one of those rectangles |
| QrReserved.BlocksAreTight | client/src/pairingQr.ts:479-494 | the rectangles do not overlap: they cover as many modules as their areas |
| QrReserved.SymbolHoldsCodewords | client/src/pairingQr.ts:496-514 | the free modules of every version are exactly as many as the bits of its codewords and its remainder bits |
| QrSymbol.BitsFillSymbol | client/src/pairingQr.ts:496-514 | so every free module takes a bit and every bit a free module |
| QrPlacement.SetModule | client/src/pairingQr.ts:262-271 | writes and reserves one module and no other |
| QrPlacement.PlaceFinder | client/src/pairingQr.ts:273-295 | draws a finder and its separator inside the grid, and touches nothing else |
| QrPlacement.PlaceAlignment | client/src/pairingQr.ts:297-310 | draws an alignment pattern and touches nothing else |
| QrPlacement.PlaceFormat | client/src/pairingQr.ts:341-380 | reserves or writes the two copies of the format bits, never another module |
| QrPlacement.FormatBitsReadBack | client/src/pairingQr.ts:245-252 | level and mask can be read back from the format bits |
| QrPlacement.PlaceVersion | client/src/pairingQr.ts:382-391 | writes and reserves the two version blocks |
| QrPatterns.FormatWords | client/src/pairingQr.ts:245-252 | the sixteen format words are those of table C.1 of ISO/IEC 18004:2015 |
| QrPatterns.FormatPlaces | client/src/pairingQr.ts:341-380 | the thirty modules the format bits stand in, from the lowest bit up |
| QrPatterns.FormatStands | client/src/pairingQr.ts:341-380 | in a finished symbol every format bit stands in both its places |
| QrPatterns.VersionWords | client/src/pairingQr.ts:254-260 | the version words are those of table D.1 |
| QrPatterns.VersionStands | client/src/pairingQr.ts:382-391 | in the finished patterns every version bit stands in both blocks |
| QrPatterns.FindersStand | client/src/pairingQr.ts:273-295 | in the finished patterns the three finders and separators look as drawn: no later pattern damages them |
| QrPatterns.AlignmentsStand | client/src/pairingQr.ts:297-318 | every alignment pattern off the finders looks as drawn, also across a timing line |
| QrPatterns.TimingStands | client/src/pairingQr.ts:479-494 | the timing lines alternate between the separators |
| QrPatterns.DarkModuleStands | client/src/pairingQr.ts:479-494 | the module at row 4v + 9 and column 8 is dark |
| QrMatrix.FormatIsReserved | client/src/pairingQr.ts:341-380 | every module the format bits are written to is reserved, so writing them never touches a data module |
| QrMatrix.PlaceFunctionPatterns | client/src/pairingQr.ts:479-494 | afterwards every module is its function pattern and marked exactly when reserved |
| QrMatrix.FillCodewords | client/src/pairingQr.ts:500-514 | the k-th free module of the walk takes bit k and reserved modules stay |
| QrMasks.MaskIsTile | client/src/pairingQr.ts:320-338 | each of the eight rules draws its tile, which is given module by module, all over the plane |
| QrMatrix.MaskedCopy | client/src/pairingQr.ts:519-526 | a masked copy is inverted in exactly the free modules where the tile of the mask is dark |
| QrMatrix.Candidate | client/src/pairingQr.ts:518-527 | a candidate is the symbol of its version, level, mask and bits, inverted by the tile of the mask |
| QrMatrix.SymbolUnique | client/src/pairingQr.ts:472-535 | there is only one such symbol |
| QrPenalty.ScanRuns | client/src/pairingQr.ts:396-417 | the scan of a line charges its runs |
| QrPenalty.ChargesMaximalRuns | client/src/pairingQr.ts:396-417 | the charge is length minus two for each maximal run of five or more, and nothing else |
| QrPenalty.CountFinder | client/src/pairingQr.ts:430-456 | counts the places where a finder and four light modules meet, on either side |
| QrPenalty.FinderHitsByModule | client/src/pairingQr.ts:431-453 | those places are the module comparisons of the loop |
| QrPatterns.PenaltyFinderIsDrawn | client/src/pairingQr.ts:430-437 | what is looked for is the middle line of a finder |
| QrPenalty.Penalty | client/src/pairingQr.ts:393-470 | the loops add up the penalty of the grid |
| QrPenalty.PenaltyByFeatures | client/src/pairingQr.ts:393-470 | the score is the runs, three for each place of a block, forty for each place of a finder-like pattern, and ten for each five percent off balance |
| QrSymbol.BuildMatrix | client/src/pairingQr.ts:472-535 | returns the first of the eight masked symbols with least penalty |
| QrSymbol.DecodeSymbol | client/src/pairingQr.ts:472-535 | reading the mask and level from the grid, unmasking, walking, de-interleaving and parsing gives the payload, for every version, level and mask |
| QrSymbol.PairingQr | client/src/pairingQr.ts:574-587 | a symbol comes back exactly when some version and level fit; it decodes to the bytes and uses the first fit |
| Cron.ValidCronField | client/src/workflowTemplates.ts:61-86 | the loop over comma lists, steps and ranges accepts exactly the valid fields |
| CronMeaning.NumbersAccepted | client/src/workflowTemplates.ts:92-100 | five numbers are accepted exactly when they are a minute, hour, day, month and weekday, and fire at that minute of that month on the day or the weekday |
| CronMeaning.StarLeavesDay | internal/domain/cron.go:66-74 | with a star for the weekday only the day counts |
| CronMeaning.StarLeavesWeekday | internal/domain/cron.go:66-82 | with a star for the day only the weekday counts, Sunday also as seven |
| CronMeaning.LengthIsLimited | client/src/workflowTemplates.ts:92-100 | five valid fields are accepted exactly up to 256 bytes |
| CronMeaning.FieldFires | internal/domain/cron.go:84-132 | a field the client accepts is understood by the scheduler, matches only values of its range and at least one |
| CronMeaning.AcceptedFires | internal/domain/cron.go:56-82 | every expression the client accepts fires at some moment |
| CronMeaning.RangeField | internal/domain/cron.go:84-132 | a range with a step is accepted and matches exactly as its three numbers say |
| CronMeaning.StepField | internal/domain/cron.go:84-132 | so does a star with a step |
| CronMeaning.ListField | internal/domain/cron.go:84-132 | a list is accepted when its parts are and matches what either does |
| CronMeaning.SignedNumbers | client/src/workflowTemplates.ts:53-59 | digits with or without a sign are a number |
| Cron.NormalizeTwice | client/src/workflowTemplates.ts:88-100 | normalising is idempotent and keeps validity |
| Cron.ClockRoundTrip | client/src/workflowTemplates.ts:113-124 | a formatted clock time parses back |
| CronMeaning.ClockAccepted | client/src/workflowTemplates.ts:113-120 | which digits around a colon are a clock time |
| Cron.NumberField | internal/domain/cron.go:84-132 | a valid numeric field matches exactly its number |
| Cron.SameMinutes | client/src/workflowTemplates.ts:126-155 | when an expression is read as a simple schedule, that schedule's cron fires at exactly the same minutes |
| Cron.ScheduleRoundTrip | client/src/workflowTemplates.ts:126-155 | a schedule comes back from its cron with its time padded |
| WorkflowMarkdown.StripControlCharacters | client/src/workflowTemplates.ts:192-204 | the loop drops control characters, keeping line feeds and tabs when asked |
| WorkflowMarkdown.ImportWorkflowMarkdown | client/src/workflowTemplates.ts:279-383 | the two loops scan the lines with their flags and collect templates, errors and warnings |
| WorkflowByHand.ImportByHand | client/src/workflowTemplates.ts:279-388 | any file outlined as sections with notes, fenced bodies and a bare one is imported as its outline means: last cron and zone given, in either spelling, lines of all bodies, warnings for unknown keys, errors for refused templates, in order |
| WorkflowByHand.BareBodyByHand | client/src/workflowTemplates.ts:279-388 | the instructions of a section with a bare body are its lines, trimmed, whatever they are but headings of level one or two |
| WorkflowShapes.HeadingShape | client/src/workflowTemplates.ts:311-313 | a heading is one to six number signs, white space and a text on one line |
| WorkflowShapes.HeadingReads | client/src/workflowTemplates.ts:311-313 | and every such line is one |
| WorkflowShapes.BulletShape | client/src/workflowTemplates.ts:253-257 | a bullet is a mark, white space, a key up to the first colon and a value on one line |
| WorkflowShapes.BulletReads | client/src/workflowTemplates.ts:253-257 | and every such line is one |
| WorkflowShapes.FenceShape | client/src/workflowTemplates.ts:213 | a fence is up to three blanks, three or more backticks or tildes and at most one word |
| WorkflowShapes.FenceReads | client/src/workflowTemplates.ts:213 | and every such line is one |
| WorkflowShapes.ProblemsAre | client/src/workflowTemplates.ts:169-187 | the limits a template is refused for |
| WorkflowShapes.BytesAreUtf8 | client/src/workflowTemplates.ts:49-51 | the length limited is that of the UTF-8 encoding |
| WorkflowLines.ExportSplits | client/src/workflowTemplates.ts:231-251 | the exported file consists of the preamble's and the sections' lines |
| WorkflowShapes.HeaderIs | client/src/workflowTemplates.ts:231-248 | the header of a printed section, character by character |
| WorkflowShapes.SectionIs | client/src/workflowTemplates.ts:231-249 | a printed section is its header and its body, fenced when it needs a fence |
| WorkflowShapes.FencedWhen | client/src/workflowTemplates.ts:213-225 | a body is fenced exactly when it has white space at an end or a line that would be read as a heading or a fence |
| WorkflowShapes.FenceIsShortest | client/src/workflowTemplates.ts:226-229 | the fence is three backticks, or one more than the longest run in the body |
| WorkflowShapes.ScheduleIsDescribed | client/src/workflowTemplates.ts:157-167 | the words that describe a simple schedule |
| WorkflowScan.NoLineCloses | client/src/workflowTemplates.ts:213-229 | no line of a body closes the fence chosen for it |
| WorkflowScan.ScanSection | client/src/workflowTemplates.ts:279-351 | reading a section's lines adds exactly that section, whatever came before |
| WorkflowRoundTrip.ScanExport | client/src/workflowTemplates.ts:279-351 | scanning an exported file finds the sections of its templates in order |
| WorkflowRoundTrip.ImportIsTidy | client/src/workflowTemplates.ts:352-383 | importing any text yields only valid, trimmed, normalised templates without control characters |
| WorkflowRoundTrip.RoundTrip | client/src/workflowTemplates.ts:215-383 | export and import are exact for valid templates if and only if every template is clean |
| WorkflowRoundTrip.ReimportIsStable | client/src/workflowTemplates.ts:215-383 | exporting what was imported and importing it again changes nothing, if and only if no zone still looks like inline code |
| WorkflowExamples.CarriageReturnIsLost | client/src/workflowTemplates.ts:215-383 | a valid template with a carriage return in its body comes back changed |
| WorkflowExamples.LineSeparatorIsLost | client/src/workflowTemplates.ts:215-383 | so does one with a line separator in its name |
| WorkflowExamples.CodedZoneIsUnstable | client/src/workflowTemplates.ts:259-262 | a zone in two pairs of backticks still looks like inline code after one import, and changes again |
| WorkflowExamples.PlainZonesAreStable | client/src/workflowTemplates.ts:215-383 | with zone names never written as inline code every imported file is stable |
| WorkflowSelection.SelectExportableRoutines | client/src/workflowTemplates.ts:399-416 | the loop divides the routines into templates and names left out |
| WorkflowSelection.SelectionByPosition | client/src/workflowTemplates.ts:399-416 | the chosen routines are exactly those of the kind cron with an accepted expression, in order, with their fields; the others are named, in order |
| WorkflowSelection.EveryRoutineIsNamed | client/src/workflowTemplates.ts:395-416 | no routine is lost or counted twice |
| WorkflowSelection.SelectionComesBack | client/src/workflowTemplates.ts:399-416 | a selection otherwise valid and clean comes back from its file in order, with its cron expressions and instructions |
| TurnQueueModel.StepKeepsInv | internal/coordinator/queue.go:90-173 | every step keeps the invariant |
| TurnQueueModel.RunKeepsInv | internal/coordinator/queue.go:42-173 | every state of every run has it |
| TurnQueueModel.TurnsInOrder | internal/coordinator/queue.go:90-147 | at most one turn of an agent runs; its starts are its submissions in order minus the cancelled ones; a waiting job has a worker |
| TurnQueueModel.HistoryGrows | internal/coordinator/queue.go:90-138 | submissions and starts of an agent are only ever added to |
| TurnQueueModel.OtherAgentsUntouched | internal/coordinator/queue.go:90-173 | a step for one agent changes nothing of another |
| TurnQueueModel.OneResult | internal/coordinator/queue.go:108-173 | a job gets one result, none is dropped, it reports what became of the job, and until then the job is waiting or with the worker |
| TurnQueueRuns.CancelledNeverStarts | internal/coordinator/queue.go:124-129 | in every run, a job whose context is done before its start never runs, and all it is sent is the context error |
| TurnQueueRuns.SubmissionQueues | internal/coordinator/queue.go:69-106 | a submission queues a fresh job last, with its context alive |
| TurnQueueRuns.CancellationRemoves | internal/coordinator/queue.go:157-173 | a cancelling caller takes its waiting job, and only that, out of the queue; a popped one goes on |
| TurnQueueRuns.CheckDecides | internal/coordinator/queue.go:124-131 | when a worker lets go of a job it holds, the job was started if its context was alive and gets the context error otherwise |
| TurnQueueRuns.ReturnIsReported | internal/coordinator/queue.go:131-147 | in every run, what a callback returned, an error or a panic included, is what its job is sent |
| TurnQueueModel.DrainHasSender | internal/coordinator/queue.go:50-56 | the last receive of Enqueue has a result or a worker that will send one |
| TurnQueueModel.MeasureDecreases | internal/coordinator/queue.go:108-147 | each worker step of an agent decreases its measure and no step but a submission increases it |
| TurnQueueModel.WorkerCanStep | internal/coordinator/queue.go:90-122 | while work is left a worker can go on: no lost wake-up |
| TurnQueueModel.DrainsWithin | internal/coordinator/queue.go:90-147 | without submissions the worker steps of any run are bounded by the measure |
| TurnQueueModel.DrainedMeansDone | internal/coordinator/queue.go:108-147 | when they run out, the queue is empty, no worker is left and every job has its result |
| TurnQueueObjects.TurnQueue.Append | internal/coordinator/queue.go:90-106 | the region of enqueue does to one agent what the transition system does, and leaves the others |
| TurnQueueObjects.TurnQueue.Submit | internal/coordinator/queue.go:69-88 | the argument errors in order, or a fresh job queued last |
| TurnQueueObjects.TurnQueue.CancelPending | internal/coordinator/queue.go:157-173 | a waiting job is taken out and gets its context error; a popped one is left alone |
| TurnQueueObjects.TurnQueue.Work | internal/coordinator/queue.go:108-122 | the worker's region takes an agent's first job or retires; the queue stays valid and other agents unchanged |
| TurnQueueObjects.AgentTurns.TakeNext | internal/coordinator/queue.go:108-122 | the worker's region takes the first job or retires |
| TurnQueueObjects.TurnJob.Finish | internal/coordinator/queue.go:149-154 | sends unless the channel is full |
| Snapshots.MarksActive | internal/compute/snapshots.go:107-118 | comparing ids and images marks exactly the entry the active id names |
| Snapshots.NamesAre | internal/compute/snapshots.go:22-23 | the image and the volume of a checkpoint are named by its id |
| Snapshots.RunImageIsKept | internal/compute/snapshots.go:261-270 | the active checkpoint's image is there with the captured files; it is the image to run exactly when the catalogue is read, and an unreadable catalogue gives the base image |
| Snapshots.UnreadableCatalog | internal/compute/snapshots.go:261-270 | a sound catalogue with an active checkpoint for which a failed read gives the base image, without the captured files |
| Snapshots.ForgetIsWellFormed | internal/compute/snapshots.go:236-249 | removing an entry keeps the catalogue sound and the active entry listed |
| Snapshots.ForgetsOne | internal/compute/snapshots.go:236-248 | exactly the entry goes, the others keep their order, and the active entry stays unless it was the one |
| SnapshotStore.Computer.SaveCatalog | internal/compute/snapshots.go:292-306 | the file is the old catalogue or the new one, and the new one when success is seen |
| SnapshotStore.Computer.CloneVolume | internal/compute/snapshots.go:326-336 | a successful clone unpacks the source over the destination and touches no other volume; a failed one is due to the creation or the copy |
| SnapshotStore.Computer.CloneProfile | internal/compute/snapshots.go:326-336 | a successful clone is the profile; a failed one leaves the rest alone |
| SnapshotStore.Computer.Capture | internal/compute/snapshots.go:148-173 | image and profile volume hold the state of the computer at one moment, and a failure after the pause ends in a resume |
| SnapshotStore.Computer.CreateSnapshot | internal/compute/snapshots.go:120-187 | a created checkpoint is listed first and was a moment of the computer, and every command that mattered was successful; an error has a failed command of its kind and leaves the catalogue; at most eight; a failed copy removes the image, and after any failure past the pause the last command resumes the computer |
| SnapshotStore.Computer.ReplaceProfile | internal/compute/snapshots.go:338-341 | every captured file is back in the profile; it is exactly the captured one when the old volume was removed, and otherwise if and only if that had no path of its own |
| SnapshotStore.Computer.Rewind | internal/compute/snapshots.go:202-219 | stop, replace and save: the entry is active and the profile is the captured one over what was left when the computer stopped |
| SnapshotStore.Computer.RestoreSnapshot | internal/compute/snapshots.go:189-221 | the entry becomes active; a computer started by it has the captured profile, exactly if and only if nothing of the old one was left at a path of its own, and the captured files if and only if the catalogue was read for the run or the base image has the same; an error before that has a failed command of its kind and leaves the catalogue |
| SnapshotStore.InexactRestore | internal/compute/snapshots.go:326-341 | an old profile and a checkpoint for which the restored state is not the captured one |
| SnapshotStore.Computer.DeleteSnapshot | internal/compute/snapshots.go:223-259 | the entry goes and the others keep their order; the active id and image are emptied exactly when it was the active one; then exactly its image and volume are removed, with no other command |
| SnapshotStore.Computer.ListSnapshots | internal/compute/snapshots.go:107-118 | all entries in order, the active one marked |
| SnapshotStore.Computer.Start | internal/compute/docker.go:465-603 | a started computer runs the active image if and only if the catalogue was read for the run or the base image is the same one, else the base image, and began with that image's files; the missing-checkpoint error never means that the active image is gone, and may name the base image; a computer said to be ready with the image asked for is left as it is; a start that worked found or built the image, read the catalogue, ran it, kept the token and saw it ready, in that order, and an error has a failed command of its kind |
| SnapshotStore.Computer.PrepareStart | internal/compute/docker.go:525-559 | the image to inspect, the comparison with the base image and the name in the error are three readings of the catalogue; the profile stays; without an error the last command found an image or built one |
| SnapshotStore.Computer.BuildBase | internal/compute/docker.go:526-559 | without an error the base image was built; a missing checkpoint is reported after two readings of the catalogue and nothing else; a build that was tried and failed is the last command |
| SnapshotStore.Computer.AwaitReady | internal/compute/docker.go:570-603 | the token is kept and then the computer seen ready; after an error the last thing tried was to stop it |
| SnapshotStore.Computer.StartAgain | internal/compute/docker.go:505-603 | a container that is there is stopped first; a started computer began with the image's files and, if there was none, the profile as it was |
| SnapshotStore.Computer.Stop | internal/compute/docker.go:901-923 | the container is gone and the token cleared, and the profile is that of the last moment; an error has one of the two failed |
| SnapshotStore.Computer.Drive | internal/compute/snapshots.go:120-259 | after any sequence of operations with the process stopping anywhere, the catalogue is sound and every checkpoint still holds what was captured |
| StatusProbe.Docker.EnterStatus | internal/compute/docker.go:311-339 | the first region joins the running probe or claims one |
| StatusProbe.Docker.PublishStatus | internal/compute/docker.go:341-350 | the last region publishes the result and closes a channel that was not closed |
| StatusProbe.Docker.ReadStatus | internal/compute/docker.go:320-328 | a released caller reads the last result, with the image filled in when it has none |
| StatusProbe.RunKeepsInv | internal/compute/docker.go:311-350 | every interleaving of callers keeps the invariant |
| StatusProbe.ProbesAreSingleFlight | internal/compute/docker.go:311-350 | at most one probe is in flight, the flag is up exactly then, each channel is closed at most once |
| StatusProbe.JoinersAreFresh | internal/compute/docker.go:313-333 | a released joiner has a result completed after it joined |
| StatusProbe.CallsJoinOrProbe | internal/compute/docker.go:311-339 | a call waits for the probe in flight on its channel, or begins one |
| StatusProbe.CallsAreAnswered | internal/compute/docker.go:319-350 | a probe answers its own call and frees all that wait, with its result; one that gives up is told the probe still runs |
| StatusProbe.WaitersAreReleased | internal/compute/docker.go:319-349 | a waiting caller can be released now or once the probe in flight completes |
| StatusProbe.UnknownNeverHappens | internal/compute/docker.go:313-318 | a running probe always has a channel |
| Utf8.DecodeOfEncode | internal/compute/docker.go:1425-1426 | decoding an encoded rune gives it back, whatever follows |
| Utf8.EncodeOfDecode | internal/compute/docker.go:1425-1426 | encoding a decoded rune gives the bytes read |
| Utf8.ValidIffEncoded | internal/compute/docker.go:1425-1433 | a text decodes without an error exactly when it is encoded runes |
| JsonString.AppendJSONString | internal/compute/docker.go:1423-1460 | the loop appends the quoted and escaped text |
| JsonString.ReadQuoted | internal/compute/docker.go:1423-1460 | a reader after section 7 of RFC 8259 gives back the text, with the error rune for each bad byte |
| JsonString.RoundTripIffValid | internal/compute/docker.go:1423-1460 | the round trip is exact if and only if the text is valid UTF-8 |
| JsonString.EscapeIsInert | internal/compute/docker.go:1434-1456 | between the quotes there is no control byte and no quote or backslash outside an escape |
| JsonBody.OnlyTheseAreEscaped | internal/compute/docker.go:1449-1456 | every other rune is written as it is |
| JsonBody.ShortEscapes | internal/compute/docker.go:1434-1448 | the escapes of two characters |
| JsonBody.LongEscapes | internal/compute/docker.go:1427-1453 | other control characters in lower-case hexadecimal, and the error escape |
| JsonString.SensitiveTypeBody | internal/compute/docker.go:1394-1404 | the body is the three keys with their quoted strings |
| JsonString.BodyReadsBack | internal/compute/docker.go:1394-1404 | all three strings can be read back from it |
| JsonBody.BodyIsObject | internal/compute/docker.go:1394-1404 | an object reader after section 4 of RFC 8259 finds the six members with their names and values in order |
| ColimaResources.UpdateColimaResources | internal/compute/colima_resources.go:48-108 | the loop over lines, trying the keys in any order, gives the specified outcome |
| ColimaResources.UpdateEstablishes | internal/compute/colima_resources.go:48-108 | cpu and memory lines carry the requested values, disk lines the larger of old and requested, every line that needs no change stays, missing keys are appended, and a change is reported exactly when the text changed |
| ColimaResources.CommentIsIgnored | internal/compute/colima_resources.go:60-70 | the value of a line is what stands before a comment, without blanks |
| ColimaResources.SignedSizes | internal/compute/colima_resources.go:75-79 | a disk size may carry a sign and must fit in sixty-four bits |
| ColimaResources.WrittenTexts | internal/compute/colima_resources.go:51-55 | the texts of written lines |
| ColimaResources.NormalValues | internal/compute/colima_resources.go:49 | the limits that are allowed and the defaults beyond them |
| ColimaResources.FailsAtFirstFault | internal/compute/colima_resources.go:70-87 | an update fails exactly when a line has a fault, whatever is requested, and with that of the first |
| ColimaResources.UpdateIsIdempotent | internal/compute/colima_resources.go:48-108 | updating again changes nothing; the second report is the larger of the first and the request |
| ColimaResources.ReportIsCurrent | internal/compute/colima_resources.go:68-107 | the reported size is the size now in the file exactly when there was no disk line or the last was large enough |
| ColimaResources.GrowingDisk | internal/compute/colima_resources.go:68-107 | a disk of 20 grown to 25 is reported as 20 |
| Paths.InsideIffPrefix | internal/compute/colima_mounts.go:235-243 | the relative path stays inside exactly when the mount's elements begin the path's |
| Paths.CleanTwice | internal/compute/colima_mounts.go:222-233 | cleaning a rooted path again changes nothing |
| ColimaMounts.ParseColimaMountBlock | internal/compute/colima_mounts.go:171-212 | the scans find the first block, its lines, its entries and where they end |
| ColimaMounts.FormatColimaMountLines | internal/compute/colima_mounts.go:214-220 | two lines per path, in order |
| ColimaMounts.AddColimaMounts | internal/compute/colima_mounts.go:115-169 | the edit: refusal, no change, or the lines put in place |
| ColimaMountsText.InlineListOpens | internal/compute/colima_mounts.go:157-160 | a line that trims to the inline empty list, the first opening of the file, is replaced by an open list of the required paths |
| ColimaMountsText.BlockIsExtended | internal/compute/colima_mounts.go:115-212 | an open block ends before the first line that is neither blank, a comment nor indented; the paths it lacks are added after its last entry and everything else stays |
| ColimaMountsText.BlockIsAppended | internal/compute/colima_mounts.go:118-129 | a file without a block gets one at its end |
| ColimaMountsText.EntriesAre | internal/compute/colima_mounts.go:189-208 | the entries are the locations, each with the last flag below it |
| ColimaMountsText.RefusalIs | internal/compute/colima_mounts.go:131-149 | a refusal names the first required path whose first cover is read-only, and that cover |
| ColimaMountsKept.CoversIffAbove | internal/compute/colima_mounts.go:235-243 | a mount covers a path exactly when its directory is the path's or above it |
| ColimaMountsKept.TildeIsHomeExactly | internal/compute/colima_mounts.go:222-233 | a tilde location is the home directory joined with the rest, if and only if it is not a tilde alone |
| ColimaMountsKept.LoneTilde | internal/compute/colima_mounts.go:222-233 | at home directory /home a tilde alone is /home/~ |
| ColimaMountsKept.QuotesAreTakenOff | internal/compute/colima_mounts.go:222-233 | a rooted location stands for its path without white space around it and quotes inside that |
| ColimaMountsKept.FormattedReads | internal/compute/colima_mounts.go:186-220 | the written lines parse as one writable entry per path |
| ColimaMountsKept.EntriesOnto | internal/compute/colima_mounts.go:189-208 | lines after some entries add their own entries and give a stray writable line to the last |
| ColimaMountsKept.EditParses | internal/compute/colima_mounts.go:115-212 | the edited file parses to the block with the additions in it |
| ColimaMountsKept.DeletingRestores | internal/compute/colima_mounts.go:157-168 | deleting the added lines gives back the file, up to the opened list or one blank line |
| ColimaMountsKept.AddedMountsServe | internal/compute/colima_mounts.go:115-243 | every required path's first cover is writable and a second call changes nothing, if and only if each added path is covered by an added entry that no stray read-only line spoils, or by none of them and a writable entry after them |
| ColimaMountsKept.OneMountServes | internal/compute/colima_mounts.go:115-243 | for a single path: if and only if its entry as read back covers it and no stray line spoils the entry, or does not cover it and a writable one after it does |
| ColimaMountsKept.CoveringMountsServe | internal/compute/colima_mounts.go:115-243 | when every required path's entry covers it, a second call changes nothing if and only if no stray read-only line falls to the last entry, or another added entry covers its path |
| ColimaMountsKept.PlainCoversItself | internal/compute/colima_mounts.go:214-243 | the entry of a path that does not end in a quote or white space covers it |
| ColimaMountsKept.StrayExample | internal/compute/colima_mounts.go:186-208 | a file for which the second call refuses what the first one added |
| ColimaMountsKept.UnstableExample | internal/compute/colima_mounts.go:115-169 | a path that ends in a space and a quote is not covered by its own entry, and a second call does not take it as served |

## Left out

- Interleave.InterleaveBlocks: data of the layout's own length only, which is what the encoder always passes.
- ReedSolomon.CheckBytesOf: at least one check byte; with none the loop would read past an empty register, and no layout asks for it.
- QrPlacement.PlaceFormat: not claimed to follow the bit order of section 7.9 of ISO/IEC 18004:2015; the reader in QrSymbol uses the encoder's own order.
- QrPenalty.Penalty: the dark-module percentage is exact arithmetic, without floating-point rounding.
- QrSymbol.PairingQr: the payload is the byte sequence; the JSON shape check, TextEncoder and the SVG text are not modelled.
- Cron.SameMinutes: moments are five numbers; the calendar and time-zone lookup behind them are not modelled.
- Cron.NumberField: numbers are unbounded, without the precision limit of parseInt or Go's int.
- WorkflowRoundTrip.RoundTrip: time-zone validity is any predicate, keys are lower-cased in ASCII, and the sorted text of a warning is the set of its keys.
- TurnQueueModel.DrainsWithin: a callback returns or panics; one that never returns keeps its worker.
- TurnQueueObjects.TurnQueue.Submit: a nil queue or context is not modelled, nor are the log lines.
- SnapshotStore.Computer.CreateSnapshot: random ids do not repeat, and a reported copy copied everything; creation times are left out.
- SnapshotStore.Computer.Start: the status answer is a parameter, and what becomes of each command (readings of the catalogue, readiness and the token file among them) and what the guest writes are any functions of time; a computer reported ready from a stale status is not claimed to run.
- SnapshotStore.Computer.Drive: images and volumes are removed only by these operations, and the catalogue's JSON, when it can be read, reads back as written.
- StatusProbe.JoinersAreFresh: the probe returns; a joined probe may have begun before the call, and the runtime fields refreshed on a cached answer are left out.
- JsonString.AppendJSONString: the buffer is a value; growth and wiping of memory are not modelled.
- ColimaResources.UpdateIsIdempotent: which texts are positive floating-point numbers is any predicate that accepts the requested memory size.
- ColimaMountsKept.AddedMountsServe: required paths are rooted, as the only caller passes them, and fit on a line.
- ColimaMounts.ParseColimaMountBlock: YAML itself is not modelled, only what the editor reads.
- The remote computer, Docker and Colima processes, timeouts, file permissions, tokens and the swap script are outside calls.
- The React and React Native interfaces, HTTP, MCP and CLI bridges, and the registries are dispatch over libraries.
