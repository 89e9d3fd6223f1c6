# Verified model of declarion-sdk-go's cores

This project models the parts of the Declarion Go SDK whose correctness does not rest on the network, and
proves what they promise. `dafny verify dfyconfig.toml` checks all of it.

Bytes are modelled as Dafny `string`s whose characters each stand for one byte. Foreign code (the JSON, number,
time, hash and identifier libraries) appears as function-valued parameters, and each assumption about it is a
named predicate (`Binary64.Conforms`, `Binary64.OnlyLiteralsValid`, `FileKeys.ReadsWritten`,
`ElevationWire.Faithful`, `ErrorWire.Faithful`) in the `requires` of the lemmas that need it.

- **Streaming answers** (`StreamFormat`, `StreamGrammar`, `StreamProtocol`, `ActionStream`). `StreamFormat` says what
  the bytes of an event mean, by whole blocks of lines, and `StreamGrammar` which bytes hold an event and which are
  refused, without reading them in order. `StreamProtocol` is the state machine over events. The class
  `ActionStream` reads fragments in place, through a buffer that may cut the bytes anywhere, and every method is
  proved to have the meaning the other two give.
- **Structural budget** (`JsonBudget`, `BudgetMeter`). The cost of a JSON value is a recursion over the value; the
  token machine is proved to charge exactly that and to accept nothing but the tokens of one value. `BudgetMeter`
  runs the machine in 64-bit arithmetic.
- **Parameter cache** (`ParamsModel`, `ParamsSweep`, `ParamsCache`). Concurrent lookups are interleaved atomic
  steps; the lemmas are about every interleaving. `ParamsCache` is the object with its maps updated in place.
- **Number validation** (`NumberText`, `Binary64`, `NumberWalk`, `NumberWalker`). Literals, their decimal values and
  the rounding to binary64; a walk over a graph of containers with sharing and cycles.
- **Elevation** (`ByteOrder`, `Elevation`, `Base64Url`, `ElevationWire`). Canonical selections, the order they form,
  chains of derived contexts, and the header.
- **Attribute copies** (`AttributeClone`). A heap-separation proof for the deep clone.
- **File keys** (`Calendar`, `FileKey`). Printer, parser and partition windows, with the calendar.
- **Error rendering** (`ErrorRender`, `ErrorWire`, `JsonString`). The catalogue, rendering, serialized members and the
  size bound; the JSON text between two processes, with what the encoder does to ill-formed UTF-8.
- **Trace paths** (`TracePath`). The bounded path language.

Some promises hold only under a condition, and the model says which:

- The budget machine relies on the decoder to keep containers out of key position (`ContainerAsKeyIsTaken`).
- A very long maximum age wraps around in 64 bits and is then cut short, never extended (`WholeAgeIff`,
  `NeverServedTooLong`).
- Sweeping the cache is invisible exactly when no get reads the clock earlier than a put before it
  (`ReadingsAreSafeIff`, `GetIsSafeIff`, with the missed hit in `EarlierGetMisses`).
- A slice that holds a shorter slice of its own array is refused as cyclic although it is not
  (`SharedBaseIsRefused`); what is accepted in general is `AcceptsIffPathsClear`.
- Handling a method twice is handling it once only if the method is legal or the path was cut (`HandleTwiceIff`,
  `HandleTwiceCanDiffer`).
- Rendering twice is rendering once unless even the rendered replacement is over the bound (`RenderTwiceIff`,
  `RenderTwiceCanDiffer`); from the bound in `RenderAlwaysFits` up it never is.
- A failure is read back as it was exactly when its texts and names are valid UTF-8 and its other values are read
  back as themselves (`RelayedIntactIff`, `BrokenDetailIsReplaced`).

Where a comment and the code disagree the code is followed: the comment in `platform/actions_stream.go:61-64` says
the delivered counts come from the terminal event, while `Delivered` returns what this reader counted and `Sent` the
terminal's own numbers.

## Model

| member | source | states |
|---|---|---|
| ActionStreams.ActionStream.ReadLine | platform/actions_stream.go:329-351 | For every way the buffer may cut the bytes, the line returned is the bytes up to the first line feed; the cap is exceeded exactly when the whole line would pass it; the bytes held never pass the cap |
| ActionStreams.ActionStream.ReadEvent | platform/actions_stream.go:356-425 | The event or kind of failure is a function of the bytes and the cap alone, whatever the fragments; retained data, name and current line stay within the cap |
| ActionStreams.ActionStream.ReadStart | platform/actions_stream.go:204-217 | Succeeds exactly when the first event is a start event with valid JSON, and stores its metadata |
| ActionStreams.ActionStream.Next | platform/actions_stream.go:226-251 | One step of the protocol; no field changes once done or closed |
| ActionStreams.ActionStream.SetFinished | platform/actions_stream.go:293-296 | Records the error, marks the stream done, touches nothing else |
| ActionStreams.ActionStream.SetTerminal | platform/actions_stream.go:300-319 | The terminal's counts are kept when it decodes; the error is none exactly for a success, the carried one exactly for an error that carries one, and unreadable otherwise |
| ActionStreams.ActionStream.Close | platform/actions_stream.go:279-290 | The first call cancels the request and closes the body, once each, and reports how closing went; later calls do nothing; what was read stays in place |
| ActionStreams.ActionStream.constructor | platform/actions_stream.go:114-121 | A stream starts with nothing read, counted or failed |
| ActionStreams.NewActionStreamStarted | platform/actions_stream.go:139-146 | No stream is handed out unless its start event was taken and valid; a refused one is cancelled and closed |
| ActionStreams.Collect | platform/actions_stream.go:226-254 | The caller's loop returns exactly the frames of the protocol's run and ends in its final state |
| StreamFormat.LexOfWritten | platform/actions_stream.go:356-411 | A written block within the cap is read back as its lines, leaving what follows it |
| StreamFormat.WrittenOfLex | platform/actions_stream.go:356-411 | Whatever is read as a block is exactly such a written block, without carriage returns and within the cap |
| StreamFormat.ParseOfDataBlock | platform/actions_stream.go:399-423 | A data block carries any CR-free UTF-8 payload through unchanged, empty, with line feeds, leading spaces or colons |
| StreamFormat.ParseOfControlBlock | platform/actions_stream.go:399-423 | A control block carries its event name and payload through |
| StreamFormat.ParsePastHeartbeat | platform/actions_stream.go:395-417 | A block of comments changes nothing about the event after it |
| StreamFormat.EventWithinCap | platform/actions_stream.go:330-343 | An accepted event's name and data together are smaller than the cap |
| StreamFormat.ParseOfCut | platform/actions_stream.go:373-385 | Losing the end of the bytes never changes an event: it is read the same or found interrupted |
| StreamGrammar.FieldValueIff | platform/actions_stream.go:399-407 | A field's value is what follows the colon, less one space if there is one |
| StreamGrammar.ParsedIff | platform/actions_stream.go:356-425 | An event is read exactly from blocks with a comment and nothing to say, then one block of comments, names and data lines that gives its name and its data as valid UTF-8 |
| StreamGrammar.FailedIff | platform/actions_stream.go:328-425 | Each flaw exactly: a line past the cap, bytes that end inside a line, a carriage return or an unknown line, an empty block without comment, or data that is not UTF-8 |
| StreamProtocol.RunShape | platform/actions_stream.go:223-296 | Over any number of calls the true results form a prefix, frames come in order, the received counts are their number and byte sum, and after the end no state changes |
| StreamProtocol.RunOutcome | platform/actions_stream.go:226-319 | How any run ends after its frames: the flaw of the bytes; for a terminal event none, its own error or unreadable, by status, with the counts it states; unreadable for any other event |
| StreamProtocol.StartOutcome | platform/actions_stream.go:204-217 | A stream opens on a first event named declarion.stream.start with valid JSON, and otherwise fails with the flaw of the bytes or as unreadable |
| StreamProtocol.EndsCleanIff | platform/actions_stream.go:241-319 | A run ends without error exactly when the bytes hold the frames and then a terminal event of success |
| StreamProtocol.CleanAnswerIff | platform/actions_stream.go:202-319 | A whole answer is clean exactly when one valid start event, the frames and a success terminal follow one another |
| StreamProtocol.RoundTrip | platform/actions_stream_test.go:18-30 | What the server's blocks carry arrives: metadata, exactly the payloads in order and counted, and what the terminal says with its counts, with heartbeats anywhere |
| StreamProtocol.TruncatedIsNeverClean | platform/actions_stream.go:261-268 | However much of the end is lost, the client ends with the same frames or reports an interruption after a prefix of them |
| StreamProtocol.TruncatedAnswer | platform/actions_stream.go:261-268 | The same from the first byte, a cut inside the start event included |
| JsonBudget.MeasureOfValue | jsondoc/budget.go:46-155 | Over a value's tokens the machine returns the value's recursive cost, or the limit error exactly when that is over the limit |
| JsonBudget.MeasureIff | jsondoc/budget.go:46-155 | If the decoder puts no container in key position, success exactly when the tokens are those of one complete value, the input ended there and the cost is within the limit; the answer is that cost |
| JsonBudget.ScalarCosts | jsondoc/budget.go:18-24 | The cost in bytes of every kind of scalar at the root, in an array and in an object |
| JsonBudget.ContainerCosts | jsondoc/budget.go:73-93 | The cost of an array or object in each place besides its parts, and of each member's key |
| JsonBudget.OverLimitIff | jsondoc/budget.go:52-58 | A refusal is for the limit exactly when a higher limit would change the answer |
| JsonBudget.ContainerAsKeyIsTaken | jsondoc/budget.go:74-94 | Without the decoder's guarantee the machine accepts a container in key position |
| JsonBudget.ChargedWithinLimit | jsondoc/budget.go:52-58 | The sum never leaves zero to the limit and never falls |
| BudgetMeters.Meter.Charge | jsondoc/budget.go:52-58 | In 64-bit arithmetic that never wraps, adds exactly when the sum stays within the limit |
| BudgetMeters.Meter.ConsumeValue | jsondoc/budget.go:59-63 | An object around the value wants a key next; nothing else changes |
| BudgetMeters.Meter.OpenContainer | jsondoc/budget.go:73-93 | One step of the machine for an opening delimiter |
| BudgetMeters.Meter.CloseContainer | jsondoc/budget.go:94-104 | One step of the machine for a closing delimiter, unbalanced and half-written members refused |
| BudgetMeters.Meter.TakeScalar | jsondoc/budget.go:110-149 | One step of the machine for a key or a scalar |
| BudgetMeters.MeasureDecodedMemory | jsondoc/budget.go:46-155 | The loop over 64-bit integers computes the measure |
| BudgetMeters.ValidateDecodedBudget | jsondoc/budget.go:31-40 | Accepts exactly one complete value whose raw length and cost are within a positive limit; refuses for the limit exactly when a higher one would change the answer |
| ParamsModel.HitIsCurrent | platform/params_cache.go:78-112 | Over every interleaving a hit was stored by a lookup of the same key, carries exactly the newest version received from its platform, and has not expired |
| ParamsModel.HitIsFresh | platform/params_cache.go:28-32 | If a platform's answers change only with its version, a hit is what it would answer at the newest version heard of |
| ParamsModel.Sound | platform/params_cache.go:66-112 | In every reachable state recorded versions are the newest received, lookups about to store were answered, entries were stored, and none is newer than its platform's version |
| ParamsModel.NeverServedTooLong | platform/params_cache.go:90-100 | Over every interleaving a hit comes before the time its answer was stored plus the age of the very response that answered, wrap-around included |
| ParamsModel.WholeAgeIff | platform/params_cache.go:100-100 | The whole age is granted exactly when its nanoseconds fit in 64 bits |
| MachineInts.WrapsByWords | platform/params_cache.go:100-100 | A duration that overflows wraps by multiples of 2^64 |
| ParamsSweep.SweepingNeverAddsHits | platform/params_cache.go:114-123 | Whatever the clocks read, every hit is the same hit in a cache that never sweeps |
| ParamsSweep.SweepingIsUnobservable | platform/params_cache.go:108-123 | As long as no get reads earlier than a put before it, the swept and the unswept cache answer alike for ever, in whatever order the puts' readings come and the gets' |
| ParamsSweep.SweepingFromEmpty | platform/params_cache.go:23-26 | The same from the empty cache |
| ParamsSweep.EarlierGetMisses | platform/params_cache.go:78-123 | For every get reading before a put's there is a run, with an answer kept one millisecond, where the get misses what it would have been served unswept |
| ParamsSweep.GetIsSafeIff | platform/params_cache.go:78-123 | A get is answered as if nothing was ever swept, whatever went before, exactly when it reads no earlier than any put did |
| ParamsSweep.ReadingsAreSafeIff | platform/params_cache.go:78-123 | For any sequence of readings: no run with them shows the sweeping exactly when no get reads earlier than a put before it |
| ParamsSweep.SweepCostIsAmortised | platform/params_cache.go:108-116 | From any state that is paid for, sweeps of a run look at no more than two entries per put kept, and the map stays under the next mark |
| ParamsSweep.SweepCostFromEmpty | platform/params_cache.go:108-116 | The same over any run from the empty cache |
| ParamsSweep.ChargedCounts | platform/params_cache.go:108-123 | The bill: every entry there is at each sweep, and one for each put kept |
| ParamsSweep.PutIsServedIff | platform/params_cache.go:88-112 | After a miss, a put answer is served exactly when the response gave a positive age and the recorded version, and the age as 64-bit nanoseconds has not passed |
| ParamsSweep.PutLeaves | platform/params_cache.go:90-123 | A kept put replaces one entry; at the mark exactly what a get would serve is left and the mark is twice that, below it nothing is dropped |
| ParamsSweep.KeptUntilSuperseded | platform/params_cache.go:28-32 | A kept answer is served through any number of sweeps until it expires, its key is put again, or a newer version is received |
| ParamsCaches.ParamsCache.ObserveResponse | platform/params_cache.go:66-76 | Raises the platform's version to a newer one and changes nothing else |
| ParamsCaches.ParamsCache.GetEntry | platform/params_cache.go:78-86 | Returns the entry exactly when it is current and unexpired |
| ParamsCaches.ParamsCache.PutEntry | platform/params_cache.go:90-112 | The new cache is the model's, and the bill of scanned entries stays within twice the puts kept |
| ParamsCaches.ParamsCache.DropUnservable | platform/params_cache.go:117-123 | Leaves exactly the entries a get would serve, looking at each once |
| NumberText.IsZeroJSONNumber | jsondoc/numbers.go:127-137 | The loop decides whether the text before any exponent has no digit but zero |
| NumberText.ZeroTextIff | jsondoc/numbers.go:127-137 | For a literal that is exactly whether its decimal value is zero, for every exponent |
| Binary64.IntegerLiteralIff | jsondoc/numbers.go:97-125 | A literal that denotes an integer is accepted exactly when it is between -(2^53-1) and 2^53-1 |
| Binary64.SafeLiteralIff | jsondoc/numbers.go:97-125 | A literal is accepted exactly when its value is zero or lies strictly between 2^-1075 and 2^53-1/2 in magnitude |
| Binary64.AcceptedTextIff | jsondoc/numbers.go:107-125 | Any text at all is accepted exactly when it is a JSON number literal, with nothing around it, of a safe value |
| NumberWalk.SafeLeafIff | jsondoc/numbers.go:54-70 | The numeric bounds for signed, unsigned and floating numbers; complex, infinite and not-a-number refused; what is no number accepted |
| NumberWalk.IntegerKindsAgree | jsondoc/numbers.go:54-63 | An integer is judged alike signed, unsigned or as a literal |
| NumberWalk.FloatKindAgrees | jsondoc/numbers.go:64-67 | A float is judged like the literals that round to it, but for underflow |
| NumberWalk.AcceptsIffPathsClear | jsondoc/numbers.go:25-95 | The walk accepts exactly when numbers are safe and no path of references meets one key twice |
| NumberWalk.WalkIffAcyclicAndSafe | jsondoc/numbers.go:19-95 | With a key per container: exactly when every reachable number is safe and no reachable container lies on a cycle |
| NumberWalk.SharedBaseIsRefused | jsondoc/numbers.go:72-75 | Two slices over one array share a key, so an acyclic value can be refused |
| NumberWalkers.Walker.Validate | jsondoc/numbers.go:25-95 | Terminates on every finite heap, puts the visiting set back on every return, and accepts what the model accepts |
| NumberWalkers.ValidateNumbers | jsondoc/numbers.go:19-23 | The entry point has the meaning of the walk's two lemmas, and for a bare number the numeric bounds |
| Elevations.NormalizeIsCanonical | execution/elevation.go:30-35 | Strictly ascending, the same set of grants, the same system flag |
| Elevations.NormalizeIff | execution/elevation.go:30-35 | Two selections normalize alike exactly when they select the same |
| ByteOrder.LessIff | execution/elevation.go:32-32 | The order is that of the first differing byte, a proper prefix first |
| Elevations.Contains | execution/elevation.go:44-54 | True exactly when everything the parent selects is selected |
| Elevations.CoversIsPartialOrder | execution/elevation.go:44-54 | Reflexive, transitive, and antisymmetric on normalized selections |
| Elevations.DerivingIsLeastUpperBound | execution/elevation.go:39-42 | Adding grants or the system role gives the least selection above what was there and what was asked |
| Elevations.ChainSelects | platform/elevation.go:7-23 | A chain ends with the inherited selection joined with all choices, and fails exactly when grants are asked of an unreadable selection |
| Elevations.ChainDependsOnSetOnly | runtime/elevation.go:9-50 | Two chains with the same set of choices end with equal clients and permissions |
| Elevations.ChainKeepsAuthority | runtime/elevation.go:27-50 | A derived context covers its ancestor's selection and has all its permissions |
| Elevations.ProjectedPermissions | runtime/elevation.go:27-50 | Projected permissions are the strictly ascending union of claims, grants and the wildcard for the system role |
| Base64Url.ReadHeaderIff | execution/elevation.go:64-71 | A header is read as some bytes exactly when it is their one unpadded encoding |
| Base64Url.LettersInOrder | execution/elevation.go:61-61 | The alphabet is that of table 2 of RFC 4648 |
| Base64Url.GroupIsNumber | execution/elevation.go:61-61 | A group's letters to the base 64 are its bytes to the base 256 |
| Base64Url.GroupStands | execution/elevation.go:61-61 | Each group of three bytes gives the four letters at its place |
| ElevationWire.UnmarshalJSON | execution/elevation.go:79-139 | Accepts exactly an object of the two members, each at most once, rightly typed and without nulls; the role is selected exactly when the document says true, and a grant exactly when it lists it |
| ElevationWire.StrictDocumentIff | execution/elevation.go:79-139 | The accepted documents are those with a system member or none and a grants member or none, in either order |
| ElevationWire.DecodedSends | execution/elevation.go:64-77 | A header decodes to a selection exactly when it carries a strict document that sends that role and those grants |
| ElevationWire.MarshalSends | execution/elevation.go:17-20 | The role is written only when selected and the grants only when there are any |
| ElevationWire.DecodeOfEncode | execution/elevation.go:56-77 | Decoding an encoded selection gives it back, normalized |
| ElevationWire.SameHeaderIff | execution/elevation.go:56-62 | Two selections have one header exactly when they select the same |
| ElevationWire.DecodedIsCanonical | execution/elevation.go:64-77 | What is decoded is normalized and came from a canonical header |
| AttributeClones.CloneValue | execution/attributes.go:12-49 | The copy has the source's shape and every map and slice in it is new |
| AttributeClones.ShapeTells | execution/attributes.go:12-49 | Trees of one shape agree in every scalar, key, length and kind |
| AttributeClones.CloneMap | execution/attributes.go:21-30 | The same for a map, entry by entry |
| AttributeClones.CloneItems | execution/attributes.go:31-46 | The same for the elements of a slice or array |
| AttributeClones.CloneAttributes | execution/attributes.go:5-10 | No map is copied as no map, any other as above |
| AttributeClones.WritesStayLocal | runtime/elevation.go:38-39 | Any writes by any of the claims and two derived contexts leave the attributes of those that did not write as they were |
| Calendar.ParseOfFormat | fileref/key.go:23-23 | Reading a written instant gives it back for every second of years 1 to 9999 |
| Calendar.FormatOfParse | fileref/key.go:94-105 | Every text that is read is the one text of its instant |
| Calendar.DateUnique | fileref/key.go:23-23 | A day has one date |
| Calendar.MonthLengths | fileref/key.go:23-23 | The length of every month of every year |
| Calendar.DaysFollow | fileref/key.go:23-23 | Days are numbered one after the other over the ends of months and years |
| Calendar.TextSpelled | fileref/key.go:23-23 | The sixteen characters of every instant's text |
| FileKeys.PartitionIff | fileref/key.go:94-109 | A partition text parses to two instants exactly when they are in order and it is their text |
| FileKeys.ParseKeyIff | fileref/key.go:55-73 | A text parses to a key exactly when the key is valid and this is its text |
| FileKeys.KeyLayout | fileref/key.go:111-117 | The text of a key part by part, empty for an invalid one |
| FileKeys.BackendNameIff | fileref/key.go:15-15 | Which bytes a backend name may hold and start with |
| FileKeys.HexFormsIff | fileref/key.go:42-45 | The form of a tenant and of a digest, character by character |
| FileKeys.NewKeyRoundTrip | fileref/key.go:35-53 | A new key has the backend and tenant asked for and the content's digest; its window holds the stored instant and is as long as asked, and its text parses back to it |
| FileKeys.NewKeyIff | fileref/key.go:35-42 | When a key is made at all |
| FileKeys.WindowsAgreeOrApart | fileref/key.go:46-47 | Two windows of one length are the same or do not meet |
| ErrorRender.FromMembersOfMembers | errs/errs.go:272-338 | The members say all of a failure but what is never serialized; no field overwrites a named member |
| ErrorRender.FieldsAreSerialized | errs/errs.go:272-279 | A field is serialized as it is unless its name is one of the format's six |
| ErrorRender.DecodedMembers | errs/errs.go:300-338 | What any decoded object gives: a member missing or of a wrong form gives nothing, and all others become fields |
| ErrorRender.CodeOfType | errs/errs.go:177-185 | The code is what follows the last slash |
| ErrorWire.RelayedIntactIff | errs/errs.go:272-338 | Through JSON text a failure comes back as it was, less what is never serialized, exactly when every text and member name is valid UTF-8 and every other value encodes and is read back as itself |
| ErrorWire.RelayedIsMended | errs/errs.go:272-338 | With valid member names it comes back, if it encodes and is not too deep, with each ill-formed byte replaced |
| ErrorWire.BrokenDetailIsReplaced | errs/errs.go:290-292 | A detail of the byte 255 comes back as the three bytes of U+FFFD |
| JsonStrings.UnescapeOfEscape | errs/render.go:82-91 | The length counted for a text is that of its JSON string, which reads back as the text with ill-formed bytes replaced |
| ErrorRender.ChooseTitle | errs/catalogue.go:72-89 | The first candidate with a title, else the first titled language in code order |
| ErrorRender.TitleForIff | errs/catalogue.go:72-89 | A type with any title is never left without one |
| ErrorRender.TitleForPicks | errs/catalogue.go:72-89 | The first language asked for that has a title gives it, and without one the first titled in code order |
| ErrorRender.RenderedTitle | errs/render.go:55-65 | The reader's language before the deployment's, for a declared type and for the fallback |
| ErrorRender.RenderedMembers | errs/render.go:20-67 | Fields, type and the declaration's title reach the wire; a declared type gives its own status and retryability and keeps the detail, an undeclared one is an unretryable 500 without detail |
| ErrorRender.RenderKeepsLocal | errs/render.go:36-57 | The cause and the fields are kept, and who is denied comes from the declaration if there is one |
| ErrorRender.RenderTwiceIff | errs/render.go:27-67 | Rendering again changes no serialized member exactly when the rendered failure fits, the rendered replacement does by its exact length, or the type is the replacement's own |
| ErrorRender.RenderTwiceCanDiffer | errs/render.go:27-67 | Under a bound of one byte the second rendering names the replacement's type instead of the offending one |
| ErrorRender.RenderReplaces | errs/render.go:27-33 | Past the bound the rendered replacement names the first 200 bytes of the type, keeps the failure as its cause, and takes status, retryability and title from its own declaration |
| ErrorRender.SerializedLength | errs/errs.go:272-298 | The exact length of any failure's JSON text |
| ErrorRender.FitsIff | errs/render.go:82-91 | Within the bound exactly when it encodes to at most so many bytes, 16384 when no bound is given |
| ErrorRender.RenderFitsIff | errs/render.go:27-67 | The rendered result is within the bound exactly when the rendered failure is or 63 bytes, the escaped offending type and what the declaration adds are |
| ErrorRender.RenderAlwaysFits | errs/render.go:93-106 | From 1336 bytes and six for each byte of title and instance up, whatever is rendered fits |
| ErrorRender.RenderIgnoresProducer | errs/render.go:20-67 | The serialized result depends on nothing but type, detail and fields |
| ErrorRender.ReplacementLength | errs/render.go:93-106 | The replacement always encodes, to 94 bytes and the escaped offending type |
| ErrorRender.BoundedIs | errs/render.go:75-106 | Within the bound a failure is left alone; past it the replacement has its own type, status 500, the cause and the first 200 bytes of the type, and nothing else |
| ErrorRender.BoundedFitsIff | errs/render.go:69-91 | The result is within the bound exactly when the failure or its replacement is; always from 1294 bytes up |
| TracePaths.SanitizePath | tracing/context.go:33-48 | Returns the path when it is legal and the word invalid otherwise |
| TracePaths.LegalIff | tracing/context.go:33-48 | The legal bytes by their codes |
| TracePaths.AppendExtends | tracing/context.go:50-60 | Appending to a legal path never loses it, wherever truncation cuts |
| TracePaths.CarriedStaysLegal | tracing/context.go:24-77 | Over every run the stored path is legal and a fixed point of sanitizing, and the request identifier stays |
| TracePaths.TruncatedIsFinal | tracing/context.go:56-58 | A cut path stays what it is whatever is appended |
| TracePaths.HandlerRecords | runtime/tracing.go:10-16 | A method that is not the last step is appended, cut to the mark where it does not fit; the last step again changes nothing |
| TracePaths.HandledIsLast | runtime/tracing.go:10-16 | A legal method handled is the last step, unless the path was cut |
| TracePaths.AdoptedPath | tracing/context.go:69-77 | A path that came with a request replaces the one carried, as invalid when it is not legal |
| TracePaths.HandleTwiceCanDiffer | runtime/tracing.go:10-16 | On an empty path a question mark gives invalid, then invalid->invalid |
| TracePaths.HandleTwiceIff | runtime/tracing.go:10-16 | Handling a method twice is handling it once exactly when it is legal or the path was cut |

## Left out

- HTTP transport, request building and response reading: I/O; only the order observe, then store, of one lookup is kept.
- Token verification, authenticators and the handler server: the work is in libraries.
- `Close` from another goroutine: the cancelling, the closing and the effect on later calls of `Next` are modelled, not the unblocking of a read in flight.
- The route named in a failure, the texts of causes and the operator's error string: a failure is modelled by its declared type.
- `InheritedSelection`: it reads a token's claims with the same strict object parser.
- NumberWalk: containers inside structs and map keys are not walked, as in the source; the order of a map's values is any order.
- AttributeClones.CloneValue: source trees are finite; on a cyclic source the original does not end.
- AttributeClones: values of other types that hold references (pointers, structs) are copied as they are, in the source too, and are modelled as scalars.
- ParamsModel: instants are integers on one clock; the saturation of the time library far outside any real date is not modelled.
- FileKeys: instants are whole seconds, and a key whose times cannot be written in the text format has no text.
- FileKeys.NewKeyRoundTrip: the hash library is any function to canonical digests.
- ErrorWire: with ill-formed member names, which the format's own grammar rules out, what comes back is only known to differ; two names may become one.
- AttributeClones: two keys of a map are never equal; a NaN key, which Go lets stand beside another, is not modelled.
- ErrorRender: the copy of the field map made by rendering is a value, so aliasing of its contents is not modelled; the cause is kept but never serialized.
- ElevationWire: the layout of JSON text is the library's; documents are trees, with repeated members kept in order.
- Elevations.ProjectedPermissions: the identity fields that projection copies from the claims one by one are left out.
- Header injection, extraction and the tracing propagators: foreign calls.
