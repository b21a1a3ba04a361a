# A verified model of the recorder's JSON engine and of what is built on it

The program streams and records video from one camera. Every document it stores or broadcasts goes
through its JSON engine (`src/cJSON.c`): the configuration, `sensor.json` and the status packet. This
project models that engine, the two first-party users of it that do more than copy fields, the
controller that starts and stops recordings, and two small loops, and proves what they are for.

The text format is JSON (RFC 8259, sections 2, 6 and 7); `\u` escapes are read as in RFC 2781,
section 2.2, and written as in RFC 3629, section 3. Where the code is more lenient than RFC 8259 (raw
control bytes in strings, every byte up to 32 as white space, a bad hexadecimal digit giving code 0),
the model does what the code does.

## Modules

| module | models |
|---|---|
| Bytes, JsonValue | bytes, C strings, JSON values |
| Rendering | the text of a value as a function: what the printer is to write |
| NumberText, Utf, StringCodec, ParseSpec | what the parser computes, as functions on the buffer with failure positions |
| Grammar | the grammar of JSON text, byte by byte, with the value of each text |
| Reading, Acceptance, Faults | the parser against the grammar: it reads every text, accepts nothing else, and reports where a text goes wrong |
| Layout, RoundTrip | the printer against the grammar: the layout of its texts; parsing and printing undo each other |
| Tree, ChildList, Ownership, ListBuilder, Building | nodes, child lists, who owns which block, building trees |
| StringParser, Parser | the parser, against ParseSpec |
| Printer | the print buffer and the printer, against Rendering |
| CompareSpec, Comparing, Duplication | comparison and deep copies |
| Minify, MinifyParts, MinifyLoss | in-place minification: what it takes away, and when it keeps text and value |
| Finding | what a reader finds in an object under a name |
| SetupFile, Sensor | `sensor.json` and the caps string: what they say, and the code that saves and loads |
| Status, Receiver | the status packet, and what a receiver reads in it |
| Controller, Recordings | the recording controller as a state machine over the GLib main loop; which files a run writes, and until when |
| Pieces, CopyFile, Addresses | strings cut at separators; `copy_file`, `isValidIp4` |

A node of the tree has the fields of the C struct and ghost fields for its child list (`kids`), the
nodes below it (`below`), the blocks that `cJSON_Delete` frees for it (`own`) and its value (`val`);
`Node.Valid` ties them together. `Heap.live` is the set of allocated blocks, and only a live block
can be freed. The model makes these results visible:

- The parser reads every JSON text as its value, to its end, and of all buffers it accepts exactly those
  of a grammar that is written out, leniency included. A text that is right up to one place is refused
  at that place. The grammar and the layout of printed text are written out in bytes, without the
  functions of the parser and the printer.
- The printer writes JSON to the letter, in the one layout that is written out.
- Parsing undoes printing, beyond the nesting limit the printed text is refused, and printing a parsed
  text of ints and parsing it again changes nothing.
- The printer writes exactly the rendering, whatever the initial buffer and its growth, and succeeds
  exactly when the text and two more bytes fit.
- Both passes of the string parser agree on the size, also for malformed escapes.
- Deleting frees each owned block once and nothing borrowed, so any number of status packets leaves
  the configuration's trees as they were.
- `cJSON_Compare` never takes trees that mean different values for equal, and decides equality of
  meaning exactly when repeated names agree with each other; a tree that repeats a name with another
  value differs from its own copy.
- Minification commutes with formatting exactly when no string or key that ends in a backslash stands
  before the very end. Although the function is meant to remove white space and comments only, it can
  also remove spaces and slashes of strings: it keeps compact text, and the value that the text
  parses to, exactly when a scan over the strings finds none of them where the minifier takes itself
  to be outside.
- A receiver that looks the names of a status packet up finds each value under its own name, and a
  reader of `sensor.json` each part of the setup. The caps string, cut at its commas, gives the type,
  the format, the two sizes and the frame rate.
- A saved sensor setup is restored, but for the fractions of exposure and gain, exactly when its text
  fits the loader's buffer, it is complete, its caps string fits, its colour flag agrees with its caps
  type and its auto modes are known ones.
- In every run of the controller the recording, the metadata file and the deadline are those of the
  latest steps that set them; recordings of one directory with different timestamps never share a file.
- In every run of the controller the live limit timers, the UDP watch, the probe, the flags and the
  file names agree, and a recording ends within its time limit (`docs/App_Systems.md:86`), as long
  as the state of the program is defined. It is defined exactly until a directory cannot be created
  after the media is configured: `format_recording_directory` then frees its path (`src/config.c:377-379`),
  and its callers free it again. A program without the second free would not keep the limit, because
  `record_raw` restarts the timer before it tries to create the directory; the two results about that
  program are marked as such.

## Model

| member | source | states |
|---|---|---|
| RoundTrip.ParseUndoesPrint | src/cJSON.c:1312-1364 | formatted or compact text of any printable value nested at most 1000 deep parses, is consumed up to its NUL, and gives back the same value in the same order |
| RoundTrip.PrintedTextParsesIff | src/cJSON.c:1441-1452 | printed text is read back within the nesting limit, and refused beyond it |
| RoundTrip.DeepTextFails | src/cJSON.c:1441-1450 | the text of a value nested more than 1000 deep does not parse |
| ParseSpec.ValueUnderHigherLimit | src/cJSON.c:1441-1450 | a value that is read under the nesting limit is read in the same way under any higher one |
| RoundTrip.ParsePrintParse | src/cJSON.c:1079-1172 | for every buffer: whatever was parsed from it, if its numbers are ints, prints in either format to a text that parses to the same value |
| RoundTrip.PrintParsePrint | src/cJSON.c:1187-1249 | print, parse, print gives the text that printing at once would have given |
| RoundTrip.RenderIsInjective | src/cJSON.c:1367-1438 | two different printable values never share a text, however deep they are nested |
| Reading.LiteralIsRead | src/cJSON.c:773-899 | every string literal of the grammar is read as the bytes it spells, up to the first NUL, and to its closing quote: bytes for themselves, the eight two-byte escapes listed as bytes, code points, surrogate pairs, and any four bytes that are not all digits for a NUL |
| Reading.NumeralIsRead | src/cJSON.c:305-379 | every numeral, with leading zeros, a fraction or an exponent, is read as its exact value and to its end |
| Reading.DocumentIsRead | src/cJSON.c:1095-1172 | every document of the grammar nested at most 1000 deep, with gaps between its words and a byte order mark or none, is read as its value; the end is that of the value, or the NUL if that is demanded |
| Reading.JsonIsRead | src/cJSON.c:1095-1172 | in particular every JSON text to the letter, nested at most 1000 deep and with numerals of at most 63 bytes, is read as its value |
| Reading.LongNumeralIsCut | src/cJSON.c:320-347 | the input outside: of a longer run of digits the first 63 are read as the number, and where the end of the text is demanded the error is behind them |
| Acceptance.AcceptsExactly | src/cJSON.c:1095-1172 | for every buffer: it is accepted as a whole if and only if it is a document of the grammar nested at most 1000 deep, and then gives its value; strings whose two passes part are in this grammar too, with four bytes of any kind after a `\u` or the closing quote taken in by a backslash |
| Faults.WayIsFound | src/cJSON.c:1312-1364 | a value that is right along a way through arrays and objects and wrong at its end fails with exactly that position: no value, no digits, too deep, no name, no colon, no comma, a bad string |
| Faults.ErrorIsAtFault | src/cJSON.c:1141-1171 | the error position of a document is that place, or the last byte of the buffer if it lies behind it |
| Faults.TrailingByteIsFound | src/cJSON.c:1125-1139 | with the demand for the end, the error is at the first visible byte behind the value; without it, the value is returned and its end |
| Layout.RenderIsLaid | src/cJSON.c:1367-1438 | what is printed for a value is a text of the strict grammar and the only one with this layout for the value: a line break and a tab for each level before a member and before the closing brace, one tab after the colon, a space after the commas of arrays, and none of these when unformatted |
| Layout.PlainIntIsText | src/cJSON.c:565-568 | the text of an int is the one with a minus exactly for negative numbers and then a single zero or digits without a leading zero that has this value |
| Layout.ShortestIsEscape | src/cJSON.c:902-1021 | the escaped string is the spelling with short escapes where there are any but for the slash, four lower-case digits for the other control bytes, and bytes for themselves otherwise |
| RoundTrip.StrtodOfIntText | src/cJSON.c:305-379 | the number reader reads an int printed with `%d` back exactly and consumes all of it |
| Rendering.IntTextLength | src/cJSON.c:545-568 | an int prints to at most 11 bytes, so it fits the temporary buffer |
| RoundTrip.StringRoundTrip | src/cJSON.c:773-899 | parsing a string that the printer escaped returns the original bytes and ends right after the closing quote |
| StringCodec.HidingIsSparse | src/cJSON.c:786-808 | positions counted as skipped in the first pass are at least two apart |
| StringCodec.DecodeFits | src/cJSON.c:786-877 | for every input, malformed escapes included, the decoded bytes never exceed the size computed by the first pass |
| StringParser.ScanString | src/cJSON.c:786-808 | the first pass finds the closing quote and counts exactly the bytes hidden by backslashes |
| StringParser.DecodeString | src/cJSON.c:810-876 | the second pass decodes the string into a buffer of the size the first pass computed, every write inside it, or reports the position of the bad escape |
| Utf.ParseHex4 | src/cJSON.c:615-648 | four digits in either case give their number; a bad digit gives 0 |
| Utf.Utf8RoundTrip | src/cJSON.c:715-765 | the UTF-8 bytes of every code point decode to it again |
| Utf.Utf8IsWellFormed | src/cJSON.c:715-765 | one to four bytes of the ranges in section 4 of RFC 3629, whose bits make up the code point |
| Utf.EncodeUtf8 | src/cJSON.c:715-765 | the bytes written, last to first, are those of the table in section 3 of RFC 3629 |
| Utf.Utf16LiteralToUtf8 | src/cJSON.c:652-770 | a literal takes 6 or 12 bytes and writes the UTF-8 of its code point, or is rejected with nothing written |
| Utf.LiteralReadsScalar | src/cJSON.c:652-770 | every escape of a scalar value, a surrogate pair included, is read as exactly that value |
| Utf.AcceptedLiteralWritesScalar | src/cJSON.c:652-770 | every accepted literal of hexadecimal digits is the escape of the value it is read as, so unpaired surrogates are rejected |
| ParseSpec.ParseDocument | src/cJSON.c:1095-1172 | success ends inside the buffer with a value nested at most 1000 deep; failure reports a position inside the buffer |
| Parser.ParseBuffer.SkipWhitespace | src/cJSON.c:1038-1061 | stops at the first byte above 32, or steps back to the last byte of the buffer |
| Parser.ParseBuffer.ParseString | src/cJSON.c:773-899 | the string as specified, in one new block, or the failure position and no block |
| Parser.ParseBuffer.ParseNumber | src/cJSON.c:305-379 | both views of the number and the bytes used, or nothing changed |
| Parser.ParseBuffer.ParseValue | src/cJSON.c:1312-1364 | on success the node denotes the value of the text and everything new is owned by it; on failure every block is freed again; the depth is restored |
| Parser.ParseBuffer.ParseArray | src/cJSON.c:1441-1536 | the same for arrays, with the children linked in order and the head's prev set to the tail |
| Parser.ParseBuffer.ParseElements | src/cJSON.c:1473-1513 | the loop keeps a well-linked list of the elements read so far |
| Parser.ParseBuffer.ParseObject | src/cJSON.c:1601-1711 | the same for objects, names moving from the value string to the name |
| Parser.ParseBuffer.ParseEntries | src/cJSON.c:1631-1689 | the loop keeps a well-linked list of the members read so far |
| Parser.ParseBuffer.ParseKey | src/cJSON.c:1657-1673 | the name and its colon; on failure the name stays with the node so that it is freed |
| Parser.ParseWithOpts | src/cJSON.c:1095-1172 | the tree denotes the value of the text and the end or error position is the specified one; a failure leaves no block behind |
| Parser.Parse | src/cJSON.c:1175-1178 | the same for a C string and its terminator |
| Printer.PrintBuffer.Ensure | src/cJSON.c:439-522 | succeeds exactly when the bytes and one more fit under the limit, and keeps the text through regrowth |
| Printer.PrintBuffer.UpdateOffset | src/cJSON.c:525-535 | afterwards the text is the old text followed by what was written |
| Printer.CountEscapes | src/cJSON.c:927-953 | the count made in advance is exactly the number of bytes escaping adds |
| Printer.PrintBuffer.PrintStringPtr | src/cJSON.c:902-1021 | writes the quoted, escaped string; the closing quote lands right after the last escaped byte |
| Printer.PrintBuffer.PrintNumber | src/cJSON.c:545-612 | writes the int, on the `%d` branch |
| Printer.PrintBuffer.PrintValue | src/cJSON.c:1367-1438 | the old text is followed by the rendering of the value; succeeds exactly when text, terminator and one more byte fit |
| Printer.PrintBuffer.PrintArray | src/cJSON.c:1539-1598 | the same for arrays |
| Printer.PrintBuffer.PrintObject | src/cJSON.c:1714-1825 | the same for objects, with indentation |
| Printer.Print | src/cJSON.c:1187-1249 | a block that holds exactly the rendering and its NUL, unless the text needs more than INT_MAX bytes |
| Printer.PrintBuffered | src/cJSON.c:1262-1290 | the same text for every initial size |
| Printer.PrintPreallocated | src/cJSON.c:1292-1309 | succeeds if and only if the buffer has at least two bytes more than the text |
| ChildList.Append | src/cJSON.c:1956-1987 | the sequence of children grows at the end, and links, value and ownership follow |
| ChildList.GetArrayItem | src/cJSON.c:1851-1868 | the child at the index, or null past the end |
| ChildList.InsertItemInArray | src/cJSON.c:2263-2290 | inserts at the index, or appends past the end; a negative index changes nothing |
| ChildList.DetachItemViaPointer | src/cJSON.c:2187-2221 | removes exactly that child, which is a valid tree on its own afterwards |
| Ownership.ReplaceItemViaPointer | src/cJSON.c:2292-2339 | the child at that place is updated, and exactly the old child's blocks are freed; replacing a child by itself changes nothing |
| Ownership.Delete | src/cJSON.c:253-274 | frees exactly the blocks that the list owns, each once, and nothing that is only borrowed |
| Ownership.CreateReference | src/cJSON.c:1935-1954 | a node that means the same, shares string and children, and owns only itself |
| Ownership.StoreNumber | src/cJSON.c:2429-2453 | both views of the number, the int one saturated |
| JsonValue.IntOfIsTruncated | src/cJSON.c:361-373 | the int view of a number is the integer next to it on the side of zero, or the limit of 32 bits beyond it |
| JsonValue.TruncatesTowardsZero | src/sensor.c:402-403 | the cast to int takes the integer next to the number on the side of zero |
| Ownership.CreateNull | src/cJSON.c:2385-2394 | a node for null, owning itself alone |
| Ownership.CreateString | src/cJSON.c:2455-2470 | a node for the string, owning itself and a copy |
| Ownership.Rename | src/cJSON.c:2029-2043 | the new name is a copy, and the old one is freed unless it is constant |
| Ownership.AddItemToObject | src/cJSON.c:2011-2046 | the object gains one member at the end under that name; a missing item, or the object itself, is refused with nothing changed |
| Building.AddReference | src/cJSON.c:2069-2077 | the object gains a member that means what the borrowed item means, and owns none of its blocks |
| ListBuilder.Finish | src/cJSON.c:1515-1526 | a list built node by node becomes the children of a valid container |
| ListBuilder.Abandon | src/cJSON.c:1529-1535 | giving up frees the whole list |
| CompareSpec.CompareInts | src/cJSON.c:538-542 | between ints the relative tolerance leaves no slack |
| CompareSpec.ToleranceIsRelative | src/cJSON.c:538-542 | numbers of one sign are equal when they differ by at most the 2^52nd part of the larger one, numbers of different signs never |
| CompareSpec.CompareExact | src/cJSON.c:2986-3109 | comparison holds if and only if both values mean the same and no object repeats a name with different meanings |
| CompareSpec.CompareIsValueEquality | src/cJSON.c:2986-3109 | with unique names, comparison is equality of values: arrays as sequences, objects as maps |
| CompareSpec.CompareReflexiveIff | src/cJSON.c:2986-3109 | a value compares equal to a copy of itself exactly when its repeated names agree |
| CompareSpec.CompareSymmetric | src/cJSON.c:2986-3109 | comparison is symmetric |
| CompareSpec.CompareTransitive | src/cJSON.c:2986-3109 | comparison is transitive |
| Comparing.GetObjectItem | src/cJSON.c:1880-1910 | the first child with the name, or null |
| Comparing.Compare | src/cJSON.c:2986-3109 | trees that mean different values are never equal and a tree is equal to itself; without shared nodes or without disagreeing repeated names, the loops decide the comparison of the values |
| Comparing.CompareWithCopy | src/cJSON.c:2986-3109 | a tree compares equal to its deep copy if and only if its repeated names agree |
| Comparing.RepeatedNameDiffersFromCopy | src/cJSON.c:3058-3102 | an object that the parser accepts and that does not compare equal to a copy of itself |
| Duplication.Duplicate | src/cJSON.c:2706-2787 | a valid tree of new nodes only that owns all of itself and has the same value, or the value without children when not recursive |
| Minify.OutIsIdempotent | src/cJSON.c:2838-2884 | for every text, minifying twice is minifying once |
| MinifyParts.OutIsKept | src/cJSON.c:2789-2884 | of a row of parts exactly the strings and the other bytes stay: the four bytes of white space, comments of both kinds with their ends or up to the end of the text, and lone slashes go |
| MinifyParts.MinifiedText | src/cJSON.c:2789-2884 | every text is such a row, so this says what is left of it |
| Minify.MinifyCommutesIff | src/cJSON.c:2816-2884 | minified formatted text is the compact text if and only if no string or key ending in a backslash stands before the very end |
| Minify.MinifyCommutes | src/cJSON.c:2816-2884 | in particular when no string or key contains a backslash |
| Minify.BackslashKeepsSpace | src/cJSON.c:2829-2834 | a value whose minified formatted text is not its compact text |
| Minify.MinifyChangesValue | src/cJSON.c:2829-2834 | one value whose compact text minifies to the compact text of a different value; MinifyLoss has the exact condition |
| Minify.MinifiedTextParses | src/cJSON.c:2838-2884 | where it commutes, minified text parses to the same value |
| MinifyLoss.CompactIsKeptIff | src/cJSON.c:2816-2884 | minifying compact text changes nothing if and only if the scan over its strings finds no space or slash that the minifier takes to be outside |
| MinifyLoss.MinifiedCompactParsesIff | src/cJSON.c:2816-2884 | minified compact text parses to the value it was printed from if and only if that scan finds none; otherwise it does not parse or parses to another value |
| MinifyLoss.CommutingIsLossless | src/cJSON.c:2816-2884 | the scan finds none in any value whose formatted text minifies to its compact text |
| MinifyLoss.MinifiedLoses | src/cJSON.c:2838-2884 | whatever is removed from a text without control bytes takes a space or a slash with it |
| MinifyLoss.TooFewBlanks | src/cJSON.c:820-873 | a text with the escapes of the printer parses to no more spaces and slashes than it has |
| Minify.Cursor.MinifyString | src/cJSON.c:2816-2836 | copies up to the closing quote, the output never ahead of the input |
| Minify.Cursor.SkipLine | src/cJSON.c:2789-2800 | skips to the end of the line or of the text |
| Minify.Cursor.SkipBlock | src/cJSON.c:2802-2814 | skips to the end of the comment or of the text |
| Minify.Minify | src/cJSON.c:2838-2884 | in place: the buffer holds the minified text, and nothing behind the old terminator changes |
| Sensor.SensorSetupInfoJSON | src/sensor.c:426-434 | the formatted text of exactly these members; every block of the tree is freed again |
| Sensor.BuildSetup | src/sensor.c:384-424 | the tree of the setup, with null strings left out |
| Sensor.LoadSensorSetupInfo | src/sensor.c:477-611 | each field is what the last member of its name says; loading succeeds exactly with four strings, two sizes other than 0 and a caps string of fewer than 1024 bytes; the caps string cut at its commas gives the type with the memory feature, the format, numbers that are the width and the height, and the frame rate |
| SetupFile.SavedTextShows | src/sensor.c:384-424 | the saved text parses to an object in which each part of the setup is found under its name, the auto modes as their texts, exposure and gain without fractions |
| SetupFile.LoadReads | src/sensor.c:488-604 | the same as LoadSensorSetupInfo for any members of the expected kinds |
| SetupFile.CapsReadBack | src/sensor.c:587-599 | the caps string cut at its commas, whatever the type and the format are |
| SetupFile.FivePieces | src/sensor.c:587-599 | without commas in the type and the format there are exactly five pieces |
| SetupFile.SetupSurvives | src/sensor.c:384-611 | a saved setup is restored but for the fractions of exposure and gain if and only if its text has fewer than 1024 bytes, it is complete, its caps string has fewer than 1024 bytes, its colour flag agrees with its caps type and both auto modes are known; the lemma also says what is loaded otherwise |
| Sensor.SaveAndLoad | src/sensor.c:426-611 | the same for the code: building, printing, deleting, reading, parsing and loading; the caps string reads back as that of the saved setup, without the memory feature |
| SetupFile.SecondTextIsSameIff | src/sensor.c:402-421 | the file of the second save is that of the first if and only if both auto modes are known ones |
| SetupFile.SecondSaveChangesNothing | src/sensor.c:384-611 | what was loaded is saved and loaded again unchanged, if the second file fits the buffer too |
| Status.BuildPacket | src/statusbroadcaster.c:75-132 | the tree of the packet, entries being added to their parents before they are filled |
| Status.AddScript | src/statusbroadcaster.c:126-132 | one more entry of the hardware list, which borrows the capabilities |
| Status.FormatStatusBroadcastJSON | src/statusbroadcaster.c:75-139 | the text is the rendering of the packet; afterwards the same blocks are allocated as before and the borrowed trees are valid and unchanged |
| Status.BuildAndDelete | src/statusbroadcaster.c:75-139 | the same for blocks and borrowed trees, for every reading, fractional ones included |
| Status.Broadcasts | src/statusbroadcaster.c:142-189 | any number of packets carries the capabilities as they were at the beginning |
| Receiver.ReceiverFinds | src/statusbroadcaster.c:75-139 | a receiver that parses a packet and looks names up finds each part of the configuration, of the sensor or its placeholders, of the state, and each script's name, port and capabilities, every value under its own name |
| Receiver.InactiveMembers | src/statusbroadcaster.c:109-115 | without a sensor these five members stand in a row, the temperature twice |
| Controller.PipelineData.RestartFileLimitTimer | src/pipeline.c:9-19 | a live source gives way to a new timer with the full limit; without one nothing changes |
| Controller.PipelineData.FormatRecordingDirectory | src/config.c:335-384 | the path is in a block that is live exactly if the directory exists |
| Controller.PipelineData.FreePath | src/pipeline.c:33 | freeing a block that is not live leaves the state undefined |
| Controller.PipelineData.RecordRaw | src/pipeline.c:21-45 | the deadline moves in any case; the file changes only if the directory exists; otherwise the path is freed a second time |
| Controller.PipelineData.StopRecordRaw | src/pipeline.c:47-55 | no recording, the file is not a raw one, and the timer is restarted |
| Controller.PipelineData.Stop | src/pipeline.c:47-55 | while streaming, stopping a recording also moves the deadline and keeps everything else in order |
| Controller.PipelineData.FileLimit | src/pipeline.c:107-136 | recording stops and a new metadata file starts; the dispatched timer is gone and a new one is live; without a directory the path is freed a second time |
| Controller.PipelineData.RemoveProbe | src/rtsp_server.c:35-43 | removing the probe closes the metadata file |
| Controller.PipelineData.MediaConfigure | src/rtsp_server.c:88-241 | either everything is set up, or the main loop quits |
| Controller.PipelineData.CleanupMedia | src/rtsp_server.c:25-65 | no limit timer, watch or probe is left, although stopping the recording has restarted the timer |
| Controller.PipelineData.ProcessTrigger | src/udp_server.c:166-199 | with a directory, a new metadata file and a new deadline; without one the path is freed a second time |
| Controller.PipelineData.UdpReceived | src/udp_server.c:201-251 | what start, stop and other messages do to the phase, and when they leave the state undefined |
| Controller.PipelineData.DispatchLimit | src/pipeline.c:107-136 | the timer that fired is not scheduled again, and exactly one limit timer is live, unless the state is undefined |
| Controller.PipelineData.Run | src/main.c:319-321 | over every run, between any two handlers and as long as the state is defined, the timers, watch, probe, flags, sink and file names agree with each other and with the phase the events amount to; sources and blocks of other parts are untouched |
| Controller.RecordingIsPhase | src/pipeline.c:21-55 | while the state is defined, a recording is in progress exactly when the messages say so, in the file they name, and its deadline counts from the last start trigger |
| Recordings.RecordedFile | src/pipeline.c:37-43 | over every run: a recording is in progress exactly when a step has started one and no later step has ended it; its file is that step's directory, then its timestamp, then `.raw` |
| Recordings.MetadataFile | src/pipeline.c:124-131 | over every run: the metadata file is that of the last step that has opened one, its directory, then its timestamp, then `_metadata.csv` |
| Recordings.TimerRunsFrom | src/pipeline.c:9-19 | over every run: the deadline is the time limit after the last step that has restarted the timer |
| Recordings.RecordingsAreApart | src/pipeline.c:37-38 | recordings in one directory whose start triggers carry different timestamps go to different files, at any two moments of any runs |
| Recordings.MetadataIsNoRecording | src/pipeline.c:37-38 | no metadata file of any run is the raw file of any run |
| Recordings.NextStepIsLegalIff | src/rtsp_server.c:147-149 | which steps a run may take next: messages at any time while streaming, the timer once it is due |
| Recordings.StreamingIff | src/rtsp_server.c:25-241 | over every run in a defined state: streaming from a successful configuration until it is torn down; a failed configuration ends the run |
| Controller.UndefinedIff | src/udp_server.c:170-178 | over every run, a block is freed twice if and only if a directory creation fails after the media is configured |
| Recordings.UndefinedIffLacking | src/udp_server.c:166-251 | the same in the words of the messages: a trigger or a time limit whose directory cannot be made |
| Controller.FailedDirectoryFreesTwice | src/config.c:376-380 | the input: the first start trigger for which no directory can be created |
| Controller.DeadlineIsReached | src/pipeline.c:9-19 | a recording in progress may go on until its deadline, and no longer |
| Controller.RestartedIff | src/pipeline.c:21-36 | the deadline counts from later than the beginning of the recording exactly if a later start trigger failed to create its directory and the program went on; in a program that frees the path again this never happens |
| Controller.RepairedLimitKeptIff | src/pipeline.c:9-36 | only of a program without the second free: whatever comes next would happen within the time limit of the recording if and only if no later start trigger had failed |
| Controller.NoRecordingOutlivesLimit | src/pipeline.c:9-55 | as long as the state is defined and timers are on time, no step of any run finds a recording older than the limit |
| Controller.RepairedFailureProlongsRecording | src/pipeline.c:21-36 | only of a program without the second free: a run with a limit of 600 seconds and a recording of 1100 seconds |
| CopyFile.CopyFile | src/config.c:440-497 | returns 0 exactly when nothing fails, and then the target is the whole source in order; otherwise the target is a prefix of it |
| CopyFile.Copy | src/config.c:455-475 | the reading loop, for every schedule of short reads and writes |
| CopyFile.WriteAll | src/config.c:460-474 | the writing loop: retries on interruption and writes every byte once |
| Addresses.IsValidIp4 | src/addresschecker.c:12-72 | accepts exactly the strings that split at dots into four non-empty runs of digits worth at most 255 |
| Addresses.AcceptsIsSplit | src/addresschecker.c:24-60 | rejecting as soon as a prefix exceeds 255 is rejecting by the full value |
| Addresses.DottedNumbers | src/addresschecker.c:12-72 | four numbers in decimal with dots between them are accepted if and only if each is at most 255 |
| Pieces.SplitIsJoined | src/addresschecker.c:24-46 | the pieces of a string are the one way to write it as pieces without separators, joined by them |

## Left out

Deliberate limits of what is stated:

- Printer.PrintBuffer.PrintNumber: only numbers that are ints, the `%d` branch; `%1.15g`, NaN and infinity are library behaviour.
- Parser.ParseBuffer.ParseNumber: `strtod` reads exact decimals; the rounding of a double and the locale's decimal point are not modelled.
- Parser.ParseWithOpts: the last byte of the buffer is NUL, as in `cJSON_ParseWithOpts`; the length-limited entry on other buffers is not used by the program.
- Parser.Parse: the buffer ends in a NUL, as in `cJSON_Parse`; `cJSON_ParseWithLength` on other buffers is not used by the program.
- Reading.JsonIsRead: a numeral of more than 63 bytes is cut there by the parser (LongNumeralIsCut).
- Faults.ErrorIsAtFault: the first wrong place along one way; that every failure has such a way is not stated.
- Comparing.Compare: for two different trees that share a node and repeat a name with different values, equality is bounded from one side only, because the pointer shortcut answers before the names are looked at.
- CompareSpec.CompareReflexiveIff: a tree always compares equal to itself, but not to a copy when an object repeats a name with different values (the inactive status packet repeats "Sensor Temperature", with equal values).
- Minify.MinifyCommutes: stated for values without backslashes; the exact condition is that of MinifyCommutesIff.
- Sensor.LoadSensorSetupInfo: the file leaves room for a NUL in the 1024-byte buffer, parses, and its known members have the expected kinds; the code relies on all of that without checking. Only the root is freed, as in the code; what becomes of the other blocks is not stated.
- Ownership.AddItemToObject: constant names (`cJSON_AddItemToObjectCS`) are not modelled.
- Duplication.Duplicate: a name that is a constant string is shared with the source, as in the code; that two nodes then point to it is not stated.
- Controller.NoRecordingOutlivesLimit: timers fire no later than they are due; the other controller results need no such assumption.
- Controller.PipelineData.Run: nothing is stated about the program after a block has been freed twice.
- Status.FormatStatusBroadcastJSON: the text is stated for readings whose numbers are ints; blocks and borrowed trees are stated for all of them by BuildAndDelete.
- Addresses.IsValidIp4: the counters are unbounded; more than 2^31 leading zeros would overflow the C counter.

Parts that are not modelled:

- Allocation failure and custom allocators (`cJSON_InitHooks`); `cJSON_Raw`; string, array and object references on their own; the number and string array builders.
- Look-up that ignores case, and the `…FromObject`/`…InArray` wrappers around the list operations that are modelled.
- Bit operations of the UTF-8 encoder and the flag bits of `type` are written as arithmetic and as separate fields; the temporary output block of `parse_string` counts as allocated only once it is the node's string.
- Where the capabilities pointers come from (`read_HardwareScript`): they are given as pointers to valid trees. The list of hardware scripts is a sequence.
- The sensor readings of a status packet are given as values; releasing the strings of a sensor reading is not modelled.
- GStreamer, GLib beyond source ids and due times, sockets, processes and signals; a handler is one step of the main loop, and the loop ends when it is told to quit, so nothing is said about the state after a failed `media_configure`.
- Tokenising a UDP message (`parseTrigger`) and the sensor commands it can carry; opening and writing the small text files of a trigger; of the blocks that handlers allocate, only the paths of directories are modelled.
- Log lines, CSV lines, the configuration readers and summaries, interface look-up and the Python scripts.
- In `copy_file`, descriptors, permissions and `errno` beyond success, interruption and error.
