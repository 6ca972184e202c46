# DDS proxy: a verified model

This project models the hard parts of the DDS proxy and of the libraries it is built from, and proves
what they promise.

* **Command line** (`OptionScan`, `OptionSteps`, `ArgVector`, `ParseRun`, `Workhorse`, `OptionChain`,
  `OptionStore`, `CommandLine`; laws in `Partition`, `Reparse`, `Checks`, `OptionMeaning`). The option parser
  scans a vector of arguments, reorders it in place, and is run twice: once to count, once to store the
  options in circular lists across two arrays. `OptionScan` says as a function what a pass does; the loops over
  arrays and objects are proved to do that.
* **Usage formatter** (`DisplayWidth`, `LineWrapping`, `LineWrapper`, `TableSpec`, `LinePartIterator`,
  `UsageColumns`; laws in `CharMeaning`, `ScreenMeaning`, `TableMeaning`, `ColumnMeaning`). A table of
  help texts is transposed by a one-pass iterator, its column widths are found by a fixpoint loop, and its
  last column is wrapped through a ring buffer.
* **Pipe and discovery** (`AllowedTopicList`, `PipeState`, `DdsPipe`, `DiscoveryDatabase`,
  `DiscoveryQueue`; laws in `PipeHistory`). Topics and services are activated as they are discovered,
  allowed, enabled and reloaded; endpoints come through a queue with two buffers.
* **Text codecs** (`Base64`, `StringUtils`, `RosMangling`).
* **Keep-alive** (`KeepAlive`). Master and slave in a model with real time.
* **Wait handler** (`WaitHandler`). A monitor with a condition variable.

The modules called after a meaning, and `PipeHistory`, say in bytes, characters and events what the functions
mean that the loops are proved against.

`Maybes`, `Bytes` and `Bolts` are shared by several modules. `Bolts` is a way to carry a fact through a
proof without looking into it.

What calls outside the model answer is a parameter: check functions of options, matching and containment
of filters, whether a bridge can be created, the moments at which heartbeats arrive, the predicates of
waiting threads, the bits that the machine leaves when it decodes the byte 0xFF. Theorems hold for every
such answer, or name the condition they need.

## Where the code and its documentation differ

* The parser's documentation (`ddsproxy/thirdparty/optionparser/optionparser.h`, lines
  1265 to 1267) says that gnu has no effect on a vector that a gnu pass has reordered. `Reparse.DocumentedPromise` says exactly when; `Reparse.ReparseCounterexample`
  is a table for which it fails. The table of the executable is one for which it holds.
* `disable` leaves the bridges of services enabled, and a reload of a disabled pipe leaves the flags of
  services as they are (`PipeState.StaleService`). Topics have no such flaw.
* The comment in `enable` of the wait handler says that nobody waits while it is disabled. A thread that
  was notified but does not have the lock yet does. `WaitHandler.DisableMissed` says exactly when it misses
  that it was disabled, `WaitHandler.EnabledTooEarly` is a family of inputs.
* `blocking_disable` of the wait handler promises to wait for all threads. It keeps the lock that they need
  to leave, so that its loop never ends if anybody waits (`WaitHandler.BlockingDisable`).
* The comments on the relevance of endpoints say that the pipe acts on the first and on the last active
  endpoint of a topic. `DiscoveryDatabase.SignalsChanges` says for which operations it does; re-added endpoints,
  updates without change, erased endpoints and inactive additions can be signalled once too often or not at all
  (`ReviveIsSilent`, `EraseIsSilent`, `UpdateRepeats`, `InactiveAddSignals`, `UnusedTwice`).
* `contains` of the only filter class answers false for every pair, so that today no filter is ever left
  out; `AllowedTopicList` is proved for every containment.

## Model

| member | source | states |
|---|---|---|
| `OptionSteps.Streq` | `ddsproxy/thirdparty/optionparser/optionparser.h:1482-1494` | a long option name is matched just if the argument up to its first `=` is that name |
| `OptionSteps.StreqAbbr` | `ddsproxy/thirdparty/optionparser/optionparser.h:1520-1533` | an abbreviation is matched just if it is a prefix of the name, up to `=`, and the whole name or at least `min` characters long |
| `OptionSteps.Instr` | `ddsproxy/thirdparty/optionparser/optionparser.h:1541-1550` | membership of a character in the short names of a descriptor |
| `OptionSteps.FindLong` | `ddsproxy/thirdparty/optionparser/optionparser.h:1846-1875` | the search loops pick the exact match if there is one, else the only abbreviation, else none; an ambiguous abbreviation is none |
| `OptionSteps.FindDescriptor` | `ddsproxy/thirdparty/optionparser/optionparser.h:1926-1937` | an option that is not found resolves to the first dummy entry of the table, if any |
| `OptionScan.LongIndexSelects` | `ddsproxy/thirdparty/optionparser/optionparser.h:1848-1875` | the index found: the first descriptor spelled by the argument, or else the only one abbreviated, with enough characters; none is found just if there is no such descriptor |
| `OptionSteps.OfferOption` | `ddsproxy/thirdparty/optionparser/optionparser.h:1939-1972` | what one check function answers decides exactly whether the pass fails, the argument is taken, or the option is performed without it; an action that refuses is told apart |
| `OptionSteps.LongParam` | `ddsproxy/thirdparty/optionparser/optionparser.h:1845-1899` | a long option has the effect that the scan specification gives it, with an attached or a detached candidate; OptionMeaning.LongAttached and LongDetached say which argument that is |
| `OptionSteps.ShortGroup` | `ddsproxy/thirdparty/optionparser/optionparser.h:1902-1924` | a group of short options performs them in order up to the first that takes an argument, that is illegal, or that the action refuses |
| `OptionSteps.TryLong` | `ddsproxy/thirdparty/optionparser/optionparser.h:1823-1884` | when an argument is tried as a long option, and when it falls back to a short group |
| `OptionSteps.OneParam` | `ddsproxy/thirdparty/optionparser/optionparser.h:1823-1974` | one option argument has exactly the effect of its specification on the action, whichever of the two actions it is, and reports whether the candidate was taken |
| `OptionMeaning.LongAttached` | `ddsproxy/thirdparty/optionparser/optionparser.h:1885-1898` | `--name=value`, or with one dash where that is allowed: the descriptor called so, or the only one that the name abbreviates, or else the one for unknown options, is asked about `value`; if it accepts, exactly one option is performed, with the argument `value`, and nothing is taken; what happens for every other answer |
| `OptionMeaning.LongDetached` | `ddsproxy/thirdparty/optionparser/optionparser.h:1845-1899` | `--name` without `=`: the check is asked about the next argument of the vector, which is taken just if it is there and accepted |
| `OptionMeaning.LongUnknown` | `ddsproxy/thirdparty/optionparser/optionparser.h:1926-1940` | a long option that no descriptor handles is passed over |
| `OptionMeaning.ShortAttached` | `ddsproxy/thirdparty/optionparser/optionparser.h:1902-1924` | `-xvalue`, behind any characters that are passed over: the argument offered, and performed if accepted, is the text behind the character |
| `OptionMeaning.ShortDetached` | `ddsproxy/thirdparty/optionparser/optionparser.h:1902-1924` | a character at the end of its group is offered the next argument of the vector, which is taken just if it is there and accepted |
| `OptionMeaning.GroupGoesOn` | `ddsproxy/thirdparty/optionparser/optionparser.h:1902-1924` | characters that are unknown, or whose check declines the rest of the group, are passed over, the latter as options without argument |
| `OptionMeaning.WordsAndTerminator` | `ddsproxy/thirdparty/optionparser/optionparser.h:1787-1821` | the empty argument, `-` and everything that does not begin with a dash are words, passed over with gnu and the end of the pass without; `--` always ends it |
| `OptionMeaning.AttachedInVector` | `ddsproxy/thirdparty/optionparser/optionparser.h:1787-1983` | a vector that begins with `--name=value`: that option with that argument, then the scan of all that follows |
| `OptionMeaning.DetachedInVector` | `ddsproxy/thirdparty/optionparser/optionparser.h:1787-1983` | a vector that begins with `--name` and `value`: one option that takes both, then the scan of all that follows them |
| `OptionMeaning.ShortAttachedInVector` | `ddsproxy/thirdparty/optionparser/optionparser.h:1787-1983` | the same for `-xvalue` |
| `OptionMeaning.ShortDetachedInVector` | `ddsproxy/thirdparty/optionparser/optionparser.h:1787-1983` | the same for `-x` and `value` |
| `ArgVector.Shift` | `ddsproxy/thirdparty/optionparser/optionparser.h:1557-1567` | the swap loop rotates the element at the cursor in front of the `count` elements before it and leaves all others |
| `ArgVector.Reorder` | `ddsproxy/thirdparty/optionparser/optionparser.h:1948-1978` | an option, with the argument it took, ends up behind the options and in front of the skipped words, and nothing else moves |
| `Workhorse.Turn` | `ddsproxy/thirdparty/optionparser/optionparser.h:1836-1982` | one turn of the main loop at an option keeps the loop invariant: scan so far plus scan of the rest is the whole scan, and the vector is options, words, rest |
| `Workhorse.Iterate` | `ddsproxy/thirdparty/optionparser/optionparser.h:1787-1983` | one iteration of the loop: word, terminator or option, each with the invariant kept or the final outcome reached |
| `Workhorse.Pass` | `ddsproxy/thirdparty/optionparser/optionparser.h:1785-1983` | the loop ends, never reads outside the vector, and leaves either a finished scan or the outcome of an aborted one |
| `Workhorse.CountAll` | `ddsproxy/thirdparty/optionparser/optionparser.h:1985-1998` | the number of non-options reported is the number of words skipped and arguments not scanned, for a counted and for a NULL-terminated vector |
| `Workhorse.ReportedSlice` | `ddsproxy/thirdparty/optionparser/optionparser.h:1985-1998` | what is reported as non-options is the part of the vector behind the options, and holds exactly the words and the arguments not scanned, in order; only a count that runs past the first NULL is reported as given, if anything is left unscanned |
| `Workhorse.Workhorse` | `ddsproxy/thirdparty/optionparser/optionparser.h:1769-2001` | the whole pass: the action has performed the options of the scan, or as many as it accepted; it succeeds just if the scan is not fatal and all were accepted; the vector is reordered to options, words, rest, is a permutation at every exit, and unchanged without gnu; `finished` is told the slice of non-options |
| `Partition.StablePartition` | `ddsproxy/thirdparty/optionparser/optionparser.h:1787-1983` | a pass partitions the arguments into options and words, both in their original order, and leaves a suffix unscanned |
| `Partition.ScanPermutes` | `ddsproxy/thirdparty/optionparser/optionparser.h:1787-1983` | no argument is lost or invented |
| `Partition.WhereScanStops` | `ddsproxy/thirdparty/optionparser/optionparser.h:1791-1821` | a successful pass stops early only behind `--` or, without gnu, at the first word |
| `Partition.PosixKeepsOrder` | `ddsproxy/thirdparty/optionparser/optionparser.h:1791-1809` | without gnu nothing is reordered, even in an aborted pass |
| `Reparse.AcceptableIsChain` | `ddsproxy/thirdparty/optionparser/optionparser.h:1823-1982` | what can open a vector that parses can be read off single answers of the check functions: it begins a chain of options each of which leaves the next one, up to one that ends well |
| `Reparse.StableSuffices` | `ddsproxy/thirdparty/optionparser/optionparser.h:1265-1267` | if every option that leaves one candidate leaves every candidate that reordering can put behind it, a second pass in either mode sees the same options and non-options and leaves the vector alone |
| `Reparse.StableIsNeeded` | `ddsproxy/thirdparty/optionparser/optionparser.h:1265-1267` | and only then |
| `Reparse.ReparseLawIffStable` | `ddsproxy/thirdparty/optionparser/optionparser.h:1265-1267` | the law of the second pass holds for a stepper just if it is stable |
| `Reparse.StepsAreSound` | `ddsproxy/thirdparty/optionparser/optionparser.h:1823-1982` | for any table and check functions, the outcomes of an option for two candidates compare as the law needs |
| `Reparse.DocumentedPromise` | `ddsproxy/thirdparty/optionparser/optionparser.h:1265-1267` | the promise that gnu has no effect on a vector already reordered holds for a usage table just if the table is stable |
| `Reparse.ReparseCounterexample` | `ddsproxy/thirdparty/optionparser/optionparser.h:1265-1267` | the promise is not unconditional: a check that accepts but does not insist on an argument breaks it for `file -x` |
| `Checks.OrderlyIsSteady` | `ddsproxy/thirdparty/optionparser/optionparser.h:1941-1966` | tables whose checks ignore detached arguments or insist on one treat all candidates alike |
| `Checks.SteadyIsStable` | `ddsproxy/thirdparty/optionparser/optionparser.h:1265-1267` | such tables keep the promise |
| `Checks.SecondPassNoMore` | `ddsproxy/thirdparty/optionparser/optionparser.h:1787-1983` | for such tables a second pass over what any first pass left, even an aborted one, performs no more options |
| `Checks.ScanBlind` | `ddsproxy/thirdparty/optionparser/optionparser.h:1742-1766` | checks that do not depend on the message flag make the counting and the parsing pass scan alike |
| `Checks.CheckKinds` | `ddsproxy/ddsproxy_main/src/cpp/user_interface/arguments_configuration.cpp:288-430` | the check functions of the executable are of one of the two kinds |
| `Checks.ProxyUsageIsOrderly` | `ddsproxy/ddsproxy_main/src/cpp/user_interface/arguments_configuration.cpp:32-165` | so the usage table of the executable keeps the promise |
| `OptionChain.Option.First` | `ddsproxy/thirdparty/optionparser/optionparser.h:613-621` | from any element of a list, following `prev` until the tag, the head is reached |
| `OptionChain.Option.Last` | `ddsproxy/thirdparty/optionparser/optionparser.h:647-650` | from any element the last one is reached |
| `OptionChain.Option.Count` | `ddsproxy/thirdparty/optionparser/optionparser.h:564-574` | the number of elements, the same from every element; zero for an unused one |
| `OptionChain.Option.Append` | `ddsproxy/thirdparty/optionparser/optionparser.h:738-747` | a new element becomes the last: the links of the longer list agree in both directions and only the wrapping ones are tagged; names and arguments are untouched |
| `OptionStore.ListsAreDisjoint` | `ddsproxy/thirdparty/optionparser/optionparser.h:1697-1706` | the lists of different indices share no object |
| `OptionStore.Link` | `ddsproxy/thirdparty/optionparser/optionparser.h:1697-1706` | storing one more option keeps, for every index, the list headed by `options[k]` equal to the stored options with that index, although a head is a copy and the further elements live in the buffer |
| `OptionStore.WalkIndex` | `ddsproxy/thirdparty/optionparser/optionparser.h:702-705` | walking a list from its head meets exactly the options of that index, in command-line order |
| `OptionStore.CountAndLast` | `ddsproxy/thirdparty/optionparser/optionparser.h:564-574` | count and last agree from every element with what was stored |
| `OptionStore.StoreAction.constructor` | `ddsproxy/thirdparty/optionparser/optionparser.h:1666-1685` | the action finds the first free slot of the buffer |
| `OptionStore.StoreAction.Perform` | `ddsproxy/thirdparty/optionparser/optionparser.h:1687-1710` | an option is stored, discarded because the buffer is full, or refused at INT_MAX; the lists stay well linked and no write is out of range |
| `OptionSteps.Counter.Count` | `ddsproxy/thirdparty/optionparser/optionparser.h:1632-1641` | the counter counts up to 0x7fffffff and then refuses |
| `OptionSteps.Stats.SizeOptions` | `ddsproxy/thirdparty/optionparser/optionparser.h:1753-1763` | the options array has room for every index of the table and a sentinel |
| `CommandLine.AddToStats` | `ddsproxy/thirdparty/optionparser/optionparser.h:1745-1767` | the counting pass counts the options of the scan up to the limit |
| `CommandLine.Parse` | `ddsproxy/thirdparty/optionparser/optionparser.h:1730-1743` | the storing pass performs the same scan; the non-options that the parser had before are kept if there are none, or if the pass is aborted |
| `CommandLine.CountedIsEnough` | `ddsproxy/thirdparty/optionparser/optionparser.h:1265-1267` | a parsing pass performs no more than was counted: without gnu, for steady tables even if a pass is aborted, and for stable tables if the counting pass is not; and exactly what was counted unless a pass with gnu is aborted |
| `CommandLine.CountAndParse` | `ddsproxy/ddsproxy_main/src/cpp/user_interface/arguments_configuration.cpp:205-208` | arrays sized by a counting pass and filled by a parsing pass over what it left: if the options fit, no write is out of range even if a pass is aborted, and everything is stored in order; an unused slot remains just if no more is performed than was counted |
| `DisplayWidth.DecoderIsProper` | `ddsproxy/thirdparty/optionparser/optionparser.h:2293-2311` | decoded characters are not empty, one or two columns wide and never wider than long, do not depend on what follows, and break in front of every byte that is not a continuation byte |
| `DisplayWidth.DecodeChar` | `ddsproxy/thirdparty/optionparser/optionparser.h:2730-2753` | the decoding loop gives the length and the width of the character at a position, for malformed text too |
| `DisplayWidth.WidthAtBoundary` | `ddsproxy/thirdparty/optionparser/optionparser.h:2728-2756` | width adds up at character boundaries |
| `CharMeaning.DecodesUtf8` | `ddsproxy/thirdparty/optionparser/optionparser.h:2730-2753` | the encoding of any code point in section 3 of RFC 3629, in front of any text that does not begin with a continuation byte, is read as one character of that length, two columns wide just in the ranges listed |
| `CharMeaning.WidthOfText` | `ddsproxy/thirdparty/optionparser/optionparser.h:2728-2756` | the width of an encoded text is the sum over its code points |
| `CharMeaning.WidthOfAscii` | `ddsproxy/thirdparty/optionparser/optionparser.h:2728-2756` | a text of ASCII characters is as wide as it is long |
| `CharMeaning.LoneByte` | `ddsproxy/thirdparty/optionparser/optionparser.h:2730-2732` | a byte from 0x80 to 0xC1 in place of a character is one narrow character |
| `CharMeaning.CodeWraps` | `ddsproxy/thirdparty/optionparser/optionparser.h:2733-2745` | the code of an overlong sequence wraps around at 32 bits |
| `LineWrapping.FitIsLongest` | `ddsproxy/thirdparty/optionparser/optionparser.h:2726-2759` | the prefix that is measured is the longest run of whole characters that fits, and never empty for a width of at least two |
| `LineWrapping.NextChunkFits` | `ddsproxy/thirdparty/optionparser/optionparser.h:2761-2790` | each line consumes something, is not too wide, breaks at a space if one is in reach, and gives back the text it came from |
| `LineWrapping.WrapRejoins` | `ddsproxy/thirdparty/optionparser/optionparser.h:2717-2792` | the lines of a text, put together with the dropped spaces, are the text, and each fits |
| `LineWrapper.LineWrapper.constructor` | `ddsproxy/thirdparty/optionparser/optionparser.h:2805-2817` | the ring starts empty and the width is at least two |
| `LineWrapper.LineWrapper.EmptyAndFull` | `ddsproxy/thirdparty/optionparser/optionparser.h:2604-2612` | the ring is empty just if it holds nothing, and full just at fifteen entries |
| `LineWrapper.LineWrapper.BufStore` | `ddsproxy/thirdparty/optionparser/optionparser.h:2614-2621` | a store never overwrites an unread entry and goes behind all of them |
| `LineWrapper.LineWrapper.BufNext` | `ddsproxy/thirdparty/optionparser/optionparser.h:2624-2627` | the oldest entry is read |
| `LineWrapper.LineWrapper.Output` | `ddsproxy/thirdparty/optionparser/optionparser.h:2633-2644` | a full ring writes one line first |
| `LineWrapper.LineWrapper.WriteOneLine` | `ddsproxy/thirdparty/optionparser/optionparser.h:2649-2666` | the oldest line is written, on a new indented line unless it is the first |
| `LineWrapper.LineWrapper.Process` | `ddsproxy/thirdparty/optionparser/optionparser.h:2710-2797` | a text is split into the lines of its specification, queued behind the others, and what is written is what an unbounded queue would write |
| `LineWrapper.LineWrapper.Flush` | `ddsproxy/thirdparty/optionparser/optionparser.h:2675-2690` | the rest of the queue is written, indented, and the ring is empty |
| `LineWrapper.AllLinesRejoin` | `ddsproxy/thirdparty/optionparser/optionparser.h:2717-2792` | all lines of all texts rejoin to the texts and fit |
| `LineWrapper.WrapAll` | `ddsproxy/thirdparty/optionparser/optionparser.h:2570-2819` | any sequence of texts processed and then flushed: the output is that of an unbounded queue, no line is lost or too wide, and the lines rejoin to the texts; ScreenMeaning.WholeOutput says what that output is, byte by byte |
| `ScreenMeaning.WrittenLines` | `ddsproxy/thirdparty/optionparser/optionparser.h:2649-2666` | lines that follow each other are written with exactly one byte 10 behind each but the last, and with as many bytes 32 in front of each but the first as the column says, or one more byte 10 if the column is negative |
| `ScreenMeaning.WholeOutput` | `ddsproxy/thirdparty/optionparser/optionparser.h:2570-2690` | the output for any texts: for each text a piece of such lines, then the lines left, the first of them indented too, and a last byte 10; all lines of all texts are there, in order |
| `TableSpec.SplitJoins` | `ddsproxy/thirdparty/optionparser/optionparser.h:2243-2249` | pieces of a row or cell contain no separator and rejoin to it |
| `TableSpec.DepthIsGreatest` | `ddsproxy/thirdparty/optionparser/optionparser.h:2279` | the depth of a row is the greatest line index of any of its cells |
| `TableSpec.TransposedAt` | `ddsproxy/thirdparty/optionparser/optionparser.h:2258-2267` | the k-th part of a transposed row is at line k / columns and column k % columns, so every column has the same number of parts |
| `TableMeaning.CellsOfRow` | `ddsproxy/thirdparty/optionparser/optionparser.h:2448-2465` | cells joined by byte 9, with their lines joined by byte 11, are read back |
| `TableMeaning.RowOfCells` | `ddsproxy/thirdparty/optionparser/optionparser.h:2448-2465` | and every row is its cells joined so |
| `TableMeaning.RowsOfText` | `ddsproxy/thirdparty/optionparser/optionparser.h:2375-2405` | rows joined by byte 10 are read back from a help text, and every help text is its rows joined so |
| `TableMeaning.RowsOfTable` | `ddsproxy/thirdparty/optionparser/optionparser.h:2375-2405` | the rows of a table are those of its help texts, one after the other |
| `TableMeaning.PartsOfRow` | `ddsproxy/thirdparty/optionparser/optionparser.h:2407-2499` | which part is read at each place of a row made of any cells: line by line, column by column, the line of the cell or an empty filler |
| `TableMeaning.PartCount` | `ddsproxy/thirdparty/optionparser/optionparser.h:2407-2499` | and how many there are: one for each cell and each line of the longest cell |
| `TableMeaning.ColumnsAndLines` | `ddsproxy/thirdparty/optionparser/optionparser.h:2448-2465` | of two texts with byte 9 between them two columns are read, with byte 11 two lines of one column, with byte 10 two rows |
| `LinePartIterator.PartIsLine` | `ddsproxy/thirdparty/optionparser/optionparser.h:2256-2261` | the characters up to the next separator are the line of the cell that the walk stands in |
| `LinePartIterator.LeavingPassesTab` | `ddsproxy/thirdparty/optionparser/optionparser.h:2452-2465` | leaving a cell over a tab: the first line of the next one, or the search for the line that is due |
| `LinePartIterator.LeavingEnds` | `ddsproxy/thirdparty/optionparser/optionparser.h:2466-2486` | at the end of a row all lines have been counted, and the next line starts over or the row is done |
| `LinePartIterator.FillerIsShown` | `ddsproxy/thirdparty/optionparser/optionparser.h:2453-2459` | a cell without the line that is due shows an empty part |
| `LinePartIterator.MeasurePart` | `ddsproxy/thirdparty/optionparser/optionparser.h:2288-2313` | bytes and screen columns of a part |
| `LinePartIterator.LinePartIterator.UpdateLength` | `ddsproxy/thirdparty/optionparser/optionparser.h:2288-2313` | the same, of the part at the cursor |
| `LinePartIterator.LinePartIterator.RestartRow` | `ddsproxy/thirdparty/optionparser/optionparser.h:2410-2420` | back in front of the first part of the row |
| `LinePartIterator.LinePartIterator.NextRow` | `ddsproxy/thirdparty/optionparser/optionparser.h:2375-2405` | the next row: of the help text behind a line break, or the first of the next help text; false just at the end of the table |
| `LinePartIterator.LinePartIterator.TakeTurn` | `ddsproxy/thirdparty/optionparser/optionparser.h:2444-2498` | one turn of the walk: onward, arrived at the next part, or at the end |
| `LinePartIterator.LinePartIterator.Next` | `ddsproxy/thirdparty/optionparser/optionparser.h:2429-2499` | from the part at a line and column the iterator goes to the next column of that line, or to column 0 of the next line, and ends just behind the last column of the last line; every part shown is the line of the cell or an empty filler |
| `LinePartIterator.ReadRow` | `ddsproxy/thirdparty/optionparser/optionparser.h:2872-2889` | all parts of a row, one `next` after the other, are the row transposed, with their screen widths |
| `LinePartIterator.ReadTable` | `ddsproxy/thirdparty/optionparser/optionparser.h:2869-2890` | a table read with `nextRow` and `next` is each of its rows, transposed; TableMeaning.PartsOfRow and RowsOfText say which bytes separate rows, columns and lines |
| `UsageColumns.Measure` | `ddsproxy/thirdparty/optionparser/optionparser.h:2863-2890` | one round measures the last column and, for each column, the widest part narrower than the threshold, not counting interjections |
| `UsageColumns.Total` | `ddsproxy/thirdparty/optionparser/optionparser.h:2903-2909` | the width left of the last column, and the widest column there |
| `UsageColumns.NextThreshold` | `ddsproxy/thirdparty/optionparser/optionparser.h:2892-2911` | if the columns do not fit, the widest left column is a smaller threshold, and no threshold above it makes them fit |
| `UsageColumns.BestIsUnique` | `ddsproxy/thirdparty/optionparser/optionparser.h:2860-2911` | there is only one best threshold |
| `UsageColumns.LeftOutDoesNotFit` | `ddsproxy/thirdparty/optionparser/optionparser.h:2892-2901` | a part left out of the widths would not fit together with all narrower ones |
| `UsageColumns.ColumnWidths` | `ddsproxy/thirdparty/optionparser/optionparser.h:2856-2911` | the fixpoint loop ends, with the greatest threshold at most 10000 that makes the columns fit, whatever the table |
| `UsageColumns.LayOut` | `ddsproxy/thirdparty/optionparser/optionparser.h:2833-2920` | the layout on a screen of any width: eight columns with the widths of some threshold up to 10000, none of them wider under any other threshold that fits; each tab stop is the one before it plus its column, and the last column starts within the screen; ColumnMeaning says which parts count |
| `UsageColumns.FittedIsGreatest` | `ddsproxy/thirdparty/optionparser/optionparser.h:2856-2911` | the widths are those of some threshold up to 10000, and no threshold under which the columns fit makes any column wider |
| `ColumnMeaning.InterjectionsDoNotCount` | `ddsproxy/thirdparty/optionparser/optionparser.h:2879-2886` | a row without bytes 9 and 11 changes no column width, whatever the threshold and wherever it stands in the table |
| `ColumnMeaning.PartsAreCovered` | `ddsproxy/thirdparty/optionparser/optionparser.h:2863-2890` | in every other row each part narrower than the threshold is at most as wide as its column |
| `ColumnMeaning.WidestIsPart` | `ddsproxy/thirdparty/optionparser/optionparser.h:2863-2890` | and a column is as wide as one of those parts |
| `ColumnMeaning.PartsAreLeft` | `ddsproxy/thirdparty/optionparser/optionparser.h:2872-2876` | no part in the first eight columns is to the right of the last column |
| `ColumnMeaning.LastIsPart` | `ddsproxy/thirdparty/optionparser/optionparser.h:2872-2876` | some part is in the last column, unless that is the first |
| `AllowedTopicList.WithoutRepetition` | `ddspipe/ddspipe_core/src/cpp/dynamic/AllowedTopicList.cpp:121-162` | in any order of walking, what is kept is part of the list, no member contains another, it is empty just if the list is, it matches the same topics if containment is sound, and it is the set of maximal members if containment is a partial order, reflexive or not |
| `AllowedTopicList.Compare` | `ddspipe/ddspipe_core/src/cpp/dynamic/AllowedTopicList.cpp:129-146` | one filter against those kept: whether some kept one contains it, and all kept ones it contains if not |
| `AllowedTopicList.KeptAreMaximal` | `ddspipe/ddspipe_core/src/cpp/dynamic/AllowedTopicList.cpp:121-162` | the result does not depend on the order of insertion |
| `AllowedTopicList.SameAnswers` | `ddspipe/ddspipe_core/src/cpp/dynamic/AllowedTopicList.cpp:35-40` | reduction changes the answer for no topic and no service, the empty allow list included |
| `AllowedTopicList.AllowedTopicList.constructor` | `ddspipe/ddspipe_core/src/cpp/dynamic/AllowedTopicList.cpp:35-44` | both lists are reduced on construction |
| `AllowedTopicList.AllowedTopicList.TopicAllowed` | `ddspipe/ddspipe_core/src/cpp/dynamic/AllowedTopicList.cpp:69-104` | a topic is allowed just if the allow list is empty or matches it, and the block list does not |
| `AllowedTopicList.AllowedTopicList.ServiceAllowed` | `ddspipe/ddspipe_core/src/cpp/dynamic/AllowedTopicList.cpp:106-113` | a service is allowed just if its request and its reply topic are |
| `AllowedTopicList.EqualListsCover` | `ddspipe/ddspipe_core/src/cpp/dynamic/AllowedTopicList.cpp:115-119` | two lists compare equal after the reduction just if every filter of each is contained in one of the other, whatever their order and redundancy |
| `AllowedTopicList.AllowedTopicList.Clear` | `ddspipe/ddspipe_core/src/cpp/dynamic/AllowedTopicList.cpp:61-67` | after clearing everything is allowed |
| `PipeState.TopicsAreIndependent` | `ddspipe/ddspipe_core/src/cpp/core/DdsPipe.cpp:146-268` | what an event does to a topic depends on that topic alone: the whole pipe refines a machine with one flag and one bridge per topic |
| `PipeState.ServicesAreIndependent` | `ddspipe/ddspipe_core/src/cpp/core/DdsPipe.cpp:146-268` | the same for services |
| `PipeState.StepKeepsConsistent` | `ddspipe/ddspipe_core/src/cpp/core/DdsPipe.cpp:146-604` | every event keeps flags, bridges and lists consistent |
| `PipeState.ReachableIsConsistent` | `ddspipe/ddspipe_core/src/cpp/core/DdsPipe.cpp:32-604` | in every reachable state, whatever bridges could not be created: a topic is active just if the pipe is enabled and the topic allowed, its bridge is enabled just if it is active, and an enabled service bridge belongs to an active service with a server |
| `PipeState.LuckyRunIsComplete` | `ddspipe/ddspipe_core/src/cpp/core/DdsPipe.cpp:498-564` | if no creation fails, every active topic has its bridge, and every active service with a server its endpoints |
| `PipeState.DisableEnableRestores` | `ddspipe/ddspipe_core/src/cpp/core/DdsPipe.cpp:146-196` | disabling and enabling again restores every topic and service |
| `PipeState.ServicesFollowLists` | `ddspipe/ddspipe_core/src/cpp/core/DdsPipe.cpp:252-265` | over any run a service is active just if the lists it was last held against allow it: those in force when it was found, or of the last reload while enabled since |
| `PipeState.HeldAgainstCurrent` | `ddspipe/ddspipe_core/src/cpp/core/DdsPipe.cpp:207-229` | if lists are only replaced while the pipe is enabled, those are the current ones |
| `PipeState.ServiceBridgesFollowLists` | `ddspipe/ddspipe_core/src/cpp/core/DdsPipe.cpp:146-268` | while the pipe is enabled a service bridge with servers and endpoints is enabled just if the lists it was held against allow it; the current ones, under that proviso |
| `PipeState.StaleService` | `ddspipe/ddspipe_core/src/cpp/core/DdsPipe.cpp:214-229` | without the proviso, for any two lists that disagree on a service, there is a run after which it is enabled although blocked, and reloading the same lists does not help; disabling the pipe had not disabled it |
| `PipeHistory.KnowsWhatHappened` | `ddspipe/ddspipe_core/src/cpp/core/DdsPipe.cpp:146-496` | over every run the pipe is enabled just if it was switched on last, has the lists loaded last, and knows just the topics that are builtin or were found, the services that were found, and of each service just the servers found and not lost since |
| `PipeHistory.ActiveTopics` | `ddspipe/ddspipe_core/src/cpp/core/DdsPipe.cpp:146-268` | over every run a topic is active just if the pipe was switched on last, the topic is builtin or was found, a filter of the current allow list matches it unless that list is empty, and no filter of the block list does |
| `PipeHistory.EnabledServices` | `ddspipe/ddspipe_core/src/cpp/communication/rpc/RpcBridge.cpp:150-220` | while the pipe is enabled a service bridge with endpoints is enabled just if some server was found and not lost since and the lists it was held against allow request and reply; the current ones, if lists are only replaced while the pipe is enabled |
| `PipeHistory.ServicesLeftAlone` | `ddspipe/ddspipe_core/src/cpp/core/DdsPipe.cpp:177-229` | as long as the pipe stays disabled a service bridge is enabled just if it was before the disabling and the service has had a server ever since |
| `PipeHistory.SecondServer` | `ddspipe/ddspipe_core/src/cpp/communication/rpc/RpcBridge.cpp:197-220` | finding and losing a second server leaves the first one known |
| `PipeHistory.OnlyByLuck` | `ddspipe/ddspipe_core/src/cpp/core/DdsPipe.cpp:498-524` | a builtin topic keeps the bridge it got at the start; bridges of topics and endpoints of services exist only if some creation succeeded |
| `DdsPipe.DdsPipe.constructor` | `ddspipe/ddspipe_core/src/cpp/core/DdsPipe.cpp:32-88` | a pipe with the builtin topics and their disabled bridges, enabled at once if the configuration says so |
| `DdsPipe.DdsPipe.EnablePipe` | `ddspipe/ddspipe_core/src/cpp/core/DdsPipe.cpp:146-175` | the state after enabling, and the return code |
| `DdsPipe.DdsPipe.DisablePipe` | `ddspipe/ddspipe_core/src/cpp/core/DdsPipe.cpp:177-196` | the state after disabling, and the return code |
| `DdsPipe.DdsPipe.ReloadAllowedTopics` | `ddspipe/ddspipe_core/src/cpp/core/DdsPipe.cpp:207-268` | the state after replacing the lists; equal lists change nothing, and while disabled only the lists change |
| `DdsPipe.DdsPipe.DiscoveredTopic` | `ddspipe/ddspipe_core/src/cpp/core/DdsPipe.cpp:426-450` | the state after a topic is discovered; PipeHistory.KnowsWhatHappened and ActiveTopics say what that is over a run |
| `DdsPipe.DdsPipe.DiscoveredService` | `ddspipe/ddspipe_core/src/cpp/core/DdsPipe.cpp:452-481` | the state after a server of a service is discovered; PipeHistory.KnowsWhatHappened says that no server is forgotten |
| `DdsPipe.DdsPipe.RemovedService` | `ddspipe/ddspipe_core/src/cpp/core/DdsPipe.cpp:483-496` | the state after a server is lost: the bridge is disabled with the last one |
| `DdsPipe.DdsPipe.ActivateAllTopics` | `ddspipe/ddspipe_core/src/cpp/core/DdsPipe.cpp:585-595` | all allowed topics activated, in any order |
| `DdsPipe.DdsPipe.DeactivateAllTopics` | `ddspipe/ddspipe_core/src/cpp/core/DdsPipe.cpp:597-604` | all topics deactivated, in any order |
| `DdsPipe.DdsPipe.ReloadCurrentTopics` | `ddspipe/ddspipe_core/src/cpp/core/DdsPipe.cpp:231-250` | topics whose flag is wrong are switched, the others are not touched |
| `DdsPipe.DdsPipe.ReloadCurrentServices` | `ddspipe/ddspipe_core/src/cpp/core/DdsPipe.cpp:252-265` | all services held against the new lists |
| `DiscoveryDatabase.SignalsChanges` | `ddspipe/ddspipe_core/src/cpp/core/DdsPipe.cpp:291-414` | for every operation on every database: the pipe is told exactly that a topic got its first user or lost its last one, just if a condition on the operation and the users before it holds |
| `DiscoveryDatabase.RegularIsExact` | `ddspipe/ddspipe_core/src/cpp/core/DdsPipe.cpp:384-414` | additions of new active endpoints, and updates of nothing but the activity, meet that condition in every database |
| `DiscoveryDatabase.RunsTellChanges` | `ddspipe/ddspipe_core/src/cpp/core/DdsPipe.cpp:291-359` | for every run: at every moment the pipe has been told just what happened, exactly if every operation meets that condition |
| `DiscoveryDatabase.ChangesAlternate` | `ddspipe/ddspipe_core/src/cpp/core/DdsPipe.cpp:291-359` | in every run a topic is used and unused in turn, and the last change tells whether it is in use |
| `DiscoveryDatabase.SignalsAlternate` | `ddspipe/ddspipe_core/src/cpp/core/DdsPipe.cpp:291-359` | over any run of operations that meet the condition, QoS updates and erasures included, the signals about a topic and a participant alternate, used first, and the last tells whether it is in use |
| `DiscoveryDatabase.FirstEndpoint` | `ddspipe/ddspipe_core/src/cpp/core/DdsPipe.cpp:361-414` | the first endpoint of all is signalled just if the trigger is any, or reader for a reader, or writer for a writer |
| `DiscoveryDatabase.ServerSignals` | `ddspipe/ddspipe_core/src/cpp/core/DdsPipe.cpp:291-359` | what is told of services: a server found when its endpoint is new and of a kind that counts, lost when it is erased whatever its kind, and nothing else |
| `DiscoveryDatabase.ServersAlternate` | `ddspipe/ddspipe_core/src/cpp/core/DdsPipe.cpp:291-359` | over every run a server is told as found and as lost in turn, and the last signal tells whether it is in the database |
| `DiscoveryDatabase.ReviveIsSilent` | `ddspipe/ddspipe_core/src/cpp/dynamic/DiscoveryDatabase.cpp:121-130` | adding over a known inactive endpoint signals nothing |
| `DiscoveryDatabase.EraseIsSilent` | `ddspipe/ddspipe_core/src/cpp/dynamic/DiscoveryDatabase.cpp:184-210` | erasing an endpoint that is still active signals nothing, even if it was the last user |
| `DiscoveryDatabase.UpdateRepeats` | `ddspipe/ddspipe_core/src/cpp/dynamic/DiscoveryDatabase.cpp:150-182` | updating the only user without change signals its topic again |
| `DiscoveryDatabase.InactiveAddSignals` | `ddspipe/ddspipe_core/src/cpp/dynamic/DiscoveryDatabase.cpp:132-145` | adding an inactive endpoint to a topic without users signals it as used |
| `DiscoveryDatabase.UnusedTwice` | `ddspipe/ddspipe_core/src/cpp/dynamic/DiscoveryDatabase.cpp:150-210` | an only user that is updated to inactive and then erased signals its topic as unused twice |
| `DiscoveryDatabase.DiscoveryDatabase.GetUsers` | `ddspipe/ddspipe_core/src/cpp/dynamic/DiscoveryDatabase.cpp:247-266` | exactly the endpoints that satisfy the filter |
| `DiscoveryDatabase.DiscoveryDatabase.IsEndpointRelevant` | `ddspipe/ddspipe_core/src/cpp/core/DdsPipe.cpp:384-414` | relevance is decided by the active endpoints of the same topic and participant |
| `DiscoveryDatabase.DiscoveryDatabase.AddEndpoint` | `ddspipe/ddspipe_core/src/cpp/dynamic/DiscoveryDatabase.cpp:105-148` | the database and the signals after an addition |
| `DiscoveryDatabase.DiscoveryDatabase.UpdateEndpoint` | `ddspipe/ddspipe_core/src/cpp/dynamic/DiscoveryDatabase.cpp:150-182` | the database and the signals after an update |
| `DiscoveryDatabase.DiscoveryDatabase.EraseEndpoint` | `ddspipe/ddspipe_core/src/cpp/dynamic/DiscoveryDatabase.cpp:184-210` | the database and the signals after an erasure |
| `DiscoveryDatabase.DiscoveryDatabase.Process` | `ddspipe/ddspipe_core/src/cpp/dynamic/DiscoveryDatabase.cpp:337-361` | an inconsistent operation changes nothing |
| `DiscoveryQueue.StepKeepsInv` | `ddspipe/ddspipe_core/src/cpp/dynamic/DiscoveryDatabase.cpp:301-364` | every step of every thread keeps the invariant of the double-buffered queue |
| `DiscoveryQueue.RunsKeepInv` | `ddspipe/ddspipe_core/src/cpp/dynamic/DiscoveryDatabase.cpp:301-364` | in every interleaving: pushed is processed, then foreground, then background; the swap never discards anything; database and signals are those of the processed operations; a sleeping worker has nothing to do or a notification on its way |
| `DiscoveryQueue.ProcessedInOrder` | `ddspipe/ddspipe_core/src/cpp/dynamic/DiscoveryDatabase.cpp:324-364` | what is processed is a prefix of what was pushed, and all of it when the worker sleeps and nothing is on its way |
| `DiscoveryQueue.WorkIsDone` | `ddspipe/ddspipe_core/src/cpp/dynamic/DiscoveryDatabase.cpp:301-364` | if nobody pushes any more, each step of the worker leaves less work until all is processed |
| `DiscoveryQueue.ExitDropsTheRest` | `ddspipe/ddspipe_core/src/cpp/dynamic/DiscoveryDatabase.cpp:301-322` | once the exit flag is set nothing is processed but what was swapped in before, whatever is pushed |
| `DiscoveryQueue.ExitEnds` | `ddspipe/ddspipe_core/src/cpp/dynamic/DiscoveryDatabase.cpp:301-322` | and the processing thread ends: each of its steps leaves less to do, and it rests only when finished or with a notification on its way |
| `DiscoveryQueue.SilentAfterClear` | `ddspipe/ddspipe_core/src/cpp/dynamic/DiscoveryDatabase.cpp:291-299` | once the callbacks are cleared the pipe is told nothing any more, in every interleaving |
| `DiscoveryQueue.SignalsAlternateInRuns` | `ddspipe/ddspipe_core/src/cpp/core/DdsPipe.cpp:291-414` | if the pushed operations meet the condition for exact signals, the signals alternate in every interleaving |
| `Base64.RoundTrip` | `dev-utils/cpp_utils/src/cpp/utils.cpp:235-291` | decoding what was encoded gives it back, for every byte string |
| `Base64.Alphabet` | `dev-utils/cpp_utils/include/cpp_utils/utils.hpp:329` | the digits are the letters, capitals first, then the numerals, `+` and `/`, as in table 1 of RFC 4648 |
| `Base64.Groups` | `dev-utils/cpp_utils/src/cpp/utils.cpp:242-260` | the digits of one, two and three bytes, most significant bits first, with their padding |
| `Base64.GroupAfterGroup` | `dev-utils/cpp_utils/src/cpp/utils.cpp:236-261` | encoding goes group by group |
| `Base64.Vectors` | `dev-utils/cpp_utils/src/cpp/utils.cpp:236-261` | test vectors of section 10 of RFC 4648 |
| `Base64.LongVector` | `dev-utils/cpp_utils/src/cpp/utils.cpp:236-291` | the longest of them, in both directions |
| `Base64.DecodingStops` | `dev-utils/cpp_utils/src/cpp/utils.cpp:277-282` | decoding stops at the first character outside the alphabet, padding included |
| `Base64.EncodedLength` | `dev-utils/cpp_utils/src/cpp/utils.cpp:252-260` | the length is 4 * ceil(n / 3), and padding stands only at the end |
| `Base64.SpreadGathers` | `dev-utils/cpp_utils/src/cpp/utils.cpp:242-289` | spreading three bytes over four digits is undone by gathering them, as in section 4 of RFC 4648 |
| `Base64.LowBits` | `dev-utils/cpp_utils/src/cpp/utils.cpp:244-247` | the bits that are taken do not depend on whether the accumulator wraps at 32 bits |
| `Base64.Encode` | `dev-utils/cpp_utils/src/cpp/utils.cpp:236-261` | the accumulator loop computes the encoding of RFC 4648, with a wrapping and with an unbounded accumulator |
| `Base64.Decode` | `dev-utils/cpp_utils/src/cpp/utils.cpp:264-291` | the accumulator loop computes the decoding, up to the first character that is no digit, with either accumulator |
| `Base64.Table` | `dev-utils/cpp_utils/src/cpp/utils.cpp:269-273` | the table built from the alphabet gives each digit its value and every other character -1 |
| `StringUtils.ReplaceFirst` | `dev-utils/cpp_utils/src/cpp/utils.cpp:130-145` | the first occurrence is replaced, if there is one |
| `StringUtils.ContainsIsSlice` | `dev-utils/cpp_utils/src/cpp/utils.cpp:130-145` | a string contains another just if the other is one of its slices |
| `StringUtils.ReplaceAll` | `dev-utils/cpp_utils/src/cpp/utils.cpp:147-158` | whenever the rescanning loop ends: what is left after the least number of replacements that leaves no occurrence; and if none can arise anew, one pass from left to right, with the count of its occurrences |
| `StringUtils.ShrinkingEnds` | `dev-utils/cpp_utils/src/cpp/utils.cpp:147-158` | the loop ends for replacements that are shorter, or share no character with what they replace |
| `StringUtils.NeverEnds` | `dev-utils/cpp_utils/src/cpp/utils.cpp:130-158` | if what is replaced is part of its replacement, and occurs, the loop never ends |
| `StringUtils.StripStr` | `dev-utils/cpp_utils/src/cpp/utils.cpp:160-171` | the undesired strings are replaced one after the other in some order, each completely, and the counts add up; for single characters that the replacement does not contain the order does not matter: each is replaced where it stands, and the count is theirs |
| `StringUtils.SplitString` | `dev-utils/cpp_utils/src/cpp/utils.cpp:218-233` | the pieces rejoin to the source, each ends where the delimiter first occurs, and the last has none |
| `StringUtils.PiecesAreFree` | `dev-utils/cpp_utils/src/cpp/utils.cpp:218-233` | no piece contains the delimiter |
| `StringUtils.SplitIsUnique` | `dev-utils/cpp_utils/src/cpp/utils.cpp:218-233` | there is only one such split |
| `StringUtils.SplitStrings` | `dev-utils/cpp_utils/src/cpp/utils.cpp:205-216` | every string is replaced by its pieces, in order |
| `StringUtils.SplitAtAll` | `dev-utils/cpp_utils/src/cpp/utils.cpp:193-203` | splitting at one delimiter after the other, in some order of the set; no piece contains any of them, and the pieces with delimiters put back in between give the source |
| `StringUtils.WeaveBack` | `dev-utils/cpp_utils/src/cpp/utils.cpp:193-233` | whatever the order of the delimiters, nothing of the source is lost but delimiters |
| `RosMangling.ContractUndoesExpand` | `dev-utils/cpp_utils/src/cpp/ros2_mangling.cpp:146-176` | the two opposite replacements are inverse just for strings in which no colon is followed by a colon or a slash |
| `RosMangling.MarkerFound` | `dev-utils/cpp_utils/src/cpp/ros2_mangling.cpp:136-148` | behind such a namespace the marker is found where it was put, just if the namespace does not contain it already |
| `RosMangling.TypeRoundTrip` | `dev-utils/cpp_utils/src/cpp/ros2_mangling.cpp:127-179` | demangling a mangled type gives it back: for a message type just if its namespace contains none of `::`, `:/` and `dds_/`, for any other type just if it does not look mangled |
| `RosMangling.MangledMessage` | `dev-utils/cpp_utils/src/cpp/ros2_mangling.cpp:154-179` | the mangled name of a message type, in characters |
| `RosMangling.DemangledMessage` | `dev-utils/cpp_utils/src/cpp/ros2_mangling.cpp:127-152` | what is demangled of any type: what stands in front of the first `dds_::`, and what stands behind it up to an underscore at the end; without these, or with nothing between them, the type itself |
| `RosMangling.ServiceTypeRoundTrip` | `dev-utils/cpp_utils/src/cpp/ros2_mangling.cpp:271-353` | the same for service types: just if it is that of a request or reply, its namespace is plain, and its name has no slash |
| `RosMangling.MangledService` | `dev-utils/cpp_utils/src/cpp/ros2_mangling.cpp:319-353` | the mangled names of a request and a reply type, in characters |
| `RosMangling.DemangledService` | `dev-utils/cpp_utils/src/cpp/ros2_mangling.cpp:271-317` | what is demangled of any service type, wherever the marker and the suffix stand; nothing without one or the other |
| `RosMangling.TopicRoundTrip` | `dev-utils/cpp_utils/src/cpp/ros2_mangling.cpp:74-125` | for which topics demangling undoes mangling, and mangling undoes demangling |
| `RosMangling.ServiceTopicRoundTrip` | `dev-utils/cpp_utils/src/cpp/ros2_mangling.cpp:187-269` | the topics of requests and replies come back just if their only slash is the first character; the empty one does too |
| `RosMangling.MangledTopics` | `dev-utils/cpp_utils/src/cpp/ros2_mangling.cpp:74-125` | the mangled and demangled name of a topic, in characters |
| `RosMangling.MangledServiceTopics` | `dev-utils/cpp_utils/src/cpp/ros2_mangling.cpp:240-269` | the mangled names of the topics of a service, in characters |
| `RosMangling.DemangledServiceTopics` | `dev-utils/cpp_utils/src/cpp/ros2_mangling.cpp:187-250` | the topics that are demangled as those of a service are just the names with prefix and suffix of a request or of a reply |
| `RosMangling.MangleIfRosType` | `dev-utils/cpp_utils/src/cpp/ros2_mangling.cpp:154-179` | the code computes the mangled type |
| `RosMangling.DemangleIfRosType` | `dev-utils/cpp_utils/src/cpp/ros2_mangling.cpp:127-152` | the code computes the demangled type |
| `RosMangling.MangleServiceTypeOnly` | `dev-utils/cpp_utils/src/cpp/ros2_mangling.cpp:319-353` | the code computes the mangled service type |
| `RosMangling.DemangleServiceTypeOnly` | `dev-utils/cpp_utils/src/cpp/ros2_mangling.cpp:271-317` | the loop over the suffixes finds the position that the specification names, a misplaced suffix included |
| `KeepAlive.StepKeepsSlave` | `ddsproxy/ddsproxy_main/src/cpp/keep_alived/ProxyKeepAlivedSubscriber.cpp:160-193` | every step of slave, callback and time keeps the relation between the flag, the sleep and the last heartbeat |
| `KeepAlive.SlaveAlongRun` | `ddsproxy/ddsproxy_main/src/cpp/keep_alived/ProxyKeepAlivedSubscriber.cpp:180-193` | a process that is still slave has had a heartbeat within two intervals |
| `KeepAlive.MasterStays` | `ddsproxy/ddsproxy_main/src/cpp/main.cpp:283-305` | a master never becomes a slave again |
| `KeepAlive.PromotionWindow` | `ddsproxy/ddsproxy_main/src/cpp/keep_alived/ProxyKeepAlivedSubscriber.cpp:184-192` | a slave makes itself master not before one and not after two intervals since the last heartbeat |
| `KeepAlive.NeverPromotes` | `ddsproxy/ddsproxy_main/src/cpp/keep_alived/ProxyKeepAlivedSubscriber.cpp:184-192` | heartbeats closer than the interval keep it slave, even though one between test and reset is lost |
| `KeepAlive.WindowIsSharp` | `ddsproxy/ddsproxy_main/src/cpp/keep_alived/ProxyKeepAlivedSubscriber.cpp:186-191` | both ends of that window are met |
| `KeepAlive.SystemStepKeeps` | `ddsproxy/ddsproxy_main/src/cpp/keep_alived/ProxyKeepAlivedPublisher.cpp:200-214` | every step of master, network, slave and time keeps the invariant of the system |
| `KeepAlive.Failover` | `ddsproxy/ddsproxy_main/src/cpp/main.cpp:283-305` | with heartbeats every period and a network delay that together stay below the interval there is no second master while the first lives, and a new one at most the delay and two intervals after it died |
| `KeepAlive.NeverStuck` | `ddsproxy/ddsproxy_main/src/cpp/main.cpp:283-305` | some step is always possible, or time can pass |
| `KeepAlive.AliveTopic` | `ddsproxy/ddsproxy_main/src/cpp/main.cpp:283-305` | the role loop: slave up to the first heartbeat missed, master ever after |
| `KeepAlive.WritesOnceHeeded` | `ddsproxy/ddsproxy_main/src/cpp/keep_alived/ProxyKeepAlivedPublisher.cpp:143-163` | a heartbeat that waits for a listener is written just if some report of one listener more or less came before; listeners that are reported two at once are not noticed |
| `KeepAlive.WritesByLastReport` | `ddsproxy/ddsproxy_main/src/cpp/keep_alived/ProxyKeepAlivedPublisher.cpp:143-163` | for any totals: the total of the last report of one listener more or less decides, unless one more was ever reported |
| `KeepAlive.OnceThenAlways` | `ddsproxy/ddsproxy_main/src/cpp/keep_alived/ProxyKeepAlivedPublisher.cpp:216-225` | once one listener was reported every later heartbeat is written, whoever leaves |
| `KeepAlive.Publisher.Publish` | `ddsproxy/ddsproxy_main/src/cpp/keep_alived/ProxyKeepAlivedPublisher.cpp:216-225` | whether a heartbeat is written is decided by the whole history of reports |
| `KeepAlive.Publisher.OnPublicationMatched` | `ddsproxy/ddsproxy_main/src/cpp/keep_alived/ProxyKeepAlivedPublisher.cpp:143-163` | the two fields go on summing up the history of reports |
| `KeepAlive.Slave.OnDataAvailable` | `ddsproxy/ddsproxy_main/src/cpp/keep_alived/ProxyKeepAlivedSubscriber.cpp:160-172` | a sample of a live instance sets the flag |
| `KeepAlive.Slave.TestHeartbeat` | `ddsproxy/ddsproxy_main/src/cpp/keep_alived/ProxyKeepAlivedSubscriber.cpp:185-190` | the test at the end of the sleep |
| `KeepAlive.Slave.ClearHeartbeat` | `ddsproxy/ddsproxy_main/src/cpp/keep_alived/ProxyKeepAlivedSubscriber.cpp:191` | the reset of the flag |
| `WaitHandler.StepKeepsInv` | `dev-utils/py_utils/py_utils/wait/WaitHandler.py:60-168` | every step of every thread keeps the invariant of the monitor |
| `WaitHandler.RunsKeepInv` | `dev-utils/py_utils/py_utils/wait/WaitHandler.py:60-145` | in every interleaving: a parked thread has the handler enabled, its predicate false and its time not over; the counter counts the threads inside `wait` |
| `WaitHandler.ValueIsLastSet` | `dev-utils/py_utils/py_utils/wait/WaitHandler.py:66-81` | in every interleaving the value is the one set last, and the handler is enabled just if it was switched on last |
| `WaitHandler.WaitsForItsOwn` | `dev-utils/py_utils/py_utils/wait/WaitHandler.py:130-145` | a thread inside `wait` waits for the predicate and with the limit of its last call, has not returned since, and its time is over just if it ran out since |
| `WaitHandler.WokenBy` | `dev-utils/py_utils/py_utils/wait/WaitHandler.py:60-168` | what wakes up a parked thread, a value that is set, a disabling, its time limit or nothing at all, but no enabling; and a thread leaves just by returning |
| `WaitHandler.CanReturn` | `dev-utils/py_utils/py_utils/wait/WaitHandler.py:130-145` | a thread whose condition holds, or whose time is over, is not left parked: it can resume, and then returns |
| `WaitHandler.ReasonIsRight` | `dev-utils/py_utils/py_utils/wait/WaitHandler.py:120-145` | why a thread returns: disabled before everything, condition met just if the predicate holds, timeout only if there was a limit |
| `WaitHandler.DisableMissed` | `dev-utils/py_utils/py_utils/wait/WaitHandler.py:73-81` | what disabling does to a waiting thread in any interleaving: it returns as disabled just if nobody enables again before it has the lock, and it waits on just if somebody does, its predicate is false and its time is not over |
| `WaitHandler.EnabledTooEarly` | `dev-utils/py_utils/py_utils/wait/WaitHandler.py:148-151` | a parked thread waits while the handler is disabled, and parks again if it is enabled at once |
| `WaitHandler.BlockingDisable` | `dev-utils/py_utils/py_utils/wait/WaitHandler.py:158-163` | the loop that waits for all threads keeps the lock they need: it is never left if anybody waits |
| `WaitHandler.WaitHandler.Set` | `dev-utils/py_utils/py_utils/wait/WaitHandler.py:66-70` | setting the value notifies all |
| `WaitHandler.WaitHandler.DisableHandler` | `dev-utils/py_utils/py_utils/wait/WaitHandler.py:153-156` | disabling notifies all |
| `WaitHandler.WaitHandler.EnableHandler` | `dev-utils/py_utils/py_utils/wait/WaitHandler.py:148-151` | enabling notifies nobody |
| `WaitHandler.WaitHandler.EnterWait` | `dev-utils/py_utils/py_utils/wait/WaitHandler.py:130-136` | the way into `wait`, up to parking or returning at once |
| `WaitHandler.WaitHandler.ResumeWait` | `dev-utils/py_utils/py_utils/wait/WaitHandler.py:134-145` | behind the condition variable: return or park again |

## Left out

- CommandLine.CountAndParse: what is stored is not stated if a counting pass with gnu meets INT_MAX options and is refused in the middle of reordering.
- OptionMeaning.LongAttached: is stated, like its neighbours, for tables whose long names contain no `=`, which the other theorems do not need.
- OptionSteps.Stats.SizeOptions: does not model the wrap of the unsigned `options_max` beyond 32 bits; indices are natural numbers.
- AllowedTopicList.WithoutRepetition: sameness of the matched topics is stated for containments that are sound, that is, under which a filter matches whatever a filter it contains matches.
- KeepAlive.Failover: the master is matched with the slave from the start, and the network keeps the order of heartbeats and its bound on their delay.
- StringUtils.ReplaceAll: is required to end, that is, that after some number of replacements nothing is left to replace; a condition on the strings that is both necessary and sufficient for this is not given.
- StringUtils.SplitString: does not model positions beyond the range of `int`; an empty delimiter is excluded, since the loop does not end.
- A null vector of arguments, arguments that are the same object, and two elements of the vector that share their memory: a detached candidate is told from an attached one by a tag, not by comparing pointers.
- Printing a table: the loop that writes the cells, and the choice of a line of its own for the last column.
- Tables of the usage text separated by descriptors without help: the iterator is modelled inside one table.
- Whether an uninitialised flag of the line wrapper matters: it is not read before it is set.
- DdsPipe.DdsPipe.DiscoveredTopic: does not model the writer that is added to a bridge that exists already, because bridges are modelled by their being enabled only.
- The writers inside a bridge, its tracks and routes, and the master flag that a reload hands to bridges.
- Validation of configurations, and everything that reads or writes YAML and XML.
- The foreign queue behind the discovery database: its swap clears the foreground queue and exchanges the two, as its library documents.
- Operations pushed after the database is stopped, and joining its thread.
- Pattern matching of filters, and the names of request and reply topics of a service.
- Padding of numbers, access to files, logging, and printed messages.
- Creation of DDS entities for the keep-alive topic, and the exit flag of its loops, which are followed for any number of rounds instead.
- Clocks: a time limit is over at any moment after it was set.
