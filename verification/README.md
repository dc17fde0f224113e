# A verified model of infranest-agent

infranest-agent runs on a server, collects readings, spools them on disk and pushes them to InfraNest. This project
models the parts of it that have a real specification to meet, in Dafny, and proves that they meet it: the D-Bus codec
it talks to systemd with, its reading of sshd's configuration, its reader for systemd's journal files, the spool and
push loop, the journal watch, the kernel version order, the walk from filesystems to disks, the mount probes and the
tail of a job's output. Files, sockets, the clock and the server's answers are data; everything holds for all of them.

The model takes the source's form. Where the Go code changes fields in place there is a class with those fields, and
each method is proved against a function of the old state; the theorems are about those functions. Where it is
expressions and recursion there are functions.

| file | what it is |
|---|---|
| Bytes, Options, Sequences, Sorting, Decimal | shared vocabulary: bytes and little-endian words, missing values, bounded queues and distinct lists, Go's string order and sorting, decimal numbers |
| DBusTypes | the D-Bus Specification's types, values, signatures and marshalling ("Type System", "Marshaling (Wire Format)"): the reference |
| DBusWire, DBusCodec | internal/dbus/wire.go: what each read does to the cursor, `skip` and `afterOne`; the encoder and decoder as classes |
| DBusSkip, DBusStall, DBusReturn, DBusShift | `skip` on well-formed values, on any bytes at all, when it returns over any signature, and why marshalling depends on the offset only modulo 8 |
| DBusMessage, DBusConn, DBusReply, DBusHang | "Message Format", the building of a call, the search for its reply, the theorems about both, and which replies make the search hang |
| DBusUnits | internal/dbus/systemd.go: the list of units |
| DBusExamples | the marshalling byte by byte, and messages that are cut off, refused, or name an error |
| SshConfig, SshSoundness, SshLimits, SshPassedOver, SshPorts, SshFolders, SshDepth, SshValues | internal/collect/setup.go: sshd's settings where some files cannot be read; what the collector's state says of the configuration; and exactly when the answers can be believed, whatever its limits passed over |
| JournalBlocks, JournalFormat, JournalEntries, JournalFile | internal/journal/file.go: the block cache, the file format as a function of the bytes, what an entry says, and the reader that must agree with it |
| JournalReads, JournalCount, JournalTally, JournalLines, JournalChosen, JournalBusy | internal/journal/journal.go: what a bounded walk over files reads, an hour's counts, a unit's last lines, both said of the entries themselves, and a file in which the lines are not found |
| Spool, SpoolQueue | internal/spool/spool.go: the directory of readings, and the bounded queue it stands for |
| Delivery, DeliverySafety, DeliveryWaits | internal/agent/run.go: the run loop against any sequence of answers, what every run keeps, and how long it waits |
| Snapshots | internal/agent/batch.go: what a batch leaves out |
| JournalWatch, JournalWatchSafety, JournalWatchTold | internal/agent/journal.go: failures told once, restart loops, bounded queues |
| Versions, VersionsNewer | internal/collect/system.go: comparing versions, and the newest kernel of the running one's flavour |
| BlockStack | internal/collect/blockstack.go: from a filesystem to its whole disks, over a graph that may have cycles |
| MountProbe | internal/collect/mountwatch.go: every interleaving of probes, receiver and deadline |
| TailBuffer | internal/jobrun/jobrun.go: the last lines of a stream, however it was cut into writes |

Some properties one would expect are false of the code. Each has its counterexample, and the exact condition under which
it holds.

- `skip` does not always return: a non-empty array of empty structs, closed or not, makes it loop for ever
  (`DBusReturn.EmptyStructArrayStalls`). For every signature, any bytes at all, there are bytes on which skipping it
  loops if and only if an array of elements that take no room, or a variant, can be reached in it before something the
  code refuses (`DBusReturn.StallsIff`); and some stream makes the search for a reply loop over a header field of that
  signature if and only if the same holds (`DBusHang.ReplyHangsIff`).
- The SSH report can be wrong without saying so: files past the hundredth, and what a file holds past its size limit,
  are passed over in silence (`SshPassedOver.FileLimitMisleads`, `SshPassedOver.SizeLimitMisleads`). For every disk an
  answer holds of every configuration that agrees with what was read if and only if it is "unknown" or the answer of a
  collector without limits (`SshLimits.AnswerHoldsIff`, and likewise for the ports and the Match keywords). The guard
  itself decides it as well: an answer holds if nothing was passed over outside Match while its keyword was neither set
  nor blocked (`SshPassedOver.KnownAnswersAreTrue`), and only then, or when it is "unknown", wherever no file that was
  read is passed over later (`SshPassedOver.PassedOverIff`). Passing over a file that was read before can be harmless
  (`SshPassedOver.RepeatIsHarmless`), so without that condition the guard alone is not exact.
- "Unknown" ports are not always undecided: when sixteen ports were known before anything was unread, nothing unread
  can change them (`SshPorts.UnknownPortsAreKnown` is a disk where the report says "unknown" and they are decided).
  Otherwise any port may be listened on (`SshLimits.UnknownPortsAreUndecided`).
- The comment at internal/journal/journal.go:37-39 promises that an answer says it is partial when the bound of 200000
  entries is reached. An hour's count does (`JournalTally.HourCounted`), and a unit's last lines do not: with one line of
  the unit and that many later entries of others, the answer is the one for a unit that wrote nothing, no line, not
  truncated and not withheld (`JournalBusy.ScanLimitMisleads`). For every set of files it is stated exactly what is
  picked (`JournalLines.PicksNewest`), and for files in time order that this is what it would be without the bound if
  and only if twenty entries were found within it or nothing eligible is left past it (`JournalLines.PickedIff`).
- Two kernels are of one flavour, the comment at internal/collect/system.go:238-241 says, when they are identical with
  their digits removed. The code replaces each run of digits by a sign instead. It tells "rc1" from "rc", which the
  comment does not (`Versions.PlacesTell`), and not a version that writes the sign from one with a number
  (`Versions.HashMisleads`). For any two versions, `Versions.DocumentedRuleIff` says exactly when the code calls them
  one flavour, and that of two that are identical without their digits it does if and only if the numbers stand in the
  same places; the model follows the code.
- The last lines of a job are not everything that fits: error lines beyond half the room are left out beside any other
  output, even where room is left. One line of output and nineteen error lines fit in twenty, and eleven are reported
  (`TailBuffer.RoomIsLeft`). `TailBuffer.LastLines` says exactly when everything is kept.

"Delivered" means what the code means by it: Send returned no error, or an error with Settled set. It does not mean
that the server stored the reading.

## Model

| member | source | states |
|---|---|---|
| `DBusTypes.Align` | internal/dbus/wire.go:25-31 | the result is the first multiple of the boundary at or after the offset |
| `DBusCodec.Encoder.Pad` | internal/dbus/wire.go:61-65 | the buffer grows by exactly the specification's padding for where it ends |
| `DBusCodec.Encoder.PutByte` | internal/dbus/wire.go:67-67 | one byte is appended, unaligned |
| `DBusCodec.Encoder.PutUint32` | internal/dbus/wire.go:69-72 | the buffer grows by the marshalling of a uint32 at its own end |
| `DBusCodec.Encoder.PutText` | internal/dbus/wire.go:75-79 | the buffer grows by the marshalling of a string or object path at its own end |
| `DBusCodec.Encoder.PutSignature` | internal/dbus/wire.go:83-87 | the buffer grows by the marshalling of a signature, which is unaligned |
| `DBusCodec.Decoder.Need` | internal/dbus/wire.go:106-117 | true exactly when nothing failed before and n bytes are left; otherwise the decoder has failed for good |
| `DBusCodec.Decoder.Pad` | internal/dbus/wire.go:119-127 | the cursor moves to the boundary, or the read fails past the end |
| `DBusCodec.Decoder.GetByte` | internal/dbus/wire.go:129-137 | the value and cursor of the reference read of a byte, on any buffer |
| `DBusCodec.Decoder.GetWord` | internal/dbus/wire.go:139-159 | the value and cursor of the reference read of a uint32 or uint64, padding included |
| `DBusCodec.Decoder.GetText` | internal/dbus/wire.go:161-172 | the value and cursor of the reference read of a string with its terminator |
| `DBusCodec.Decoder.GetSignature` | internal/dbus/wire.go:174-183 | the value and cursor of the reference read of a signature |
| `DBusCodec.Decoder.SkipValue` | internal/dbus/wire.go:190-255 | the recursive loops on the moving cursor end as the function Skip says, for any bytes and any signature, or run for ever exactly when it says Stalled |
| `DBusCodec.Decoder.SkipArrayValue` | internal/dbus/wire.go:209-233 | the same for the array case: length check, alignment of the elements, the loop, and the cursor set to the array's end |
| `DBusCodec.Decoder.SkipFieldValues` | internal/dbus/wire.go:234-247 | the same for the struct case's loop over its fields |
| `DBusCodec.RestAfterOne` | internal/dbus/wire.go:261-291 | the depth-counting loop gives the signature after one complete type |
| `DBusSkip.SkipOne` | internal/dbus/wire.go:190-255 | for every supported type tree, every value of it and every start offset, skip consumes exactly the value's marshalling, padding included, sets no error, and returns the signature after the type |
| `DBusSkip.SkipEach` | internal/dbus/wire.go:226-231 | the array loop walks every element of any array of supported values and stops exactly at its end |
| `DBusSkip.SkipMany` | internal/dbus/wire.go:234-247 | the struct loop walks every field and stops at the closing bracket |
| `DBusSkip.SkipVariant` | internal/dbus/wire.go:206-208 | a variant is crossed by its own signature, whatever type it holds |
| `DBusSkip.AfterOneDropsOneType` | internal/dbus/wire.go:261-291 | bracket counting removes exactly the first complete type of any well-formed signature, dictionaries and 16-bit integers included |
| `DBusSkip.EncNonEmpty` | internal/dbus/wire.go:228-230 | every supported value takes at least one byte, which is why the array loop progresses |
| `DBusStall.SuccessAgrees` | internal/dbus/wire.go:190-291 | on any bytes and from any position, a skip of one complete type that neither fails nor stalls leaves the signature afterOne leaves, and has moved forward unless the type is weightless |
| `DBusStall.NoProgressIff` | internal/dbus/wire.go:228-230 | from an aligned position, skipping one complete type succeeds without moving if and only if the type is weightless |
| `DBusReturn.SuccessLeaves` | internal/dbus/wire.go:190-255 | on any bytes, from anywhere and for any signature bytes: a skip that succeeds was of nothing the code refuses, leaves a signature that depends on the signature alone, and has moved forward unless it takes no room |
| `DBusReturn.SteadyReturns` | internal/dbus/wire.go:190-255 | skip returns on every buffer, from every position, over any signature bytes in which neither an array of elements that take no room nor a variant can be reached |
| `DBusReturn.SpoilStalls` | internal/dbus/wire.go:226-231 | for every signature in which one can be reached there are bytes, at every offset, on which skip loops for ever |
| `DBusReturn.StallsIff` | internal/dbus/wire.go:190-255 | for every signature, well formed or not: some bytes make skip loop for ever if and only if the signature can stall |
| `DBusReturn.EmptyStructArrayStalls` | internal/dbus/wire.go:228-230 | a non-empty array of empty structs, closed (`a()`) or not (`a(`), makes the loop run for ever |
| `DBusHang.HangNeedsStall` | internal/dbus/conn.go:233-331 | a search for a reply that never returns does so in a header field whose signature can stall, whatever the stream |
| `DBusHang.ReplyCanHang` | internal/dbus/conn.go:303-324 | for every such signature there is a message that makes the search hang, whatever follows it and whichever reply is waited for |
| `DBusHang.ReplyHangsIff` | internal/dbus/conn.go:233-331 | for every signature a header field can have: some stream makes the search loop for ever over it if and only if it can stall |
| `DBusShift.EncShift` | internal/dbus/conn.go:192-207 | the marshalling of every value of every type depends on its offset only modulo 8 |
| `DBusMessage.FieldBytesShift` | internal/dbus/conn.go:192-202 | header fields encoded in a buffer of their own are byte for byte the fields encoded in place after the 16-byte header |
| `DBusMessage.FrameLayout` | internal/dbus/conn.go:184-207 | a message marshalled by the specification is its sixteen fixed bytes, the separately encoded fields, padding to 8, and the body |
| `DBusConn.AppendField` | internal/dbus/conn.go:216-226 | appending a field to a buffer that holds marshalled fields leaves the marshalling of the longer list |
| `DBusConn.EncodeFields` | internal/dbus/conn.go:192-199 | the fields of a call, in the code's order, signature only when there is one, marshalled as a list of fields |
| `DBusConn.EncodeArgs` | internal/dbus/conn.go:177-180 | the body is the arguments marshalled one after another from offset zero |
| `DBusConn.BuildMessage` | internal/dbus/conn.go:184-207 | the bytes written are the fixed header with the right lengths, the fields, the padding and the body |
| `DBusConn.Conn.Call` | internal/dbus/conn.go:176-214 | a call bumps the serial modulo 2^32, writes exactly the specification's framing of the call message, and answers with what the search for that serial's reply finds |
| `DBusReply.CallReadsBack` | internal/dbus/conn.go:176-214 | for any strings: the body starts on an 8-byte boundary; a reader of the header recovers path, destination, interface, member and signature, in order and with their types; the agent's own parser learns the signature and no reply serial or error; and the body yields the arguments back |
| `DBusReply.HeaderReadsBack` | internal/dbus/conn.go:216-226 | any header of strings, object paths and signatures is read back field by field and exactly consumed |
| `DBusReply.ArgsReadBack` | internal/dbus/wire.go:75-80 | marshalled strings, at any offset, are read back in order and exactly consumed |
| `DBusConn.Conn.ReadReply` | internal/dbus/conn.go:233-300 | the loop of sixteen attempts on the consumed stream is the recursive search |
| `DBusConn.Conn.ReadOne` | internal/dbus/conn.go:235-296 | one attempt: bad endianness, oversized lengths, short reads and each kind of message end as the specification of one message says, and consume what it says |
| `DBusConn.Conn.Judge` | internal/dbus/conn.go:281-296 | which messages answer our serial, with a return or with an error |
| `DBusConn.ReadHead` | internal/dbus/conn.go:240-262 | endianness, kind and the two lengths are read from their places in the fixed sixteen bytes |
| `DBusConn.Conn.ReadParts` | internal/dbus/conn.go:264-279 | fields, padding and body are taken off the stream exactly, or the stream is exhausted |
| `DBusConn.ReadFields` | internal/dbus/conn.go:303-331 | the loop over header fields learns what the recursive reading learns, for any bytes |
| `DBusReply.ParseOver` | internal/dbus/conn.go:303-331 | over any well-formed list of fields the loop crosses every field, known or not, and learns the last serial, signature and error name |
| `DBusReply.OneMessageOver` | internal/dbus/conn.go:235-296 | any well-formed message at the head of any stream is consumed exactly and judged by what it says |
| `DBusReply.OthersSkipped` | internal/dbus/conn.go:233-300 | each message for somebody else costs one attempt and nothing more |
| `DBusReply.ReplyFound` | internal/dbus/conn.go:233-300 | up to fifteen messages for others, then the answer, then anything: exactly the answer's body and signature are returned, and the stream is left at the byte after it |
| `DBusReply.ReplyMissed` | internal/dbus/conn.go:233-300 | sixteen messages for others are one too many: the answer behind them is not reached |
| `DBusReply.LearnsTheLast` | internal/dbus/conn.go:303-331 | for any well-formed fields, what is learned is the last reply serial, the last signature and the last error name, each as its field has it |
| `DBusReply.ErrorArrives` | internal/dbus/conn.go:273-298 | a well-formed error that answers is given with the text of its last error-name field, or the fixed phrase when that is empty or there is none, and with the first string of its body |
| `DBusExamples.NamedErrorArrives` | internal/dbus/conn.go:273-331 | an error message of kind 3 with its name in field 4 and the serial in field 5: the caller gets exactly that name |
| `DBusExamples.CutMessageEnds` | internal/dbus/conn.go:233-272 | a well-formed message cut off anywhere is the end of the stream, never an answer |
| `DBusExamples.RefusedHeads` | internal/dbus/conn.go:240-256 | big-endian messages and those over 16 MiB are refused by their first sixteen bytes |
| `DBusExamples.Alignments` | internal/dbus/wire.go:33-50 | the boundary for each type code is that of the specification's table |
| `DBusExamples.StructExample` | internal/dbus/wire.go:25-59 | a struct of a byte and a 64-bit number from offset 5, byte by byte |
| `DBusExamples.ArrayExample` | internal/dbus/wire.go:209-233 | an array of one 64-bit number, byte by byte: its length does not count the padding before it |
| `DBusUnits.GetRow` | internal/dbus/systemd.go:81-93 | one row's fields are read in order, the job id and its path dropped, for any bytes |
| `DBusUnits.DecodeUnitList` | internal/dbus/systemd.go:67-105 | any bytes at all give a list or an error, and no index is out of range |
| `DBusUnits.UnitsRoundTrip` | internal/dbus/systemd.go:67-105 | every list of units, strings of any length, decodes from its marshalling to itself, rows without a name left out, if and only if its rows take at most 16 MiB; a longer list is refused |
| `DBusUnits.ListedIsWhole` | internal/dbus/systemd.go:67-108 | a list is only given when the body holds all the bytes it says, and says at most 16 MiB: whatever is cut off is refused |
| `SshConfig.SshReader.ApplyLine` | internal/collect/setup.go:294-333 | one line changes the collector's fields as the rule for it says: ports appended up to sixteen, a value set once, Match lines only noted, nothing set once blocked |
| `SshValues.PortSays` | internal/collect/setup.go:294-312 | a Port line names a port exactly when its first argument is a decimal number from 1 to 65535, a plus sign and leading zeros allowed |
| `SshValues.ValueSays` | internal/collect/setup.go:313-332 | a value is the first argument with capitals made small, cut to 128 |
| `SshValues.MethodsSay` | internal/collect/setup.go:313-332 | of the authentication methods it is all arguments with single spaces between them, cut to 128 |
| `SshValues.OneLineDecides` | internal/collect/setup.go:313-332 | the first line that sets a keyword decides it with its place, whatever comes after |
| `SshValues.ChallengeResponse` | internal/collect/setup.go:313-332 | the other name of keyboard-interactive authentication decides it too |
| `SshValues.DefaultsAreSshds` | internal/collect/setup.go:206-244 | a configuration that sets nothing is reported by sshd's five defaults and its standard port |
| `SshConfig.SshReader.Unreadable` | internal/collect/setup.go:340-347 | an unreadable place is listed up to a limit, and blocks later answers unless it is inside Match |
| `SshConfig.SshReader.ExpandTarget` | internal/collect/setup.go:351-389 | which files an Include argument stands for, and when its folder counts as unreadable |
| `SshSoundness.ExpandFinds` | internal/collect/setup.go:351-390 | what an Include may stand for is said from the disk alone: a listed folder gives exactly the names that fit, in order and without dot files; a missing one nothing; a path that is there itself; and a folder that may not be listed anything. The collector finds exactly that, and blocks exactly in the last case |
| `SshSoundness.MatchingIsGlobbed` | internal/collect/setup.go:379-388 | the matching names are those at exactly the places whose name fits the pattern and starts with no dot, in order |
| `SshFolders.UnlistedBlocks` | internal/collect/setup.go:340-377 | outside Match, whatever comes before and after: an Include of a folder that may not be listed leaves every keyword not yet set and the ports unknown, and the folder is listed |
| `SshFolders.UnlistedFolderIsSaid` | internal/collect/setup.go:206-255 | a main file that begins with such an Include: all settings and the ports are unknown and the folder is listed, whatever else the file says |
| `SshDepth.SixteenDeep` | internal/collect/setup.go:285-293 | over any number of files that include one another: a setting at most sixteen Includes down is found with its place, and one further down is not |
| `SshDepth.NestedDisk` | internal/collect/setup.go:285-293 | such files there are, for every depth |
| `SshConfig.SshReader.File` | internal/collect/setup.go:259-338 | reading a file, with Includes inside, leaves the state the recursive reading gives: past the hundredth nothing but the count changes, a file cut at its size limit ends like any other, one that breaks off is unreadable |
| `SshConfig.SshReader.ReadLines` | internal/collect/setup.go:276-334 | the loop over lines, Match and Include among them |
| `SshConfig.SshReader.IncludeAll` | internal/collect/setup.go:289-293 | every argument is expanded before its files are read, in order |
| `SshConfig.ReadSsh` | internal/collect/setup.go:206-255 | the report: nothing without a configuration, otherwise the resolved settings, ports, Match keywords and unreadable places |
| `SshConfig.FileValid` | internal/collect/setup.go:217-242 | every value and port that will be reported has the place it was set |
| `SshSoundness.FileSound` | internal/collect/setup.go:259-338 | the invariant of reading without limits: whatever the unread parts say, the state is right about the configuration expanded so far |
| `SshLimits.AnswerHoldsIff` | internal/collect/setup.go:206-338 | for every disk and keyword, past the limits too: the answer (a value as the first outside Match, with its place, or the default and no line at all) holds of every configuration that agrees with what was read if and only if it is "unknown" or what a collector without limits would answer |
| `SshPassedOver.KnownAnswersAreTrue` | internal/collect/setup.go:259-338 | a keyword for which nothing was passed over outside Match while it was neither set nor blocked is answered as without limits, and rightly of every configuration that agrees with what was read |
| `SshPassedOver.PassedOverIff` | internal/collect/setup.go:260-274 | where no file that was read is passed over later: an answer always holds if and only if it is "unknown" or nothing was passed over while the keyword was undecided |
| `SshPassedOver.FileLike` | internal/collect/setup.go:259-338 | the run with limits beside the one without: keywords and ports not yet lost stand the same in both |
| `SshPassedOver.FileGrows` | internal/collect/setup.go:259-338 | what every reading keeps: values once set, the block and what it froze, ports in order; and inside Match nothing global changes |
| `SshLimits.PortsHoldIff` | internal/collect/setup.go:235-243 | for every disk: the reported ports (the distinct ones written outside Match, in order, at most sixteen, or the standard one and none written) hold of every configuration that agrees with what was read if and only if they are "unknown" or what a collector without limits knows |
| `SshPassedOver.KnownPortsAreTrue` | internal/collect/setup.go:235-243 | the ports are right when nothing was passed over while one could still have been added |
| `SshPassedOver.PassedOverPortsIff` | internal/collect/setup.go:260-274 | where no file that was read is passed over later, exactly then, or when they are unknown |
| `SshSoundness.HeardMeaning` | internal/collect/setup.go:305-311 | the list of ports is distinct, each one was written, and it is complete while there is room |
| `SshLimits.MatchesHoldIff` | internal/collect/setup.go:245-248 | for every disk: the listed Match keywords are exactly those some Match block sets, in every configuration that agrees with what was read, if and only if a collector without limits lists the same and either nothing it opened is unread or the list is full |
| `SshLimits.UnknownIsUndecided` | internal/collect/setup.go:217-228 | for every disk, without limits on reading: "unknown" is said if and only if every value could come first in some configuration that agrees with what was read |
| `SshLimits.UnknownPortsAreUndecided` | internal/collect/setup.go:235-243 | the same for the ports: unless sixteen were known before anything was unread, any port may be listened on, and only then |
| `SshPorts.UnknownPortsAreKnown` | internal/collect/setup.go:235-243 | sixteen ports and then an Include of a file that may not be read: the report says "unknown", and the ports are the sixteen in every configuration that agrees with what was read |
| `SshPassedOver.FileLimitMisleads` | internal/collect/setup.go:260-263 | past a hundred files a readable file is ignored without a word, and a default is reported that need not hold |
| `SshPassedOver.SizeLimitMisleads` | internal/collect/setup.go:273-274 | so with a file longer than is read |
| `SshPassedOver.RepeatIsHarmless` | internal/collect/setup.go:260-263 | a file that was read before can be passed over while a keyword is undecided and the answer still always holds |
| `JournalBlocks.BlockReader.Block` | internal/journal/file.go:493-510 | a block is the file's slice, cached or read; on a miss it joins the end of the queue and at most the oldest leaves |
| `JournalBlocks.BlockReader.Evict` | internal/journal/file.go:502-505 | exactly the block read first is forgotten |
| `JournalBlocks.BlockReader.Read` | internal/journal/file.go:451-491 | after any history of reads, exactly the file's bytes when the range is in the file and at most 1 MiB, and an error otherwise; the cache keeps its keys equal to the queue, at most 32, each a slice of the file |
| `JournalBlocks.BlockReader.ReadAcross` | internal/journal/file.go:472-490 | the pieces of the blocks a range touches make exactly the range |
| `JournalBlocks.ReadableRange` | internal/journal/file.go:451-456 | what can be read are the ranges inside the file of at most a mebibyte |
| `JournalFile.OpenJournal` | internal/journal/file.go:130-152 | a header is accepted exactly when its signature, feature flags and size say so |
| `JournalEntries.HeaderSays` | internal/journal/file.go:130-152 | a file is read if and only if it has the signature, no incompatible flag beyond the first five, and a header of 200 bytes or more inside it; and where its fields are |
| `JournalFile.File.Object` | internal/journal/file.go:165-179 | an object's size and flags exactly when it is aligned, past the header, of the wanted type and wholly inside the file |
| `JournalFormat.Chain` | internal/journal/file.go:185-207 | the chain of entry arrays ends on every file, and every array in it lies inside the file |
| `JournalFormat.ChainIncreases` | internal/journal/file.go:198-203 | offsets strictly increase along the chain, so it cannot come back on itself |
| `JournalFile.File.ListArrays` | internal/journal/file.go:185-207 | the loop lists the chain up to its limit |
| `JournalFile.File.EachEntry` | internal/journal/file.go:224-250 | the visitor is given exactly the reverse of the non-zero items of all arrays concatenated, cut after the first false, for both item widths; no read goes out of bounds |
| `JournalFile.File.VisitChunk` | internal/journal/file.go:230-246 | one chunk of at most 4096 items, visited from its end, is those items visited from the end |
| `JournalFile.File.ReadChunk` | internal/journal/file.go:232-235 | the one read of a chunk is in range and holds its items |
| `JournalFormat.BackwardsKeeps` | internal/journal/file.go:224-250 | filtering unused slots and reversing commute, which is what walking backwards over raw items relies on |
| `JournalFile.File.Data` | internal/journal/file.go:341-353 | the memo never changes an answer: a data object is classified as reading it again would, and the memo stays within its bound |
| `JournalFile.File.ReadData` | internal/journal/file.go:355-413 | a data object is the field its bytes say, compressed, oversized and malformed ones included |
| `JournalFile.File.ReadPayload` | internal/journal/file.go:367-412 | name and value are split at the first equals sign within the bound, and long values are not read |
| `JournalEntries.PayloadSays` | internal/journal/file.go:367-412 | a payload written as name, equals sign and value is read back as exactly those, for any bytes: a message by its place, another known field by its value up to 256 bytes, and a name over 64 bytes not at all |
| `JournalEntries.KindByName` | internal/journal/file.go:385-402 | the seven names that are read, and no other, each for what it is |
| `JournalEntries.NamedPayload` | internal/journal/file.go:385-413 | a payload written under a name is read as that kind with its value, or not at all |
| `JournalEntries.FlagsSay` | internal/journal/file.go:361-363 | a data object is compressed if and only if its flags name XZ, LZ4 or ZSTD |
| `JournalEntries.SmallSays` | internal/journal/file.go:311-320 | a priority or facility is the decimal number written, with or without a sign, when it is in range, and nothing otherwise |
| `JournalEntries.MessageSays` | internal/journal/file.go:416-430 | a message is the first 2048 bytes written, and is said to be cut if and only if there were more |
| `JournalEntries.EntrySays` | internal/journal/file.go:273-337 | an entry in terms of its fields: the last of each kind counts, a number out of range never does, the unit is the one systemd wrote about when the writer was systemd itself or no unit, and compressed is said only without a message beside |
| `JournalFile.File.ReadEntry` | internal/journal/file.go:273-338 | an entry is what its object's items say, in order, at most 512 of them |
| `JournalFile.File.ReadItems` | internal/journal/file.go:292-325 | the loop over the items fills the entry as reading them one by one from the file would |
| `JournalFile.File.Backward` | internal/journal/file.go:254-270 | the walk as it runs, reading each entry through the memo and the block cache between the items of a chunk: it gives the caller the readable entries newest first until it says stop, one is too old, or the limit is reached, and counts what it read |
| `JournalFile.File.BackwardChunk` | internal/journal/file.go:230-246 | one chunk of that walk |
| `JournalFile.File.BackwardItem` | internal/journal/file.go:255-269 | one entry of it: the limit, the unreadable, the too old, and the caller's word |
| `JournalFile.File.ReadMessage` | internal/journal/file.go:416-430 | a message is its bytes up to the bound, and says when it was cut |
| `JournalReads.WalkFeeds` | internal/journal/file.go:254-270 | the walk over a file is the plain feed of the file's first readable entries, newest first, as many as the limit: until the caller says stop or one is too old, with the number read |
| `JournalCount.CountHour` | internal/journal/journal.go:304-373 | the report is the tally of the files, its units ranked and cut to twenty, with the rest counted |
| `JournalCount.CountFile` | internal/journal/journal.go:319-346 | one file's walk adds to the tally and the scan count what the reference walk adds |
| `JournalCount.RankUnits` | internal/journal/journal.go:352-370 | every counted unit once, most errors first, then warnings, then name; the list and the number left out account for all |
| `JournalTally.HourCounted` | internal/journal/journal.go:304-346 | whatever the files hold, in whatever order: the count is that of the first 200000 entries there are to read, unit by unit: errors are those of priority 0 to 3 and warnings those of 4, of entries of the hour with that reported unit and a unit at all; refused logins are those of facility 4 or 10 whose message is a refusal, whatever unit or priority; and partial is said exactly when there are that many |
| `JournalTally.HourNeverTooMany` | internal/journal/journal.go:304-346 | partial or not, in time order or not: at most 200000 entries are read in all, and no number is more than the same count over all readable entries |
| `JournalTally.HourExact` | internal/journal/journal.go:304-373 | for files in time order: the report is exactly that count over all readable entries if and only if none of the hour is left past the bound; and always when it does not say partial |
| `JournalTally.ListedInOrder` | internal/journal/journal.go:356-370 | more errors are listed before fewer, then more warnings before fewer, then names in order |
| `JournalCount.ListedAreLoudest` | internal/journal/journal.go:356-370 | no unit left out is louder than one listed, and listed plus left out is every unit |
| `JournalLines.PickEntries` | internal/journal/journal.go:186-225 | the walk over the files gathers what the reference gathers |
| `JournalLines.PicksNewest` | internal/journal/journal.go:186-225 | for any files: what is picked are exactly the first twenty eligible entries (the unit's, in the span, not debug, with a readable message, no login record) among the first 200000 there are to read, newest file first, or all of them; each file is read up to its first entry that is too old, and a file whose newest is too old not at all |
| `JournalLines.PickedIff` | internal/journal/journal.go:186-225 | for files in time order: that is the first twenty of all eligible entries if and only if twenty were found within the bound or none eligible is left past it |
| `JournalLines.PickedAreNewest` | internal/journal/journal.go:186-225 | for files in time order that do not overlap, also when the bound ends the walk: the picked entries are the first of the eligible ones, newest first, and none left out is newer than a picked one; fewer than twenty means all, unless there was more to read than the bound |
| `JournalChosen.PickedFromEntries` | internal/journal/journal.go:186-225 | said of the entries themselves, for any files: of those there are to read the first so many are read, at most 200000; kept are exactly those among them of the unit, in the span, with priority 6 or below or none, a message, neither facility 4 or 10 nor a login program nor the audit transport, in order, until there are twenty; and those that are only missing a readable message are counted |
| `JournalChosen.EligibleAreChosen` | internal/journal/journal.go:191-225 | the eligible entries are those, of all that can be read |
| `JournalLines.LayLines` | internal/journal/journal.go:229-244 | the picked messages' lines, oldest entry first, each with its own entry's time and priority |
| `JournalLines.SplitJoins` | internal/journal/journal.go:240-243 | splitting a message at its newlines loses nothing |
| `JournalLines.TrimSays` | internal/journal/journal.go:240-243 | a message without exactly the newlines it ends in |
| `JournalLines.LayOne` | internal/journal/journal.go:240-243 | one entry's lines are the pieces between the newlines of its message, and there is one way to split it, each made printable, with the entry's time and priority |
| `JournalLines.LayAppend` | internal/journal/journal.go:229-244 | entries' lines follow one another, the last entry given first |
| `JournalLines.LayRises` | internal/journal/journal.go:229-244 | every line has the time and priority of a picked entry, and for entries newest first the lines come oldest first |
| `JournalLines.LinesAreOldestFirst` | internal/journal/journal.go:166-269 | for files in time order that do not overlap, the lines sent are in order of time, on every run |
| `JournalLines.MaskLines` | internal/jobs/mask.go:67-86 | masking keeps the number of lines and each line's time and priority |
| `JournalLines.NothingGoesUnmasked` | internal/jobs/mask.go:67-86 | no line goes out unmasked, and before a private key's first line none is hidden whole |
| `JournalLines.MaskedIff` | internal/jobs/mask.go:67-86 | a line is hidden whole if and only if some line before it opened a private key and none from there on closed one; every other line is masked by itself |
| `JournalLines.KeyIsMasked` | internal/jobs/mask.go:67-86 | however a private key is spread over lines, every line after its first up to its last is masked whole |
| `JournalLines.ClipAt` | internal/journal/journal.go:391-400 | a cut at most n bytes long that does not split a character |
| `JournalLines.Budget` | internal/journal/journal.go:247-267 | the longest suffix of the lines within 6144 bytes and 40 lines is kept, each line cut to 300 bytes, and truncation is said exactly when something was cut or left out |
| `JournalLines.LastLines` | internal/journal/journal.go:169-269 | a login unit's lines are withheld unread; otherwise the longest fitting suffix of the masked lines of what was picked, oldest first, with the compressed entries counted; truncation is said exactly when a line, a message or the list was cut, and so not when the bound on entries read left some out |
| `JournalLines.AnswersOnce` | internal/journal/journal.go:179-269 | what is said of the answer determines it: no two answers to one question meet it |
| `JournalLines.NoLinesIff` | internal/journal/journal.go:228-269 | for a unit that is no login unit there are no lines if and only if nothing was picked, and then nothing is said to be truncated |
| `JournalBusy.HeaderReads` | internal/journal/file.go:130-152 | the file built here in either layout, one line of a unit and any number of later entries, is one the reader accepts |
| `JournalBusy.EntriesAre` | internal/journal/file.go:254-338 | read backwards its entries are the later ones, newest first, and then the line |
| `JournalBusy.ScanLimitMisleads` | internal/journal/journal.go:186-225 | in either layout and for any number of later entries: the line is there to be found, in time order, and it is reported if and only if they are fewer than 200000; from then on the answer is empty and says nothing of it |
| `Spool.Store.constructor` | internal/spool/spool.go:63-97 | opening the spool removes every partial file and no reading |
| `Spool.Store.List` | internal/spool/spool.go:197-214 | the readings' names in byte order, each once, and nothing that is not a reading |
| `Spool.Store.Trim` | internal/spool/spool.go:216-226 | exactly the oldest readings past the limit are removed |
| `Spool.Store.Add` | internal/spool/spool.go:110-140 | for each way an Add can fail, what is in the directory afterwards; no partial file of this reading is left |
| `Spool.NoHalfFile` | internal/spool/spool.go:110-140 | however an Add ends that got as far as writing, no half-written file of its name is left |
| `Spool.ReadingNames` | internal/spool/spool.go:197-214 | a file is a reading if and only if its name is anything and then .json |
| `Spool.Store.Take` | internal/spool/spool.go:146-177 | the oldest readings with their data, up to n; only readings that are not JSON are removed; an unreadable one makes the whole Take fail |
| `Spool.Store.TakeNames` | internal/spool/spool.go:157-176 | the loop over names, with what it returned, what it removed and where it gave up |
| `Spool.Store.Drop` | internal/spool/spool.go:180-184 | exactly the named readings are gone |
| `Spool.AscendingUnique` | internal/spool/spool.go:197-214 | a set of names has only one strictly ascending listing |
| `SpoolQueue.NameOrder` | internal/spool/spool.go:116-118 | twenty-digit names are injective, and their byte order is the numeric order of the sequence numbers |
| `SpoolQueue.NameSaysNumber` | internal/spool/spool.go:116-118 | the digits of a name are its sequence number |
| `SpoolQueue.NamesInOrder` | internal/spool/spool.go:197-214 | listing the directory of a rising queue gives the queue in order |
| `SpoolQueue.AddRefines` | internal/spool/spool.go:110-140 | with a number above all others, Add is: append to the queue, keep the newest Max |
| `SpoolQueue.TakeRefines` | internal/spool/spool.go:146-177 | Take is the oldest prefix of the queue, and removes nothing |
| `SpoolQueue.TakeSays` | internal/spool/spool.go:146-177 | with damaged and unreadable files: a Take is an error exactly when it meets an unreadable one; otherwise it gives exactly the files that are JSON, in order with their data; and those that are not, as far as it came, are removed |
| `SpoolQueue.DropRefines` | internal/spool/spool.go:180-184 | dropping what was taken leaves the rest of the queue |
| `Delivery.Runner.constructor` | internal/agent/run.go:118-138 | a run starts with a swept spool, no backoff and the clock's sequence number |
| `Delivery.Runner.CollectOnce` | internal/agent/run.go:240-282 | a tick's collection uses up a sequence number, and adds its reading if there is one |
| `Delivery.Runner.SendOnce` | internal/agent/run.go:346-479 | for every answer: what is dropped, which error comes back, and the cadence afterwards |
| `Delivery.Runner.ApplyCadence` | internal/agent/run.go:540-575 | the server's interval is taken only when slower than configured and at most an hour |
| `Delivery.Runner.OneTick` | internal/agent/run.go:140-179 | one pass of the loop leaves the state of the reference step, having waited what it should |
| `Delivery.Runner.RunLoop` | internal/agent/run.go:118-180 | any number of whole passes, and the collection in whose wait the loop is stopped, leave the state of the reference run, having waited its times |
| `DeliverySafety.CollectConserves` | internal/agent/run.go:240-282 | collecting: what is committed is spooled, or replaced a file of its own name, or pushed the oldest out |
| `DeliverySafety.SendConserves` | internal/agent/run.go:346-479 | sending: what leaves the spool was damaged, or was in the batch that was answered |
| `DeliverySafety.RunConserves` | internal/agent/run.go:118-180 | over every run and every sequence of answers, the readings there were and those committed since are, as a multiset with their data, exactly those still spooled and those that left by a logged event |
| `DeliverySafety.FinishedConserves` | internal/agent/run.go:140-158 | the same for a run that has ended, which is between a collection and its push |
| `DeliverySafety.RunJustified` | internal/agent/run.go:346-479 | over every run, evicted readings are older than all kept and the spool is full; discarded ones are not JSON; answered ones went in a batch of one to sixty valid readings that Send accepted or settled |
| `DeliverySafety.FinishedJustified` | internal/agent/run.go:140-158 | the same for a run that has ended |
| `DeliverySafety.UnsettledKeeps` | internal/agent/run.go:404-434 | a push that failed without settling removes no valid reading and changes none |
| `DeliverySafety.SendLeaves` | internal/agent/run.go:346-479 | after a push the directory is what it was, without the damaged files that were met; and without the batch if and only if there was one and the server took it or named it in its error |
| `DeliverySafety.FinishedGainsOnce` | internal/agent/run.go:137-158 | with numbers above every file there is, no run, ended or not, overwrites a reading or commits one twice |
| `DeliverySafety.LeavesOnce` | internal/agent/run.go:118-180 | a reading leaves the spool at most once in a run, to its end: one answer or one eviction, never both |
| `DeliverySafety.FinishedBounded` | internal/spool/spool.go:28-32 | over every run, to its end, the spool holds at most Max readings, as long as its directory can be listed when one is added |
| `DeliverySafety.WaitsAreBounded` | internal/agent/run.go:149-178 | whatever the server answers, every wait is at least the configured interval and at most the larger of it and an hour |
| `DeliveryWaits.EachWait` | internal/agent/run.go:133-178 | over every run from a start, each wait is the longest of the configured interval, the last pace in range the server named, and the hold-off: 30 s doubled with each further plain failure in a row, at most 15 min; 15 min from a denial on until a push works or has nothing to send; nothing after that |
| `DeliverySafety.ServerPace` | internal/agent/run.go:486-575 | the agent goes at the server's pace exactly when that is slower than configured and at most an hour; otherwise nothing changes |
| `DeliverySafety.BackoffDoubles` | internal/agent/run.go:524-534 | after k ticks in a row whose push fails for no lasting reason, the agent holds off for thirty seconds doubled k-1 times, at most fifteen minutes |
| `DeliverySafety.GoodTick` | internal/agent/run.go:140-164 | a tick in which everything works takes one reading in and up to sixty of the oldest out of the queue |
| `DeliverySafety.BacklogEmpties` | internal/agent/run.go:137-164 | any backlog is gone after k good ticks if and only if it is at most 59k, where a full spool counts as one less than it holds |
| `DeliverySafety.SpoolDrains` | internal/agent/run.go:137-164 | after any number k of good ticks in a row the directory itself is empty if and only if the readings waiting were at most 59k, likewise |
| `Snapshots.NewestIndex` | internal/agent/batch.go:84-103 | the reading with the greatest timestamp, the later of two that tie, the last one when no timestamp can be read |
| `Snapshots.TrimSnapshots` | internal/agent/batch.go:41-77 | the newest reading is untouched and every other one keeps exactly its measurements; one reading alone, and text that is no object, stay as they are |
| `Snapshots.TrimIsInvisible` | internal/agent/batch.go:19-77 | the server picks the same reading before and after, finds the same present moment in it, every reading keeps its place and all its measurements, and trimming again changes nothing |
| `Snapshots.OnlyNewestSpeaksOfNow` | internal/agent/batch.go:8-15 | in a trimmed batch of two or more nothing of the present moment is left outside the newest reading |
| `Snapshots.OnlySnapshotsGo` | internal/agent/batch.go:18-76 | exactly the seven fields of the present moment go, from no reading but the older ones of a batch of two or more, and every other field stays as it is |
| `Snapshots.MountsStay` | internal/agent/batch.go:15-18 | every reading keeps its mounts |
| `Snapshots.NewestIsLatest` | internal/agent/batch.go:84-104 | the newest reading has the greatest time of all readings that have one |
| `JournalWatch.Watch.LookAt` | internal/agent/journal.go:146-195 | one service changes the maps and falls due as the reference look says |
| `JournalWatch.Watch.LookAtState` | internal/agent/journal.go:152-170 | the failure remembered, forgotten or due, for each state and timestamp |
| `JournalWatch.Watch.LookAtCounter` | internal/agent/journal.go:172-194 | counter, restart times and quiet period after one sighting |
| `JournalWatch.KeepRecent` | internal/agent/journal.go:184-190 | the filter that writes over the slice it reads keeps exactly the times less than a day old, in order |
| `JournalWatch.Watch.LookAtAll` | internal/agent/journal.go:143-195 | a collection's units are looked at in order, and the units seen are noted |
| `JournalWatch.Watch.ForgetUnseen` | internal/agent/journal.go:197-208 | units that were not seen are forgotten in every map |
| `JournalWatch.Watch.Tell` | internal/agent/journal.go:213-227 | the first five that are due become events, a login unit's without reading its lines |
| `JournalWatch.Watch.ObserveJournal` | internal/agent/journal.go:128-231 | one collection leaves the state of the reference step, whether the services answered and whether the journal can be read |
| `JournalWatch.Watch.JournalForPush` | internal/agent/journal.go:237-257 | the last full hour is counted when it was not yet, and the push carries the queues as they are |
| `JournalWatch.Watch.JournalDelivered` | internal/agent/journal.go:260-265 | a landed push empties both queues and nothing else |
| `JournalWatchSafety.UnitsAreSeparate` | internal/agent/journal.go:128-231 | over any run, what is remembered of a unit and what falls due for it follow from the sightings of that unit alone |
| `JournalWatchSafety.FailuresAreEpisodes` | internal/agent/journal.go:152-170 | over any run a unit's failures fall due exactly once an episode: whenever it is seen failed and was not, just before, seen with the same failure |
| `JournalWatchTold.EpisodeAt` | internal/agent/journal.go:152-170 | an episode begins when the unit is shown failed and was not just before, failed since the same moment; it is a kill for memory exactly when the result says so, at the moment the state changed or else now |
| `JournalWatchTold.OnlyServices` | internal/agent/journal.go:143-147 | whatever falls due is a unit just shown whose name ends in .service |
| `JournalWatchSafety.TimesAreIncrements` | internal/agent/journal.go:176-190 | dropping old restarts as time goes by loses none that still counts: what is remembered, filtered now, is every rise of the counter since the unit was last gone, filtered now |
| `JournalWatchSafety.LoopWhen` | internal/agent/journal.go:172-194 | with a clock that does not step back, a loop is due if and only if the counter was seen to rise three times in the last day and no loop of the unit, watched without a gap since, is younger than six hours |
| `JournalWatchTold.LoopDueWhen` | internal/agent/journal.go:172-194 | the same by the counter itself: it rose by three or more in the last 24 hours, and no loop, watched without a gap since, is younger than six hours; counting at most three restarts a collection makes no difference |
| `JournalWatchSafety.LoopsAreApart` | internal/agent/journal.go:191-194 | whatever the clock does, two loops of a unit that stays watched are at least six hours apart |
| `JournalWatchSafety.LoopsAreDue` | internal/agent/journal.go:172-194 | over any run a unit's loops fall due at exactly those sightings |
| `JournalWatchSafety.OnlyUnitsSeen` | internal/agent/journal.go:197-208 | after an answered collection no map holds a unit that was not in it |
| `JournalWatchSafety.EventsAreNewest` | internal/agent/journal.go:213-231 | over any sequence of collections, pushes and landings, the events waiting are the newest ten of those told since the last push that landed |
| `JournalWatchTold.CollectionTells` | internal/agent/journal.go:209-233 | a collection adds one event for each of the first five that fell due, with the unit's lines from an hour before until a minute after, or withheld for a login unit; the last ten wait; and it adds none when the services did not answer or the journal cannot be read |
| `JournalWatchSafety.ToldIsDue` | internal/agent/journal.go:213-227 | over the whole run nothing is told more often than it fell due |
| `JournalWatchSafety.PendingIsTold` | internal/agent/journal.go:213-231 | what waits for a push is the end of what was told since the start |
| `JournalWatchSafety.LoginLinesStayUnread` | internal/agent/journal.go:217-223 | a login unit's event is the same whatever the journal holds, and carries no line |
| `JournalWatchSafety.HourAligned` | internal/agent/journal.go:246-247 | the hour counted is the last whole one |
| `JournalWatchSafety.HoursRise` | internal/agent/journal.go:237-257 | over any such sequence the hours counted are whole hours, strictly increasing, so none is counted twice, and at most six counts wait, each the count of its hour |
| `JournalWatchTold.PushCounts` | internal/agent/journal.go:237-257 | a push counts the last full hour if and only if the journal can be read and every hour counted over the whole run is an earlier one, and changes nothing else |
| `JournalWatchTold.HoursAreNewest` | internal/agent/journal.go:237-265 | over any run, what waits are the counts of the last six hours told since a push landed |
| `Versions.VersionSegments` | internal/collect/system.go:323-343 | the index loops give the runs of digits and of letters |
| `Versions.SegmentsAreRuns` | internal/collect/system.go:323-343 | every segment is non-empty and of one kind |
| `Versions.SegmentsSplit` | internal/collect/system.go:323-343 | no segment crosses a separator or a change of kind, and none is lost there |
| `Versions.SegmentsOfOne` | internal/collect/system.go:323-343 | a run by itself is one segment, a separator none |
| `Decimal.LengthThenText` | internal/collect/system.go:308-317 | without leading zeros, comparing length and then text is comparing the numbers, of any size |
| `Versions.CompareSegments` | internal/collect/system.go:300-317 | one pair of segments compares as numbers, as text, or by kind |
| `Versions.CompareVersions` | internal/collect/system.go:296-321 | the loop's answer is the lexicographic comparison of what the segments mean |
| `Versions.VersionOrder` | internal/collect/system.go:296-321 | reflexive, antisymmetric in sign, transitive, strict where either side is; and two versions tie if and only if their segments mean the same |
| `VersionsNewer.FirstDifference` | internal/collect/system.go:293-321 | two versions that begin alike and differ in one run: the larger number is newer, leading zeros aside; a number is newer than a word; of two words the one later in the dictionary; what follows matters only when the runs mean the same |
| `VersionsNewer.LongerIsNewer` | internal/collect/system.go:293-321 | a version that goes on is newer than the one it begins with |
| `VersionsNewer.ComesAfterIff` | internal/collect/system.go:315-317 | byte comparison is dictionary order: greater exactly when, after a common beginning, it goes on alone or with the greater byte |
| `VersionsNewer.AsDocumented` | internal/collect/system.go:243-244 | 5.14.0-503 is newer than 5.14.0-427, and 6.10 newer than 6.9 |
| `VersionsNewer.RunsAre` | internal/collect/system.go:323-347 | a run is of digits alone or of letters alone |
| `Versions.KernelShape` | internal/collect/system.go:273-291 | the loop replaces each run of digits by one sign |
| `Versions.ShapeIgnoresNumbers` | internal/collect/system.go:238-241 | replacing a number by any other number keeps the shape |
| `Versions.SameShapeIff` | internal/collect/system.go:273-291 | any two versions have one shape if and only if they are alike mark by mark: the same character, or each a number or the sign that stands for one |
| `Versions.SameFlavourIff` | internal/collect/system.go:238-241 | without that sign, if and only if they have the same characters and numbers in the same places |
| `Versions.DocumentedRuleIff` | internal/collect/system.go:238-241 | for any two versions: one shape if and only if they are the same without numbers and signs and these stand in the same places; so of two that are identical without their digits the code says one flavour exactly when the places agree |
| `Versions.SameShapeSameText` | internal/collect/system.go:238-241 | without the sign: one shape if and only if the same text and numbers in the same places of it |
| `Versions.PlacesTell` | internal/collect/system.go:238-241 | "rc1" and "rc" are identical without digits, and the code tells them apart |
| `Versions.HashMisleads` | internal/collect/system.go:273-291 | a version that writes the sign can pass for one with a number |
| `Versions.NewerKernel` | internal/collect/system.go:247-270 | nothing unless the running kernel is installed; otherwise a maximum of the installed ones of its shape, and true if and only if one of them is strictly newer than it |
| `BlockStack.UnderIsReachable` | internal/collect/blockstack.go:57-82 | the step-by-step set is exactly the disks at the end of some way of at most so many links |
| `BlockStack.Walker.Walk` | internal/collect/blockstack.go:57-82 | the recursion ends on every graph, cycles included, and finds everything below a directory within the links left, unless there are eight already; and nothing else |
| `BlockStack.Walker.WalkSlaves` | internal/collect/blockstack.go:67-73 | the same for the devices a stacked one is built on; links that lead nowhere are passed over |
| `BlockStack.Walker.AddDisk` | internal/collect/blockstack.go:76-80 | a disk is added once, if it has a device |
| `BlockStack.WholeDisksFrom` | internal/collect/blockstack.go:47-87 | a sorted list of disks, all reachable within eight links, exactly as many as there are or eight, and all of them when there are fewer than eight; without repetition when no name is cut |
| `BlockStack.TooManyDisks` | internal/collect/blockstack.go:60-62 | exactly as many disks are named as there are, or eight |
| `BlockStack.DevRoundTrip` | internal/collect/blockstack.go:90-95 | splitting a device number loses no bit, and every 32-bit major and minor come back from their packing |
| `MountProbe.RunSound` | internal/collect/mountwatch.go:40-82 | over every interleaving, each answer sent is in the channel or received, once, and the receiver's variables say exactly what it received |
| `MountProbe.SendsNeverBlock` | internal/collect/mountwatch.go:47-56 | in every reachable state, also after the collector has gone, a probe that wants to send can |
| `MountProbe.EveryPointIsAccountedFor` | internal/collect/mountwatch.go:61-81 | in every reachable state received points and unanswered ones partition the entries, and nothing is received twice |
| `MountProbe.UnansweredAreTheSilent` | internal/collect/mountwatch.go:72-75 | with distinct mount points, a point is unanswered if and only if its own probe was not heard |
| `MountProbe.AnswersInAnyOrder` | internal/collect/mountwatch.go:79-94 | when everyone answers in time the result is one fixed sorted list, whatever order the answers came in |
| `MountProbe.ReportedAre` | internal/collect/mountwatch.go:66-94 | the list holds exactly what the probes found, in order of mount points |
| `MountProbe.ProbeMounts` | internal/collect/mountwatch.go:40-82 | the collector's loop, for any answers that reach it before the deadline: sorted mounts and nobody unanswered, or the mounts so far and exactly the silent points |
| `MountProbe.MachineIsTheLoop` | internal/collect/mountwatch.go:61-81 | every finished run of the machine is the loop on the answers received |
| `MountProbe.Blocklist.Blocked` | internal/collect/mountwatch.go:101-115 | blocked until the deadline, and a block that has run out is forgotten |
| `MountProbe.LookedForgets` | internal/collect/mountwatch.go:109-112 | after a collection has looked, no block that has run out is left for a mount it saw |
| `MountProbe.Blocklist.Block` | internal/collect/mountwatch.go:117-122 | a silent mount is blocked for ten minutes |
| `MountProbe.Blocklist.LiveMounts` | internal/collect/linux.go:268-274 | the mounts probed are exactly those not blocked, in order |
| `MountProbe.Blocklist.BlockMounts` | internal/collect/linux.go:277-282 | every silent mount is blocked |
| `MountProbe.Blocklist.ReadMounts` | internal/collect/linux.go:268-282 | one collection probes what is not blocked and blocks what stays silent |
| `MountProbe.Blocklist.ReadAll` | internal/collect/linux.go:256-285 | any number of collections, each from what the ones before it blocked |
| `MountProbe.NotProbedAgain` | internal/collect/mountwatch.go:21-27 | over any sequence of collections none probes a mount within ten minutes of one that gave up on it |
| `MountProbe.ProbedWhenRested` | internal/collect/mountwatch.go:15-18 | from an empty list, over any sequence of collections, each probes exactly the mounts no earlier one gave up on in the ten minutes before, in order; so a silent mount is left alone for ten minutes and then probed again |
| `MountProbe.LiveIsUnblocked` | internal/collect/linux.go:268-274 | a mount is probed if and only if it is there and not blocked |
| `MountProbe.SilentMountsRest` | internal/collect/mountwatch.go:21-27 | over any sequence of collections, a mount that was given up on is still blocked at every moment of the next ten minutes |
| `MountProbe.StuckProbesAreFew` | internal/collect/mountwatch.go:21-27 | over any stretch of collections, from any blocks, the collections that probed a mount in vain are at most one more than the ten minutes between its first end and its last |
| `TailBuffer.Buffer.Write` | internal/jobrun/jobrun.go:229-246 | the bytes written change partial line and kept lines as the reference does byte by byte, and all are accepted |
| `TailBuffer.Buffer.Push` | internal/jobrun/jobrun.go:248-254 | a finished line is kept without trailing carriage returns, and only the newest are |
| `TailBuffer.Buffer.GetLines` | internal/jobrun/jobrun.go:256-268 | the lines shown are the kept ones and a non-empty unfinished one, the last of them |
| `TailBuffer.LinesMakeTheStream` | internal/jobrun/jobrun.go:229-246 | splitting loses nothing: the lines with their newlines and the rest are the stream, and no line holds a newline |
| `TailBuffer.LineSays` | internal/jobrun/jobrun.go:229-254 | what is kept of a line are its first 1024 bytes without exactly the carriage returns these end in |
| `TailBuffer.WrittenIsTail` | internal/jobrun/jobrun.go:229-254 | after any stream the buffer holds the stream's unfinished line cut to 1024 bytes and the last max of its finished lines, cut and cleaned |
| `TailBuffer.ChunkingDoesNotMatter` | internal/jobrun/jobrun.go:222-268 | for every way of cutting a stream into writes, the lines shown are the last max lines of the whole stream |
| `TailBuffer.LastLines` | internal/jobrun/jobrun.go:204-219 | never more than max lines; the last error line is always there; of the error lines at most half the room beside other output, and of the others as many as then fit; everything if and only if it is at most max lines and the error lines fill at most half the room or stand alone |
| `TailBuffer.RoomIsLeft` | internal/jobrun/jobrun.go:204-219 | any one line of output and any nineteen error lines: eleven of the twenty that fit are reported |
| `Sorting.SortIgnoresOrder` | internal/collect/mountwatch.go:84-94 | sorting elements the order tells apart gives one result, whatever the input's order |

## Left out

What the repository does that the model does not:

- Sockets, HTTP, TLS, the D-Bus handshake, /proc, /sys, the registry and system calls: bytes, maps and answers stand for them.
- JSON text, regular expressions, UTF-8 repair and certificate parsing: whether bytes are JSON, how one line is masked or cleaned, and which lines open and close a private key are parameters.
- The other collectors, the status file, flare, the command line, usage scans, job reports and a change of the push URL: plumbing around the parts above.
- Machine integers: lengths, offsets and times are unbounded. The journal reader's checks at internal/journal/file.go:166 and internal/journal/file.go:452 add two 64-bit numbers; the model's sum cannot wrap. `decoder.str` is modelled with an `int` wide enough for any 32-bit length plus one.
- Values of 4 GiB and more: the D-Bus theorems are about buffers below 2^32 bytes, as the format's lengths are.
- Types `n`, `q` and dictionary entries in `skip`: the code refuses them and so does the model; the round trips are about the other types.
- The array loop that never ends: a method that does not return cannot be written here, so `Decoder.SkipValue` reports it as `stalled`.
- Big-endian messages: refused by the code, and by the model.
- Error texts: which error is returned is modelled only where a caller tells errors apart.
- Parsing an sshd line into keyword and arguments, cleaning Include paths and glob matching: functions of the model's `Disk`. Folders that can be listed are as listed, whoever includes them.
- SshConfig.SshReader.ApplyLine: lower-casing is of ASCII letters, and cutting at 128 counts characters; other letters, which the code lowers and cuts by bytes, are not modelled.
- The list of files kept for the fingerprint, beyond which files were opened.
- `Match` conditions: like the code, every line after a Match is conditional, whatever it matches.
- SshSoundness.FileSound: about reading without the limits on files and their size; `SshPassedOver.FileLike` and `SshLimits.AnswerHoldsIff` bring them in.
- SshPassedOver.PassedOverIff: where a file that was read is passed over later, what it said is known, and whether the answer holds depends on that; the exact condition is then that of `SshLimits.AnswerHoldsIff`.
- The journal file while it is being written: the model reads an immutable sequence of bytes, so read errors in the middle of a file do not occur and the branches for them are not reached.
- JournalFile.File.EachEntry: the visitor is a function of a state it is handed, and not one that reads the file through the same cache between visits; the only walk the agent runs, `Backward`, is written out with those reads in it.
- JournalFile.File.Backward: what the caller does with an entry is a function of it and the file; the message it may read is proved separately to depend on the file alone (`ReadMessage`).
- The counter of compressed items in a file, and the order in which `open` sorts the files: the files are given newest first.
- JournalCount.CountHour: units are counted under their reported names; the cleaning and cutting of a name to 256 bytes, and ties in the ranking that this could create, are not modelled.
- Spool.Store.Take: a file that disappears between listing and reading, which the code skips, is not modelled; nothing but the agent removes readings here.
- Spool.Store.TakeNames: likewise.
- File removals that fail, and directories with a reading's name: not modelled.
- DeliverySafety.FinishedGainsOnce: assumes that sequence numbers rise above every file there is; a clock set back across a restart can break that, and conservation (FinishedConserves) then accounts for the overwritten reading.
- DeliverySafety.SpoolDrains: about ticks in which collecting, listing, reading and pushing all succeed, and twenty-digit numbers that do not overflow.
- MountProbe.AnswersInAnyOrder: about mounts that report distinct points; Go's sort is not stable, so mounts that report the same point, which clipping can cause, may come in either order.
- The order of unanswered mount points, and of map iteration anywhere: any order.
- Sorting on the path where the deadline passed: the code does not sort there, and the model does not either.
- The memory of goroutines and the channel's lock: a send and a receive are single steps.
- Loss of what the watch found while the journal could not be read, or past five in one collection: the code does not find it again, and the model says so by counting events only from what was told.
- A state-change time that is present but zero: the code treats it as missing; the model's present times are real ones.
- Snapshots.TrimSnapshots: field names are matched exactly; Go's decoder also accepts `Collected_At` and other spellings of the timestamp's name.
- Versions.KernelShape: works on bytes, as the code does for valid UTF-8; invalid UTF-8 would be replaced first.
- BlockStack: each directory's contents do not change during the walk, and the cutting of a name is a parameter, since no block device's name is that long.
- The locks of `tailBuffer` and `mountBlocklist`: each call is one step.
