# Verified models of the Fuzix 6809 tools

Dafny models of eight of the small C programs in this repository, with proofs about them. Each program is modelled twice:
once as functions on values that say what it means (a compiler, a stream format, a volume, a protocol machine), and once
in its own imperative form, as classes and methods with loops over arrays and fields, proved to do what those functions
say. The laws are proved about the functions, so the methods inherit them. `dafny verify dfyconfig.toml` checks
everything. Nothing here was executed.

- **bfc**, the Forth compiler: `BfcLang` (structured source, its words and its lines), `BfcMachine` (the target machine
  and the structured meaning), `BfcCompile` (the one-pass compiler as a function), `BfcCorrect` and `BfcProgram`
  (simulation and whole programs), `Bfc` (the compiler with its arrays, and the two dictionaries).
- **slz**: `SlzFormat` (the stream), `SlzGreedy` (the parse), `Slz` (ring, tag bits, scanning and packing loops).
- **uncompress**: `LzwBits`, `LzwCodec` (tables and symbols), `LzwStream` (files), `LzwCompress`, `LzwDecompress`.
- **decb**: `DecbVolume` (chains, names, the invariant), `DecbFiles` (put and rm as steps, runs), `DecbImage` (offsets),
  `Decb` (the program over an image and its FAT).
- **xxd**: `XxdText` (dumps), `XxdRevert` (the reverter as a machine over characters), `Xxd` (line buffer and loops).
- **booter**: `BooterFile` (segment files and flat memory), `Booter` (block buffer, window, load loop).
- **picol**: `PicolToken`, `PicolEval`, `PicolLaws`, `PicolSafety`, `PicolScripts`, and `Picol` with its parser and
  interpreter.
- **DriveWire**: `DwServer` (drives and protocol), `DwRuns` (whole runs), `DriveWire` (lwwire's server, dw.c's client).

Where the law one would expect is false of the code, the code is kept and the exact condition is proved:

- LZW loses bytes when its table fills, so the round trip holds if and only if at most 255 entries are needed
  (`LzwStream.RoundTripIff`, `LzwStream.CompressRoundTrip`), and what is lost otherwise is stated
  (`LzwStream.DecompressKept`); `LzwStream.LastByteIsLost` is an input that loses a byte.
- decb's `get` misreads lengths that are multiples of 256 (`DecbFiles.PutGetRoundTrip`; `DecbFiles.ShortFilesAreLost`
  for lengths 0 and 256); `put` needs L/2304 + 1 free granules although fewer would hold some files (`Decb.Disk.Put`).
- booter refuses files in which a header crosses a block (`BooterFile.LoadsSegments`); one is
  `BooterFile.StraddlingIsRefused`.
- picol's tokenizer leaves its text after a dangling backslash in an open bracket (`PicolToken.OverrunsIff`,
  `PicolSafety.OverrunHappens`).

Bytes are integers from 0 to 255; shifts and masks are written with division and remainder. Where the C code has
undefined behaviour, or goes on with stale table entries, the model has an outcome of its own (`None`, `bad`, `Broken`,
`OVERRUN`, `ok == false`) and stops.

## Model

| member | source | states |
|---|---|---|
| BfcProgram.CompilerCorrect | bfc/bfc.c:238-307 | for every closed program that fits a 16-bit address space, calling any definition of the emitted code, on any data stack and above any return stack, halts with the data stack the structured meaning gives and the return stack unchanged, and times out exactly when that meaning runs out |
| BfcCorrect.BodyFollows | bfc/spiffy/spiffy.fs:120-134 | the emitted lines of any structured body run in step with its structured meaning: same data stack, same part of the return stack, control at the line after the body |
| BfcCorrect.CallFollows | bfc/bfc.c:151-155 | calling a definition through its label runs in step with the structured call, primitives and colon words alike |
| BfcCorrect.RoundsFollow | bfc/spiffy/spiffy.fs:304-315 | the emitted test and back branch of a for-loop run in step with the structured rounds |
| BfcProgram.ForRepeats | bfc/bfc.c:245-260 | `n for … next` runs its body exactly n times, with n-1 down to 0 on the return stack, and removes the counter |
| BfcProgram.EvalMore | bfc/spiffy/spiffy.fs:120-134 | the step bound of the structured meaning is only a bound: more steps give the same result with more steps left |
| BfcProgram.LabelsUnique | bfc/bfc.c:158-174 | in the code of a closed program no label, of a word or of a control structure, is defined twice |
| BfcLang.ProgLabels | bfc/bfc.c:158-174 | every label number below the next free one is defined exactly once in the emitted code, and no other is |
| BfcLang.BodyLabels | bfc/bfc.c:238-307 | a body numbered from n defines each of its own labels once and no other label |
| BfcLang.BodyOperands | bfc/bfc.c:238-307 | every branch in a body numbered from n names a label of that body, and every call a label below that of the first definition not yet known |
| BfcLang.ProgOperands | bfc/bfc.c:151-174 | every call and every branch in a program's code names a label below the next free number, run or not |
| BfcProgram.LabelClosure | bfc/bfc.c:132-174 | what the compiler writes for a closed program is closed under its labels: none is defined twice, every call and branch names one that is defined exactly once, so does every dictionary entry, and the control stack is empty at the end |
| BfcCompile.BodyCompiles | bfc/bfc.c:380-429 | compiling the words of any body that fits the 16 control cells and 256 labels writes exactly the body's lines and leaves the control stack as it was |
| BfcCompile.ProgCompiles | bfc/bfc.c:380-429 | a closed program compiles, word by word, to its lines, with the control stack empty at the end |
| BfcCompile.LookupIsNewest | bfc/bfc.c:177-186 | the host dictionary gives for every name the label of the newest definition of that name |
| Bfc.Compiler.PushCntl | bfc/bfc.c:48-51 | pushes a cell, and is undefined exactly when all 16 are in use |
| Bfc.Compiler.PullCntl | bfc/bfc.c:53-56 | takes the newest cell, and is undefined exactly on an empty stack |
| Bfc.Compiler.MkEntry | bfc/bfc.c:158-174 | adds an entry with the next label, keeps the pointers to the run-time words at their newest definitions, and writes the label |
| Bfc.Compiler.FindEntry | bfc/bfc.c:177-186 | the downward scan from labeli finds the newest entry of that name, although it starts above the entries in use |
| Bfc.Compiler.DoIf | bfc/bfc.c:238-243 | conditional branch to a fresh label, which is pushed |
| Bfc.Compiler.DoThen | bfc/bfc.c:262-265 | defines the label on top of the control stack |
| Bfc.Compiler.DoElse | bfc/bfc.c:300-307 | branches to a fresh label, pushes it, and defines the one pulled |
| Bfc.Compiler.DoBegin | bfc/bfc.c:267-271 | defines a fresh label and pushes it |
| Bfc.Compiler.DoAgain | bfc/bfc.c:273-277 | branches back to the label pulled |
| Bfc.Compiler.DoUntil | bfc/bfc.c:279-283 | branches back conditionally to the label pulled |
| Bfc.Compiler.DoWhile | bfc/bfc.c:285-292 | conditional branch to a fresh label, which goes below the loop's own |
| Bfc.Compiler.DoRepeat | bfc/bfc.c:294-298 | branches back and defines the exit label; `next` is the same |
| Bfc.Compiler.DoDoFor | bfc/bfc.c:245-254 | pushes the counter, then the loop's label, test and exit |
| Bfc.Compiler.DoWord | bfc/bfc.c:406-426 | a known word becomes a call, a number inside a definition a literal, anything else stops the compiler |
| Bfc.Compiler.ProcessFile | bfc/bfc.c:380-429 | the word loop refines the compiling function whose correctness CompilerCorrect states, and stops where that is undefined |
| Bfc.DoDict | bfc/bfc.c:132-148 | the linked records have the entries' names and labels in order, each linked to the one before, and dp0 is the last |
| Bfc.RuntimeFind | bfc/spiffy/spiffy.fs:355-356 | walking the emitted records from dp0 gives for every name what the host dictionary gives |
| SlzGreedy.PackRoundTrip | slz/slz.c:80-321 | for every byte string, unpacking the packed stream gives it back |
| SlzFormat.StreamRoundTrip | slz/slz.c:80-121 | every list of literals and copies, overlapping ones and both ends of stream included, decodes to what it expands to |
| SlzFormat.DistanceInverts | slz/slz.c:242-248 | the two bytes of a copy give back its distance and length, and never look like the end marker |
| SlzGreedy.BestIsNearestLongest | slz/slz.c:210-238 | each step takes the longest match in the window, at most 17 bytes, and the nearest of the longest |
| SlzGreedy.BestIsSettled | slz/slz.c:235-235 | stopping the scan at a 17-byte match changes nothing |
| SlzGreedy.GreedyReproduces | slz/slz.c:162-275 | expanding the packer's tokens after the first i bytes gives the whole input |
| SlzGreedy.PackedSizeBound | slz/slz.c:158-320 | the stream has at most n + n/8 + 3 bytes |
| SlzFormat.StreamSize | slz/slz.c:296-320 | the stream has exactly the payload, one tag per eight tokens, and three bytes more |
| Slz.Unpacker.WriteChar | slz/slz.c:69-78 | the byte is written out and enters the 4096-byte ring |
| Slz.Unpacker.CopyFromRing | slz/slz.c:101-111 | copying byte by byte through the ring is a copy from that distance back in the output, overlap and wrap-around included |
| Slz.Unpacker.Slot | slz/slz.c:94-114 | one literal, copy or end marker; exactly when it reads past the buffer |
| Slz.Unpacker.UnPack | slz/slz.c:80-121 | succeeds exactly when the textbook decoder does, with the same output |
| Slz.TagTest | slz/slz.c:94-115 | after j doublings the tested bit is the tag bit of slot j |
| Slz.MatchLength | slz/slz.c:212-218 | the comparison stops at the first difference or after 17 bytes, whatever lies past the input |
| Slz.ClippedIsMatch | slz/slz.c:219-234 | clipping the over-long comparison gives the match inside the input |
| Slz.FindMatch | slz/slz.c:170-240 | the backward scan finds the nearest longest match in the window |
| Slz.AddToken | slz/slz.c:242-265 | the token at loop1 is added to the group's tag and payload, and loop1 moves past what it covers |
| Slz.GatherGroup | slz/slz.c:165-275 | loop2 is always what is left of the input and never negative, so the `ooops` branch is dead; a group holds eight tokens unless the input ends |
| Slz.Finish | slz/slz.c:296-320 | the last group and its end marker, in both forms, complete the stream |
| Slz.Pack | slz/slz.c:138-321 | the output is the stream of the greedy parse, it unpacks to the input, and keeps the size bound |
| LzwStream.CompressRoundTrip | uncompress/compress.c:245-283 | for every non-empty input with a compressed form, decompressing gives the input back if and only if its parse has at most 256 symbols, that is, at most 255 table entries are needed |
| LzwStream.RoundTripIff | uncompress/compress.c:245-283 | for every non-empty input: it has a compressed form and that decompresses to it, if and only if its parse has at most 256 symbols |
| LzwStream.LastByteIsLost | uncompress/compress.c:271-274 | the law fails: the bytes 0 to 255 followed by 0 have a compressed form, and it decompresses to the first 256 of them only |
| LzwStream.DecompressKept | uncompress/compress.c:266-279 | where a compressed form is defined, decompressing it gives the input without exactly the bytes dropped when the table fills |
| LzwCodec.KeptIffFits | uncompress/compress.c:271-274 | nothing is dropped if and only if a 256th entry is never needed |
| LzwCodec.DecoderLagsByOne | uncompress/uncompress.c:217-233 | the decoder's table is always the encoder's without its newest entry, and that is enough to follow it, the symbol not yet in the table included |
| LzwStream.NineBitStream | uncompress/uncompress.c:163-175 | the decoder, whatever width it may grow to, reads the encoder's nine-bit symbols as they were sent |
| LzwStream.ShortInputsFit | uncompress/compress.c:245-283 | every input of 1 to 256 bytes fits |
| LzwStream.FittingInputIsSent | uncompress/compress.c:245-283 | an input whose parse fits is sent as its plain parse |
| LzwStream.EmptyInputIsUndefined | uncompress/compress.c:264-281 | the file made from an empty input cannot be decoded |
| LzwCodec.StrInjective | uncompress/compress.c:140-157 | different codes stand for different strings |
| LzwCodec.StringSearchIsLookup | uncompress/compress.c:233-240 | comparing whole strings finds exactly the entry with that prefix and suffix |
| LzwCodec.StrLength | uncompress/compress.c:200-214 | a string is no longer than its code's place allows, so it fits the 256-byte buffer |
| LzwCodec.ParseCodes | uncompress/compress.c:265-280 | every symbol is a code already in the table when it is sent, and never CLEAR |
| LzwCodec.ReceivedMeaning | uncompress/uncompress.c:227-231 | what the decoder makes of a symbol is the encoder's string, for the missing entry too |
| LzwBits.BitsValOfSym | uncompress/uncompress.c:135-143 | reading n bits back gives the symbol |
| LzwCompress.BitWriter.PutBit | uncompress/compress.c:112-121 | appends one bit to the stream |
| LzwCompress.BitWriter.OutSym | uncompress/compress.c:124-131 | appends the low bits of a symbol, lowest first |
| LzwCompress.BitWriter.FlushBits | uncompress/compress.c:103-110 | the bytes written carry the stream, padded with fewer than eight zeros |
| LzwCompress.Compressor.AddDict | uncompress/compress.c:140-157 | adds an entry, or refuses and changes nothing when all nine-bit codes are taken |
| LzwCompress.Compressor.BuildStr | uncompress/compress.c:200-214 | lays the string of a code down backwards and stays inside the buffer |
| LzwCompress.Compressor.Exist | uncompress/compress.c:219-242 | the search by string finds the entry (prefix, suffix) exactly when there is one |
| LzwCompress.Step | uncompress/compress.c:265-280 | one input byte moves table, pending symbol and stream as the parse says: matched, added, or dropped with CLEAR |
| LzwCompress.Compress | uncompress/compress.c:245-283 | the file is the compressed form of the input; `bad` exactly where the table is emptied while the pending code is one of its entries, which is then stale |
| LzwDecompress.BitReader.GetBit | uncompress/uncompress.c:113-133 | takes the next bit, or sets eof |
| LzwDecompress.BitReader.GetSym | uncompress/uncompress.c:135-143 | the next bits as a number; eof exactly when too few are left |
| LzwDecompress.Decompressor.First | uncompress/uncompress.c:156-160 | terminates with the first byte of the symbol's string |
| LzwDecompress.Decompressor.PrintSym | uncompress/uncompress.c:145-153 | terminates and writes the symbol's string |
| LzwDecompress.Decompressor.AddDict | uncompress/uncompress.c:163-175 | the table of strings and the width grow as the textbook decoder's do |
| LzwDecompress.Decompressor.Receive | uncompress/uncompress.c:227-232 | one code changes table and output as the textbook decoder does |
| LzwDecompress.Decompressor.Decompress | uncompress/uncompress.c:209-235 | on every file and for every width limit, the same outcome as the string-table decoder |
| DecbFiles.RunIsMap | decb/decb.c:385-500 | after any sequence of put and rm on a fresh disk, puts that are refused included and puts that run out of granules excluded, the invariant holds and get gives what a plain map from names to contents gives |
| DecbFiles.PutGetRoundTrip | decb/decb.c:385-485 | a file just put comes back whole if and only if its length is not a multiple of 256 |
| DecbFiles.ShortFilesAreLost | decb/decb.c:402-410 | the law fails: put on a fresh disk, an empty file cannot be read and any file of 256 bytes reads as empty |
| DecbFiles.PutGet | decb/decb.c:421-485 | after put the new name gives what the stored length lets get read, and every other name what it gave before |
| DecbFiles.RmGet | decb/decb.c:488-500 | after rm the name is gone and every other name gives what it gave before |
| DecbFiles.PutKeepsInv | decb/decb.c:421-485 | put keeps chains acyclic, disjoint and terminated, and every used granule in one chain or reserved |
| DecbFiles.RmKeepsInv | decb/decb.c:488-500 | rm keeps the same invariant |
| DecbFiles.FormattedInv | decb/decb.c:314-346 | a fresh disk satisfies the invariant and holds no file |
| DecbFiles.RmFrees | decb/decb.c:265-295 | rm raises the number of free granules by exactly the length of the file's chain |
| DecbFiles.PutRmRestores | decb/decb.c:445-500 | put and then rm gives the granule table back as it was |
| DecbFiles.LastSizes | decb/decb.c:474-476 | what get computes as the last size from put's sector count and remainder, for every length |
| DecbVolume.WalkIsChain | decb/decb.c:265-284 | a walk that ends never visits a granule twice |
| DecbVolume.ChainIsWalk | decb/decb.c:265-284 | every chain is what walking from its first granule finds |
| DecbVolume.FindCharacterised | decb/decb.c:199-208 | under the invariant find finds the one live entry of that name, and nothing exactly when there is none |
| DecbImage.Layout | decb/decb.c:224-233 | granules lie inside the image, apart from each other and from the FAT and directory |
| DecbImage.WriteGran | decb/decb.c:224-233 | writing to a granule changes the front of that granule and nothing else of the volume |
| DecbImage.WriteFat | decb/decb.c:170-179 | saving the FAT changes the FAT and nothing else |
| DecbImage.WriteEntry | decb/decb.c:91-104 | saving an entry changes that entry and nothing else |
| Decb.Disk.Mkfs | decb/decb.c:314-346 | the image is formatted, with the protected granules marked |
| Decb.Disk.FindName | decb/decb.c:199-208 | the first entry of that name before the end of the directory |
| Decb.Disk.FindSlot | decb/decb.c:433-442 | the first deleted or unused entry, none exactly when the directory is full |
| Decb.Disk.FindGran | decb/decb.c:211-221 | takes the lowest free granule, none exactly when there is none |
| Decb.Disk.DelChain | decb/decb.c:265-273 | stops on every table whose links are in range, cyclic ones included, and on a chain frees exactly its granules |
| Decb.Disk.CountChain | decb/decb.c:276-284 | the number of granules in the chain |
| Decb.Disk.GranFree | decb/decb.c:287-295 | the number of free granules |
| Decb.Disk.Get | decb/decb.c:385-418 | copies out exactly what the volume holds under that name, fails where the last length is negative, and finds nothing exactly when the name is not there |
| Decb.Disk.WriteData | decb/decb.c:445-476 | runs out exactly when fewer than L/2304 + 1 granules are free; otherwise that many granules hold the data |
| Decb.Disk.Put | decb/decb.c:421-485 | each way it ends, with its exact condition; on success the new volume is the old one with that file placed |
| Decb.Disk.Rm | decb/decb.c:488-500 | on a known name the file is removed, on an unknown one nothing changes |
| XxdRevert.DumpRoundTrip | util/xxd.c:801-865 | for every input shorter than 2^32, every column count and group size, upper or lower case, autoskip on or off, reverting the dump with the same columns into an empty file gives the input |
| XxdRevert.FeedRow | util/xxd.c:280-374 | one dumped line, full or short, writes exactly its bytes at its offset, zeros filling a gap before it, and nothing of its character part |
| XxdRevert.FeedCatch | util/xxd.c:401-428 | the held-back zero line or the `*` line leaves the output explained by the zeros skipped so far |
| XxdRevert.FeedOffset | util/xxd.c:296-321 | the eight digits of an offset are read back as that offset |
| XxdText.HexTextLength | util/xxd.c:819-820 | the digits of a row end at the column the division gives |
| XxdText.ColumnsFree | util/xxd.c:819-846 | a row that is not full leaves two blank columns before its characters, which is what stops the reverter |
| Xxd.ColumnIs | util/xxd.c:819-820 | the single division of the source is ten, two per byte, and one per full group |
| Xxd.AsciiIs | util/xxd.c:841-846 | likewise for the character column |
| Xxd.ColumnsFit | util/xxd.c:206-207 | every column of a row of at most 256 bytes fits the line buffer |
| Xxd.LineWriter.Line | util/xxd.c:400-428 | the counter, the saved line and the output move as the dump's definition says |
| Xxd.HuntType | util/xxd.c:268-386 | the reverting loop refines the character-by-character definition, on every text |
| Xxd.StartLine | util/xxd.c:811-816 | offset, colon and blanks |
| Xxd.AddByte | util/xxd.c:817-847 | two digits and one character, at the columns of byte p, on top of what is there |
| Xxd.EndLine | util/xxd.c:849-852 | the buffer up to the newline is the row's text |
| Xxd.DumpFile | util/xxd.c:801-865 | the main loop writes exactly the dump that DumpRoundTrip is about |
| BooterFile.LoadsSegments | booter/booter.c:506-556 | a file of segments and a closing header loads if and only if no header crosses a 512-byte block, and then memory is as after applying the segments one by one |
| BooterFile.StraddlingIsRefused | booter/booter.c:506-509 | the law fails: a file of one 503-byte segment, whose closing header starts at byte 508, is refused whatever memory holds |
| BooterFile.StoreConcat | booter/booter.c:444-456 | storing in pieces is storing at once, also across the end of memory |
| BooterFile.StoreIsCopy | booter/booter.c:444-456 | without a wrap a store is one copy |
| BooterFile.BlockIsFileBytes | booter/booter.c:288-292 | a slice of a mapped block is the same slice of the file |
| Booter.File.Read | booter/booter.c:295-316 | at most what is left of the block; nothing exactly at the end; the position is always 512*spos-left |
| Booter.File.ReadBlock | booter/booter.c:522-541 | the direct read advances the file by a whole block |
| Booter.Window.Seek | booter/booter.c:433-441 | the window is at the address, with room left in it |
| Booter.Window.Copy | booter/booter.c:448-453 | bytes copied into the window land at their physical address |
| Booter.Window.Write | booter/booter.c:444-457 | writing any amount through the window is a store in flat memory |
| Booter.MoveSome | booter/booter.c:515-555 | direct or buffered, one turn stores the next bytes of the file at the next address, and stops only at the end of the file |
| Booter.LoadSegment | booter/booter.c:510-556 | the inner loop stores the segment's bytes, and fails exactly when the file is too short |
| Booter.LoadFile | booter/booter.c:506-557 | the loop of both paths leaves memory as the flat reading of the file says, and fails exactly when that does |
| Booter.StrLen | booter/booter.c:221-225 | the number of bytes up to and including the first NUL, one more than the C library's |
| Booter.Boot | booter/booter.c:496-566 | after loading, memory is the loaded file with the bounce code and the entry address at 0 and, at 0x88, the command line, its NUL and the byte that follows that in the loader, which is written too because strlen already counts the NUL |
| PicolToken.NextProgress | tcl/picol.c:247-278 | every token consumes text, or at its end moves from a word to a line end to the end, so the token loop ends on every text |
| PicolToken.NextCovers | tcl/picol.c:101-278 | spans lie inside the text, and between tokens lie only comments and the marks that open and close them, with what each mark is |
| PicolToken.NextPaired | tcl/picol.c:123-278 | on text with no dangling backslash no scan leaves the text, and words and rest have none either |
| PicolToken.OverrunsIff | tcl/picol.c:123-149 | the scan for a closing bracket runs off the end if and only if the bracket is open at the last character and that is a backslash escaping nothing |
| PicolToken.BraceQuotes | tcl/picol.c:171-192 | at the start of a word, a braced text with braces matched is one token and exactly that text |
| PicolToken.UnescapedPaired | tcl/picol.c:134-135 | text that does not end in a backslash has no dangling one |
| PicolLaws.FrameRule | tcl/picol.c:345-427 | evaluation over any frames below is the same evaluation, with those frames still below it: it neither changes nor reads them |
| PicolLaws.CallIsLocal | tcl/picol.c:520-553 | a procedure call neither sees nor changes its caller's variables, on every way out |
| PicolEval.Eval | tcl/picol.c:345-427 | restores the frames below its own on every exit |
| PicolEval.CallProc | tcl/picol.c:520-553 | restores the caller's frame too, on arity errors and on every return code |
| PicolLaws.CommandsStay | tcl/picol.c:327-342 | over any evaluation a command name that has a definition keeps it, and names stay distinct |
| PicolLaws.EvalGrows | tcl/picol.c:345-427 | the command list only grows in front |
| PicolSafety.EverySession | tcl/picol.c:569-582 | in every session from the start the core commands keep their meaning, no frame is left behind, and scripts without dangling backslashes never run off their text |
| PicolSafety.EvalSafe | tcl/picol.c:345-427 | no evaluation of such text, nor anything it evaluates in turn, ever runs off its text |
| PicolSafety.OverrunHappens | tcl/picol.c:134-135 | a text with a dangling backslash that does |
| PicolSafety.EvalDeeper | tcl/picol.c:345-427 | an evaluation that ends within some depth ends the same with more, so the depth is only a bound |
| PicolScripts.SetStores | tcl/picol.c:461-466 | `set` with a plain name and a braced value, written out, stores exactly the text between the braces and changes no other variable |
| PicolScripts.MathComputes | tcl/picol.c:437-459 | each arithmetic command leaves the number it is named for, comparisons 1 or 0, and division fails exactly on zero |
| PicolScripts.QuotientTruncates | tcl/picol.c:448-448 | division truncates towards zero |
| PicolScripts.WordsOfSpaced | tcl/picol.c:529-541 | a parameter list is read as the words it was written from |
| PicolScripts.BindGet | tcl/picol.c:537-543 | every parameter has its argument, the last one for a repeated name, and nothing else is set |
| PicolEval.SetGet | tcl/picol.c:294-316 | setting a variable is an update of a map |
| PicolEval.NumberRoundTrip | tcl/picol.c:437-459 | a printed number reads back as itself |
| Picol.Parser.ParseCommand | tcl/picol.c:123-149 | the scan ends where the specification says, or runs past the terminator exactly when that has no end |
| Picol.Parser.ParseVar | tcl/picol.c:151-169 | a name, or a lone `$` as a plain word |
| Picol.Parser.ParseBrace | tcl/picol.c:171-192 | up to the matching brace or the end |
| Picol.Parser.ParseString | tcl/picol.c:194-238 | a plain or quoted word, or a braced one |
| Picol.Parser.GetToken | tcl/picol.c:247-278 | the parser's fields move to the next token of the specification |
| Picol.Interpreter.Assign | tcl/picol.c:303-316 | changes the variable where it is, or adds it in front |
| Picol.Interpreter.RegisterCommand | tcl/picol.c:327-342 | refuses a name already defined and else adds it in front |
| Picol.Interpreter.Run | tcl/picol.c:345-427 | the loop of tokens, words and calls refines the evaluation all laws above are about |
| Picol.Interpreter.CommandIf | tcl/picol.c:474-481 | the branch the condition's number selects |
| Picol.Interpreter.CommandWhile | tcl/picol.c:483-497 | repeats while the number is not zero, with break and continue |
| Picol.Interpreter.BindParameters | tcl/picol.c:529-543 | binds the space-separated names in order, and fails exactly when their number is not that of the arguments |
| Picol.Interpreter.CommandCallProc | tcl/picol.c:520-553 | pushes a frame, binds, evaluates and drops the frame on every way out |
| DwRuns.RunIsMap | lwwire/lwwire.c:278-355 | in every run, every sector of every drive shows the newest write the server accepted for it, or what it showed before |
| DwRuns.AcceptedWasSent | lwwire/lwwire.c:305-327 | whatever the server accepts was sent to it as a complete write request with the right sum, for a writable drive |
| DwRuns.WriteRequest | lwwire/lwwire.c:305-327 | the answer is 0 exactly when the sum is right and the drive writable; then that sector and no other changes, else nothing does |
| DwRuns.ReadRequest | lwwire/lwwire.c:278-303 | the answer is the sector the drive shows and its sum, or an error byte; nothing changes |
| DwRuns.ReadExData | lwwire/lwwire.c:329-344 | the sector, or zeros without a drive, is sent and its sum awaited |
| DwRuns.ReadExCode | lwwire/lwwire.c:345-355 | the code is 0 exactly when the client's sum is that of the data and the drive was there |
| DwRuns.OneByteIsDetected | lwwire/lwwire.c:350-353 | data spoiled in at most one byte and with the right sum is not spoiled |
| DwServer.WrittenSector | lwwire/lwwire.c:675-680 | on files of any length a write changes that sector and no other; what was past the end reads as zeros |
| DwServer.SaveIsUpdate | lwwire/lwwire.c:663-681 | a save is refused exactly on a read-only or absent drive, and then changes nothing |
| DwServer.SumBound | lwwire/lwwire.c:298-299 | a sector's sum never wraps 16 bits |
| DwServer.FeedRequest | lwwire/lwwire.c:278-290 | a request is handled when its last byte has come in and not before |
| DriveWire.Server.FetchSector | lwwire/lwwire.c:644-661 | reads a sector, short reads filled with zeros |
| DriveWire.Server.SaveSector | lwwire/lwwire.c:663-681 | writes a sector, or refuses |
| DriveWire.Server.SumOf | lwwire/lwwire.c:297-299 | the 16-bit loop computes the sum |
| DriveWire.Server.ProtoRead | lwwire/lwwire.c:278-303 | the answer of READ |
| DriveWire.Server.ProtoWrite | lwwire/lwwire.c:305-327 | the answer of WRITE and the drive after it |
| DriveWire.Server.ProtoReadEx | lwwire/lwwire.c:329-344 | the first half of READEX |
| DriveWire.Server.Receive | lwwire/lwwire.c:169-275 | the dispatch loop, byte by byte, is the protocol machine the run laws are about |
| DriveWire.Client.Trans | booter/dw.c:17-20 | sends, receives and sums; fails if fewer bytes come back |
| DriveWire.Client.Read | booter/dw.c:17-28 | one READEX: 0 exactly when the drive is there and the sums agree |
| DriveWire.Client.DwRead | booter/dw.c:30-39 | on a clean line succeeds for blocks below 0x800000 of a drive that is there; success with at most one spoiled byte per sector means the buffer holds the drive's own two sectors; a block too big changes nothing |

## Left out

- BfcProgram.CompilerCorrect: says nothing where the structured meaning is `Broken` (a stack underflows, or a definition leaves its part of the return stack unbalanced); addresses on the machine are line numbers, so a program must have fewer than 65536 lines; memory is left out, and primitives that touch it or the operating system are an arbitrary function of the data stack.
- BfcCompile.ProgCompiles: programs within the compiler's own limits, that is, at most 16 control cells and 256 labels and names shorter than 32 characters.
- Bfc.Compiler.MkEntry: the pointers to slit, dodoes and noop and the flags, which only the words left out below use.
- Bfc.DoDict: the flags byte of each record.
- Bfc.Compiler.DoWord: stops at a number outside a definition, which the C code pushes on its number stack.
- Bfc.Compiler.ProcessFile: takes words as tokens; strings, `var`, `allot`, `imm`, comments, the text of inline assembler and the number stack are left out, and the model stops at the words that need them.
- Slz.Pack: inputs of two bytes or more (the program itself refuses fewer than three); the `hashing_on` variant is left out, as are the distance statistic and the 16-bit wrap of the last tag doubling, whose result is never tested.
- LzwStream.CompressRoundTrip: says nothing of inputs without a compressed form, on which the compressor empties its table while the pending symbol is one of its entries and goes on with that stale code.
- LzwStream.RoundTripIff: counts those inputs as not given back; what the C programs make of stale entries is not modelled.
- LzwStream.DecompressKept: the same inputs are left out.
- LzwCompress.Step: stops with `bad` where the C code goes on with a stale code; `Sent` is `None` there.
- LzwCompress.Compress: stops where Step does.
- LzwDecompress.Decompressor.Decompress: ends as `Undefined` where a code read after the start or after CLEAR is not a byte and the C code follows stale or unset entries; memory allocation and file naming are left out.
- DecbFiles.RunIsMap: runs in which a put runs out of granules are not runs of the model, since the C code then writes outside its FAT.
- Decb.Disk.WriteData: the disk after it has run out of granules is not described.
- Decb.Disk.Put: the disk after it has run out of granules, where the C code indexes outside its FAT, is not described.
- decb: an image at an offset into a larger file, host name conversion (commands take 11-byte directory names whose first byte is neither 0 nor 255), newline translation, and the boot track, label and map commands.
- XxdRevert.DumpRoundTrip: offsets that fit the eight digits printed, on a host whose offsets are wider than 32 bits and whose output file can seek.
- xxd: EBCDIC, bits, little-endian, postscript and C-include formats, seek, length and offset options, more than 256 columns.
- Booter.Boot: device reads succeed and the file is within the 274 blocks its map reaches; the 16-bit `todo` counts as unsigned, as its comparison with the window makes it; directory lookup, keyboard, progress ticks and the task switch are left out.
- PicolEval.Eval: the depth of calls and turns of loops is bounded by a number, which EvalDeeper shows to be only a bound; numbers do not overflow; interactive input and commands added outside picol.c are left out.
- DriveWire.Client.DwRead: the line spoils nothing but the bytes of the two sectors.
- DriveWire.Server.Receive: a blocking read of n bytes is modelled as collecting n bytes one at a time; timeouts, the printer log, extensions (none is registered), host file errors, dw_init's exchange and the 6809 line driver are left out; the clock is held fixed within a run.
- decb/romfs.c, decb/detoken.c, util/useradd.c: table copying and file plumbing that would add only easy members.
- snazzy, firc, os9sim, cbe and gethostbyname: user interface, network and system-call shims.
