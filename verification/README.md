# Minix-ST tools: models and proofs

A Dafny model of the parts of this repository in which two programs, or two
ways of doing a thing, have to agree, and proofs that they do.

- **compress(1)** (`Lzw*.dfy`). The LZW compressor and decompressor share no table; they stay
  in step only through `free_ent`, `maxcode`, `n_bits` and `clear_flg`. `LzwCodes` says what a
  stream of codes means and which streams the compressor may emit, `LzwSync` holds the
  simulation invariant, `LzwStream` and `LzwBits` the packing into buffers of eight codes,
  `LzwPacking` the packing alone, for any codes, `LzwProbe` the termination of the hash probe,
  and `LzwCompress` and `LzwDecompress` the two programs with their arrays. `LzwRoundTrip`
  joins them, and `LzwGreedy` says what is written for equal bytes.
- **The file system builder, checker and readers** (`Minix*.dfy`, `Mkfs*.dfy`, `Readfs.dfy`,
  `Profile.dfy`). `MinixImage` is an image and how minixfs.py reads it; `MinixModel` is what
  an image under construction holds; `MinixSteps` shows that every step of mkfs keeps the two
  together; `MinixSettled` says when all counts agree. `Mkfs`, `MkfsMode` and `MkfsTree` are
  mkfs.py; `MinixRead`, `MinixPath` and `MinixCheck` are minixfs.py, and `MinixLaws` says what its
  readers do in terms of words and bytes. `MkfsCheck` joins the two,
  `MinixSizes` says what the check cannot see, `MinixBytes` has the bytes of an image and
  `Profile` the wrapping done by mklisa.py; `MinixDisk` goes from a prototype to a disk and
  back. `Readfs` is the block cache and zone tree walk of readfs(1).
- **Text programs**: diff and fix (`TextLines`, `EditScript`, `Diff`, `Fix`, `DiffFix`,
  `DiffLists` with the linked records of diff, and `FixRules` with the rules fix follows), the pattern matcher
  of ed (`EdMatch`), its line buffer (`EdBuffer`), and the search of fgrep (`Fgrep`).
- **Encoders**: relocation streams (`Reloc`), the boot image without its zero sectors
  (`BootImage`) and its boot block (`BootBlock`), btoa and atob (`Btoa`, `Atob`, and
  `AtobDamage` on damaged archives).

`Common` has what they share. `dafny verify dfyconfig.toml` checks everything.

Programs that change things step by step are methods, and classes where the program keeps
state; each is proved against a function or predicate, and the theorems are about these.

## Results that need a condition

- fix promises to replay the output of diff. It fails when the difflist begins with an append
  after line 0, because the append case always copies a line of the old file first; when a last
  line without a newline is changed, because the rule is then printed on the same line; and when
  a line number does not fit an int, which has 16 bits here: diff prints it negative, and the
  loops of fix do not come out of a range that ends at 32767. `DiffFix.FixUndoesDiff` proves
  that it works in all other cases and, for line numbers below 65536, in none of these. From
  line 65536 on numbers come round to small ones and fix may change the wrong line, or by chance
  make the right file all the same (`DiffFix.RoundExample`). `DiffFix.ZeroAppendExample`,
  `DiffFix.CutExample` and `DiffFix.LongExample` are files for which it fails.
- mkfs never uses the last inode, and allocates only bits of the first block of each bit map;
  `MkfsTree.Fits` is the exact condition under which it completes.
- mkfs stores names as UTF-8 and does not mind a "/" in them; minixfs splits paths at "/" and
  decodes names as Latin-1. `MinixPath.FoundAtItsPath`: a file is found under its path if and
  only if the names on it are ASCII without "/"; `MkfsCheck.SlashExample` is one that is not.
- Relocations 2 apart overlap. `Reloc.RelocatedExactly`: every long gains the shift if and only
  if the offsets are at least 4 apart or the shift is 0; `Reloc.OverlapExample` is a pair.
- The usage text of minixfs.py says the check reports files larger than their zones. The code
  cannot: `MinixSizes.OversizeUnseen` proves that no larger size makes a clean image unclean,
  and `MkfsCheck.OversizeExample` is such a file.
- FS.zones lists double-indirect zones directly behind the direct ones when there is no single
  indirect block, where readfs counts the missing 512; and readfs cuts block numbers to 16 bits.
  `Readfs.ReadersAgreeExactly` says for which inodes the two agree, `Readfs.GapExample` and
  `Readfs.FarExample` are some for which they do not.
- The cache of readfs keeps the old block number when a read fails half way, on a disk that
  does not end with a whole block. `Readfs.SpoilsExactly` says which calls leave a wrong block
  behind, `Readfs.SpoiltExample` shows one being served.
- A string of the decompressor is at most code - 255 bytes long in block mode only
  (`LzwDecompress.BlockBound`, `LzwDecompress.TwoByteExample`); the stack has room for both.

- The table of the boot block has 16-bit words. `BootBlock.BootableExactly`: the image can be
  loaded with it if and only if no count of sectors needs more.
- The probe of compress takes a slot with key 0 for a free one, so that byte 0 behind code 0 is
  entered again and again; `LzwCompress.Compressor.Step`: every other string is found once it is
  entered.

## Model

| member | source | states |
|---|---|---|
| `LzwSync.DataCode` | src/commands/compress.c:1034-1086 | the next code means to the decompressor the string the compressor meant, also in the KwKwK case and with the dummy entry 256 after CLEAR, and reading it brings the lagging table level |
| `LzwSync.EmitData` | src/commands/compress.c:864-986 | emitting the pending code keeps the decompressor in step: it has written exactly the input consumed so far, and both ends have the same next width |
| `LzwSync.StepInStep` | src/commands/compress.c:765-807 | one more input byte keeps the simulation invariant, whatever hits and clears the compressor decides on |
| `LzwSync.GrowInStep` | src/commands/compress.c:792-804 | the entry the compressor makes is the one the decompressor makes from its next code |
| `LzwSync.ClearInStep` | src/commands/compress.c:1446-1486 | after CLEAR both tables and widths agree again |
| `LzwSync.RunInStep` | src/commands/compress.c:717-849 | every run of the compressor, over all inputs and all decisions, ends with the decompressor in step |
| `LzwRoundTrip.Lockstep` | src/commands/compress.c:947-977 | before it reads code k+1 the decompressor has the `free_ent` that the compressor tested after code k, so both change `n_bits` after the same code, at a full table, across CLEAR and for maxbits 9 |
| `LzwRoundTrip.LockstepClear` | src/commands/compress.c:1115-1132 | behind a CLEAR code both widths are back at 9, a new buffer is due, and the decompressor has one entry less than the compressor |
| `LzwBits.PutCode` | src/commands/compress.c:900-936 | the masks and shifts of output() put exactly the code at its bit offset and leave the codes before it |
| `LzwBits.GetBits` | src/commands/compress.c:1143-1176 | the shifts of getcode() extract exactly the code at a bit offset |
| `LzwStream.WalkIn` | src/commands/compress.c:1102-1177 | reading on from any code of any buffer of a stream the decompressor accepts yields the rest of its output, ignoring padding at width changes |
| `LzwPacking.RoundedCount` | src/commands/compress.c:1133-1141 | the rounding of `size` leaves exactly the codes that are whole in the buffer |
| `LzwPacking.ExactCodes` | src/commands/compress.c:1133-1141 | the codes read are exactly those written if and only if the padding is shorter than a code |
| `LzwPacking.NarrowExample` | src/commands/compress.c:1133-1141 | of seven codes of 7 bits, which the program never uses, eight would be read |
| `LzwPacking.ReadsBack` | src/commands/compress.c:1102-1177 | any list of buffers with codes of 9 to 13 bits is read back, in number and value, whether or not the codes mean anything |
| `LzwPacking.PackAndUnpack` | src/commands/compress.c:864-1177 | the loops that pack and unpack do so for every list of buffers |
| `LzwStream.RunUnpacks` | src/commands/compress.c:864-1177 | the byte stream of a run decodes to the input |
| `LzwStream.UnpackPacked` | src/commands/compress.c:717-1177 | every file the compressor can write, with header, unpacks to its input, the empty input included |
| `LzwProbe.SizeIsPrime` | src/commands/compress.c:774-790 | the table size 9001 is prime |
| `LzwProbe.ProbeReaches` | src/commands/compress.c:778-790 | from any slot, with any step from 1 to 9000, the secondary probe reaches every slot |
| `LzwCompress.HitSound` | src/commands/compress.c:771-788 | a hit returns the code assigned since the last clear to exactly that prefix and character |
| `LzwCompress.EnterSound` | src/commands/compress.c:801-803 | entering a string keeps the hash table sound, even over a slot whose key is 0 |
| `LzwCompress.FirstProbe` | src/commands/compress.c:754-769 | the exclusive-or hash stays inside the table |
| `LzwCompress.MissMeansNone` | src/commands/compress.c:778-790 | where the probe path of a key ends without it, no slot has that key: the slots before a key on its path stay filled until the next clear |
| `LzwCompress.EnterFound` | src/commands/compress.c:801-803 | a new key is found at the end of its path, and all others still are |
| `LzwCompress.Compressor.Probe` | src/commands/compress.c:768-791 | the probe loop always ends, at a slot with the key, which is a hit, or at one that counts as free; a key other than 0 that is anywhere in the table is never missed |
| `LzwCompress.Compressor.Output` | src/commands/compress.c:864-986 | the bytes written and the buffer always hold the codes emitted, at their widths |
| `LzwCompress.Compressor.Flush` | src/commands/compress.c:987-1003 | the last buffer is cut to the bytes its codes need |
| `LzwCompress.Compressor.ClHash` | src/commands/compress.c:1488-1550 | every slot is emptied |
| `LzwCompress.Compressor.HashShift` | src/commands/compress.c:754-757 | the shift is 5 for 9001 slots |
| `LzwCompress.Ratio` | src/commands/compress.c:1459-1468 | the ratio is the quotient of input and output, 8 fractional bits below 8388608 input bytes, and the largest long if there is no output worth counting |
| `LzwCompress.Compressor.ClBlock` | src/commands/compress.c:1446-1486 | the table is cleared and CLEAR emitted exactly when the compression ratio has not improved |
| `LzwCompress.Compressor.Step` | src/commands/compress.c:765-807 | one byte is one step of the code-level compressor; a string whose key is in the table is extended and nothing emitted, every string entered since the last clear is found again but for byte 0 behind code 0, and the table is cleared only at a checkpoint |
| `LzwCompress.Compressor.Compress` | src/commands/compress.c:717-849 | the output is a packed file of the input; at every byte of the run a string entered since the last clear is used (key 0 excepted), and clears are at least 10000 bytes apart |
| `LzwDecompress.NewEntry` | src/commands/compress.c:1073-1081 | every entry from FIRST up has a smaller prefix code, so unwinding ends |
| `LzwDecompress.StringBound` | src/commands/compress.c:205-211 | a string has at most as many bytes as there are codes from the first free one up to its own, and one more; so the stack fits behind the suffix table |
| `LzwDecompress.BlockBound` | src/commands/compress.c:205-211 | that is code - 255 exactly in block mode; without it code 256 has two bytes |
| `LzwDecompress.RunBounded` | src/commands/compress.c:1034-1086 | the bound holds in every table any accepted stream leads to |
| `LzwDecompress.TwoByteExample` | src/commands/compress.c:1073-1081 | a stream after which code 256 stands for two bytes |
| `LzwDecompress.Decompressor.ChangeWidth` | src/commands/compress.c:1115-1132 | the width change before a new buffer |
| `LzwDecompress.Decompressor.GetCode` | src/commands/compress.c:1102-1177 | the next code of the stream, or -1 exactly at its end |
| `LzwDecompress.Decompressor.Unwind` | src/commands/compress.c:1053-1065 | the stack gets the string of a code reversed and never overflows |
| `LzwDecompress.Decompressor.PutString` | src/commands/compress.c:1044-1071 | the string of a code is written, be it in the table or about to be entered |
| `LzwDecompress.Decompressor.Enter` | src/commands/compress.c:1073-1085 | the previous string and one more byte get the next free code |
| `LzwDecompress.Decompressor.ClearTable` | src/commands/compress.c:1036-1042 | the table reset of CLEAR |
| `LzwDecompress.Decompressor.Decompress` | src/commands/compress.c:1011-1091 | on every stream that is not corrupt the output is what the code level says |
| `LzwRoundTrip.Uncompress` | src/commands/compress.c:652-690 | header check and decompression give what the file means |
| `LzwRoundTrip.RoundTrip` | src/commands/compress.c:717-1177 | compressing and then decompressing gives back the input, for every input, maxbits 9 to 13 and block mode on or off |
| `LzwGreedy.EqualBytes` | src/commands/compress.c:765-807 | after any number of equal bytes other than 0 the codes emitted are those of one, two, three and so on of them |
| `LzwGreedy.CompressEqual` | src/commands/compress.c:717-849 | what the program writes for equal bytes: exactly these codes, and the length of the file |
| `LzwGreedy.ThreeBytes` | src/commands/compress.c:717-849 | the bytes written for "aaa", magic number, flag byte and the codes 97 and 257 |
| `TextLines.SplitConcat` | src/commands/diff.c:128-148 | lines written one after the other and read with fgets are the same lines |
| `TextLines.SplitProper` | src/commands/diff.c:128-148 | reading cuts a text into lines that end in their only newline, but for the last |
| `TextLines.ReadLines` | src/commands/diff.c:128-148 | the reading loop cuts like that |
| `EditScript.ScriptApplies` | src/commands/diff.c:237-301 | applying the hunks of a script to the first file gives the second |
| `EditScript.EmptyScript` | src/commands/diff.c:237-301 | a script is empty exactly when the files are equal |
| `Diff.Window.Next` | src/commands/diff.c:192-215 | the window grows by the next line of the file, also out of the lines put aside, unless it ends already |
| `Diff.Window.Aside` | src/commands/diff.c:175-189 | the window is cut behind a record and nothing is lost |
| `Diff.Window.Advance` | src/commands/diff.c:160-172 | the first record is dropped |
| `Diff.Window.Update` | src/commands/diff.c:226-235 | all records but the last are printed and dropped |
| `DiffLists.OneList` | src/commands/diff.c:55-83 | no line record is in two of the five linked lists, the free list included, and none is lost |
| `DiffLists.NewLine` | src/commands/diff.c:65-75 | a record off the free list, or a new one exactly when that is empty |
| `DiffLists.FreeLine` | src/commands/diff.c:77-82 | a record goes back to the free list; all lists stay sound |
| `DiffLists.ReadLine` | src/commands/diff.c:129-148 | a record gets the next line of the file or the end-of-file mark |
| `DiffLists.Next` | src/commands/diff.c:191-215 | on linked records next() does what it does on sequences, and the lists of the other file stay |
| `DiffLists.Splice` | src/commands/diff.c:182-187 | cutting the window and linking the rest in front of the aside list leaves two sound lists |
| `DiffLists.Aside` | src/commands/diff.c:175-189 | so does aside() |
| `DiffLists.Advance` | src/commands/diff.c:160-172 | so does advance(), with the record given back |
| `Diff.Scan` | src/commands/diff.c:267-279 | the first place where three lines agree |
| `Diff.Differ` | src/commands/diff.c:304-327 | the hunk printed is the difference of the two windows, with line numbers as 16-bit ints print |
| `Diff.Look` | src/commands/diff.c:265-298 | half a round of the search either finds the first agreement with the lines at its mark or there is none in sight and it makes progress |
| `Diff.Search` | src/commands/diff.c:257-298 | the search always ends, with windows that agree at their ends, and at the nearest such place |
| `Diff.NextHunk` | src/commands/diff.c:257-299 | the hunk takes the lines it says it takes from both files and reaches to the nearest place where three lines agree |
| `Diff.Diff` | src/commands/diff.c:237-346 | for any two text files the text printed is that of hunks with increasing line numbers that turn the first file into the second, each up to the nearest agreement; it stops without only at a difference of 65536 lines or more |
| `Fix.NumDec` | src/commands/fix.c:114-131 | a number up to 32767 reads back from its digits |
| `Fix.ReadRangeRange` | src/commands/fix.c:114-131 | a printed range reads back if its numbers as ints are in order and not negative, and is an error otherwise |
| `Fix.ReadHeader` | src/commands/fix.c:133-151 | the command line of every hunk reads back as its line numbers cut to ints, or is an error exactly if one is negative or a range out of order |
| `Fix.ChunkOfHunk` | src/commands/fix.c:65-102 | the chunk of a hunk whose line numbers fit copies the unchanged lines before it and makes its change |
| `Fix.FixScript` | src/commands/fix.c:64-103 | fix replays a whole script of such hunks |
| `Fix.WhiteEqualMeans` | src/commands/fix.c:169-190 | two lines count as equal exactly if they are equal without their blanks, tabs, newlines and carriage returns |
| `Fix.DelsExactly` | src/commands/fix.c:74-83 | deletion fails exactly if a line is missing, has no < in front, or differs from that of the file by more than such characters |
| `Fix.CheckDels` | src/commands/fix.c:74-83 | the loop over deleted lines succeeds exactly then; a range up to 32767 never ends but with an error |
| `Fix.TakeAdds` | src/commands/fix.c:94-99 | added lines are taken from the difflist, with the same exception |
| `Fix.RunChunk` | src/commands/fix.c:65-102 | one chunk |
| `Fix.Replay` | src/commands/fix.c:64-103 | all chunks and the lines behind them |
| `Fix.Fix` | src/commands/fix.c:52-104 | the whole program, from the text of file and difflist to the text it prints, with 16-bit ints |
| `FixRules.NumExactly` | src/commands/fix.c:118-124 | a number is read up to its last digit, and is the decimal value cut to 16 bits |
| `FixRules.CommandExactly` | src/commands/fix.c:133-151 | a line is accepted as a command exactly if it is a range, one of a, c and d, and a range, both in order, followed by a newline or by at most one character |
| `FixRules.StartExactly` | src/commands/fix.c:65-68 | lines are copied up to the first one at which the int that counts them is not below o1 - 1 |
| `FixRules.AddsExactly` | src/commands/fix.c:94-99 | the lines added are exactly those marked with >, without their first two characters |
| `FixRules.ChunkExactly` | src/commands/fix.c:65-102 | a chunk is accepted, with its output and the lines it uses up, exactly by the rules for its command |
| `FixRules.FixExactly` | src/commands/fix.c:64-103 | fix succeeds exactly when the difflist is a list of such chunks, and prints what they make and the rest of the file |
| `FixRules.ConflictStops` | src/commands/fix.c:80-81 | a line to be deleted that differs from the difflist by more than white characters makes fix stop |
| `DiffFix.PrintoutBegins` | src/commands/diff.c:304-346 | the text begins with "0a" exactly when the first hunk is an append after a line whose number is 0 as an int |
| `DiffFix.CutFails` | src/commands/fix.c:77-82 | a changed last line without a newline is printed together with the rule behind it, and fix stops with a conflict |
| `DiffFix.AppendTextFails` | src/commands/fix.c:88-93 | an append after line 0 never gives the new text |
| `DiffFix.UnreadableFails` | src/commands/fix.c:114-145 | a line number that prints negative, or a range that ends at 32767, makes fix stop with an error, wherever it is in the script |
| `DiffFix.FixUndoesDiff` | src/commands/fix.c:64-103 | fix prints the new text if all ranges end below 32767 and other line numbers are at most that, and the script neither begins with an append after line 0 nor changes a last line without a newline; for line numbers below 65536 only then |
| `DiffFix.SameFirstLine` | src/commands/fix.c:64-103 | it does when the files share their first line, the line numbers fit and no such last line is changed |
| `DiffFix.EndedNotCut` | src/commands/fix.c:77-82 | an old file that ends in a newline has no such line |
| `DiffFix.DiffThenFix` | src/commands/fix.c:64-103 | diff and then fix have exactly that outcome; for files of fewer than 32767 lines, the old one ending in a newline, the new file comes out exactly when the difflist does not begin with "0a" |
| `DiffFix.ZeroAppendExample` | src/commands/fix.c:88-93 | two files for which diff prints "0a1" and fix then does not give the new one |
| `DiffFix.CutExample` | src/commands/fix.c:77-82 | two files without a final newline for which fix does not replay what diff prints |
| `DiffFix.LongExample` | src/commands/diff.c:307-317 | files of up to 65535 lines that differ in the last one come out right exactly if they have fewer than 32767 lines; with 32768 diff prints "-32768c-32768" |
| `DiffFix.RoundExample` | src/commands/diff.c:307-317 | from line 65536 on a number may come round to one with which fix makes the right file by chance |
| `EdMatch.MaxRunIs` | src/commands/ed.c:260-263 | a closure first takes the longest run |
| `EdMatch.OMatchExactly` | src/commands/ed.c:1913-1952 | omatch() finds the text of a token exactly if it is there: the character itself, one in the class, one not in it, one other than a newline, nothing before a newline, nothing at the start |
| `EdMatch.GreedyRight` | src/commands/ed.c:240-327 | a match is found exactly when the text there splits into what the tokens stand for, with some repetition counts, and its end is that of the longest-first split |
| `EdMatch.BackUpRight` | src/commands/ed.c:278-294 | backing up a closure finds the longest repetition with which the rest matches |
| `EdMatch.StarExactly` | src/commands/ed.c:260-274 | a repeated class at the end of a pattern matches exactly the longest run of its characters |
| `EdMatch.Match` | src/commands/ed.c:240-327 | match() with its loops and recursion computes that split, or finds that there is none |
| `EdMatch.SkipLits` | src/commands/ed.c:1794-1822 | matching literals ahead does not change the result |
| `EdMatch.FindLits` | src/commands/ed.c:1794-1824 | the literal-prefix loop skips no place where the pattern could match |
| `EdMatch.Matchs` | src/commands/ed.c:1777-1840 | the leftmost place where the text splits so, and the end of the longest-first split; at no earlier place, and without a result nowhere, does any split exist |
| `EdMatch.BolOnly` | src/commands/ed.c:1829-1831 | a pattern that begins with ^ matches only at the start, so giving up is right |
| `EdMatch.MatchsPtr` | src/commands/ed.c:1777-1840 | the place returned, for both values of ret_endp |
| `EdBuffer.MovedText` | src/commands/ed.c:1847-1874 | taking lines out and putting them back elsewhere is the block move |
| `EdBuffer.MovedBack` | src/commands/ed.c:1847-1874 | moving up and moving down exchange two neighbouring blocks and undo each other |
| `EdBuffer.CopyLine` | src/commands/ed.c:1876-1900 | the line to copy next is where transfer() looks for it, before and behind the copies |
| `EdBuffer.Bridge` | src/commands/ed.c:531-539 | bridging over nodes leaves a ring |
| `EdBuffer.Weave` | src/commands/ed.c:1866-1870 | linking in a chain leaves a ring |
| `EdBuffer.Buffer.constructor` | src/commands/ed.c:2054-2058 | an empty ring |
| `EdBuffer.Buffer.StepAt` | src/commands/ed.c:1423-1426 | forward counting comes to the n-th node |
| `EdBuffer.Buffer.StepAround` | src/commands/ed.c:1423-1426 | counting beyond the last line goes round the ring |
| `EdBuffer.Buffer.GetPtr` | src/commands/ed.c:1413-1428 | counting from either end gives the same node as forward counting |
| `EdBuffer.Buffer.Ins` | src/commands/ed.c:1475-1505 | the lines are inserted behind the current one; links stay mutually inverse and lastln the number of nodes |
| `EdBuffer.Buffer.Del` | src/commands/ed.c:525-543 | the lines are deleted; exactly their nodes are freed and none of these is still linked |
| `EdBuffer.Buffer.Clear` | src/commands/ed.c:2049-2052 | the buffer becomes empty |
| `EdBuffer.Buffer.GetTxt` | src/commands/ed.c:1457-1467 | the text of a line and a newline, for every number, counted round the ring |
| `EdBuffer.Buffer.Move` | src/commands/ed.c:1847-1874 | the block-moved text, for targets before and behind the range; an error exactly for bad ranges and targets inside |
| `EdBuffer.Buffer.Transfer` | src/commands/ed.c:1876-1900 | the block-copied text, for targets before, inside and behind the range |
| `MinixImage.PutSlotReads` | tools/mkfs.py:216-218 | a directory slot reads back as inode number and name |
| `MinixSteps.NewInodeRep` | tools/mkfs.py:157-165 | a new inode keeps the image a picture of the files built so far |
| `MinixSteps.NewZoneRep` | tools/mkfs.py:167-173 | a new zone does |
| `MinixSteps.AddDirect` | tools/mkfs.py:175-184 | a zone in a direct word does |
| `MinixSteps.AddIndirect` | tools/mkfs.py:185-191 | a zone behind the indirect block does |
| `MinixSteps.EnterRep` | tools/mkfs.py:215-219 | a new directory entry does |
| `MinixSettled.SettledOneMore` | tools/mkfs.py:241-271 | after each line of the prototype sizes, entries, parents and link counts of all inodes agree again |
| `Mkfs.InsertBit` | tools/mkfs.py:90-95 | exactly the bits asked for are set, and it fails beyond the one block |
| `Mkfs.Super` | tools/mkfs.py:119-155 | an empty file system, failing exactly when the sizes do not fit; every bit of both maps has its value, bit 0 and those behind the end included |
| `Mkfs.FileSystem.AllocInode` | tools/mkfs.py:157-165 | the next inode, failing exactly when there is none |
| `Mkfs.FileSystem.AllocZone` | tools/mkfs.py:167-173 | the next zone, failing exactly when there is none |
| `Mkfs.FileSystem.AddZone` | tools/mkfs.py:175-192 | a zone is appended to a file, failing exactly when the file or the disk is full |
| `Mkfs.FileSystem.IncrLink` | tools/mkfs.py:194-197 | one link more, at most 255 |
| `Mkfs.FileSystem.EnterDir` | tools/mkfs.py:204-221 | the entry goes behind the last one, the directory growing by a zone when its blocks are full |
| `Mkfs.FileSystem.EatFile` | tools/mkfs.py:231-239 | the file holds the data in zones of its own; how many is known exactly |
| `MkfsMode.ModeConSays` | tools/mkfs.py:274-284 | a mode string is accepted exactly if it has six characters, the last three octal digits; the word has these digits, the set-uid bit exactly for u, the set-gid bit exactly for g, and the type of the first character |
| `MkfsMode.DeviceParts` | tools/mkfs.py:258-263 | major and minor number can be read back from the device word if the minor one has eight bits |
| `MkfsTree.EatEntry` | tools/mkfs.py:241-271 | one line of the prototype: one inode and one entry more |
| `MkfsTree.NextFits` | tools/mkfs.py:241-271 | if a directory fits, so does each entry after those before it |
| `MkfsTree.EatDir` | tools/mkfs.py:241-271 | a directory and all below it are as in the prototype; it succeeds exactly when there is room |
| `MkfsTree.RootDir` | tools/mkfs.py:223-229 | the root directory |
| `MkfsTree.Build` | tools/mkfs.py:295-324 | a complete image of the prototype, all of whose numbers fit their fields and whose maps keep their border bits, if and only if the prototype fits, its mode strings included |
| `MinixRead.FileReadsBack` | tools/minixfs.py:111-119 | read_file gives the data across direct and single-indirect zones |
| `MinixRead.DirReadsBack` | tools/minixfs.py:121-126 | dir_entries gives the entries |
| `MinixRead.LookupAgrees` | tools/minixfs.py:128-140 | following stored names finds the inode of every place in the prototype |
| `MinixRead.FilesReadBack` | tools/minixfs.py:111-140 | following stored names and then read_file give the bytes of every file of the prototype; every inode has the type, the set-id bits and the three octal digits of its mode string, its owner and group, and a device its major and minor number and size |
| `MinixPath.Utf8Bits` | tools/mkfs.py:205-205 | the UTF-8 bytes of a character: its bits behind the marks of one to four bytes |
| `MinixPath.DecodesBack` | tools/minixfs.py:121-126 | a name encoded as UTF-8 and decoded as Latin-1 is the same exactly if it is ASCII |
| `MinixPath.PartsOfPath` | tools/minixfs.py:130-130 | a path splits into its names if none has a slash |
| `MinixPath.SlashMisses` | tools/minixfs.py:128-140 | what has a slash in its name is never found under its path |
| `MinixPath.ForeignMisses` | tools/minixfs.py:128-140 | neither is what has a name that is not ASCII, whatever else is in the image |
| `MinixPath.FoundAtItsPath` | tools/minixfs.py:128-140 | lookup of the path string finds what the prototype has there if and only if all names on it are ASCII without a slash |
| `MkfsCheck.SlashExample` | tools/minixfs.py:128-140 | a file named "a/b" that mkfs stores and lookup does not find |
| `MinixCheck.Claim` | tools/minixfs.py:170-178 | a problem is reported exactly when a zone is out of range or claimed twice |
| `MinixCheck.ClaimZones` | tools/minixfs.py:192-202 | and exactly when one lies beyond the file size |
| `MinixCheck.ListDir` | tools/minixfs.py:203-216 | entries are counted and followed; a problem exactly for bad numbers and bad dot entries |
| `MinixCheck.Visit` | tools/minixfs.py:188-216 | what one inode off the stack adds |
| `MinixCheck.Walk` | tools/minixfs.py:180-216 | the walk ends; without problems it has come to all inodes reachable from the root, once each |
| `MinixCheck.CheckUsed` | tools/minixfs.py:219-223 | link counts and marks of the inodes in use |
| `MinixCheck.CheckInodeMap` | tools/minixfs.py:224-226 | inodes marked but not referenced |
| `MinixCheck.CheckZoneMap` | tools/minixfs.py:227-232 | zone map and zones in use agree |
| `MinixCheck.WalkClean` | tools/minixfs.py:180-232 | a run without problems proves the file system consistent |
| `MinixCheck.CleanUsed` | tools/minixfs.py:180-232 | after the walk of a clean image, maps and link counts have nothing to report |
| `MinixCheck.ConsistentRight` | tools/minixfs.py:180-216 | where no directory is listed twice, each is met in the directory it names as its parent |
| `MinixCheck.Check` | tools/minixfs.py:163-242 | no problem is reported if and only if the file system is clean, that is, the inodes in the map are those reachable, link counts equal entries, no zone has two owners and the zone map is the set in use, and every directory names as its parent the one in which the walk meets it first |
| `MinixLaws.ZonesMeans` | tools/minixfs.py:91-109 | the zones and indirect zones listed are the words of the inode and of its indirect blocks, in order, with 512 holes for a missing one |
| `MinixLaws.ReadFileMeans` | tools/minixfs.py:111-119 | byte k of a file is byte k % 1024 of its zone k / 1024, or 0 in a hole, up to the size or the last zone |
| `MinixLaws.EntriesMean` | tools/minixfs.py:121-126 | every slot with a number other than 0 is an entry, free slots between them or not, and no number occurs in more or fewer entries than slots |
| `MinixLaws.ZoneOfClean` | tools/minixfs.py:163-232 | in a clean image no file has a zone behind its size, and every zone of a file is a data zone with its bit in the map |
| `MinixLaws.MarkedOfClean` | tools/minixfs.py:163-232 | a zone with its bit in the map belongs to exactly one inode of the walk |
| `MinixSizes.OversizeUnseen` | tools/minixfs.py:192-202 | a larger size of a regular file whose zones are all covered never changes whether an image is clean, and no larger size makes a clean one unclean |
| `MinixSizes.CheckResized` | tools/minixfs.py:163-242 | the check reports nothing about it |
| `MkfsCheck.FinishedConsistent` | tools/mkfs.py:241-271 | every image mkfs completes is consistent |
| `MkfsCheck.OversizeExample` | tools/minixfs.py:192-202 | a file of 5000 bytes without any zone that the check passes |
| `MkfsCheck.BuildAndCheck` | tools/mkfs.py:119-271 | mkfs completes exactly when the prototype fits; every image it completes passes the check, and everything in the prototype is found at its path, with its bytes, mode and owner, exactly if the names are plain |
| `MinixBytes.MapBit` | tools/minixfs.py:142-144 | a bit of a map is where bit() looks for it |
| `MinixBytes.Unpacked` | tools/minixfs.py:85-89 | an inode written is the inode read |
| `MinixBytes.ParseBack` | tools/minixfs.py:54-89 | reading the bytes of an image, in either byte order, gives the image back |
| `MinixBytes.WrongOrder` | tools/minixfs.py:61-62 | in the wrong byte order it is refused |
| `MinixBytes.SuperBytes` | tools/mkfs.py:133-135 | the bytes of the largest size and of the magic number, in both byte orders |
| `MinixBytes.WholeRep` | tools/mkfs.py:119-155 | super block, bit maps and inode table do not lie in any file |
| `MinixDisk.NotWrapped` | tools/minixfs.py:69-72 | no image is taken for a wrapped one |
| `MinixDisk.CheckBytes` | tools/minixfs.py:54-89 | the bytes of every image mkfs completes are read, checked without a problem, and everything is found |
| `MinixDisk.ThroughFile` | tools/mkfs.py:295-324 | from prototype to file to check and read-back |
| `MinixDisk.ThroughDisk` | tools/mklisa.py:84-107 | the same through a ProFile disk, succeeding exactly when the prototype fits the file system and this the disk |
| `Profile.PutNext` | tools/mklisa.py:94-97 | a block written leaves the others |
| `Profile.Mklisa` | tools/mklisa.py:63-107 | boot block, header, image and file system in consecutive blocks with their tags, failing exactly when they do not fit |
| `Profile.TagBytes` | tools/mklisa.py:94-101 | the tag of block 0 has AA AA in bytes 4 and 5, all other tag bytes are zero |
| `Profile.HeaderBytes` | tools/mklisa.py:100-103 | boot block and header byte by byte: MNXL, version 1, first block 2, and the five numbers |
| `Profile.ImageByte` | tools/mklisa.py:104-105 | where each byte of the image is |
| `Profile.FsByte` | tools/mklisa.py:106-107 | where each byte of the file system is |
| `Profile.FindFs` | tools/minixfs.py:68-80 | the file system area of a wrapped image, or the whole file |
| `Profile.WrapAndFind` | tools/mklisa.py:84-107 | find_fs takes out what mklisa wrapped, padded to whole blocks |
| `Readfs.MissRow` | src/commands/readfs.c:440-453 | replacing the oldest slot is what a list of the least recently used blocks does |
| `Readfs.HitRow` | src/commands/readfs.c:432-453 | a hit moves the block to the front of that list |
| `Readfs.SpoilsExactly` | src/commands/readfs.c:440-448 | a call leaves a wrong block in a cache if and only if it asks for the incomplete last block of the disk while the oldest slot is in use and differs there |
| `Readfs.Cache.GetBlock` | src/commands/readfs.c:408-455 | a call returns what a raw read returns and never block 0, no block is held twice, and the disk is read exactly when a list of the least recently used blocks would have to; this stays so until a call that spoils, and no longer |
| `Readfs.ReadSpoilt` | src/commands/readfs.c:440-448 | after such a call the block that was oldest is served wrong |
| `Readfs.SpoiltExample` | src/commands/readfs.c:440-448 | a disk and seven calls that show it |
| `Readfs.GetFileBlock` | src/commands/readfs.c:334-388 | the block found through the zone tree, for every block number, which is cut to a 16-bit zone number, and every zone size; only indirect blocks pass through a cache |
| `Readfs.CutExactly` | src/commands/readfs.c:346-354 | with zones of one block the cut changes nothing below block 65536, and from there on no block is found on a disk of up to 65536 blocks |
| `Readfs.ZoneSplit` | src/commands/readfs.c:346-354 | for every zone size, zone and index make up the block number while the zone number fits 16 bits |
| `Readfs.ReadersAgree` | src/commands/readfs.c:334-388 | without a gap get_fileblock(b) reads, for b below 65536, the b-th zone that FS.zones lists and fails exactly for holes and zones behind the disk |
| `Readfs.GapReads` | src/commands/readfs.c:334-388 | with a gap the zone tree has nothing for 512 blocks and then lags 512 behind FS.zones |
| `Readfs.ReadersAgreeExactly` | src/commands/readfs.c:334-388 | the two readers agree on all blocks of an inode if and only if it has no gap or nothing is served behind it, and nothing is to be served from block 65536 on |
| `Readfs.GapExample` | src/commands/readfs.c:334-388 | an inode they disagree on because of a gap |
| `Readfs.FarExample` | src/commands/readfs.c:346-354 | a file of one block at every place, over 64 MB long, that readfs cannot read from block 65536 on |
| `Readfs.FileBlocksReadBack` | src/commands/readfs.c:334-384 | block b of every file of an image mkfs completed is block b of its data |
| `Reloc.Collect` | tools/elf2mnx.py:199-207 | the relocation set is accepted exactly when all offsets are even, nonzero, inside and distinct |
| `Reloc.Encode` | tools/elf2mnx.py:211-225 | the loop writes the stream of the sorted offsets |
| `Reloc.StreamExample` | tools/elf2mnx.py:211-225 | the bytes of a stream |
| `Reloc.StreamVisits` | tools/build.py:310-337 | decoding visits exactly the encoded offsets, once each and in order, whatever follows the stream |
| `Reloc.Relocate` | tools/build.py:310-337 | the longs visited gain the shift in turn; None exactly for the streams that end in an error |
| `Reloc.AcceptsExactly` | tools/build.py:310-337 | a stream is accepted, and visits these offsets, exactly if they are inside the program and it has the first one as a long and then the distances as bytes 1, for 254 each, and an even byte, and a 0 at the end |
| `Reloc.RelocatedLongs` | tools/build.py:320-321 | with offsets at least 4 apart each long gains the shift modulo 2^32 |
| `Reloc.OverlapFails` | tools/build.py:320-321 | with two offsets closer than that they do not all gain a shift other than 0 |
| `Reloc.RelocatedExactly` | tools/build.py:310-337 | every long gains the shift if and only if the offsets are at least 4 apart or the shift is 0 modulo 2^32; bytes in no long never change |
| `Reloc.OverlapExample` | tools/build.py:320-321 | with offsets 2 apart it does not |
| `Reloc.Sorted` | tools/elf2mnx.py:213-213 | the relocation set in increasing order |
| `Reloc.EncodeAndRelocate` | tools/elf2mnx.py:199-225 | from the references of a program to its relocated bytes: it succeeds exactly when all references can be expressed; each long gains the shift exactly if they are at least 4 apart, in any order, or the shift is 0; no other byte changes |
| `BootImage.Image.WrOut` | tools/build.py:89-99 | bytes go to the file in order |
| `BootImage.Image.WriteBss` | tools/build.py:213-231 | the bss is written but for all whole sectors between its beginning and its end, and `nulls` is their number |
| `BootImage.AddProgram` | tools/build.py:178-231 | one program: the sectors written and left out are those its place and its sizes in memory ask for |
| `BootImage.Layout` | tools/build.py:122-233 | every `secs[i]` and `nulls[i]` and the length of the file follow from the sizes of the programs; putting back `nulls[i]` zero sectors after each run of `secs[i]` rebuilds the memory image up to the last partial sector |
| `BootImage.PatchOffsets` | tools/build.py:259-277 | the three patch offsets are where the data of kernel, mm and fs begins |
| `BootBlock.Patch` | tools/build.py:239-256 | the table and the sizes are in the block, its first 480 bytes stay, and its words add up to 0x1234 |
| `BootBlock.BootableExactly` | tools/build.py:249-251 | with the numbers in its table the image gives back the programs if and only if all of them fit a word |
| `BootBlock.Build` | tools/build.py:115-256 | from boot block and programs to an image that tells by itself how it is to be loaded, if and only if all counts fit 16 bits |
| `Btoa.Digits` | src/commands/btoa.c:404-422 | five digits whose value is the word |
| `Btoa.FirstDigit` | src/commands/btoa.c:393-402 | the two signed corrections leave the rest of the unsigned word |
| `Btoa.Encoder.WordOut` | src/commands/btoa.c:379-424 | the base-85 digits of the unsigned 32-bit word, or z or y |
| `Btoa.Encoder.AsciiOut` | src/commands/btoa.c:428-463 | characters go to lines of fixed length, each with its check character in the new format |
| `Btoa.NoEndMark` | src/commands/btoa.c:428-463 | no data line begins with x, and none is too long |
| `Btoa.Encode` | src/commands/btoa.c:273-332 | the archive of the data in either format |
| `Atob.FeedWord` | src/commands/btoa.c:747-807 | the characters of a word come back as its four bytes |
| `Atob.LineFeeds` | src/commands/btoa.c:747-778 | decoding whole groups at once is the same as checking character by character |
| `Atob.FeedStream` | src/commands/btoa.c:709-813 | all words come back |
| `Atob.Decoder.DecodeLine` | src/commands/btoa.c:709-813 | one line, groups straddling lines included |
| `Atob.Decoder.DecodeNew` | src/commands/btoa.c:570-664 | the lines of the new format with their length and check characters |
| `Atob.Decoder.DecodeOld` | src/commands/btoa.c:668-706 | the lines of the old format |
| `Atob.Decode` | src/commands/btoa.c:490-552 | the file, exactly when lines and trailer are right |
| `Atob.ArchiveDecodes` | src/commands/btoa.c:490-813 | every archive btoa makes decodes without an error to what was encoded, with all checks passing |
| `Atob.RoundTrip` | src/commands/btoa.c:273-813 | btoa and then atob, for every byte sequence and both formats |
| `AtobDamage.WordShown` | src/commands/btoa.c:379-424 | the characters of any four bytes: z, y, or five from ! on whose value to the base 85 is the word |
| `AtobDamage.SumIsTotal` | src/commands/btoa.c:145-163 | Csum is the total of the codes of all characters, each one more |
| `AtobDamage.LinesOk` | src/commands/btoa.c:598-624 | lines that are accepted are no trailers, fit the buffer and have the length of the header, but for the last, which may be shorter |
| `AtobDamage.ShortestLine` | src/commands/btoa.c:601-636 | a line that has only its check character is accepted |
| `AtobDamage.LineSums` | src/commands/btoa.c:709-813 | every character of a line counts, whether it is accepted or not |
| `AtobDamage.DamageRefused` | src/commands/btoa.c:490-664 | an archive of the new format that is accepted is refused after any one character of any line is changed to any other |
| `Fgrep.MakTbl` | src/commands/fgrep.c:206-217 | the table holds the distance of the last occurrence of each character from the end |
| `Fgrep.SkipSafe` | src/commands/fgrep.c:189-191 | a skip passes no match |
| `Fgrep.Find` | src/commands/fgrep.c:178-203 | found exactly when the word occurs in the line |

## Left out

- compress.c: option parsing, files and their names, copystat, signals, statistics, the smaller hash tables for small files, and files without the magic header. The standard input path has 9001 slots.
- compress.c: masks and shifts are written as remainders and quotients; byte counters are unbounded. getcode() reads a byte behind its buffer and masks it to nothing when no high bits are left; the model does not read it.
- LzwRoundTrip.Uncompress: says nothing about corrupt files, for which the program uses table entries it never wrote; a header with fewer than 9 bits counts as corrupt.
- LzwDecompress.Decompressor.GetCode: asks, like Decompress, for a stream that is not corrupt.
- LzwDecompress.Decompressor.Decompress: the same.
- LzwCompress.Compressor.Probe: says nothing of key 0, which may be missed, since a slot with it counts as free.
- LzwCompress.Compressor.Compress: that a clear follows the ratio test is stated of ClBlock and not repeated for the run.
- Diff.Diff: files have no NUL and no line longer than 128 characters; diff cuts longer lines off. Running out of memory is modelled only for a difference of 65536 lines, whose records take more than 8 MB; on most machines it happens earlier.
- int: the int of the C programs has 16 bits, and signed overflow, which C leaves undefined, is taken to come round as on the 68000.
- Diff.Window: pointers into the window are positions; the records behind them are in DiffLists, whose methods do the same to the contents. The search itself is not repeated on linked records.
- Fix.Fix: files and difflists have no NUL and no line longer than 1022 characters, which fix would read in two parts.
- ed.c: the command parser, makepat(), groups, substitution, global commands, files.
- EdMatch.Match: groups, and closures of ^ and $, which makepat() does not make, are excluded.
- EdMatch.Matchs: asks for a line that is not empty, as ed's lines end in a newline; for an empty one matchs() returns an uninitialised value.
- EdMatch.MatchsPtr: the same.
- EdBuffer.Buffer: curln and lastln do not come round as 16-bit ints would in a text of more than 32767 lines.
- EdBuffer.Buffer.Ins: asks for text that ends in a newline, without which ins() reads beyond its argument; lines longer than the 256-byte buffer and failing malloc are not modelled; l_stat is left out.
- EdBuffer.Buffer.Del: asks for a range inside the buffer, as all callers have checked; beyond it lastln would count lines that are not there.
- MkfsMode.ModeConSays: of the last three characters of a mode only octal digits are accepted, where int() of Python also takes blanks, signs and underscores.
- mkfs.py: the text of the prototype but for modes, its parsing, times, host file errors. While it is built an image is kept as records with data blocks of bytes; MinixBytes has the bytes it is written as. A prototype has names without NUL bytes, distinct in each directory, and no name is . or ..
- Readfs.Cache.GetBlock: the access counter does not wrap; a read fails only at the end of the disk.
- Readfs.ReadersAgreeExactly: is about disks of at most 65536 blocks, which is what 16-bit zone numbers can describe, and zones of one block, the only ones FS accepts.
- minixfs.py: the listing command.
- MinixLaws.ReadFileMeans: asks for zones inside the image; a zone outside adds nothing to what is read.
- MinixBytes.Parse: bytes behind the last whole block of a file are ignored; a file that ends before its inodes is refused at once and not when they are read.
- MinixCheck.Check: the texts of the problems, and the order in which they are printed, are not modelled. Of an image without any inode it says only that; the bit maps are as long as the super block says.
- elf2mnx.py: sections, symbols, headers and stack sizes.
- BootImage.Layout: programs are given relocated; their headers are left out. The boot block is not empty and fits one sector.
- BootBlock.Build: the words patched into kernel and fs are left out; BootImage.PatchOffsets says where they go.
- Atob.Decoder.DecodeLine: characters are 0 to 255; in the program a char is signed, so that one from 128 up inside a group, which only a damaged archive has, counts as negative there and in the checksums.
- btoa.c: the text of header and trailer, file names, diagnosis and repair files. Csum does not wrap.
- Atob.Decoder.DecodeNew: decoding stops at the first error, where the program goes on looking for more to report.
- AtobDamage.DamageRefused: is about one changed character; in the old format, whose lines have no check character, it is not proved.
- Atob.Decode: header and trailer are numbers and not text. A data line beginning with x is an error, because it is not a trailer; an empty line before the trailer, for which the program reads before its buffer, is an error too.
- fgrep.c: options and reading lines; lines have 7-bit characters and words 1 to 255.
- fsck, mkfs.c, the kernel, the servers, the libraries, the emulator drivers and the remaining commands are not part of this model.
