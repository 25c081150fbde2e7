# Verified models of NSH scripts, PCM fast forward, dd, hexdump, RLE bitmaps and binfmt

Dafny models of the parts of this NuttX tree whose behaviour is hard to see from any one
function, each proved against a specification that does not mention how the code works.

- **NSH scripts** (`Nsh*.dfy`). NSH never builds a syntax tree. It reads a line, cuts it up in
  place, pushes each command through two small stacks and realises a loop by seeking the file
  back to a remembered byte offset. `NshState` and `NshText` say what one command and one line
  do, words being expanded, and what stands in backquotes run, at the moment they are read;
  `NshParser` and `NshArgument` are the mutable parser and tokeniser that compute exactly
  that, and three layers lead from the text to the meaning: the text machine (byte offsets), a
  jump machine over the list of commands (`NshProgram`, `NshJump`), and ordinary structured
  semantics in which a failing plain command ends the script (`NshStructured.Std`).
  `NshTheorem` and `NshWritten` put them together. `NshLimits`, `NshBreak`, `NshHeader` and
  `NshGlue` say exactly where the parser departs from structured semantics, `NshShape` what holds after every
  sequence of commands, `NshErrors` what a syntax error does, `NshStale` that leftovers on the `if`
  stack do not matter, and `NshCalls` which commands run, with which words, when some stand between
  backquotes. `NshPrint`, `NshWords`, `NshExpand` and `NshValues` treat printing, cutting text into
  words and lines, and argument expansion.
- **PCM fast forward** (`Pcm*.dfy`). In-place sub-sampling of a stream that arrives in buffers of
  any size, with a carried phase, against a filter on stream positions.
- **Copying** (`Dd*.dfy`, `Devices.dfy`, `Hexdump.dfy`). `dd` and `hexdump` under every schedule
  of short transfers and errors, on character and block devices.
- **RLE bitmaps** (`RleBitmap.dfy`). The row encoder decodes back and is optimal.
- **binfmt** (`Binfmt*.dfy`). Exactly-once release over all runs of `exec` and task exits, packing of
  argument lists, and the destructive PATH traversal.

`Numbers` and `CStrings` hold arithmetic and NUL-terminated strings.

The outside world is a parameter. A command interpreter is any function of the commands run so
far, and so is what a word with `$` or backquotes stands for; a device may transfer less than asked or fail, chosen arbitrarily at each call; the steps of
`exec` succeed or fail as told. The configuration is the one with loops, `if`, semicolons and
command parameters, and without background commands (`CONFIG_NSH_DISABLEBG`). The nesting depth
is the length of the two stacks, any length at all, and the sizes of the line buffer and of `argv`
are constants of which no value is assumed.

Where properties fail, the code is kept as it is and the exact condition is proved: a sub-sampling
rate works exactly when its skip count fits the 8-bit field, `dd` copies the window exactly when
no sector number that matters wraps at 32 bits, and from a block device exactly when no offset
that is read does, a disabled block is passed over exactly when it has
no loop as a direct child (and fits the stacks), a syntax error ends the script exactly when no
condition is being waited for (otherwise it is taken for the failure of that condition), a loop body whose own loops are in order runs as
written exactly when no `break` that can be reached stands below an `if`, a command may share the
line of its `do`, `then` or `else` exactly when its first word has nothing to expand and is no
keyword that would be overlooked there, a loop header is found again exactly when the
words behind its last quotation mark are its own, and a load structure is lost exactly when its
unloading could not be scheduled.

## Model

| member | source | states |
|---|---|---|
| NshWritten.WrittenIsStructured | apps/nshlib/nsh_parse.c:1978-2272 | For every in-scope program and every way of spreading its commands over lines with `;`, the script text ends with some status and trace of commands if and only if the structured semantics does, with both stacks empty again on success; so it also diverges together with it. |
| NshTheorem.ScriptIsStructured | apps/nshlib/nsh_script.c:126-165 | The same for every clean text, whatever its blank lines, comments, indentation and commands that share a line with their `do`, `then` or `else`, and whatever `$` stands for: in a clean text no word has a backquote, and neither the first word of a command nor the word after a keyword has a `$`. |
| NshTheorem.ProgramExactly | apps/nshlib/nsh_parse.c:1391-1794 | The jump machine on the list of commands of an in-scope program ends exactly as the program's structured meaning. |
| NshStructured.Structured | apps/nshlib/nsh_parse.c:403-459 | From any state between two commands, inside any loops and branches, a program in scope runs the commands that the structured semantics runs, leaves `np_fail` and status alike and every stack level as it was. |
| NshStructured.SkipBlock | apps/nshlib/nsh_parse.c:1391-1460 | A block met while commands are disabled runs nothing, keeps `np_fail` and the stack levels, makes no backward jump and ends just past itself. |
| NshStructured.NoLeave | apps/nshlib/nsh_parse.c:2279-2302 | In scope, a loop is only left from the top level of its body. |
| NshLimits.SkipExactly | apps/nshlib/nsh_parse.c:1391-1408 | Such a block is passed over if and only if it fits the stacks and, when only a loop is disabled, has no loop as a direct child. |
| NshLimits.LoopExitExactly | apps/nshlib/nsh_parse.c:1524-1540 | When its test says stop, a loop's body is passed over if and only if no loop is a direct child of it. |
| NshLimits.LastLoopExactly | apps/nshlib/nsh_parse.c:1468-1651 | A loop at the end of a block agrees with structured semantics on such a test if and only if no loop is a direct child of its body. |
| NshBreak.BreakExactly | apps/nshlib/nsh_parse.c:2279-2302 | A block on the top level of a loop body, whose own loops if any are in scope, agrees with structured semantics on every run if and only if no `break` that can be reached stands below an `if`. |
| NshBreak.LoopExactly | apps/nshlib/nsh_parse.c:2279-2302 | A loop with such a body, met at any level, agrees on every run if and only if that holds of its body. |
| NshBreak.BreakBelowIf | apps/nshlib/nsh_parse.c:1720-1794 | A `break` below an `if` drops the parser to the `if` level of the loop, whatever that is: the `fi` of its branch pops the level around the loop and its `else` flips it, or either stops the script if there is none, where the structured semantics leaves the loop. |
| NshLimits.NestedLoopExample | apps/nshlib/nsh_parse.c:1400-1407 | A concrete directly nested loop of which the parser runs both tests and structured semantics only the outer one. |
| NshJump.ScriptExactly | apps/nshlib/nsh_parse.c:1595-1625 | For every well-formed program, in scope or not, the jump machine stops in a configuration if and only if the tree-shaped run of the same commands does. |
| NshJump.BigIsJump | apps/nshlib/nsh_parse.c:1468-1794 | The machine follows that run step by step from anywhere in a larger list of commands. |
| NshProgram.BigFrame | apps/nshlib/nsh_parse.c:1595-1651 | A program that ends leaves the loop stack as it was, up to the enable bit of the top, and the position just past itself. |
| NshProgram.ApplyIf | apps/nshlib/nsh_parse.c:1667-1715 | The whole effect of `if` and its condition on the state and trace, or a stop when the stack is full. |
| NshProgram.ApplyLoop | apps/nshlib/nsh_parse.c:1485-1541 | The whole effect of `while` or `until` and its condition, which is run whenever the `if` levels allow it. |
| NshProgram.ApplyDone | apps/nshlib/nsh_parse.c:1573-1640 | `done` pops the loop level, and jumps back to the recorded header exactly if the loop is enabled. |
| NshScript.TextExactly | apps/nshlib/nsh_script.c:126-165 | A clean script text, whose words are expanded as they are read, ends exactly as the plain list of its commands does on the jump machine. |
| NshScript.StaleText | apps/nshlib/nsh_parse.c:1787-1793 | Whatever an earlier syntax error left on the `if` stack above its top has no influence on how a script ends, clean or not. |
| NshScript.LayoutIndependent | apps/nshlib/nsh_parse.c:1523-1540 | Two clean texts with the same commands end alike, however they are laid out. |
| NshGlue.GlueExactly | apps/nshlib/nsh_parse.c:1545-1561 | In every state that awaits the keyword and for every shell, a command on the line of its `do`, `then` or `else` does what it does on the next line, if and only if its first word has no `$` and no backquote and is no keyword that is overlooked behind that one. |
| NshGlue.BackquoteExactly | apps/nshlib/nsh_parse.c:1708-1743 | Even if no word ever stands for a keyword, the two are the same if and only if the first word has no command between backquotes. |
| NshGlue.BackquoteRuns | apps/nshlib/nsh_parse.c:1908-1926 | Where they differ: with a condition that keeps the block from running, the backquoted command runs all the same, or its result takes the place of the condition's. |
| NshBackquote.LayoutMatters | apps/nshlib/nsh_parse.c:1708-1722 | Two scripts with the same commands, one with a backquoted command on the line of its `then`: the condition fails in both, the one runs three commands and the other only the condition. |
| NshText.FixedExactly | apps/nshlib/nsh_parse.c:1978-2107 | A command without backquotes, and without `$` where a keyword may stand, does what its words say, whatever the environment. |
| NshGlue.ExpandRuns | apps/nshlib/nsh_parse.c:1054-1100 | Expanding a word runs the commands between its backquotes, in order, and no others. |
| NshGlue.LiteralExpands | apps/nshlib/nsh_parse.c:1022-1048 | A word without special characters stands for itself and runs nothing. |
| NshScript.MatchLine | apps/nshlib/nsh_parse.c:2162-2272 | Parsing one line, with any number of commands and a jump out of its middle, matches a number of steps of the jump machine. |
| NshLayout.LeadsBack | apps/nshlib/nsh_parse.c:1595-1625 | Reading on from the offset where a command starts finds that command and all that follow it. |
| NshRefine.RelCommand | apps/nshlib/nsh_parse.c:1523-1540 | One command keeps byte offsets and command indices in step, in the state, the stacks and the jump. |
| NshHeader.HeaderLands | apps/nshlib/nsh_parse.c:2188-2264 | For every loop header of every file, the jump to the recorded offset leads back to the commands from the header on if and only if the words from that offset on are the words of the header. |
| NshHeader.HeaderExactly | apps/nshlib/nsh_parse.c:2188-2264 | For a header without `#` and backquote it leads back if and only if the recorded offset is the start of the header, that is, if and only if the header has no quotation mark. |
| NshHeader.HeadersFirst | apps/nshlib/nsh_parse.c:1468-1541 | In a tidy file every loop header is the first command of its piece of text. |
| NshQuoted.QuotedLoop | apps/nshlib/nsh_parse.c:1523-1540 | A script with a quoted loop header whose loop ends well in the structured semantics and which fails at its second `do` instead. |
| NshQuoted.OddHeader | apps/nshlib/nsh_parse.c:2188-2264 | A header with quotation marks that is found again all the same, because the search for the end of the command and the search for its words disagree on what is quoted. |
| NshShape.RunKeepsShape | apps/nshlib/nsh_parse.c:1501-1541 | Over every sequence of commands, well formed or not, with anything in backquotes, both indices stay on the stacks, level 0 is normal in both, inner loop levels are in `do` and a nonzero top is in a loop state. |
| NshShape.NeverInternalError | apps/nshlib/nsh_parse.c:1578-1588 | In that shape the two branches marked as impossible are not reached. |
| NshPrint.RoundTrip | apps/nshlib/nsh_parse.c:1239-1384 | Printing commands with spaces, quotation marks and `;` and cutting them up again gives the same words in the same order. |
| NshPrint.PrintedRuns | apps/nshlib/nsh_parse.c:2162-2272 | A printed line runs the printed commands in order up to the first that fails and leaves the parser as it was. |
| NshPrint.WalkIsNextPiece | apps/nshlib/nsh_parse.c:2188-2264 | The search for the end of a command by spans agrees with a walk character by character. |
| NshArgument.Argument | apps/nshlib/nsh_parse.c:1239-1367 | The part of the tokeniser that cuts the next word off in place returns the next word of the specification, leaves it NUL-terminated in the buffer and the rest of the string intact behind it. |
| NshWords.TokensAreScanned | apps/nshlib/nsh_parse.c:1239-1384 | The words of a command are those that a scanner with one state per character finds: spaces, tabs and newlines between words, quotation marks, backquotes, `>`, `>>` and comments. |
| NshWords.UnmatchedFails | apps/nshlib/nsh_parse.c:2247-2262 | A command with an unmatched quotation mark is not run, and its line fails. |
| NshParser.Parser.Word | apps/nshlib/nsh_parse.c:1239-1384 | The whole of it: the word is cut off and expanded, and the state is as after the commands inside it. |
| NshParser.Parser.Expand | apps/nshlib/nsh_parse.c:1003-1178 | The backquoted commands of a word run from left to right in the state the parser is in. |
| NshParser.Parser.CmdParm | apps/nshlib/nsh_parse.c:1865-1960 | A backquoted command runs if commands are enabled, and its result is saved as that of any command. |
| NshCalls.OneCall | apps/nshlib/nsh_parse.c:1935-1955 | In every state in which commands are enabled, a backquoted command is run once, with all the words between the backquotes that `argv` has room for, and sees `np_fail`; otherwise nothing runs. |
| NshCalls.OneResult | apps/nshlib/nsh_parse.c:1955-1955 | Outside of conditions its result becomes `np_fail` and nothing else changes. |
| NshCalls.BreakCall | apps/nshlib/nsh_parse.c:2279-2302 | A backquoted `break` in a loop body leaves the loop and is not recorded as a command. |
| NshCalls.CommandCalls | apps/nshlib/nsh_parse.c:2072-2084 | A plain command first runs the backquoted commands of its arguments from left to right, each seeing the result of the one before, and then itself; nothing else is run. |
| NshCalls.KeywordReads | apps/nshlib/nsh_parse.c:1492-1492 | Each of the eight keywords runs what stands between the backquotes of the next word before anything else, even if it then is an error. |
| NshCalls.IfCalls | apps/nshlib/nsh_parse.c:1674-1702 | The word after `if` is read before the level is opened; the condition then runs with what that word stands for, and its result alone decides. |
| NshCalls.LoopCalls | apps/nshlib/nsh_parse.c:1492-1541 | The same for `while` and `until`, with the recorded offset. |
| NshParser.Parser.SaveResult | apps/nshlib/nsh_parse.c:403-459 | The state and status of the specification, in place. |
| NshParser.Parser.CmdEnabled | apps/nshlib/nsh_parse.c:1391-1460 | Whether the top loop and the top `if` let commands run, as the specification of the state has it. |
| NshParser.Parser.Loop | apps/nshlib/nsh_parse.c:1468-1651 | Handles a leading loop keyword as specified: the word after it is read and expanded first, then the new stack, jump and position, the words left, or a reset of the stack on error. |
| NshParser.Parser.Itef | apps/nshlib/nsh_parse.c:1659-1794 | The same for `if`, `then`, `else` and `fi`. |
| NshErrors.ErrorExactly | apps/nshlib/nsh_parse.c:2008-2024 | For every state and command: the command fails without having run anything if and only if a keyword is out of place and no condition is being waited for. |
| NshErrors.LoopError | apps/nshlib/nsh_parse.c:1642-1650 | A misplaced loop keyword runs nothing, leaves all loops with level 0 normal and enabled, and fails; behind `if` it passes for a failed condition instead. |
| NshErrors.ItefError | apps/nshlib/nsh_parse.c:1788-1793 | A misplaced `if` keyword runs nothing, leaves all `if`s with level 0 normal, touches no other level and fails; behind `while` and `until` it passes for a failed test instead. |
| NshErrors.Recovery | apps/nshlib/nsh_parse.c:1642-1650 | After a reported error the next plain command is run, and sees `$?` set, if and only if the stack that the error has left alone lets it. |
| NshErrors.ForgottenThen | apps/nshlib/nsh_parse.c:1777-1784 | A script in which `then` was forgotten fails there and does not run the next command. |
| NshErrors.UnnoticedError | apps/nshlib/nsh_parse.c:1708-1720 | A script with a `then` behind `while` ends well and runs nothing. |
| NshErrors.EmptyScript | apps/nshlib/nsh_script.c:83-180 | An empty script fails. |
| NshParser.Parser.CmdBreak | apps/nshlib/nsh_parse.c:2279-2302 | `break` as specified. |
| NshParser.Parser.Arguments | apps/nshlib/nsh_parse.c:2072-2084 | Reads as many words as `argv` has room for, with the effect of the commands inside them. |
| NshParser.Parser.ParseCommand | apps/nshlib/nsh_parse.c:1978-2057 | One command in the line buffer, its first word expanded before it is compared with a keyword, has the specified outcome and trace, and the buffer behind it is untouched. |
| NshParser.Parser.Parse | apps/nshlib/nsh_parse.c:2162-2272 | One line, overwritten as it is parsed, has the specified outcome. |
| NshParser.Parser.Fgets | apps/nshlib/nsh_script.c:151-151 | Reads one line, or the part of it that fits. |
| NshWords.ChunksJoin | apps/nshlib/nsh_script.c:151-151 | Successive reads of a file join to the file, none has a newline but at its end, and only the last may be short without one. |
| NshParser.Parser.Script | apps/nshlib/nsh_script.c:83-180 | Any number of rounds of the script loop gives the state, trace and status of the text machine. |
| NshExpand.ArgExpand | apps/nshlib/nsh_parse.c:1003-1178 | Expansion in place equals the recursive specification: literals, variables with and without braces, backquoted commands, `$?`, each value taken once, and nothing if a delimiter has no partner. |
| NshValues.StatusExpand | apps/nshlib/nsh_parse.c:967-976 | `$?` and `${?}` behind any text are "1" after a failure and "0" otherwise. |
| NshValues.BracesExpand | apps/nshlib/nsh_parse.c:1125-1150 | A name in braces, between a text and any rest of a word, is replaced by its value, and by nothing if it is not set. |
| NshValues.LastExpand | apps/nshlib/nsh_parse.c:1152-1168 | Without braces the name is the rest of the word. |
| NshValues.CommandExpand | apps/nshlib/nsh_parse.c:1054-1100 | A backquoted command is replaced by its output, has run once, and its result is the next `$?`. |
| NshValues.UnmatchedExpand | apps/nshlib/nsh_parse.c:1071-1077 | A delimiter without a partner makes the word empty and runs nothing. |
| NshExpand.ReadWrite | apps/nshlib/nsh_parse.c:1051-1176 | The parts of a word, spelled out again, are the word. |
| NshExpand.WriteRead | apps/nshlib/nsh_parse.c:1051-1176 | Parts that do not contain their own end are read back as they were spelled. |
| NshExpand.FillAdd | apps/nshlib/nsh_parse.c:922-954 | Expansion is compositional: the parts are filled in from left to right and a value is never read again. |
| PcmStream.SubsampleExactly | nuttx/audio/pcm_decode.c:506-659 | The output from a fresh phase is the bytes of the frames whose number is a multiple of the rate, for every stream, if and only if `align * (rate - 1)` fits in 8 bits. |
| PcmStream.SubsampleIsFilter | nuttx/audio/pcm_decode.c:600-652 | The same filter, for streams of anything. |
| PcmStream.PhaseClosedForm | nuttx/audio/pcm_decode.c:544-592 | After n bytes `skip` and `npartial` depend only on n modulo the period, by a closed form. |
| PcmStream.WrappedGap | nuttx/audio/pcm_decode.c:538-538 | When the skip count wraps, the sub-sampler keeps a byte too many right after its first gap. |
| PcmPlayer.ChunkIndependence | nuttx/audio/pcm_decode.c:506-659 | However a stream is cut into buffers, the concatenated output is that of the uncut stream. |
| PcmPlayer.PlayIsFilter | nuttx/audio/pcm_decode.c:506-659 | The two combined: any cutting gives exactly the wanted frames and the closed-form phase. |
| PcmPlayer.FrameIntegrity | nuttx/audio/pcm_decode.c:432-492 | Over every interleaving of buffers and changes between fast rates, the output is whole frames with increasing numbers and then `npartial` bytes of one more. |
| PcmPlayer.FrameIntegrityExactly | nuttx/audio/pcm_decode.c:538-656 | A rate keeps frames whole on every stream if and only if its gap, as stored in 8 bits, is a multiple of the frame size. |
| PcmPlayer.WholeGapWhen | nuttx/audio/pcm_decode.c:399-414 | That holds for every rate when the frame size divides 256, as it does for the supported formats, and for every rate whose gap fits. |
| PcmDecoder.EndToEnd | nuttx/audio/pcm_decode.c:1020-1136 | Over a whole stream with a valid header, the lower half receives the reduced payload behind the header however the stream is cut, nothing is reported complete, and streaming ends with the final buffer. |
| PcmDecoder.EndToEndFrames | nuttx/audio/pcm_decode.c:1020-1136 | From a fresh phase that payload is exactly the wanted frames. |
| PcmDecoder.Decoder.Configure | nuttx/audio/pcm_decode.c:432-492 | The three cases of a rate change. |
| PcmRates.StartExactly | nuttx/audio/pcm_decode.c:440-462 | From normal play in any phase, or from a fresh phase, a request for a rate makes the output the frames whose number is a multiple of it, however the stream behind the request is cut. |
| PcmRates.NormalExactly | nuttx/audio/pcm_decode.c:464-480 | A request for normal play makes the output the input, and a rate requested after that starts afresh. |
| PcmRates.MidstreamExactly | nuttx/audio/pcm_decode.c:482-491 | Between two fast rates, in any phase: the frame or gap that the stream is in is finished first, and from then on the output is the frames at the new rate. |
| PcmDecoder.Decoder.Subsample | nuttx/audio/pcm_decode.c:506-659 | In place on one array, the buffer ends up holding the reduced bytes and the fields the new phase; no unread byte is overwritten and no count underflows. |
| PcmDecoder.Decoder.EnqueueBuffer | nuttx/audio/pcm_decode.c:1020-1166 | Every path of the enqueue operation, with the header missing or short, configuration refused, or the lower half refusing. |
| PcmDecoder.RejectedRun | nuttx/audio/pcm_decode.c:1062-1166 | Any run of first buffers that are short, have no header or are refused hands nothing to the lower half, starts nothing, and reports completion once for each that has no header. |
| PcmDecoder.RejectedThenPlays | nuttx/audio/pcm_decode.c:1020-1166 | The stream that comes after them is played as if they had not been. |
| PcmDecoder.Answers | nuttx/audio/pcm_decode.c:1020-1166 | The code that is returned, in mid-stream and for a first buffer. |
| PcmDecoder.Leaves | nuttx/audio/pcm_decode.c:1020-1166 | When streaming goes on, when a buffer reaches the lower half, when completion is reported, and where the frame size comes from. |
| DdSpec.CopiesExactly | apps/nshlib/nsh_ddcmd.c:578-621 | Every input of n sectors is copied as asked if and only if skip is zero or the window ends within the 32-bit sector numbers. |
| DdSpec.CopiedIsWanted | apps/nshlib/nsh_ddcmd.c:578-621 | The bytes copied are the zero-padded input from sector skip to sector min(skip + count, number of sectors). |
| DdSpec.WantedBytes | apps/nshlib/nsh_ddcmd.c:590-600 | That window byte by byte: the input from sector skip on, zeros behind its end, in whole sectors that start inside the input, and count of them unless the input ends before. |
| DdCopy.OverlayBytes | apps/nshlib/nsh_ddcmd.c:210-237 | A device after the copy, byte by byte: what was written, and the old contents behind it. |
| DdCopy.CopyFile | apps/nshlib/nsh_ddcmd.c:578-621 | Between character devices, under every schedule of short reads and writes, the output is that window; on an error it is a prefix of it. |
| DdDisk.DisksExactly | apps/nshlib/nsh_ddcmd.c:276-294 | Every block device of n whole sectors is copied as asked if and only if the offset of the last sector that is read is below 2^32. |
| DdDisk.NeverEnds | apps/nshlib/nsh_ddcmd.c:276-294 | A device of at least 2^32 bytes never ends for `dd`: the count is always met, from the first 2^32 bytes. |
| DdCopy.CopyFromDisk | apps/nshlib/nsh_ddcmd.c:578-621 | From a block device to a file, with offsets that wrap as they do: the bytes at the wrapped offsets, which are the window that was asked for when no offset wraps. |
| DdCopy.CopyDisk | apps/nshlib/nsh_ddcmd.c:210-294 | Between block devices, while the offsets that are read stay below 2^32, the same bytes tile the output from offset 0, cut at its end, and the rest of it is unchanged; after an error a prefix of them does. |
| DdCopy.Dd.Transfer | apps/nshlib/nsh_ddcmd.c:578-621 | The loop on any mix of devices: the output device holds the copied bytes, or after an error a prefix of them. |
| DdCopy.Dd.ReadCh | apps/nshlib/nsh_ddcmd.c:301-324 | Fills the sector as far as the input goes; end of file exactly when nothing was left. |
| DdCopy.Dd.ReadBlk | apps/nshlib/nsh_ddcmd.c:276-294 | The same at the offset of the current sector, reduced to 32 bits. |
| DdCopy.Dd.WriteCh | apps/nshlib/nsh_ddcmd.c:244-269 | Appends the whole sector, or a prefix of it on an error. |
| DdCopy.Dd.WriteBlk | apps/nshlib/nsh_ddcmd.c:210-237 | Lays the sector over the device behind what was written, and reports end of file exactly when the device is full. |
| Hexdump.Hexdump | apps/nshlib/nsh_dbgcmds.c:418-496 | For every file, skip, count and read schedule, the dumped bytes are the window clipped to the file, or a prefix of it after an error, under consecutive headings. |
| Hexdump.WindowBytes | apps/nshlib/nsh_dbgcmds.c:433-478 | The window byte by byte: from skip on, for count bytes or up to the end of the file. |
| Hexdump.AddressIsOffset | apps/nshlib/nsh_dbgcmds.c:433-478 | The bytes under a heading are those at that offset of the file. |
| RleBitmap.EncodeRow | NxWidgets/tools/bitmap_converter.py:59-79 | The entries decode to the quantised row, repeat counts lie in 1..255, and no list of entries with counts up to 255 for that row is shorter; the only error is an empty palette. |
| RleBitmap.GreedyIsShortest | NxWidgets/tools/bitmap_converter.py:59-79 | Optimality of taking as much as fits into every entry. |
| RleBitmap.GreedyDecodes | NxWidgets/tools/bitmap_converter.py:59-79 | The same entries decode to the row. |
| RleBitmap.OneColor | NxWidgets/tools/bitmap_converter.py:59-79 | A row of one color takes one entry for every 255 pixels or part of them. |
| RleBitmap.DistanceAxes | NxWidgets/tools/bitmap_converter.py:54-55 | The distance is Euclidean: squared along each channel, and the channels add up. |
| RleBitmap.QuantizeIsNearest | NxWidgets/tools/bitmap_converter.py:48-57 | Both branches give the lowest index of a nearest color; only an empty palette has none. |
| BinfmtBooks.RunBalanced | nuttx/binfmt/binfmt_exec.c:202-287 | Over every run of calls and task exits, with any step failing, every allocation was released exactly once, except the load structures on the unload list, each there once, and the orphans. |
| BinfmtBooks.OrphansExactly | nuttx/binfmt/binfmt_schedunload.c:267-331 | Over every run, a structure is an orphan if and only if it is the one of a call that started its task and could not have it unloaded later. |
| BinfmtBooks.StartAndExit | nuttx/binfmt/binfmt_exec.c:255-275 | From a call that starts its task to the exit of that task: the load structure waits, not freed, under the identity of the task, and the exit frees it once and leaves the list as it was. |
| BinfmtBooks.WaitingExactly | nuttx/binfmt/binfmt_schedunload.c:94-182 | Over every run of calls and exits, the unload list holds exactly the tasks that were started and have not exited. |
| BinfmtBooks.AllExit | nuttx/binfmt/binfmt_schedunload.c:202-235 | When the tasks started by the calls of a run have exited, in whatever order, between whatever other calls and even with equal pids, the unload list is empty. |
| BinfmtBooks.OwnStructure | nuttx/binfmt/binfmt_schedunload.c:202-235 | Whatever other tasks do in the meantime, the exit of a task frees the structure of its own call. |
| BinfmtBooks.StartedExactly | nuttx/binfmt/binfmt_exec.c:98-122 | With nothing else in the way, a task is started if and only if it has at most 256 arguments. |
| BinfmtExec.Loader.Exec | nuttx/binfmt/binfmt_exec.c:202-287 | The call has the effect that the books say, and the started task reads the caller's arguments. |
| BinfmtExec.Loader.ExecModule | nuttx/binfmt/binfmt_execmodule.c:137-328 | Whichever step fails, the copied arguments are still owned or were freed once. |
| BinfmtExec.Loader.FreeArgv | nuttx/binfmt/binfmt_unloadmodule.c:229-244 | Frees the arguments once however often it is called. |
| BinfmtExec.Loader.UnloadModule | nuttx/binfmt/binfmt_unloadmodule.c:150-212 | Ownership is conserved whether or not the format's unload operation succeeds. |
| BinfmtExec.Loader.UnloadListAdd | nuttx/binfmt/binfmt_schedunload.c:94-112 | Links the structure in at the head of an acyclic list. |
| BinfmtExec.Loader.UnloadListRemove | nuttx/binfmt/binfmt_schedunload.c:135-182 | Unlinks the first structure with that pid and only that one. |
| BinfmtExec.Loader.ScheduleUnload | nuttx/binfmt/binfmt_schedunload.c:267-331 | On failure the list is as before. |
| BinfmtExec.Loader.UnloadCallback | nuttx/binfmt/binfmt_schedunload.c:202-235 | The handler releases the structure of the task that exited and nothing else. |
| BinfmtExec.Loader.Serve | nuttx/binfmt/binfmt_exec.c:202-287 | The linked list, fields and frees of the real operations follow the books over every run and stay balanced. |
| BinfmtArgv.CopyArgv | nuttx/binfmt/binfmt_exec.c:84-162 | The error codes, when there is no buffer, and the packed list otherwise. |
| BinfmtArgv.ArgvRoundTrip | nuttx/binfmt/binfmt_exec.c:126-151 | A packed list reads back as the list it was made from. |
| BinfmtArgv.PackedApart | nuttx/binfmt/binfmt_exec.c:138-150 | Every string lies inside the buffer, behind the table and before the next string. |
| BinfmtArgv.Measure | nuttx/binfmt/binfmt_exec.c:98-122 | The sizing pass gives the bytes that the strings take, or the error for too many. |
| BinfmtPath.DirectoriesAreSplit | nuttx/binfmt/binfmt_exepath.c:193-258 | The directories tried are the PATH split at the colons, but for one empty piece at the end. |
| BinfmtPath.SplitJoin | nuttx/binfmt/binfmt_exepath.c:213-230 | The pieces hold no colon and join to the PATH. |
| BinfmtPath.ExePath.Next | nuttx/binfmt/binfmt_exepath.c:173-261 | Returns the next regular file along the PATH, each directory tried once and in order although the copy is overwritten. |
| BinfmtPath.FullParts | nuttx/binfmt/binfmt_exepath.c:232-243 | The path that is tried is the directory, a slash and the name. |
| BinfmtPath.TriesAll | nuttx/binfmt/binfmt_loadmodule.c:201-249 | A program that no format loads is offered to every format, in every directory of the PATH that has it, in order, and nothing else is. |
| BinfmtPath.ChosenExactly | nuttx/binfmt/binfmt_loadmodule.c:201-249 | Something is chosen if and only if some directory has a regular file that some format loads, and then it is the first such file and the first such format. |
| BinfmtPath.Binary.LoadModule | nuttx/binfmt/binfmt_loadmodule.c:177-271 | Offers exactly the candidate files to the formats, in order, up to the chosen file and format, which come last; or fails; and restores the file name. |
| BinfmtPath.TriesEnd | nuttx/binfmt/binfmt_loadmodule.c:201-249 | Of the load calls that are made only the last can succeed, and it is the one for what is chosen. |
| BinfmtPath.Binary.LoadAbsModule | nuttx/binfmt/binfmt_loadmodule.c:118-157 | The first format that loads the file, whose unload operation is kept. |

## Left out

- NshTheorem.ScriptIsStructured: holds for programs in scope, which have no loop as a direct child of a loop body, `break` only at the top level of a loop body, simple commands as conditions, and nesting that fits the stacks; `NshLimits` and `NshBreak` state exactly what happens at these limits for one loop around loops that are in scope, but not which nests of several loops outside of the scope still happen to agree.
- NshScript.TextExactly: texts are clean, that is, their lines fit the buffer, quotation marks match, no word has a backquote, no `$` stands in the first word of a command or in the word after a keyword, and a loop header is recorded where it starts; `NshHeader` says exactly when a header is found again if it is not, and `NshGlue` exactly when an expanded word may share the line of a keyword. How a whole script with backquotes ends is not characterised.
- NshProgram.ApplyIf: the jump machine takes commands as words that need no expansion, as do the other members of `NshProgram`, `NshJump`, `NshStructured`, `NshLimits` and `NshBreak`; `NshText.FixedExactly` says which commands those are.
- NshParser.Parser.Expand: takes the backquoted commands from the specification of a word, which `NshExpand.ArgExpand` computes in place, rather than scanning the buffer once more.
- NshParser.Parser.Script: runs a given number of rounds, since a script may loop for ever; an empty script returns the initial error status as in the code.
- PcmDecoder.Decoder.EnqueueBuffer: requires that a partial frame left over from an earlier stream is smaller than a frame of the new one, since the code subtracts the two as unsigned numbers.
- DdCopy.CopyDisk: requires that the offsets which are read stay below 2^32, which `DdDisk.DisksExactly` shows to be exactly when the right bytes are read; where a write to the target ends up beyond that is not modelled. It treats a failed block write as leaving the device unchanged.
- Hexdump.Hexdump: positions are unbounded, where `off_t` may have 32 bits, and a heading is its address rather than the printed text, which a long file name can cut short.
- BinfmtPath.Binary.LoadModule: formats answer zero or a negated error number, as documented, and do not change the load structure other than through the recorded unload operation.
- Nested `sh`, background commands, `nice`, redirection and the consoles. The arguments of a command reach the interpreter as they stand, after the backquoted commands in them have run, so that redirection and the values of its arguments are part of what the interpreter makes of them and of the commands run before.
- Failing `ftell` and `fseek`; allocation failure outside of `exec`.
- WAV header parsing: the header's verdict and frame size are parameters.
- Stacks, task control blocks and address environments inside `exec_module`, mapped and allocated program memory, the ELF and NXFLAT formats, constructors and destructors.
- Option parsing of `dd` and `hexdump`, opening and closing of files, the palette and file output of the bitmap converter.
- Modbus, the audio upper half, network, telnet, USB, mount and listing commands: thin wrappers or parts that depend on code outside of this tree's core.
