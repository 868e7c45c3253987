# A verified model of the simple regular expression engine

`include/regexp.h` holds a complete regular expression engine: `compile` turns the text of
a pattern into byte code, `advance` is a recursive backtracking matcher over that code, and
`step` searches a subject for the leftmost start. This project models all three in Dafny,
with the globals they share, and proves what they compute. Two smaller pieces of pure
arithmetic are modelled beside it: the walk over XTI option buffers in `include/xti.h` and
the packed type word of COFF symbols in `include/syms.h`.

## How the model is organised

Pointers are indices, characters are bytes 0..255, and the subject is a string without NUL
whose terminator is read through `At`. Reading the subject anywhere beyond the terminator
is a precondition failure, so every verified method reads at or before it. The position can
get one past the terminator, by a NUL literal at the end of the program.

- `Pattern` is the abstract syntax. A compiled expression is a flat list of items (a head
  with its `*` and interval modifiers), and every text that the compiler accepts denotes
  one, including those that the matcher cannot execute. `InFragment` names the lists that
  the matching theorems are about: at most one interval per item, on a character atom; no
  NUL literal; and references only to groups that have closed. One NUL literal at the end
  is allowed beside it: the engine's methods take it as the item `$` that consumes the
  terminator (`Code.Coded`).
- `Code` describes encodings by what the bytes say, so that the compiler, which patches
  bytes in place, and the matcher, which reads them, are related to the same notion.
- `Syntax` says which items a text denotes and which error number it is rejected with.
  `BracketCode` and `Compiler` are the imperative compiler, proved to write exactly the
  encoding of that reading. `Overrun` and `Spills` say which texts make it write at `endbuf`.
  `Grammar` says independently of the reader which texts are patterns and what they
  denote, token by token, on top of `Spelling` (bracket lists and intervals), and `Faults`
  where and how all others go wrong; the reader is proved to agree with both. `Writing`
  writes a list of items down, `Denotable` says which lists are patterns, and `Groups` is
  about what the compiler guarantees of groups.
- `Semantics` is the declarative match relation. A match is a vector of counts, one for
  each item, that can be replayed from a start with captures threaded through; of two
  vectors the greedier one is the lexicographically greater. `Search` is a backtracking
  search in which every path owns its captures; `Exec` passes the shared capture arrays
  along as the C code does. `Matching` and `Hanging` state the results about the whole, and
  `Language` restates them about positions in the subject, without counts or searches.
- `Regexp` is the engine as a class with the C globals as fields. `EndToEnd` compiles and
  searches in one go. `Witnesses` gives the inputs on which expected properties fail.

The chain of proofs runs: `Engine.Advance` leaves exactly the state of `Exec.Run`, which
corresponds to `Search.Find`, which returns the greediest replay of `Semantics.Replay`,
which goes along the greatest way through the pattern (`Language.Greatest`).

The endless loop of a starred reference to an empty capture is part of the model: where
the code would not return, `Advance` answers `Stuck` and a replay ends in `Hang`. The
theorem `Hanging.ReturnsIffHangFree` says exactly which patterns are free of it.

Expected properties that are false of the code, each with an input and an exact condition:

- The test `c >= closed` in the compiler does not tell closed groups from open ones.
  `Witnesses.OpenReferenceIsAccepted` shows `\(\(\)\1\)` being accepted and
  `Witnesses.ClosedReferenceIsRefused` shows `\(\(\)\2\)` being refused.
  `Groups.CounterExactIff` states when counting closed groups is exact, and
  `Groups.FlatCounterExact` that it always is when groups do not nest.
- The matcher does not return on every compiled pattern. `\(a*\)\1*` is accepted
  (`Witnesses.StarredReferenceIsAccepted`) and does not return on the empty subject
  (`Witnesses.EmptyCaptureHangs`). `Regexp.LoopEndsIff` states when the loop ends, and
  `Hanging.ReturnsIffHangFree` which patterns return on every subject.
- The test `ep >= endbuf` does not keep the writes below `endbuf`, since a token can take
  two bytes. `Witnesses.LiteralSpills` shows `a` with one byte of room and
  `Witnesses.BoundSpills` shows `a\{5,3\}` with three. `Spills.SpillIff` states which
  texts write there, `Regexp.Engine.Compile` what they write, and
  `Overrun.SpillingTextIsRefused` that all of them are refused, with error 44, 45, 46 or 50.
- A match can end past the terminator. A backslash at the end of a text escapes the NUL
  that follows it, and the NUL literal matches the terminator and steps past it: the text
  `\` matches every subject there (`Witnesses.DanglingBackslash`,
  `Witnesses.DanglingBackslashMatches`). `Denotable.NulIff` states which texts denote a NUL
  literal, by the parity of the backslashes at their end, `EndToEnd.EndsPastIff` that
  exactly their matches end there, and `Regexp.Engine.Advance` what the matcher leaves: what
  it leaves with `$` in place of the literal, with `loc2` one greater.

The matcher repeats the same three loops for each kind of character atom. The model writes
each loop once, over the test that the opcode performs (`Code.Test`).

## Model

| member | source | states |
|---|---|---|
| `EndToEnd.CompileAndStep` | include/regexp.h:82-574 | for every delimiter, `sed` flag and text whose items are in the fragment, a NUL literal at the end allowed, compiling and searching reports the compiler's error; or, at the first candidate start from which any path gets through, the end and the capture arrays of its greediest path, or that this path never returns; or, when no path gets through anywhere, no match; or that an empty text left no program. Which items a text has, and which error, is stated by `Grammar.AcceptedIff` and `Faults.RejectedIff`; what the paths are, by `Language.RunFindsGreatest` |
| `EndToEnd.SearchFor` | include/regexp.h:82-574 | for every spellable pattern of the fragment and every delimiter that can be quoted or does not occur in the text, writing the pattern down, compiling it up to the delimiter and searching answers with the greatest way through the pattern from the first start that has one, as positions in the subject: its end, and for every group marker its position; or that this way gets stuck; or that there is no way |
| `EndToEnd.CorrectIsLocated` | include/regexp.h:313-574 | every correct answer is so located: the greatest way from the first start that has one, by the text of the subject alone |
| `EndToEnd.AnchoredIsCorrect` | include/regexp.h:325-328 | an anchored search from the beginning answers for position 0 alone, with the outcome of its greediest path |
| `EndToEnd.UnanchoredIsCorrect` | include/regexp.h:330-349 | an unanchored search answers with the greediest path from the least start that lets a path through |
| `EndToEnd.SafeAnswer` | include/regexp.h:313-350 | on a subject where no path hangs, a correct answer is the least start at which the pattern matches, or none exactly when it matches nowhere |
| `EndToEnd.HangFreeAnswer` | include/regexp.h:313-350 | for hang-free patterns that holds on every subject |
| `EndToEnd.EndsInsideIff` | include/regexp.h:374-394 | a match ends at or before the terminator if and only if the pattern does not end in a NUL literal, and with one it ends just past it |
| `EndToEnd.EndsPastIff` | include/regexp.h:374-394 | for an accepted text without NUL: a match ends past the terminator if and only if NUL is the delimiter, no newline ended the text, and the number of backslashes at its end is odd |
| `EndToEnd.MeantInFragment` | include/regexp.h:374-377 | a NUL literal may follow any pattern of the fragment |
| `EndToEnd.CapturesAreNested` | include/regexp.h:419-426 | in every match of every accepted fragment text, every group has a span inside the match, and of any two groups one lies inside the other or one after the other |
| `EndToEnd.AnswersAreNested` | include/regexp.h:419-426 | the capture arrays that compiling and searching leave hold, for every group, a span inside the match, and for any two, spans that nest or follow each other |
| `Regexp.Engine.Compile` | include/regexp.h:82-311 | the buffer ends up holding the program of the items that the text denotes, or the error is the one the reading ends with; `circf`, `nbra` and `nodelim` are set accordingly; a program is all that is written and lies below `endbuf`; on an error nothing is written outside start to `endbuf`, and at `endbuf` exactly what the text spills; the buffer may end at `endbuf` unless the text spills |
| `Grammar.AcceptedIff` | include/regexp.h:104-310 | for every text, delimiter, `sed` flag and room: the text is accepted, as given items up to a given position and with or without a newline at its end, if and only if it is written as allowed tokens that build those items, all groups are closed, the code fits, and it ends there at the delimiter or, without `sed`, at a newline |
| `Grammar.PatternOutcome` | include/regexp.h:104-310 | a text that is written as allowed tokens up to a delimiter or a newline denotes the items the tokens build, or is refused: 50 if the code does not fit, 36 for a newline under `sed`, 42 with a group open |
| `Grammar.TokenReads` | include/regexp.h:120-310 | every allowed token is read as what it adds to the items: bare and quoted characters, `$` at the end and elsewhere, `*` with and without something to repeat, bracket lists, groups, references and intervals |
| `Grammar.TokenIsSpelled` | include/regexp.h:120-310 | conversely, whatever the reader takes in one turn is the text of an allowed token |
| `Grammar.EndIsThere` | include/regexp.h:126-146 | an accepted text ended at a newline, which is left unread, or just after the delimiter |
| `Faults.RejectedIff` | include/regexp.h:104-301 | for every text and every number: the text is refused with that error if and only if it is empty without a program to keep and the number is 41, or it begins with allowed tokens and then goes wrong in the way that has this number: 50 no room, 42 groups, 36 newlines, 43 a tenth group, 25 references, 49 lists, 11, 16, 44, 45 and 46 intervals |
| `Faults.UnchangedIff` | include/regexp.h:104-112 | an empty text keeps the program exactly when there is one or under `sed`, and where it ended |
| `Faults.IntervalFaults` | include/regexp.h:254-283 | an interval is refused exactly when a number is broken off (16), is 255 or more (11), a second comma follows (44), the brace is missing (45) or the bounds are out of order (46) |
| `Faults.ListFaults` | include/regexp.h:174-207 | a bracket list is refused exactly when after some elements NUL or a newline follows (49) or a byte above 127 without room (50) |
| `Compiler.Loop` | include/regexp.h:120-310 | the main loop returns for every text, leaves the encoding of everything read and writes at `endbuf` exactly what the rest of the text spills; its measure is the remaining text, then the remaining code space |
| `Compiler.TurnOf` | include/regexp.h:120-310 | one turn leaves the meaning of the whole text unchanged, writes only below the new end of the code, and consumes text, or once the text is used up, code space |
| `Compiler.Token` | include/regexp.h:121-146 | one turn is the reader's next step: errors 50, 42 and 36, the end of the pattern at the delimiter or a newline, or one more token |
| `Compiler.Character` | include/regexp.h:134-159 | `.`, `$` at the end or elsewhere, `*`, `[`, a backslash and ordinary characters lead to the reader's state, represented in buffer and bracket stack; `Grammar.TokenReads` states for every delimiter what that state is |
| `Compiler.Asterisk` | include/regexp.h:147-152 | `*` stars the last item, or is a literal at the beginning and after a group marker |
| `Compiler.PatchStar` | include/regexp.h:151-152 | patching the opcode through `lastep` leaves exactly the program with its last item starred |
| `Compiler.PatchRange` | include/regexp.h:250-284 | patching the opcode and appending two bytes leaves exactly the program with the interval added to the last item, or the interval's error |
| `Compiler.Bounds` | include/regexp.h:254-283 | reading one or two bounds, with the single jump back to `nlim`, gives the interval in two bytes or error 11, 16, 44, 45 or 46; the second byte is written exactly when reading gets to it |
| `Compiler.Digits` | include/regexp.h:256-263 | the digit loop reads one bound up to the backslash or comma, or fails on any other character |
| `Compiler.Escape` | include/regexp.h:231-301 | the character after a backslash selects group begin, group end, interval, reference or literal as the reader does |
| `Compiler.Escaped` | include/regexp.h:286-301 | a reference is accepted exactly when its number is below the count of ended groups; a newline is error 36; `n` is a newline |
| `Compiler.OpenGroup` | include/regexp.h:234-240 | the tenth group is error 43; otherwise the new group's number is emitted and pushed |
| `Compiler.CloseGroup` | include/regexp.h:242-248 | without an open group error 42; otherwise the innermost open group's number is emitted and popped |
| `Compiler.Bracketed` | include/regexp.h:160-229 | a bracket expression becomes one item with the denoted set, or error 49 or 50 |
| `Compiler.Finished` | include/regexp.h:126-131 | the terminator completes a program for the items read, and open groups are error 42 |
| `Compiler.Put` | include/regexp.h:304-308 | an item without a bitmap is appended and becomes the one that `lastep` points to |
| `Compiler.StarPatch` | include/regexp.h:151-152 | or-ing STAR into the opcode byte makes the starred encoding, and is absorbed after an interval |
| `Compiler.RangePatch` | include/regexp.h:253-281 | or-ing RNGE into the opcode byte and appending the bounds makes the encoding with one more interval |
| `Compiler.MarkerOpcode` | include/regexp.h:148-149 | comparing the last opcode byte with CBRA and CKET recognises unpatched group markers and nothing else |
| `Compiler.TurnSpills` | include/regexp.h:120-310 | what a turn leaves at index `endbuf` is what its token spills |
| `Overrun.TokenSpillsIff` | include/regexp.h:121-122 | a token writes at `endbuf` if and only if one byte is left and it takes two, or it is an interval whose second byte is reached |
| `Spills.SpillIff` | include/regexp.h:120-310 | a text writes byte `b` at `endbuf` if and only if it begins with allowed tokens that leave one byte and goes on with a token of two bytes, the second of which is `b`, or with an interval whose second byte, `b`, is reached |
| `Spills.SecondByteIff` | include/regexp.h:254-281 | the second byte of an interval is reached exactly after one number and its brace, after `m,` and a backslash, or after two numbers, and is then that number, 255, or the second number |
| `Overrun.SpillingTextIsRefused` | include/regexp.h:120-310 | every text that writes at `endbuf` is refused, with error 44, 45, 46 or 50 |
| `Overrun.TokenGrows` | include/regexp.h:161-199 | tokens never take code back, and exceed the room only from its last byte and by one byte |
| `Witnesses.LiteralSpills` | include/regexp.h:304-308 | `a` with one byte of room is written at `endbuf` before error 50 |
| `Witnesses.BoundSpills` | include/regexp.h:266-283 | `a\{5,3\}` with three bytes of room writes its second bound at `endbuf` before error 46 |
| `BracketCode.BracketExpr` | include/regexp.h:160-229 | the whole bracket case writes one encoded item for the negation flag and the set that the list denotes, narrow or wide, within the buffer |
| `BracketCode.List` | include/regexp.h:174-207 | the loop over the list leaves a bitmap that holds exactly the members read, switching to 32 bytes at the first member above 127 |
| `BracketCode.Widen` | include/regexp.h:179-186 | widening keeps the set and fails exactly when 32 bytes do not fit |
| `BracketCode.PlaceRange` | include/regexp.h:200-203 | after the range loop the bitmap has the bit of `c` if and only if it had it before or `lo <= c < hi` |
| `BracketCode.Place` | include/regexp.h:58-58 | PLACE adds one byte to the set and changes no other membership |
| `BracketCode.Negate` | include/regexp.h:214-225 | negation complements the wide map except for NUL, or selects NCCL with the NUL bit set |
| `Bits.PlacedBits` | include/regexp.h:58-72 | or-ing a `bittab` entry sets that bit and keeps the other seven |
| `Bits.IsThereIsBit` | include/regexp.h:59-72 | ISTHERE reads bit `c & 7` of byte `c >> 3` |
| `Code.EmittedIsProgram` | include/regexp.h:126-131 | items emitted one after the other and a terminator are a program, by a proof that relates appending at the end to reading from the front |
| `Code.OpcodeValue` | include/regexp.h:42-54 | the flags of an executable item never overlap its base opcode |
| `Code.EncodedAs` | include/regexp.h:42-54 | the bytes of every executable item that is not a bracket expression, as numbers: opcode plus 1 or 3, operand, bounds |
| `Code.BracketEncodedAs` | include/regexp.h:42-72 | the bytes of a bracket expression: opcode 12, 40 or 16 plus 1 or 3, the bitmap bit by bit, the bounds |
| `Code.PassesIsAccepts` | include/regexp.h:397-417 | whichever of CCL, NCCL and CXCL encodes a bracket, the matcher's test accepts a byte exactly when it is not NUL and membership differs from negation; likewise for literals and dot, except that a NUL literal passes the terminator |
| `Code.MissesIsNotPasses` | include/regexp.h:432-495 | the tests of the interval loops, written the other way round, fail exactly where the plain and starred tests pass |
| `Code.NulProgramIsCoded` | include/regexp.h:374-377 | a program that ends in a NUL literal is read by the matcher as one that ends in `$` |
| `Syntax.TokenProgress` | include/regexp.h:120-310 | every token consumes text, or after its end, code space; hence the compiler returns |
| `Writing.SpelledIsRead` | include/regexp.h:104-310 | for every list of items with sound modifiers, balanced groups and counted references, and every delimiter that can be quoted or does not occur in the spelling, writing the list down with the delimiter after it and reading the text gives back the items, the anchor and the number of groups, `$` at the end included |
| `Writing.SpelledReads` | include/regexp.h:104-310 | the same for any text that begins with the spelling and ends after it, with a newline as well, and with error 50 when the code does not fit |
| `Writing.DanglingIsRead` | include/regexp.h:231-308 | a spelling without a dollar and a backslash after it are read as the pattern and a NUL literal |
| `Spelling.ListReads` | include/regexp.h:174-207 | a list of characters and ranges, ranges that go on from a range included, denotes the union of its elements and is wide exactly when an element reaches above 127 |
| `Spelling.ListIsSpelled` | include/regexp.h:174-207 | conversely, every list that is read, from whatever text, is the spelling of elements with that union and width |
| `Spelling.DenoteIff` | include/regexp.h:194-207 | a byte is in the union if and only if it is written as an element, is the end of a range, or lies between the ends of a range, ends included |
| `Spelling.BoundsRead` | include/regexp.h:254-283 | each of the three ways to write bounds, one number, a lower bound and two numbers, with any digits, reads back as the interval of their values |
| `Spelling.IntervalIsSpelled` | include/regexp.h:254-283 | conversely, every interval that is read is written in one of the three ways |
| `Denotable.AcceptedIsSpellable` | include/regexp.h:104-310 | the list that an accepted text without NUL denotes can be written down, and has a spelling without a backslash at its end if and only if the text does not end in a dangling backslash |
| `Denotable.DenotableIff` | include/regexp.h:104-310 | a list is denoted by some text without NUL if and only if it can be written down, or can be without a dollar and is followed by one NUL literal; its code fits; and it is anchored or not empty |
| `Denotable.NulIff` | include/regexp.h:231-308 | an accepted text without NUL denotes a NUL literal if and only if NUL is the delimiter, no newline ended the text, and the number of backslashes at its end is odd; the literal is then the last item |
| `Witnesses.DanglingBackslash` | include/regexp.h:231-308 | a backslash at the end of the text is compiled to a NUL literal |
| `Witnesses.DanglingBackslashMatches` | include/regexp.h:374-394 | the text `\` matches every subject at its terminator and ends one past it |
| `Groups.AcceptedIsBalanced` | include/regexp.h:128-129 | every accepted text has at most nine groups, each begun once and ended once after that, properly nested, and sound items if it has no NUL; and it is in the fragment exactly when its items are supported and its references name closed groups |
| `Groups.ReachedIsTidy` | include/regexp.h:120-310 | every state that the reader reaches from the beginning of a text has the bracket stack, the counters and the items that the lemmas about the counter ask for |
| `Groups.AfterIsBalanced` | include/regexp.h:234-248 | a bracket stack that comes out empty means one begin and one later end for every group number below the count |
| `Groups.NestsOrFollows` | include/regexp.h:234-248 | of two groups, the one begun first ends before the other begins or after it ends |
| `Groups.ScopedIffRefsClosed` | include/regexp.h:293-300 | with balanced groups, the scope that the matcher relies on is equivalent to references naming closed groups |
| `Groups.CounterExactIff` | include/regexp.h:293-300 | in every reachable state, comparing with the count of ended groups tells closed groups from others if and only if no group is open or the outermost open one is not below the count |
| `Groups.FlatCounterExact` | include/regexp.h:242-300 | when groups do not nest, in every reachable state the test lets a reference through if and only if its group has closed |
| `Groups.FlatRefsAreClosed` | include/regexp.h:242-300 | when groups do not nest, every accepted reference names a group that has closed |
| `Witnesses.OpenReferenceIsAccepted` | include/regexp.h:293-300 | a reference to the group it stands in is accepted |
| `Witnesses.ClosedReferenceIsRefused` | include/regexp.h:293-300 | a reference to a closed group is refused with error 25 while the group around both is open |
| `Regexp.Engine.Advance` | include/regexp.h:352-574 | the matcher returns the verdict of the run over the denoted items, and leaves `loc2` and both capture arrays as that run leaves them; with a NUL literal at the end of the program, as the run with `$` in its place leaves them, with `loc2` one greater |
| `Regexp.Engine.GoRound` | include/regexp.h:370-426 | an opcode that goes round the loop leaves the matcher before the rest of the program with the same result to come, or past the terminator before its end, or fails as the run fails |
| `Regexp.Engine.MatchOne` | include/regexp.h:374-426 | the cases that consume one opcode move on by the item's only count or fail, and store captures |
| `Regexp.Engine.MatchBack` | include/regexp.h:502-510 | a reference moves past a copy of what the path captured, or fails |
| `Regexp.Engine.MatchChar` | include/regexp.h:374-417 | a single character test passes exactly when the atom accepts the next byte; only a NUL literal passes, and consumes, the terminator |
| `Regexp.Engine.Spread` | include/regexp.h:429-561 | every repeated character atom reaches `star:` with `lp` one past the highest position to try and `curlp` at the lowest, or fails for want of the minimum |
| `Regexp.Engine.Repeat` | include/regexp.h:429-499 | the interval loops fail below the lower bound and else stop one past the smaller of the maximal run and the upper bound, which is 20000 above the lower one for an open interval |
| `Regexp.Engine.More` | include/regexp.h:436-440 | the second loop with its final correction leaves `lp` one past the smaller of the slack and the run |
| `Regexp.Sweep` | include/regexp.h:528-560 | a starred loop stops one past the maximal run of accepted bytes |
| `Regexp.Engine.GetRange` | include/regexp.h:576-586 | `low` is the lower bound; `size` is 20000 if the upper byte is 255, and else what is missing from `low` to the upper bound |
| `Regexp.Engine.Star` | include/regexp.h:563-570 | the shared loop tries the positions from `lp - 1` down to `curlp`, stops above `locs`, and leaves what the descent over the rest of the program leaves |
| `Regexp.Engine.Try` | include/regexp.h:567-568 | one attempt succeeds for the whole descent or leaves the descent below it, with the arrays still agreeing with the path |
| `Regexp.Engine.StarRef` | include/regexp.h:513-525 | a starred reference tries as many copies of the capture as there are, then fewer; with an empty capture it is stuck |
| `Regexp.Engine.Fewer` | include/regexp.h:520-525 | the second loop tries every number of copies from the most down to none |
| `Regexp.Engine.CopiesOf` | include/regexp.h:517-518 | the comparison loop ends exactly when the capture is not empty, past the maximal number of copies |
| `Regexp.LoopEndsIff` | include/regexp.h:517-518 | counted turn by turn, the loop ends if and only if the capture is not empty, and else stays where it is for ever |
| `Regexp.SamePrefixIsCopy` | include/regexp.h:60-60 | comparing with a capture stops at the terminator and decides whether the captured text follows |
| `Regexp.ItemDecides` | include/regexp.h:374-561 | the test at an item's operand, in both of its forms, decides acceptance by the item's atom for every byte |
| `Regexp.Engine.Step` | include/regexp.h:313-350 | the verdict, `loc1`, `loc2` and the capture arrays are those of the plain scan from the left, or of one run when anchored, from every position, with the same allowance for a NUL literal |
| `Regexp.Engine.Regular` | include/regexp.h:342-349 | the plain loop tries every start up to the terminator's position |
| `Regexp.Engine.FirstChar` | include/regexp.h:329-341 | the loop that checks the first character leaves the same verdict, `loc1`, `loc2` and arrays as the plain loop |
| `Regexp.WrongFirstChar` | include/regexp.h:332-334 | a start whose byte is not the leading literal, NUL included, fails and writes nothing |
| `Search.FindIsGreedy` | include/regexp.h:429-570 | the search returns the outcome of the lexicographically greatest vector of counts that can be replayed, and fails exactly when none can |
| `Search.ChoicesExact` | include/regexp.h:374-561 | the counts that the code tries for an item are exactly those that the declaration admits at that position; `Language.PieceLeads` states these about the text |
| `Search.RunIsMaximal` | include/regexp.h:528-560 | `n` accepted bytes follow if and only if `n` is at most the length of the run |
| `Search.CopyRunIsMaximal` | include/regexp.h:517-518 | `n` copies follow if and only if `n` is at most the number of copies the loop counts |
| `Search.EndlessIff` | include/regexp.h:517-518 | there is no highest number of copies if and only if the capture is empty |
| `Exec.RunRefinesFind` | include/regexp.h:419-570 | captures need no restoring: the run over shared arrays answers as the search that gives every path its own captures, and on success leaves that path's captures |
| `Exec.ReferencesReadThePath` | include/regexp.h:502-516 | when a reference executes, the arrays hold the span recorded on the current path |
| `Exec.StepKeepsScope` | include/regexp.h:419-426 | each step keeps that the arrays agree with the path and that the rest uses only what the path recorded |
| `Matching.RunIsGreedy` | include/regexp.h:352-574 | the matcher answers no exactly when no counts can be replayed, and otherwise reports end and captures of the greediest replay, whatever the arrays held before |
| `Matching.InitialArraysDoNotMatter` | include/regexp.h:62-63 | two runs from different array contents agree on verdict and `loc2` |
| `Matching.RunDecidesMatching` | include/regexp.h:352-574 | the matcher says no exactly when no path gets through and yes only if the pattern matches; where no path hangs it returns, and says yes exactly when the pattern matches there |
| `Matching.NoReplayHangs` | include/regexp.h:513-518 | no path of a hang-free pattern reaches a starred reference with an empty capture |
| `Matching.ScanIsLeftmost` | include/regexp.h:342-349 | the scan stops at the first start where a path gets through and reports what the matcher reports there; if it says no, `loc1` and `loc2` are as before |
| `Matching.ScanFindsLeastMatch` | include/regexp.h:342-349 | where no path hangs, a start is found exactly when one up to the terminator's position matches, and it is the least |
| `Matching.AnchoredIsGreedy` | include/regexp.h:325-328 | an anchored search from any position sets `loc1` to it, says no exactly when no path from there gets through, and else reports the greediest one |
| `Matching.MatchEndsInside` | include/regexp.h:374-570 | every match of a fragment pattern ends at or before the terminator, and at it if the pattern ends in `$` |
| `Matching.CapturesFollowPattern` | include/regexp.h:419-426 | recorded positions stand in the order of their markers in the pattern, inside the match |
| `Matching.GroupSpan` | include/regexp.h:419-426 | a group's recorded start and end are the positions at its two markers |
| `Matching.SpansNestAsGroups` | include/regexp.h:419-426 | nested groups capture nested spans and successive groups successive spans |
| `Matching.LocsOutside` | include/regexp.h:565-566 | with `locs` outside the subject, repetition is limited by bounds and text alone |
| `Language.RunFindsGreatest` | include/regexp.h:352-574 | the matcher says no exactly when there is no list of positions such that the text between each two is what the item between them stands for; else it reports the lexicographically greatest such list, `loc2` at its end and every group's ends at the positions of its markers, or that it gets stuck |
| `Language.PieceLeads` | include/regexp.h:374-561 | an item can be taken from one position to another exactly when the text between fits: bytes that fit, as many as the interval or star allows; for a reference the text between its group's markers, or a power of it; for `$` nothing, at the terminator; with `locs`, no stop from which the run could have gone on to it |
| `Language.IntervalAdmits` | include/regexp.h:429-499 | a closed interval admits a count if and only if it lies between the bounds and the bytes are accepted; an open one up to 20000 above the lower bound |
| `Language.CopiesArePower` | include/regexp.h:502-525 | `n` copies of a capture follow if and only if the text there is its `n`-th power |
| `Language.SameOrder` | include/regexp.h:563-570 | counts and positions determine each other, and in the same lexicographic order |
| `Language.QuietIff` | include/regexp.h:352-574 | no path gets through if and only if there is no way |
| `Hanging.ReturnsIffHangFree` | include/regexp.h:513-525 | a fragment pattern returns on every subject and start if and only if every starred reference, up to an atom that must match and accepts no byte, names a group that is sure to be non-empty |
| `Hanging.SearchReturnsIff` | include/regexp.h:313-350 | the same condition decides whether the search returns on every subject, from every position, anchored or not |
| `Hanging.HangsOn` | include/regexp.h:513-525 | for every other fragment pattern a subject is constructed on which the matcher does not return |
| `Hanging.NoPathMatches` | include/regexp.h:513-525 | on that subject no other path succeeds first |
| `Witnesses.StarredReferenceIsAccepted` | include/regexp.h:231-300 | `\(a*\)\1*` is accepted |
| `Witnesses.EmptyCaptureHangs` | include/regexp.h:513-518 | a starred reference to a group that captured nothing does not return |
| `OptionWalk.AlignRoundsUp` | include/xti.h:425-427 | the mask expression rounds up to the least multiple of the alignment |
| `OptionWalk.HeaderLayout` | include/xti.h:296-301 | with four-byte scalars a header is sixteen bytes: length, level, name and status at 0, 4, 8 and 12, each least significant byte first |
| `OptionWalk.DataIsAligned` | include/xti.h:452-453 | data begin at the least multiple of four past the header |
| `OptionWalk.VisitsStayInside` | include/xti.h:448-461 | every header that the walk visits is aligned and lies wholly inside the buffer |
| `OptionWalk.NextIsBeyond` | include/xti.h:455-459 | the next header is past the current one exactly when the length is not zero, and clear of it exactly when the length reaches into the header's last scalar |
| `OptionWalk.VisitsAreDisjoint` | include/xti.h:448-461 | with every length at least a header, visited headers strictly increase and never overlap |
| `OptionWalk.EndsIffNoZeroLength` | include/xti.h:455-461 | the walk ends if and only if it meets no header of length zero |
| `OptionWalk.PlacedReads` | include/xti.h:452-453 | options packed as bytes one after the other read back, header and data, at their places |
| `OptionWalk.WalkReadsPacked` | include/xti.h:448-461 | walking the bytes packed from any list of options whose values fit in scalars visits exactly those options in order and then ends |
| `TypeWord.DecRefUndoesIncRef` | include/syms.h:155-157 | DECREF undoes INCREF on every word, and INCREF keeps the basic type and makes a pointer |
| `TypeWord.DecRefKeepsBase` | include/syms.h:157-157 | DECREF keeps the basic type |
| `TypeWord.MovesRefine` | include/syms.h:155-157 | every sequence of INCREF and DECREF does to the word what pushes and pops do to the stack of derivations |
| `TypeWord.IncRefValue` | include/syms.h:155-155 | INCREF moves the bits above the base up by two and puts 1 in bits 4 and 5, on every word |
| `TypeWord.DecRefValue` | include/syms.h:157-157 | DECREF drops bits 4 and 5 and moves the bits above them down by two, on every word |
| `TypeWord.TestsReadDigit` | include/syms.h:116-149 | of every word, ISPTR, ISFCN and ISARY hold exactly when bits 4 and 5 make 1, 2 and 3, and BTYPE is the remainder by 16 |
| `TypeWord.TestsReadTop` | include/syms.h:137-149 | BTYPE reads the base, and ISPTR, ISFCN and ISARY recognise the outermost derivation |
| `TypeWord.DigitsDiffer` | include/syms.h:124-129 | different stacks of derivations have different words |
| `TypeWord.SixDerivationsFit` | include/syms.h:124-129 | a word fits in sixteen bits if and only if it has at most six derivations |
| `TypeWord.StoredIncRefUndone` | include/syms.h:155-157 | INCREF stored in a sixteen-bit field is undone by DECREF if and only if the top two bits were free |

## Left out

- The bodies of INIT, GETC, PEEKC, UNGETC, RETURN and ERROR, which each program supplies: the text is a sequence of bytes 0..255 that reads as NUL for ever past its end, RETURN and ERROR end the run with a result.
- The matcher on lists outside `InFragment`: the switch in `advance` has no case for an interval on a group marker or a reference, and a second interval is read as opcodes. The compiler is modelled on all of them.
- A reference to a group that is still open: accepted by the compiler and modelled there, outside the fragment in the matcher.
- A NUL literal that is repeated or not the last item, which only a text with a NUL inside and another delimiter denotes: the matcher would go on to read behind the terminator.
- What the buffer below `endbuf` and the globals hold after an error.
- Regexp.Engine.StarRef: a loop that never ends has no Dafny counterpart, so the model returns `Stuck` there; `Regexp.LoopEndsIff` is about the loop itself.
- Overflow of the C `int` that accumulates an interval bound: bounds are unbounded integers until the comparison with 255.
- `locs` inside the subject: covered by the exact theorems about `Advance`, `Star` and greediness; the match relation of `EndToEnd` and `Hanging` takes it as absent.
- Longest match: the code promises the greedy order, not the longest match overall.
- Address wrap-around in the option walk: addresses are natural numbers.
- The size of `t_scalar_t` is a parameter: four bytes by `include/sys/types.h`, 2^k bytes here for any k, with k at least 2 where data are read back.
- Byte order in option headers: least significant byte first.
- ISTAG in `include/syms.h` and the older option macros in `include/xti.h`: one comparison each.
- Headers that only declare functions, constants or structures; and the macros of `thread_db.h`, `arpa/nameser.h`, `audio/au.h`, `widec.h` and `deflt.h`, which are single expressions.
- The name service switch and stdio's unlocked macros: their engines are not in the repository.
