# Verified models of the algorithms shipped with the backend

The backend ships pure-Python code under `backend/.pydeps` that does the real work behind its wiring.  This project
models five pieces of it in Dafny and proves what they promise:

- **`ecdsa/_rwlock.py`** — a readers/writers lock in which writers come first, built from three plain locks and two light
  switches.  `RWLockProtocol` is a step system over any number of threads and any interleaving, one step for each lock
  operation or counter update; `RWLock` has the lock objects themselves, whose methods are shown to be one thread's
  stretch of that system.
- **`dotenv/parser.py`, `dotenv/main.py`, `dotenv/variables.py`** — the .env parser with its error recovery
  (`DotenvGrammar`, `DotenvBacktracking`, `DotenvReader`, `DotenvParser`, `DotenvBindings`), what the parser makes of a
  text said character by character (`DotenvLines`, `DotenvDoubleQuotes`, `DotenvRecovery`), the editor that sets or unsets
  one key (`DotenvLocality`, `DotenvRewriting`, `DotenvStream`, `DotenvWriting`, `DotenvEditing`, `DotenvTheorems`,
  `DotenvLimits`, `DotenvKeys`), and the interpolation of variables (`DotenvVariables`, `DotenvResolve`).
- **`click/parser.py`** — the distribution of words to positional arguments (`ClickUnpack`), the option machine
  (`ClickModel`), what is left over (`ClickLeftovers`), what a `--` protects (`ClickDashes`), command lines that are
  written and read back (`ClickRoundTrip`), the parser with its mutable state (`ClickParser`), what the arguments get of a
  command line's words (`ClickArguments`), and what flags, clusters and unknown options come to (`ClickOptions`).
- **`ecdsa/_sha3.py`** — SHAKE-256 on lists of Python integers.  `Fips202` states the algorithms of the standard on bits;
  `PythonInts` has Python's unbounded bit operations, `~` included; `Sha3Transform`, `RoundConstants` and `Sha3` prove
  that the word-level, in-place code is the standard.
- **`aiosqlite/core.py`** — coroutines on an event loop and one worker thread that share a queue and a stop sentinel
  (`AiosqliteProtocol`), and the connection object whose methods are the steps of that system (`AiosqliteConnection`).

`DivMod` and `Options` hold small helpers.  `dafny verify dfyconfig.toml` checks everything.

## How to read it

Code that changes state is a method or a class, proved against a function of the old state; what the source promises is
then proved about that function.  Some specification functions take the code they rest on as a parameter — a parser
`p` with `IsParse(p)`, a handler `h` with `IsHandler(h, c)`, a permutation `f` with `IsKeccak(f)`.  The parameter can
always be the modelled code itself (`Parse`, `HandlerOf(c)`, `KeccakF`); keeping it a variable keeps proofs small and
says which facts about that code a theorem needs.

A .env text is *tidy* when no binding in it is an error and no quoted value is closed by a quote with a backslash before
it (which happens only where the text has no other quote left to close it).  Texts without backslashes and without errors
are tidy.

Where comments and code of the source disagree, the code is followed:

- `click/parser.py:370-373` says that a value put back in front of the remaining words is always consumed.
  `ClickLeftovers.ConsumedIff` shows that it is, for every value and all words behind it, exactly if the option takes a
  word at least and must have it.  An option that takes one word and may omit it leaves a value that looks like an option
  (`ClickLeftovers.OneWordIsConsumedIff`), one that takes several and may omit them leaves a value with too few words
  behind it, and one that takes none leaves every value.  `ClickModel.ProcessOptsShrinks` shows that the loop ends all the
  same, and `ClickLeftovers.LeavesOnlyWordsIff` for which options no such value is left over in the end.
- `dotenv/parser.py:30` lists `\r\n` among the ends of a line after an error, but the alternative `\r` before it always
  wins, so the `\n` stays for the next binding and is counted again.  `DotenvParser.LineNumbers` says exactly when the line
  of a binding is right, `DotenvParser.LineTooFar` shows a text where it is not.
- `dotenv/main.py:214-243` escapes single quotes but not backslashes, and writes values bare in the mode `never`, so not
  every value survives; `DotenvLimits.SetIffSuits` says exactly which do, in each mode.  It writes the key without the
  quotes that the parser allows, so not every key that is read can be set; `DotenvKeys.SetIffWellFormedKey` says which can.

## Model

| member | source | states |
|---|---|---|
| RWLockProtocol.StepInv | backend/.pydeps/ecdsa/_rwlock.py:47-86 | every lock operation or counter update, by any thread in any state, keeps each lock's and each counter's account with the threads that hold or are counted in it, including locks that one thread takes and another gives back |
| RWLockProtocol.ExecutionInv | backend/.pydeps/ecdsa/_rwlock.py:36-86 | that account balances in every state that any interleaving of any number of threads reaches |
| RWLockProtocol.MutualExclusion | backend/.pydeps/ecdsa/_rwlock.py:47-63 | while a writer is inside, no other thread is inside as a writer, and no reader is admitted |
| RWLockProtocol.AWriterGetsIn | backend/.pydeps/ecdsa/_rwlock.py:57-59 | a run that ends with a writer inside and a reader that has not begun: the states the other theorems speak of exist |
| RWLockProtocol.OneReaderQueues | backend/.pydeps/ecdsa/_rwlock.py:47-52 | at most one reader at a time is between taking and releasing readers_queue |
| RWLockProtocol.ReleasesAreOfTakenLocks | backend/.pydeps/ecdsa/_rwlock.py:51-86 | no thread ever releases a lock that is free, although group locks change hands |
| RWLockProtocol.NoDeadlock | backend/.pydeps/ecdsa/_rwlock.py:47-86 | in every reachable state with a thread under way, some thread under way can take its next step |
| RWLockProtocol.FirstReaderNeverWaits | backend/.pydeps/ecdsa/_rwlock.py:48-50 | a reader that turns the read switch on while holding no_readers finds no_writers free |
| RWLockProtocol.ReadersDoNotWaitForReaders | backend/.pydeps/ecdsa/_rwlock.py:17-22 | with no writer about, while a reader is on its way in or out, some reader on its way can take its next step, whoever stays inside |
| RWLockProtocol.ReadersComeIn | backend/.pydeps/ecdsa/_rwlock.py:17-22 | so, with no writer about and the readers inside staying there, a bounded number of steps brings every reader that is on its way in inside, and every one on its way out to its end |
| RWLockProtocol.AWriterComesIn | backend/.pydeps/ecdsa/_rwlock.py:17-22 | with nobody else beginning and the writer inside staying there, a bounded number of steps of the others ends with a writer inside, if one was on its way in |
| RWLockProtocol.RunsAreBounded | backend/.pydeps/ecdsa/_rwlock.py:47-86 | threads with finitely many sessions have only so many steps, whatever the schedule |
| RWLockProtocol.MaximalRunsFinish | backend/.pydeps/ecdsa/_rwlock.py:47-86 | a schedule that cannot go on has every session finished, both counters at zero and every lock free |
| RWLockProtocol.WriterPriorityStep | backend/.pydeps/ecdsa/_rwlock.py:57-86 | while writers hold no_readers, no step lets a further reader past it |
| RWLockProtocol.WriterPriority | backend/.pydeps/ecdsa/_rwlock.py:57-86 | over any stretch of a run in which the write switch is on, the set of readers that have passed never gains a member |
| RWLockProtocol.FirstWriterHolds | backend/.pydeps/ecdsa/_rwlock.py:74-79 | the write switch is on from the step in which its first writer takes no_readers |
| RWLocks.LightSwitch.Acquire | backend/.pydeps/ecdsa/_rwlock.py:74-79 | one more is counted, and the lock is taken exactly by the first |
| RWLocks.LightSwitch.Release | backend/.pydeps/ecdsa/_rwlock.py:81-86 | one fewer is counted, and the lock is given back exactly by the last |
| RWLocks.RWLock.ReaderAcquire | backend/.pydeps/ecdsa/_rwlock.py:47-52 | run without waiting, the method is the reader's stretch of the protocol up to being inside |
| RWLocks.RWLock.ReaderRelease | backend/.pydeps/ecdsa/_rwlock.py:54-55 | run without waiting, the method is the reader's stretch back to idle |
| RWLocks.RWLock.WriterAcquire | backend/.pydeps/ecdsa/_rwlock.py:57-59 | run without waiting, the method is the writer's stretch of the protocol up to being inside |
| RWLocks.RWLock.WriterRelease | backend/.pydeps/ecdsa/_rwlock.py:61-63 | run without waiting, the method is the writer's stretch back to idle |
| PythonInts.BitwiseBit | backend/.pydeps/ecdsa/_sha3.py:112-139 | Python's bitwise and, or and exclusive or on unbounded integers, negative ones too, act on each bit of the two's complement |
| PythonInts.NotBit | backend/.pydeps/ecdsa/_sha3.py:137 | Python's `~` turns every bit, so that it makes a non-negative integer negative |
| PythonInts.AndNotIsWord | backend/.pydeps/ecdsa/_sha3.py:137 | a negative integer made by `~` and masked by a word is a word again |
| Sha3Transform.RolIsRotate | backend/.pydeps/ecdsa/_sha3.py:22-23 | `_rol` rotates the 64 bits of a lane and stays in [0, 2^64) |
| Sha3Transform.ThetaRefines | backend/.pydeps/ecdsa/_sha3.py:108-116 | the column sums and the mixing are theta of section 3.2.1 of FIPS 202, on every state of words |
| Sha3Transform.RotationsFollowWalk | backend/.pydeps/ecdsa/_sha3.py:27-53 | the table of rotations is the walk (t+1)(t+2)/2 of algorithm 2 of FIPS 202 |
| Sha3Transform.RhoRefines | backend/.pydeps/ecdsa/_sha3.py:117-119 | rotating by the table is rho of section 3.2.2 of FIPS 202 |
| Sha3Transform.PermutationIsCycle | backend/.pydeps/ecdsa/_sha3.py:54-79 | the table of places is one cycle through all lanes but the first, each the source of the one before |
| Sha3Transform.PermuteWords | backend/.pydeps/ecdsa/_sha3.py:120-124 | the sequential walk along the table leaves what moving all lanes at once would |
| Sha3Transform.PiRefines | backend/.pydeps/ecdsa/_sha3.py:120-124 | and that is pi of section 3.2.3 of FIPS 202 |
| Sha3Transform.ChiRefines | backend/.pydeps/ecdsa/_sha3.py:125-137 | the rows mixed with `~` and `&` are chi of section 3.2.4 of FIPS 202 |
| Sha3Transform.IotaRefines | backend/.pydeps/ecdsa/_sha3.py:138-139 | adding the listed constant is iota of section 3.2.5 of FIPS 202 |
| RoundConstants.ConstantBit | backend/.pydeps/ecdsa/_sha3.py:80-105 | the listed round constants are those that the shift register of algorithms 5 and 6 of FIPS 202 makes, bit by bit |
| RoundConstants.ConstantIsWord | backend/.pydeps/ecdsa/_sha3.py:80-105 | every round constant is a 64-bit word |
| Sha3Transform.RoundRefines | backend/.pydeps/ecdsa/_sha3.py:107-139 | one turn of the loop is one round of section 3.3 of FIPS 202 and keeps every lane a word |
| Sha3Transform.Transform | backend/.pydeps/ecdsa/_sha3.py:26-139 | the in-place transform is all 24 rounds, and every lane stays in [0, 2^64) |
| Sha3.ReinterpretToWordsAndXor | backend/.pydeps/ecdsa/_sha3.py:142-144 | in place, the octets are added to the lanes as little-endian words |
| Sha3.XorWordsRefines | backend/.pydeps/ecdsa/_sha3.py:142-144 | which is adding the block's bits to the first bits of the state |
| Sha3.ReinterpretToOctets | backend/.pydeps/ecdsa/_sha3.py:147-151 | the lanes are written out as little-endian octets |
| Sha3.OctetsRefine | backend/.pydeps/ecdsa/_sha3.py:147-151 | which are the first bits of the state in order |
| Sha3.LastBlock | backend/.pydeps/ecdsa/_sha3.py:164-169 | the last block is filled to the rate exactly, also where the suffix octet and the final bit share one octet |
| Sha3.PaddingRefines | backend/.pydeps/ecdsa/_sha3.py:164-169 | the padding is the suffix 1111 and pad10*1 of sections 5.1 and 6.2 of FIPS 202 |
| Sha3.PaddedIsStandard | backend/.pydeps/ecdsa/_sha3.py:164-181 | so the padded message is the standard's, for every message |
| Sha3.PaddingIsInvertible | backend/.pydeps/ecdsa/_sha3.py:164-169 | a message is recovered from its padded form, so padding is injective |
| Sha3.AbsorbConcat | backend/.pydeps/ecdsa/_sha3.py:157-172 | absorbing is a left fold over blocks: a block-aligned prefix can be absorbed first |
| Sha3.Sha3Raw | backend/.pydeps/ecdsa/_sha3.py:153-178 | the loops leave and return what the sponge of section 4 of FIPS 202 gives, for any rate, suffix octet and length |
| Sha3.Shake256Octets | backend/.pydeps/ecdsa/_sha3.py:180-181 | the bits of the result are those of SHAKE256 of section 6.2 of FIPS 202 |
| Sha3.ShakeLengthAndPrefix | backend/.pydeps/ecdsa/_sha3.py:173-178 | an output has exactly the requested length and is a prefix of every longer output for the same message |
| DotenvGrammar.SpanIs | backend/.pydeps/dotenv/parser.py:18-31 | what a greedy star over characters matches is the one longest run |
| DotenvGrammar.CharactersAre | backend/.pydeps/dotenv/parser.py:19-30 | white space is these 29 characters; which of them are blanks, and which characters a line, a key and a quoted key are made of |
| DotenvBacktracking.CloseIsFirstMatch | backend/.pydeps/dotenv/parser.py:25-26 | the matcher of quoted values finds what a backtracking engine finds first, trying the alternatives in order |
| DotenvBacktracking.CloseMeans | backend/.pydeps/dotenv/parser.py:25-26 | a value is closed by its first unescaped quote, else by its last escaped one, else not at all |
| DotenvLines.TrimIff | backend/.pydeps/dotenv/parser.py:123-125 | a bare value is its line up to the first white space that has a `#` behind it, without the white space at its end |
| DotenvLines.ParseIff | backend/.pydeps/dotenv/parser.py:142-176 | a call returns a binding exactly if the text says so at this place, character by character: only white space; or a line with its `export`, key or quoted key, `=`, bare or quoted value, comment and break; or a part that is missing or left open, and the end of its line |
| DotenvDoubleQuotes.EncodeRoundTrip | backend/.pydeps/dotenv/parser.py:31-31 | every value is what the table of the ten escapes makes of it, undone |
| DotenvDoubleQuotes.OthersStay | backend/.pydeps/dotenv/parser.py:31-32 | no other character is an escape: it stays, and so does a backslash before it, in quotes of either kind |
| DotenvDoubleQuotes.DoubleLineSays | backend/.pydeps/dotenv/parser.py:105-135 | a key, `=` and any value encoded in double quotes is read as that key and value, whatever lines follow; a value that ends in a backslash needs lines without a double quote |
| DotenvRecovery.SaidBehind | backend/.pydeps/dotenv/parser.py:179-182 | a text says what its first binding says, and then what the rest says as a text of its own |
| DotenvRecovery.ErrorIsByLine | backend/.pydeps/dotenv/parser.py:169-176 | a line without quotes that is an error costs that line alone: every text behind it is read as it would be without it |
| DotenvReader.NewlinesBetween | backend/.pydeps/dotenv/parser.py:60-62 | advancing over a text in two reads counts the line breaks that it has as a whole, unless the second read starts inside a `\r\n` |
| DotenvBindings.NewlinesOfParts | backend/.pydeps/dotenv/parser.py:60-62 | counted in two parts, any text has one line break too many exactly if a `\r\n` is cut between them |
| DotenvReader.Reader.ReadRegex | backend/.pydeps/dotenv/parser.py:97-102 | a match moves the position to its end, a failure leaves it, and the line count stays that of the marked text |
| DotenvParser.ParseKey | backend/.pydeps/dotenv/parser.py:112-120 | the reader finds the key that the grammar finds, none before a comment, and stays where it was on an error |
| DotenvParser.ParseValue | backend/.pydeps/dotenv/parser.py:123-139 | the reader finds the value that the grammar finds, quotes and escapes undone or its comment cut off |
| DotenvParser.ParseLine | backend/.pydeps/dotenv/parser.py:153-168 | a line is read as the grammar reads it; an error leaves the reader where parsing stopped |
| DotenvParser.ParseBinding | backend/.pydeps/dotenv/parser.py:142-176 | no error escapes: every call returns a binding and moves on, with the original text and its line |
| DotenvParser.ParseStream | backend/.pydeps/dotenv/parser.py:179-182 | the loop ends for every text and yields the bindings that the grammar has there |
| DotenvParser.Conservation | backend/.pydeps/dotenv/parser.py:142-182 | for every text, however malformed, the originals are not empty and concatenate to it |
| DotenvParser.LineNumbers | backend/.pydeps/dotenv/parser.py:60-62 | in every text a binding's line is one more than the line breaks before it plus one for every `\r\n` that is cut between bindings before it; it is right exactly if none is cut |
| DotenvParser.LinesWithoutErrors | backend/.pydeps/dotenv/parser.py:142-176 | in every text the line is right for each binding with no error before it |
| DotenvParser.LinesWithoutReturns | backend/.pydeps/dotenv/parser.py:60-62 | in a text without carriage returns it is one more than the line feeds before it |
| DotenvParser.LineTooFar | backend/.pydeps/dotenv/parser.py:30 | a text with an error in front of a `\r\n`: the third binding is on line 3 and is given line 4 |
| DotenvLocality.LineMirror | backend/.pydeps/dotenv/parser.py:153-168 | a line that closes no quote late is scanned the same wherever it stands and whatever follows its end |
| DotenvStream.ParserIsLocal | backend/.pydeps/dotenv/parser.py:142-176 | a tidy binding says the same in any other text that has its characters and ends its line there |
| DotenvStream.BindingMirror | backend/.pydeps/dotenv/parser.py:142-176 | key and value of a tidy binding do not depend on what is around it |
| DotenvStream.LineEndsInLine | backend/.pydeps/dotenv/parser.py:29 | a line never ends with a line break of its own, so only the last one of a text can lack its break |
| DotenvRewriting.RewrittenPairs | backend/.pydeps/dotenv/main.py:230-243 | whatever parser is local: a text with the bindings of one key replaced says what the source said with exactly those pairs replaced |
| DotenvWriting.EscapeRoundTrip | backend/.pydeps/dotenv/main.py:219 | unescaping gives back an escaped value exactly if it has no two backslashes in a row |
| DotenvWriting.ReadBackExactly | backend/.pydeps/dotenv/main.py:218-225 | a quoted value on its line is read back exactly if it has no two backslashes in a row and, if it ends in one, no single quote stands on the lines behind |
| DotenvWriting.ReadBackIffEncodable | backend/.pydeps/dotenv/main.py:218-225 | it is read back whatever lines follow exactly if it has no two backslashes in a row and no backslash at its end |
| DotenvWriting.BareIsValue | backend/.pydeps/dotenv/main.py:220-221 | a value written bare is read back exactly if it is one line without white space around it, does not start with a quote and has no `#` behind white space |
| DotenvWriting.WrittenLineSays | backend/.pydeps/dotenv/main.py:222-225 | for a key that needs no quotes the written line, exported or not, is read as its key and value wherever it is put |
| DotenvEditing.LineOut | backend/.pydeps/dotenv/main.py:214-225 | the line is `export` if asked for, the key, `=`, the value quoted as the mode asks, and a line feed; with a key that needs no quotes it starts with `export` exactly if asked for |
| DotenvEditing.LineStarts | backend/.pydeps/dotenv/main.py:222-225 | whether a key is exported can be seen from how its line starts |
| DotenvEditing.RewriteEdits | backend/.pydeps/dotenv/main.py:233-239 | the rewritten text is the originals of the bindings in order with the line in place of those of the key |
| DotenvEditing.SetKey | backend/.pydeps/dotenv/main.py:211-243 | an unknown mode is an error; otherwise the destination is the originals of the bindings with such a line in place of each one of the key, or, if there is none, with the line appended, behind a line feed if the source lacks one at its end |
| DotenvEditing.UnsetKey | backend/.pydeps/dotenv/main.py:269-286 | the destination is the originals of all bindings but those of the key; the flag tells whether there were any, and without any nothing changes |
| DotenvTheorems.SetThenParse | backend/.pydeps/dotenv/main.py:214-243 | for tidy sources, well-formed keys and values that the mode can carry: read again, the text has the key bound anew everywhere, or appended, all else as before, and is tidy |
| DotenvTheorems.SetThenParsePlain | backend/.pydeps/dotenv/main.py:214-243 | in particular for every source without errors and backslashes and every value without backslashes, in the modes always and auto, exported or not |
| DotenvTheorems.BackslashFreeIsTidy | backend/.pydeps/dotenv/parser.py:142-182 | a text without backslashes that parses without errors is tidy |
| DotenvTheorems.UnsetThenParse | backend/.pydeps/dotenv/main.py:269-286 | read again, a tidy text without a key has the pairs of the source with exactly that key filtered out |
| DotenvTheorems.UnsetAbsentIsIdentity | backend/.pydeps/dotenv/main.py:269-286 | unsetting a key that no binding has leaves every text as it is, malformed ones too |
| DotenvTheorems.EditsAgree | backend/.pydeps/dotenv/main.py:193-286 | through any history of sets and unsets a tidy text says what the same edits make of its list of pairs |
| DotenvLimits.SetIffSuits | backend/.pydeps/dotenv/main.py:214-243 | in each mode, setting a key to a value comes out right in every tidy source exactly if the value suits the mode: quoted, no two backslashes in a row and none at the end; bare, a text that needs no quotes |
| DotenvLimits.SetNewKey | backend/.pydeps/dotenv/main.py:218-243 | a key that is new to a tidy source gets, for every value that is quoted, what unescaping makes of it: the value itself exactly if it has no two backslashes in a row |
| DotenvLimits.BackslashAtEndIsLost | backend/.pydeps/dotenv/main.py:218-243 | for every value that ends in a backslash, a tidy source in which setting it gives the key another value |
| DotenvLimits.BareIsLost | backend/.pydeps/dotenv/main.py:220-225 | a value written bare that needs quotes is read back otherwise, or not at all, even from a text of its own |
| DotenvKeys.WrittenKeyIff | backend/.pydeps/dotenv/main.py:222-225 | the written line is read as its key and value exactly if the key needs no quotes |
| DotenvKeys.SetIffWellFormedKey | backend/.pydeps/dotenv/main.py:222-243 | in each mode, setting a key comes out right for all tidy sources and all values that suit exactly if the key needs no quotes |
| DotenvKeys.QuotedKeyIsLost | backend/.pydeps/dotenv/main.py:222-243 | for every key that is read only in quotes, a tidy source that has it and does not have it any more once it is set |
| DotenvKeys.BlankInKeyIsLost | backend/.pydeps/dotenv/main.py:222-243 | the key `a b` of the text `'a b'=` is such a key |
| DotenvKeys.ReadableIff | backend/.pydeps/dotenv/parser.py:23-24 | a key can be read from some text exactly if it needs no quotes, or is not empty and has no single quote in it |
| DotenvVariables.ParseVariables | backend/.pydeps/dotenv/variables.py:70-86 | the loop over the matches yields maximal literals and exactly the matches of the pattern |
| DotenvVariables.MatchIsPrinted | backend/.pydeps/dotenv/variables.py:5-15 | a match is the printed form of its name and default |
| DotenvVariables.SplitPrints | backend/.pydeps/dotenv/variables.py:70-86 | the atoms print to the value, none is empty text, no two literals touch, and no other list of atoms is such a split |
| DotenvVariables.PrintThenSplit | backend/.pydeps/dotenv/variables.py:70-86 | well-formed atoms without `$` in their literals, printed and split again, come back as they were |
| DotenvResolve.ResolveVariables | backend/.pydeps/dotenv/main.py:289-311 | the loop resolves value after value, each with the earlier ones and the environment in the order that `override` asks for; the names are listed by their places in the dictionary |
| DotenvResolve.NamesInOrder | backend/.pydeps/dotenv/main.py:293-311 | every name is in the dictionary once, in the order in which the names come first |
| DotenvResolve.PlainValueIff | backend/.pydeps/dotenv/main.py:295-307 | exactly the values with no variable in them resolve to themselves in every environment |
| DotenvResolve.LastWins | backend/.pydeps/dotenv/main.py:293-311 | where a key occurs again its last binding counts, resolved with what the bindings before it have come to |
| DotenvResolve.DollarFreeText | backend/.pydeps/dotenv/main.py:75-105 | a text without a `$` resolves to the last value of each key, whatever the environment and whoever comes first |
| DotenvResolve.VariableMeans | backend/.pydeps/dotenv/variables.py:64-67 | which of earlier value, environment and default a variable stands for, and that a key without a value gives the empty text |
| DotenvResolve.BindingResolves | backend/.pydeps/dotenv/main.py:293-309 | one binding more gives its key the concatenation of what the atoms of its value stand for behind the bindings before it, and nothing else changes |
| DotenvResolve.PrintedResolves | backend/.pydeps/dotenv/main.py:293-309 | so for any well-formed atoms written out as a value |
| DotenvResolve.VariableResolves | backend/.pydeps/dotenv/main.py:293-309 | a value `${name}` or `${name:-default}` gives its key the earlier value, the environment's or the default, case by case |
| DotenvResolve.NoValueResolves | backend/.pydeps/dotenv/main.py:296-297 | a binding without a value gives its key none |
| DotenvResolve.GetAfterSet | backend/.pydeps/dotenv/main.py:75-135 | getting a key after setting it to a value without variables gives that value |
| ClickUnpack.UnpackArgs | backend/.pydeps/click/parser.py:51-108 | the two-ended loop comes to left slices, middle and right slices; arguments that take nothing get no slot; a second wildcard is an error |
| ClickUnpack.Conserved | backend/.pydeps/click/parser.py:51-108 | one slot for each argument, and slots and leftovers hold all words in order |
| ClickUnpack.MissingOnlyIfExhausted | backend/.pydeps/click/parser.py:61-106 | a slot lacks a word only if the wildcard gets nothing and nothing is left over |
| ClickUnpack.RegularSpec | backend/.pydeps/click/parser.py:77-99 | these hold for every specification with at most one wildcard, once arguments that take nothing are dropped |
| ClickModel.ProcessOptsShrinks | backend/.pydeps/click/parser.py:323-337 | for every configuration, handling a word leaves less to be read than there was with it, even if a value that was put back stays |
| ClickModel.TakeValueShrinks | backend/.pydeps/click/parser.py:429-467 | fetching a value, attached or not, never leaves more than there was |
| ClickModel.MatchShortShrinks | backend/.pydeps/click/parser.py:389-427 | nor does a cluster of short options that puts the rest of itself back |
| ClickModel.HandlerShrinks | backend/.pydeps/click/parser.py:323-337 | so the option loop ends for every command line |
| ClickLeftovers.LeftoversAreWords | backend/.pydeps/click/parser.py:323-357 | if every option that takes a value takes one word at least, and just one if it may omit it, the leftovers are words of the command line in order, those not read are its end, and there are no others if arguments may not be interspersed |
| ClickLeftovers.OneWordIsConsumedIff | backend/.pydeps/click/parser.py:448-460 | an option that takes one word and may omit it consumes an attached value exactly if it does not look like an option; otherwise the value stays in front of the words |
| ClickLeftovers.ConsumedIff | backend/.pydeps/click/parser.py:368-377 | an option consumes every attached value, whatever words are behind it, exactly if it takes a word at least and must have it |
| ClickLeftovers.LeavesOnlyWordsIff | backend/.pydeps/click/parser.py:369-377 | that the leftovers are words of the command line holds of every command line exactly if every option that takes a value takes one word at least, and just one if it may omit it |
| ClickLeftovers.LongValueIsLeft | backend/.pydeps/click/parser.py:374-377 | for any other long option, its name with a value attached is a command line that leaves the value over |
| ClickLeftovers.ShortValueIsLeft | backend/.pydeps/click/parser.py:389-427 | for any other short option there is such a command line too |
| ClickRoundTrip.ProcessedIffNotRefused | backend/.pydeps/click/parser.py:368-387 | a long option with as many values as it takes, the first one attached or not, is processed with them exactly unless it may omit its one value and that looks like an option |
| ClickRoundTrip.LoopRendered | backend/.pydeps/click/parser.py:323-387 | such options, then `--`: each is processed with its values, which may look like options unless it takes one and may omit it, and the words behind are untouched |
| ClickRoundTrip.RenderThenParse | backend/.pydeps/click/parser.py:165-178 | the options come to their last value or all their values, in the order given, and exactly the words remain |
| ClickRoundTrip.ReadBackIffNotRefused | backend/.pydeps/click/parser.py:323-387 | a command line of one such option, `--` and words is read back exactly unless the option may omit its one value and that looks like an option |
| ClickRoundTrip.ClusterSplits | backend/.pydeps/click/parser.py:389-427 | a cluster of flags that is no long option parses as its letters one by one |
| ClickDashes.BoundedIff | backend/.pydeps/click/parser.py:429-467 | an option that finds its value without more words finds the same value with a `--` and any words behind exactly if it takes a fixed number of words, and one at most if it may omit them |
| ClickDashes.DoubleDash | backend/.pydeps/click/parser.py:323-337 | with such options, what stands before a `--` is read as if it were alone, and the words behind the `--` stay as they are, also where the loop had ended before |
| ClickParser.OptionParser.constructor | backend/.pydeps/click/parser.py:237-259 | a new parser knows the prefixes `-` and `--` and no options |
| ClickParser.OptionParser.AddOption | backend/.pydeps/click/parser.py:261-284 | the names are entered as short or long options with their prefixes, or none of them if one has no prefix |
| ClickParser.OptionParser.AddArgument | backend/.pydeps/click/parser.py:286-292 | an argument is entered behind those that are there |
| ClickParser.StaysWellFormed | backend/.pydeps/click/parser.py:141-150 | adding options keeps short names two characters long, long names not of that form, and prefixes free of letters and digits |
| ClickParser.NamesByText | backend/.pydeps/click/parser.py:111-150 | a name is refused exactly if it is empty or starts with a letter or digit; it is short exactly if it is two different characters |
| ClickParser.PrefixesByText | backend/.pydeps/click/parser.py:141-150 | the prefixes added are the first character of every name, and the first two of a name that starts with the same character twice |
| ClickParser.ProcessOption | backend/.pydeps/click/parser.py:165-178 | storing, appending and counting in place, or the error of a destination that holds something else |
| ClickParser.ProcessArgumentValue | backend/.pydeps/click/parser.py:187-209 | a tuple with some words missing is an error, one with all missing is unset |
| ClickParser.OptionParser.GetValueFromState | backend/.pydeps/click/parser.py:429-467 | the value and the words behind it, or the error of too few words |
| ClickParser.OptionParser.MatchLongOpt | backend/.pydeps/click/parser.py:359-387 | in place what the model says of a long option; an unknown name changes nothing |
| ClickParser.OptionParser.MatchShortOpt | backend/.pydeps/click/parser.py:389-427 | in place what the model says of a cluster, letter by letter |
| ClickParser.OptionParser.ProcessWord | backend/.pydeps/click/parser.py:469-499 | in place: long match first, then short match or the error, depending on the prefix |
| ClickParser.OptionParser.ProcessArgsForOptions | backend/.pydeps/click/parser.py:323-337 | the loop ends and leaves what the model's loop leaves |
| ClickParser.OptionParser.ProcessArgsForArgs | backend/.pydeps/click/parser.py:312-321 | the words go to the arguments as unpacked, and what remains are the leftovers |
| ClickParser.OptionParser.ParseArgs | backend/.pydeps/click/parser.py:294-310 | values, leftovers and order are those of the model, or its error |
| ClickParser.RenderThenParseAll | backend/.pydeps/click/parser.py:294-357 | in a rendered command line the words behind `--` go to the arguments as they stand |
| ClickParser.WordsAreLeft | backend/.pydeps/click/parser.py:294-357 | without arguments they are all left over |
| ClickArguments.WordsAreStored | backend/.pydeps/click/parser.py:312-337 | words in front of a `--` and behind it, however they can be cut into the pieces that the arguments take: each argument stores its piece, all are listed in order, and what is behind the last piece is left over |
| ClickArguments.OneWordEach | backend/.pydeps/click/parser.py:312-337 | with one word for each argument, the one at j stores the word at j of the command line |
| ClickArguments.NoArguments | backend/.pydeps/click/parser.py:312-337 | without arguments the words before and behind `--` are left over in order |
| ClickArguments.FirstWordStops | backend/.pydeps/click/parser.py:333-337 | without interspersed arguments the first word that is no option ends the options and is not lost |
| ClickArguments.FixedArguments | backend/.pydeps/click/parser.py:187-209 | arguments of fixed numbers of words: an error exactly if one of them gets some of its words and not all; otherwise those behind the last word are unset, and the words behind the last argument are left over |
| ClickArguments.TupleArgument | backend/.pydeps/click/parser.py:192-202 | an argument of several words gets its tuple, is unset without words, and is an error with too few |
| ClickArguments.TupleValueIs | backend/.pydeps/click/parser.py:192-206 | whatever it is given: nothing but holes, or no text, is unset; some holes are an error; all else is stored as it is |
| ClickArguments.NoWordsNoSlot | backend/.pydeps/click/parser.py:317-318 | an argument that takes no words makes every command line an error |
| ClickArguments.ProgramErrorIff | backend/.pydeps/click/parser.py:94-96 | of other arguments it is the program that is wrong exactly if two of them take all that remains |
| ClickOptions.FlagCounts | backend/.pydeps/click/parser.py:165-178 | a long flag given n times comes to its constant, to n of it, or to n |
| ClickOptions.ClusterCounts | backend/.pydeps/click/parser.py:389-427 | so does a letter given n times in one cluster |
| ClickOptions.FailsIff | backend/.pydeps/click/parser.py:165-178 | storing fails exactly for an unknown action, or where a place to collect or count in holds something else |
| ClickOptions.ClusterWithValue | backend/.pydeps/click/parser.py:395-420 | a cluster is its flags and then an option with its values, the first of them attached or not |
| ClickOptions.UnknownName | backend/.pydeps/click/parser.py:485-497 | an unknown name behind a prefix that is known as a whole is an error, named as it was written before its `=` |
| ClickOptions.UnknownLetter | backend/.pydeps/click/parser.py:400-404 | the first unknown letter of a cluster is an error once the flags before it are processed |
| ClickOptions.ValueForFlag | backend/.pydeps/click/parser.py:379-382 | a value attached to a long flag is an error |
| ClickOptions.TooFewWords | backend/.pydeps/click/parser.py:436-448 | so are too few words for an option that must have its value |
| ClickOptions.FirstOptionDecides | backend/.pydeps/click/parser.py:323-337 | behind words, the error of the first option is the error of the command line |
| ClickOptions.UnknownIsKept | backend/.pydeps/click/parser.py:496-499 | where unknown options are ignored, a word with an unknown name is left over as it is |
| ClickOptions.UnknownLettersAreKept | backend/.pydeps/click/parser.py:400-427 | and a cluster is read as its flags, while its unknown letters are left over together behind its prefix |
| ClickOptions.UnknownAreLeft | backend/.pydeps/click/parser.py:323-337 | so words and unknown options in any order are left over as they stand |
| ClickOptions.NeverUnknown | backend/.pydeps/click/parser.py:469-499 | and no command line is refused for an unknown option |
| AiosqliteProtocol.StepInv | backend/.pydeps/aiosqlite/core.py:75-184 | every step of coroutine, event loop or worker keeps the account of queued, running, posted and settled calls |
| AiosqliteProtocol.FunctionsRunInOrder | backend/.pydeps/aiosqlite/core.py:96-132 | in every interleaving functions start in the order of submission, each once |
| AiosqliteProtocol.OnlyStopsBehindStop | backend/.pydeps/aiosqlite/core.py:75-109 | behind a stop request only further ones are queued, and every job has been taken before the first of them is |
| AiosqliteProtocol.DoneStays | backend/.pydeps/aiosqlite/core.py:40-49 | a future that is done or cancelled keeps its state through every step |
| AiosqliteProtocol.SettledOnce | backend/.pydeps/aiosqlite/core.py:40-49 | over any run a future becomes done at most once, and exactly once if it is done in the end |
| AiosqliteProtocol.SettledByItsFunction | backend/.pydeps/aiosqlite/core.py:102-120 | in every run a future is settled with what its own function ended with, result or exception, and is cancelled only by cancelling the wait for it |
| AiosqliteProtocol.ResumeMeans | backend/.pydeps/aiosqlite/core.py:134-184 | what a coroutine that goes on changes: nothing after a call; connected, stopped or neither, according to how connecting ended; stopped after a close |
| AiosqliteProtocol.RunsEnd | backend/.pydeps/aiosqlite/core.py:102-120 | once a stop is requested any run has only so many steps left |
| AiosqliteProtocol.QuietIsSettled | backend/.pydeps/aiosqlite/core.py:102-132 | when neither worker nor event loop has anything to do, every function has run, every future is done and every coroutine has gone on |
| AiosqliteProtocol.StoppedRunsAreComplete | backend/.pydeps/aiosqlite/core.py:102-109 | a run that cannot go on after a stop request has stopped the worker and settled every queued future |
| AiosqliteProtocol.StopIsForGood | backend/.pydeps/aiosqlite/core.py:75-78 | after a stop request no call is queued any more; the end of every close is such a request |
| AiosqliteProtocol.CancelledConnectGivesUp | backend/.pydeps/aiosqlite/core.py:134-144 | cancelling the wait for the connection, as long as that can be done, lets it go on with neither a connection nor a stop |
| AiosqliteProtocol.AbandonedForEver | backend/.pydeps/aiosqlite/core.py:134-144 | from then on, in every run, the connection is running and not connected, no call or close can be made, no stop is ever queued and the worker never ends |
| AiosqliteProtocol.StoppedUnlessGivenUp | backend/.pydeps/aiosqlite/core.py:96-144 | a run that cannot go on has stopped its worker exactly if the connecting coroutine did not give up |
| AiosqliteConnection.SetFutureOnce | backend/.pydeps/aiosqlite/core.py:40-49 | a pending future is settled with this outcome, and one that is done is left as it is |
| AiosqliteConnection.Connection.Execute | backend/.pydeps/aiosqlite/core.py:122-132 | up to its await: an error unless running and connected, else one job queued, as in the protocol's step |
| AiosqliteConnection.Connection.Connect | backend/.pydeps/aiosqlite/core.py:134-139 | up to its await: the first job |
| AiosqliteConnection.Connection.Connected | backend/.pydeps/aiosqlite/core.py:140-144 | behind its await: connected after a result, not connected and stopped after an exception, and as before after a cancellation or anything else that is no Exception |
| AiosqliteConnection.Connection.Close | backend/.pydeps/aiosqlite/core.py:171-178 | up to its await: nothing without a connection, else one more job |
| AiosqliteConnection.Connection.Closed | backend/.pydeps/aiosqlite/core.py:177-184 | finally, whatever its await came to: the stop request and the lost connection are the protocol's step in which the close goes on |
| AiosqliteConnection.Connection.Run | backend/.pydeps/aiosqlite/core.py:96-120 | with nobody else queueing, all jobs before the first stop request run in order and their outcomes are posted in order |
| AiosqliteConnection.RunIsWorkerAlone | backend/.pydeps/aiosqlite/core.py:96-120 | which is what the worker's steps of the protocol come to |

## Left out

- RWLocks.RWLock.ReaderAcquire: a sequential method cannot wait, so it is shown for a thread that finds its locks free; waiting and interleaving are in `RWLockProtocol`.
- RWLocks.RWLock.WriterAcquire: as for ReaderAcquire.
- RWLocks.LightSwitch.Acquire: as for ReaderAcquire; so are LightSwitch.Release, ReaderRelease and WriterRelease, which take a mutex.
- RWLockProtocol.NoDeadlock: clients that release without acquiring, or die inside, are not modelled; each session is an acquire and its release.
- DotenvEditing.SetKey: source and destination are strings; temporary files, symbolic links, encodings, newline translation and the returned tuple are left out.
- ClickModel.ProcessOptsShrinks: `token_normalize_func`, resilient parsing, the texts of error messages and close matches are left out.
- ClickLeftovers.LeavesOnlyWordsIff: with `ignore_unknown_options` the unknown letters of a cluster are put together to a new word, so leftovers need not be words; that setting, and option names with `=` in them, are excluded here; `ClickOptions.UnknownAreLeft` and the lemmas before it say what that setting leaves.
- ClickParser.ProcessOption: numbers are integers; counting on top of a constant of another kind is an error in the model, while Python would add one to a float.
- AiosqliteConnection.Connection.Run: the endless loop is run to its first stop request on what the queue holds; a queue that others fill meanwhile is in `AiosqliteProtocol`.
- AiosqliteProtocol.StepInv: one event loop that stays open and one await of the connection; a second await raises an error from the thread.
- What `str.isalnum` says of a character is a parameter; the theorems use only that it is false for white space and quotes (`DotenvTheorems.SetThenParsePlain`) and, in command lines, for `-` and `=`; `ClickLeftovers.LeavesOnlyWordsIff` also uses that it is true for the letter `v`.
- `Reader.read`, `find_dotenv`, environment updates and the logging of warnings in dotenv.
- The `hashlib` path of `ecdsa/_sha3.py`, and any claim of cryptographic strength.
- sqlite3 itself, cursors, `backup` and the context managers of aiosqlite: a queued function is a step that returns or raises.
- `backend/app`: settings, sessions and server wiring.
