# Verified model of the fuzzer's program core

A Dafny model of a system-call fuzzer: the program representation and its edits, the text and bytecode
forms of programs, the executor that runs them, the manager's schedulers, and the coverage marking of
the call-graph mapper. Properties are stated for every input, every run or every reachable state of the model; the
last section names what the model leaves out.

* **Programs as text** (`ProgTypes`, `Numbers`, `DataText`, `Validation`, `Canonical`, `Printer`, `Parser`,
  `TextLemmas`, `ReadTokens`, `ReadTrees`, `TextRoundTrip`, `ParserOutput`, `Serializer`, `Lexer`, `ArgPaths`,
  `ValidPrograms`, `Skipping`, `OtherTexts`, `StrictParsing`, `TextExamples`). The
  printer elides defaults, padding and trailing zeros; the parser puts them back. A valid program survives
  if and only if it is *canonical* and its lines fit. Not canonical are: a reference of an argument to
  itself, a divisor or addend without a reference, a value beside a reference, padding that is not zero, a
  pointer without pointee that is neither special nor a memory range (or whose type is not the declared one),
  an untyped pointer whose type is not the one derived from the declaration, memory ranges that are not whole
  pages, variable data larger than memory, and input data that carries an output size. Validation accepts all
  of these.
* **Programs in memory** (`DefUse`, `ArgNodes`, `ReplaceTrees`, `Places`, `ProgClone`, `ProgEdits`,
  `ProgValues`, `ProgMinimize`). Every argument is an object, data arguments have buffers of their own, and result arguments
  are linked in both directions. Ghost trees say what the nodes hold. Every edit is proved against a function
  on snapshots; it keeps links symmetric, closed and strictly backward, and nodes unshared. Validation also
  accepts an argument that refers to itself, for which cloning finds no copy in its table; the table suffices
  exactly if every reference is strictly backward.
* **Bytecode** (`ExecFormat`, `ExecRoundTrip`, `ExecCompile`, `ExecIndices`, `ExecMeaning`, `ExecDecode`,
  `ExecWriter`, `ExecReader`, `ExecWhole`, `ExecPlaces`, `ExecMalformed`). Compilation is compared with what is
  meant when results are simply named; padding of blobs is left as it was in the buffer, so an encoding is a pattern with open bytes.
* **Squashing** (`Memory`, `Formats`, `MemoryImage`, `Squash`, `SquashMarks`, `SquashImage`, `SquashMemory`, `SquashApart`,
  `SquashPlain`, `SquashExamples`, `Squasher`). A typed pointee is rewritten as untyped pieces. Memory is compared
  bit by bit, on any memory and however the objects overlap, with the NUL that formatted text leaves behind it.
  The bits that squashing fills in where the tree stores nothing are made explicit: padding, output values, bits of
  bitfield units without a field, and NULs of squashed results. The image is kept if and only if every bit, seen
  from the last argument that sets it, is squashed to the value that the original leaves there and is not filled
  in later with another one. Where nothing overlaps, this comes down to the leaves and to the clearing behind
  text: constants pass unless they are checksums or differ between processes; a native or textual result passes
  for all deliveries exactly if it refers to nothing or its default is formatted like all ones. `SquashExamples`
  has an input for each condition. The size is kept regardless of all this.
* **Executor threads** (`Executor`), **VM loop** (`VmLoop`), **maximal signal** (`Signals`, `MaxSignal`):
  protocols as state machines or as a class whose methods are the events.
* **Coverage marking** (`Coverage`), **bitmap allocator** (`Alloc`), **Internet checksum** (`Checksum`),
  **minimisation** (`MinimizeCalls`, `Minimize`, `MinimizeLog`, `MinimizeAgreed`), **transitively enabled calls** (`Resources`) and **weighted
  choice** (`ChoiceTable`). `Sets` holds a fact about cardinality.

Modelling decisions: a byte of text is a character below 256; sizes of trees are exact and do not reach 2^64;
clocks, random draws, map iteration and the answers of predicates are arbitrary values chosen outside; the
machine is little-endian; the call that fixes up special cases of calls before they are executed is the
identity. `dafny verify dfyconfig.toml` checks the project.

## Model

| member | source | states |
|---|---|---|
| `Numbers.HexRoundTrip` | 03-syzkaller/prog/encoding.go:83-85 | every 64-bit value printed in hexadecimal is parsed back to itself |
| `Numbers.DecRoundTrip` | 03-syzkaller/prog/encoding.go:168-187 | the same for decimal operands and sizes |
| `Numbers.OtherNumbers` | 03-syzkaller/prog/encoding.go:368-373 | a number behind a zero is octal, a prefix may be capital, and what does not fit 64 bits is no number |
| `DataText.DataLiteralRoundTrip` | 03-syzkaller/prog/encoding.go:746-894 | every byte string, in hexadecimal or escaped form, is parsed back to the same bytes and leaves exactly the text behind the literal |
| `DataText.DataLiteralPrintable` | 03-syzkaller/prog/encoding.go:746-810 | a data literal consists of printable characters only: no raw newline and no NUL |
| `DataText.DataLiteralQuotes` | 03-syzkaller/prog/encoding.go:746-810 | the quotes around a literal do not occur in it: hexadecimal digits hold none, and in escaped text every quote has its own backslash |
| `DataText.UnescapeByteIs` | 03-syzkaller/prog/encoding.go:763-810 | each escape sequence is undone with the right number of characters, and no escaped byte starts with a quote |
| `ReadTokens.ReadDataArg` | 03-syzkaller/prog/encoding.go:104-125 | a data argument survives zero-stripping, the size suffix and padding on reading |
| `ReadTokens.ReadAddr` | 03-syzkaller/prog/encoding.go:682-744 | printed addresses and page ranges are read back exactly |
| `ReadTokens.ReadResult` | 03-syzkaller/prog/encoding.go:168-187 | a result argument is read back with its name bound and its reference resolved to the same definer |
| `TextLemmas.DefaultIs` | 03-syzkaller/prog/types.go:369-522 | whatever counts as a default is what the parser puts in its place, up to the numbering of results |
| `ReadTrees.ReadArg` | 03-syzkaller/prog/encoding.go:305-366 | any canonical argument tree, printed with defaults elided, is read back in front of any following text |
| `ReadTrees.ReadStruct` | 03-syzkaller/prog/encoding.go:530-567 | a struct comes back although trailing default fields and all padding are not printed |
| `ReadTrees.ReadArray` | 03-syzkaller/prog/encoding.go:569-597 | the same for arrays, where only those of fixed length drop trailing defaults |
| `CanonicalForm.ValidateCallsAdds` | 03-syzkaller/prog/validation.go:30-99 | an accepted program adds exactly its own results, which are distinct and were not seen before |
| `CanonicalForm.ValidateCallsBackward` | 03-syzkaller/prog/validation.go:30-159 | in an accepted program every result refers to itself or to one met before it |
| `CanonicalForm.ValidateCallsRenamed` | 03-syzkaller/prog/validation.go:30-159 | renumbering the results of a valid program gives a valid program |
| `ValidPrograms.ValidIff` | 03-syzkaller/prog/validation.go:30-267 | a program is accepted if and only if every argument at every place is in order by itself and of the type declared there, calls have their arguments and empty return values, results are all different, and references point back |
| `TextRoundTrip.RoundTrip` | 03-syzkaller/prog/encoding.go:27-187 | parsing the text of a valid canonical program gives the program with its results numbered in order |
| `TextRoundTrip.LongLineFails` | 03-syzkaller/prog/encoding.go:990-1002 | a call whose line is longer than the line limit makes the whole text unreadable |
| `TextExamples.ProgramText` | 03-syzkaller/prog/encoding.go:27-187 | a program with a named result, a pointer, escaped data, a divided reference, padding and an elided field has this text, character by character |
| `ParserOutput.DeserializeCanonical` | 03-syzkaller/prog/encoding.go:196-630 | whatever the text, a program that the parser returns is valid and canonical |
| `ParserOutput.RoundTripIff` | 03-syzkaller/prog/encoding.go:196-218 | a valid program survives printing and parsing if and only if it is canonical and its lines fit |
| `ParserOutput.ParsedIsStable` | 03-syzkaller/prog/encoding.go:27-38 | printing and parsing a parsed program once more changes nothing |
| `ParserOutput.LeftoverDivisorIsLost` | 03-syzkaller/prog/minimization.go:200-218 | a divisor left on an argument without reference is valid and is not printed |
| `ParserOutput.SelfReferenceIsLost` | 03-syzkaller/prog/validation.go:132-159 | validation accepts an argument that refers to itself; no text whatsoever is read as a program with one |
| `Skipping.EatIs` | 03-syzkaller/prog/encoding.go:633-675 | what is skipped ends at the first character outside quotes that closes a bracket not opened before it, or at a comma outside all brackets, quotes and depths being counted from the start of the text |
| `Skipping.SkippedIff` | 03-syzkaller/prog/encoding.go:633-675 | text in front of a comma is skipped exactly up to the comma if and only if its quotes and brackets are closed and nothing in it ends an argument |
| `Skipping.ArgWhole` | 03-syzkaller/prog/encoding.go:83-187 | that holds of every printed argument whose escaped data contains no single quote |
| `Skipping.EvenQuotesIff` | 03-syzkaller/prog/encoding.go:664-671 | of escaped data without brackets, commas and double quotes, if and only if the number of single quotes is even |
| `OtherTexts.MisfitReplaced` | 03-syzkaller/prog/encoding.go:368-386 | a printed argument of a kind that the type does not take is skipped as a whole and replaced by the default of the type; strict parsing fails |
| `OtherTexts.ReferenceTaken` | 03-syzkaller/prog/encoding.go:418-427 | a reference to a bound name is read as one whatever the type, and validation rejects it unless the type is that of a resource |
| `OtherTexts.ExcessSkipped` | 03-syzkaller/prog/encoding.go:258-262 | printed arguments beyond the declared ones are skipped up to the closing bracket; strict parsing fails |
| `OtherTexts.UnknownName` | 03-syzkaller/prog/encoding.go:418-422 | a reference to a name that is not bound gives the default; strict parsing fails |
| `OtherTexts.AddressOffset` | 03-syzkaller/prog/encoding.go:690-719 | an offset of an old program is added to the address or subtracted from it, modulo 2^64, and an address below the base fails |
| `OtherTexts.RegionIs` | 03-syzkaller/prog/encoding.go:720-741 | a region consists of whole pages inside memory, as many as its size needs, at the page of its address unless that would end beyond memory |
| `OtherTexts.NumberIsSpecial` | 03-syzkaller/prog/encoding.go:379-381 | a number for a pointer stands for a special pointer, minus the number modulo how many there are |
| `OtherTexts.SizedData` | 03-syzkaller/prog/encoding.go:492-528 | data is cut to its size or filled up with zeros; sizes beyond memory are cut, and strict parsing fails |
| `OtherTexts.ArrayLength` | 03-syzkaller/prog/encoding.go:569-597 | where the type prescribes a length, an array is cut or filled up with defaults unless parsing is strict |
| `OtherTexts.SkipWsIs` | 03-syzkaller/prog/encoding.go:1056-1060 | exactly the spaces and tabs in front are skipped |
| `OtherTexts.LineIgnored` | 03-syzkaller/prog/encoding.go:224-238 | empty lines and comments do not count, wherever they stand |
| `OtherTexts.LineEnds` | 03-syzkaller/prog/encoding.go:990-1002 | a text splits into its lines with and without carriage returns at their ends |
| `StrictParsing.StrictIsLenient` | 03-syzkaller/prog/encoding.go:196-218 | whatever strict parsing accepts, lenient parsing reads as the same program |
| `Serializer.Writer.PutArg` | 03-syzkaller/prog/encoding.go:75-187 | the in-place serializer appends the printed form of an argument and names results in order |
| `Serializer.Writer.PutData` | 03-syzkaller/prog/encoding.go:104-125 | the loop that strips zeros leaves the data that the printer prescribes |
| `Serializer.Writer.PutGroup` | 03-syzkaller/prog/encoding.go:127-157 | the loop over trailing defaults stops at the last member that has to be printed |
| `Serializer.Writer.PutInner` | 03-syzkaller/prog/encoding.go:58-73 | the loop over members skips padding and places commas as prescribed |
| `Serializer.SerializeProg` | 03-syzkaller/prog/encoding.go:27-38 | the serializer writes the text of the program, one line per call |
| `Lexer.Reader.SkipBlanks` | 03-syzkaller/prog/encoding.go:1056-1060 | the blank-skipping loop leaves what the token grammar says |
| `Lexer.Reader.ReadIdent` | 03-syzkaller/prog/encoding.go:1062-1078 | the identifier loop reads the longest identifier |
| `Lexer.Reader.EatExcess` | 03-syzkaller/prog/encoding.go:633-675 | the skipping loop leaves the text that `Skipping.EatIs` describes |
| `Lexer.Reader.ReadEscaped` | 03-syzkaller/prog/encoding.go:847-892 | the escape-decoding loop returns the decoded bytes and stops at the closing quote |
| `DefUse.ReplaceResultArg` | 03-syzkaller/prog/prog.go:342-358 | an argument takes over value and reference of another; both link directions are redirected and nothing else changes |
| `DefUse.RemoveResults` | 03-syzkaller/prog/prog.go:360-378 | removing results one after the other equals removing them at once: users become defaults, no link to them remains |
| `DefUse.RemoveKeepsInv` | 03-syzkaller/prog/prog.go:360-391 | after a removal the rest is symmetric, closed and backward-pointing, and no live argument is linked with a removed one |
| `DefUse.InsertKeepsInv` | 03-syzkaller/prog/prog.go:297-312 | results whose references resolve before the insertion point can be inserted there |
| `DefUse.RemoveDetaches` | 03-syzkaller/prog/prog.go:360-378 | after a removal nobody refers to a removed result or records it as a user |
| `DefUse.CutIff` | 03-syzkaller/prog/prog.go:360-378 | results can leave the program if and only if nothing that stays refers to them or records them as users |
| `DefUse.CutBreaks` | 03-syzkaller/prog/mutation.go:393-396 | an instance where overwriting without removal breaks the links: a later result refers to the one that leaves |
| `DefUse.ReplaceKeepsInv` | 03-syzkaller/prog/prog.go:342-358 | taking over a reference to an earlier result keeps the def-use invariant |
| `DefUse.RemoveTail` | 03-syzkaller/prog/mutation.go:94-96 | removing results at the end changes no value before them |
| `ReplaceTrees.ReplaceArg` | 03-syzkaller/prog/prog.go:315-340 | replaces an argument in place: nodes take over the contents of their counterparts, groups member by member, and results are relinked pairwise |
| `ReplaceTrees.OverwrittenRep` | 03-syzkaller/prog/prog.go:315-340 | afterwards the new tree stands at the old reference, on nodes of the two trees and no others, and no other node has changed |
| `ReplaceTrees.OverwriteIff` | 03-syzkaller/prog/mutation.go:392-419 | overwriting a subtree by new results keeps the invariant if and only if nothing that stays is linked with the old ones |
| `ReplaceTrees.ReplacedKeepsInv` | 03-syzkaller/prog/prog.go:315-340 | a replacement whose new results resolve earlier, over subtrees that nothing else is linked with, keeps the invariant of the program around it |
| `ArgNodes.RepFrame` | 03-syzkaller/prog/clone.go:31-81 | what a reference stands for depends on its own nodes only |
| `ArgNodes.RepPut` | 03-syzkaller/prog/prog.go:315-340 | changing a part of a tree in place changes the whole tree at that place and nowhere else |
| `ArgNodes.PutThere` | 03-syzkaller/prog/prog.go:315-340 | the part that was put is there afterwards, and a part at a diverging path is what it was |
| `ArgNodes.CollectResults` | 03-syzkaller/prog/prog.go:360-378 | walking over the nodes finds the results of a tree, in order |
| `Places.RegenerateShape` | 03-syzkaller/prog/mutation.go:245-250 | replacing an argument in place and inserting calls leaves nodes that hold exactly the edited program |
| `ProgEdits.Prog.RemoveCall` | 03-syzkaller/prog/prog.go:381-391 | removes one call, resets its users and keeps the program valid |
| `ProgEdits.Prog.InsertBefore` | 03-syzkaller/prog/prog.go:297-312 | inserts generated calls whose references resolve earlier and keeps the program valid |
| `ProgEdits.Prog.RegenerateArg` | 03-syzkaller/prog/mutation.go:245-250 | replacing an argument anywhere in a call, in place, and inserting the calls generated with it keeps the program valid |
| `ProgEdits.Prog.RegenerateConst` | 03-syzkaller/prog/mutation.go:252-255 | a constant is replaced in place by a newly generated one |
| `ProgEdits.Prog.Clone` | 03-syzkaller/prog/clone.go:6-29 | the clone is fresh, valid and isomorphic; all its results, nodes and buffers are new, and the original is untouched |
| `ProgEdits.Prog.RemoveArg` | 03-syzkaller/prog/prog.go:360-378 | removing an argument detaches its results; the program around it satisfies the invariant |
| `ProgEdits.Prog.RefillArg` | 03-syzkaller/prog/mutation.go:413-417 | a generated argument with its calls put where one was removed gives a valid program |
| `ProgEdits.Prog.MakeSpecial` | 03-syzkaller/prog/mutation.go:364-372 | a pointer whose pointee is removed first can be replaced by a special one |
| `ProgEdits.Prog.SetAddress` | 03-syzkaller/prog/mutation.go:373-375 | a pointer moves to another address with what it points to, and nothing else changes |
| `ProgEdits.Prog.WriteData` | 03-syzkaller/prog/mutation.go:129-129 | bytes are overwritten in their buffer, which changes exactly that argument |
| `ProgEdits.Prog.Truncate` | 03-syzkaller/prog/mutation.go:94-96 | dropping calls from the end keeps the program valid and the value of every argument that stays |
| `ProgEdits.Prog.Splice` | 03-syzkaller/prog/mutation.go:85-98 | splicing a clone and truncating gives the expected prefix, a valid program, and unchanged values for old and cloned arguments |
| `ProgClone.CloneTree` | 03-syzkaller/prog/clone.go:31-81 | a cloned argument stands for the renamed tree on nodes that are all new; copies record those users that are already copied |
| `ProgClone.CloneLeaf` | 03-syzkaller/prog/clone.go:34-49 | the copy of a data argument has a new buffer with the same bytes |
| `ProgClone.CopyKeepsInv` | 03-syzkaller/prog/clone.go:31-81 | the finished copy of a valid graph satisfies the def-use invariant |
| `ProgClone.TableSufficesIff` | 03-syzkaller/prog/clone.go:63-76 | the table of copies holds every result that is needed if and only if every reference points to a result copied before |
| `ProgClone.SelfReferenceMissing` | 03-syzkaller/prog/clone.go:63-76 | for an argument that refers to itself it does not |
| `ProgClone.ValidSuffices` | 03-syzkaller/prog/clone.go:6-29 | for a program that refers strictly backwards it does, return values first |
| `ProgValues.CloneSameValue` | 03-syzkaller/prog/clone.go:6-29 | a clone has the value of the original, results numbered by position |
| `ProgValues.Isolation` | 03-syzkaller/prog/clone.go:6-29 | a change of memory that spares the objects of a program leaves the program valid and its value the same |
| `ProgValues.EditClone` | 03-syzkaller/prog/clone.go:6-29 | whatever calls are removed, bytes, pointers and constants replaced, and clones inserted in a clone, in any number and order, the original keeps its value and its nodes |
| `ProgValues.RemovedValue` | 03-syzkaller/prog/prog.go:381-391 | removing a call in memory gives the value without the call, with references to it reset |
| `ProgValues.TryWithout` | 03-syzkaller/prog/minimization.go:71-72 | the trial of minimisation, a clone with one call removed, has the value without that call and leaves the original alone |
| `ExecFormat.WordRoundTrip` | 03-syzkaller/prog/encodingexec.go:218-232 | a 64-bit word is recovered from its eight bytes |
| `ExecRoundTrip.BackArg` | 03-syzkaller/prog/decodeexec.go:137-197 | every instruction argument is decoded to itself, with the variable table updated by references |
| `ExecRoundTrip.ParseCall` | 03-syzkaller/prog/decodeexec.go:98-135 | a call with its copyins and copyouts is decoded as one unit, and only then the call before it is recorded |
| `ExecRoundTrip.ExecRoundTrips` | 03-syzkaller/prog/decodeexec.go:71-87 | from any buffer that starts with an encoding the decoder returns exactly the encoded calls, unless the count of variables differs |
| `ExecMalformed.CutOffFails` | 03-syzkaller/prog/decodeexec.go:199-227 | a program that is cut off anywhere is rejected |
| `ExecMalformed.BehindTheEnd` | 03-syzkaller/prog/decodeexec.go:98-135 | what follows a program behind its end does not change how it is decoded |
| `ExecMalformed.UnknownCallFails` | 03-syzkaller/prog/decodeexec.go:117-122 | an unknown instruction behind any calls makes the program rejected |
| `ExecMalformed.UnknownArgFails` | 03-syzkaller/prog/decodeexec.go:137-197 | an argument of an unknown kind is an error |
| `ExecMalformed.UnknownChecksumFails` | 03-syzkaller/prog/decodeexec.go:172-192 | so is an unknown kind of checksum |
| `ExecMalformed.PassedBlobFails` | 03-syzkaller/prog/decodeexec.go:125-133 | and a blob or a checksum among the arguments of a call |
| `ExecWriter.ExecContext.Write` | 03-syzkaller/prog/encodingexec.go:218-232 | appends a word, or remembers that it did not fit |
| `ExecWriter.ExecContext.WriteArg` | 03-syzkaller/prog/encodingexec.go:234-291 | appends the encoding of an argument, a reference with the index known for it |
| `ExecWriter.ExecContext.WriteCopyin` | 03-syzkaller/prog/encodingexec.go:122-143 | appends the copyins of a call and records where used results lie |
| `ExecWriter.ExecContext.WriteCopyout` | 03-syzkaller/prog/encodingexec.go:199-216 | appends one copyout per used result and numbers them |
| `ExecWriter.ExecContext.SerializeCall` | 03-syzkaller/prog/encodingexec.go:78-103 | appends the encoding of the compiled call and updates indices and addresses |
| `ExecWriter.SerializeForExec` | 03-syzkaller/prog/encodingexec.go:59-76 | succeeds if and only if the whole encoding fits the buffer, which then holds it |
| `ExecReader.ExecDecoder.Read` | 03-syzkaller/prog/decodeexec.go:199-212 | the byte loop reads one little-endian word or sets the error |
| `ExecReader.ExecDecoder.ReadArg` | 03-syzkaller/prog/decodeexec.go:137-197 | reads one argument and updates the variables in place |
| `ExecReader.ExecDecoder.CommitCall` | 03-syzkaller/prog/decodeexec.go:233-247 | records the finished call and the largest assigned index |
| `ExecReader.ExecDecoder.Parse` | 03-syzkaller/prog/decodeexec.go:98-135 | the decoding loop terminates on every input and computes the specified state |
| `ExecReader.Deserialize` | 03-syzkaller/prog/decodeexec.go:71-87 | returns what the format prescribes, or an error |
| `ExecIndices.CopyinsMeant` | 03-syzkaller/prog/encodingexec.go:122-143 | every copied-in reference to an earlier call carries the place of its definer among all used results |
| `ExecIndices.CopyoutsMeant` | 03-syzkaller/prog/encodingexec.go:199-216 | copyouts carry consecutive indices and the addresses found while copying in |
| `ExecIndices.CompiledMeant` | 03-syzkaller/prog/encodingexec.go:78-103 | compiling with running counter and lookup tables gives the instructions meant by naming results directly |
| `ExecIndices.IndicesDense` | 03-syzkaller/prog/encodingexec.go:85-96 | the stream assigns 0, 1, 2, and so on, each index once |
| `ExecIndices.SameCallReference` | 03-syzkaller/prog/encodingexec.go:199-216 | a reference within one call carries index 0, right only if its definer is the first used result |
| `ExecMeaning.CompiledBehaves` | 03-syzkaller/executor/executor.cc:1229-1244 | under every schedule and all outcomes the executor passes each call the same memory writes and arguments as reading every reference from the result it names |
| `ExecMeaning.ResolvedIs` | 03-syzkaller/executor/executor.cc:1229-1244 | a delivered result is passed as its quotient plus the addend, modulo 2^64, and one that was not delivered as the default |
| `ExecPlaces.CopyinAddresses` | 03-syzkaller/prog/encodingexec.go:122-143 | the copyins of a compiled call are exactly one for each input argument behind a pointer, in order; each says what its argument is, at the address of memory plus that of the pointer plus the bytes of the members in front of it, modulo 2^64 |
| `ExecPlaces.CopyoutAddresses` | 03-syzkaller/prog/encodingexec.go:199-216 | the copyouts are exactly one for each used result, in order, at the address of its place; one that does not lie in memory is read from address 0 |
| `ExecPlaces.ArgsCarried` | 03-syzkaller/prog/encodingexec.go:234-291 | the arguments of a compiled call have the size, format, bits, bytes and per-process value of the arguments; a pointer is the offset of memory plus its address, a special one the fixed address of its number |
| `ExecPlaces.ObjectInMemory` | 03-syzkaller/prog/validation.go:251-267 | in a valid program an object behind a pointer lies in memory if and only if it is not larger than memory, and a special pointer has a fixed address |
| `ExecPlaces.HugeObject` | 03-syzkaller/prog/validation.go:256-266 | an object whose size wraps around is accepted although it does not lie in memory |
| `ExecPlaces.CopyinInMemory` | 03-syzkaller/prog/analysis.go:122-156 | so every copyin of a valid program stays inside memory, if members lie inside their groups and objects are not larger than memory |
| `ExecPlaces.PartsApart` | 03-syzkaller/prog/analysis.go:128-146 | of two parts of an object the first ends before the second begins, unless they are bitfields of one unit |
| `ExecPlaces.AlignedUp` | 03-syzkaller/prog/prog.go:193-203 | a struct of variable size ends at the next multiple of its alignment |
| `ExecPlaces.ProcessesApart` | 03-syzkaller/prog/prog.go:54-77 | different processes use different per-process values, as long as their ranges fit |
| `ExecMeaning.ArgAgrees` | 03-syzkaller/executor/executor.cc:1229-1244 | reading a result by index, with division, addition and default, equals reading it by name |
| `ExecMeaning.FinishAgrees` | 03-syzkaller/executor/executor.cc:862-892 | copying out results by index delivers them to the results they belong to |
| `ExecDecode.ValidCompiles` | 03-syzkaller/prog/validation.go:30-159 | a valid program whose references all target earlier calls compiles with every reference known |
| `ExecDecode.ExecDecodes` | 03-syzkaller/prog/decodeexec.go:71-87 | decoding a serialised program returns its compiled calls if and only if the last used result is used by an argument that is passed |
| `ExecWhole.SerializeAndDecode` | 03-syzkaller/prog/encodingexec.go:59-76 | a valid program whose references target earlier calls is serialised if and only if the buffer is large enough, and then decoded to its compiled calls if and only if its last used result is passed |
| `ExecWhole.DecoderRejects` | 03-syzkaller/prog/decodeexec.go:71-87 | a valid program of two calls, whose output cell refers to the first result, is serialised to bytes that the decoder rejects |
| `ExecWhole.LimitIff` | 03-syzkaller/executor/executor.cc:862-880 | no index exceeds the limit of the executor if and only if the program uses at most 1000 results |
| `Memory.SetBitsBit` | 03-syzkaller/executor/executor.cc:1094-1103 | masking and shifting a field into a word changes exactly its bits |
| `Formats.FormatMeans` | 03-syzkaller/executor/executor.cc:1105-1147 | the bytes of a number in each format are read back to it by position: byte k is v / 256^k mod 256 or its mirror, and the texts are 20 decimal, "0x" and 16 hexadecimal, or 23 octal digits |
| `Formats.CopiedNumber` | 03-syzkaller/executor/executor.cc:1094-1147 | a copied-in number says the value plus the stride of the process in its format, text is followed by a NUL, and nothing else changes |
| `Memory.FieldApplies` | 03-syzkaller/executor/executor.cc:1094-1103 | a bitfield store sets the bits of its field, in either byte order, and leaves every other bit of memory alone |
| `MemoryImage.LeafApplies` | 03-syzkaller/executor/executor.cc:1105-1147 | a copied-in scalar or blob sets its bytes in its format; formatted text also clears the byte behind it |
| `MemoryImage.RunIs` | 03-syzkaller/executor/executor.cc:590-616 | executing copyins on any memory sets exactly the bits of their contents and of the NULs behind text, later ones over earlier ones |
| `Squash.SwapIsReverse` | 03-syzkaller/prog/mutation.go:608-649 | the shifts and ors of the byte swaps put the bytes in reverse |
| `Squash.SquashIntoSize` | 03-syzkaller/prog/any.go:229-272 | the pieces of a tree are as long as the tree, whatever its values, formats and directions |
| `Squash.SquashFieldsSize` | 03-syzkaller/prog/any.go:329-370 | the same for fields, where each bitfield unit counts once |
| `Squash.SquashKeepsSize` | 03-syzkaller/prog/any.go:210-227 | squashing keeps address and size of the pointee, so the size panic cannot happen unless a type declares a wrong size |
| `SquashImage.UnitMarksAre` | 03-syzkaller/prog/any.go:344-362 | the collected bits of a bitfield unit are stored as a whole, in any byte order of its fields |
| `SquashMarks.KeptIff` | 03-syzkaller/prog/any.go:210-227 | what the original and the pieces store agrees on all bits of content if and only if each bit survives, seen from the last mark that sets it |
| `SquashMemory.SquashGrows` | 03-syzkaller/prog/any.go:229-272 | the pieces of a tree store exactly what its marks say: leaves, fills and NULs, in the order of the traversal, through nested pointers |
| `SquashMemory.FieldsGrow` | 03-syzkaller/prog/any.go:329-370 | the same for fields, with bitfields collected into one piece of data |
| `SquashMemory.ImageBit` | 03-syzkaller/prog/any.go:210-227 | what the original and the squashed copyins leave at a bit, seen from the last argument that sets it, on any memory and with any overlap |
| `SquashMemory.SquashKeepsImage` | 03-syzkaller/prog/any.go:210-227 | on any memory and however objects overlap, every bit that the original sets is the same after squashing if and only if each such bit survives later text and later fills; every other bit is kept, cleared behind text, or filled in |
| `SquashMemory.FilledBit` | 03-syzkaller/prog/any.go:229-272 | a bit that is only filled in keeps its old value originally and gets the filled-in value when squashed |
| `SquashPlain.UnitRestZero` | 03-syzkaller/prog/any.go:344-362 | bits of a native input unit that belong to no field are filled in with zeros |
| `SquashApart.ApartKeepsImage` | 03-syzkaller/prog/any.go:210-227 | without overlap the image is kept if and only if each bit of each leaf is squashed to itself and cleared later in both forms or in neither |
| `SquashPlain.PlainKeepsImage` | 03-syzkaller/prog/any.go:210-227 | for leaves squashed to their own bytes, if and only if no set bit is cleared behind text in one form only |
| `SquashPlain.AlwaysKeepsImage` | 03-syzkaller/prog/any.go:210-227 | for such leaves, whatever is delivered and for every process, if and only if no bit that a value or an attainable reference can set is cleared behind text in one form only |
| `SquashPlain.MaySetIff` | 03-syzkaller/executor/executor.cc:1229-1244 | the bits that a reference can set are those of its default and of the quotients and sums that deliveries can give |
| `SquashPlain.ConstSurvives` | 03-syzkaller/prog/any.go:372-398 | a constant that is no checksum and the same for all processes is squashed to its own bytes, in any format |
| `SquashPlain.ChecksumSquashed` | 03-syzkaller/prog/any.go:374-381 | a checksum is squashed to the bytes of a recognizable number |
| `SquashPlain.FieldSquashed` | 03-syzkaller/prog/any.go:344-362 | a field of a native unit whose fields share no bit is squashed to its own value |
| `SquashPlain.ResultSurvives` | 03-syzkaller/prog/any.go:304-327 | a native or textual result is squashed to its own bytes if and only if it refers to nothing, is delivered, or has a default formatted like all ones |
| `SquashPlain.ResultSurvivesIff` | 03-syzkaller/prog/any.go:74-104 | for all deliveries, if and only if it refers to nothing or has such a default |
| `SquashExamples.TextClearsNeighbour` | 03-syzkaller/executor/executor.cc:1129-1143 | an input where the original clears a byte behind its text and the squashed pointer does not |
| `SquashExamples.OverlapIsLost` | 03-syzkaller/prog/any.go:257-271 | an input with overlapping objects whose squashed form fills in a zero over what the original set |
| `SquashExamples.RestOfUnitIsCleared` | 03-syzkaller/prog/any.go:344-362 | bits of a unit that belong to no field keep their old value originally and are cleared when squashed |
| `SquashExamples.UndeliveredChanges` | 03-syzkaller/prog/any.go:74-104 | an undelivered reference with default 0 changes, one with a default of all ones at its size does not |
| `SquashExamples.BigEndianResultChanges` | 03-syzkaller/prog/any.go:304-327 | a big-endian result is squashed to a native one, which sets its bytes in reverse |
| `SquashExamples.BigEndianBitfieldChanges` | 03-syzkaller/prog/any.go:344-362 | a big-endian bitfield is swapped before its bits are cut out and loses its value |
| `Squasher.Elems.SquashPtrImpl` | 03-syzkaller/prog/any.go:229-272 | the in-place traversal appends the prescribed pieces |
| `Squasher.Elems.SquashGroup` | 03-syzkaller/prog/any.go:329-370 | the loop over fields with its bitfield accumulator appends the prescribed pieces |
| `Squasher.SquashPointer` | 03-syzkaller/prog/any.go:210-227 | returns the squashed pointer |
| `Executor.MainKeeps` | 03-syzkaller/executor/executor.cc:552-801 | every step of the main thread keeps events, counters and records consistent |
| `Executor.WorkerKeeps` | 03-syzkaller/executor/executor.cc:999-1012 | so does every step of a worker |
| `Executor.NeverBad` | 03-syzkaller/executor/executor.cc:845-860 | in every interleaving no state check and no event check fails, and the counter of running calls is exact |
| `Executor.OneRecordEach` | 03-syzkaller/executor/executor.cc:720-763 | no call is reported twice; after the first pass each call has exactly one record, also when the program collides; a record holds the outcome of its own call, and one without outcome belongs to a call still being executed at the end of the first pass |
| `Executor.ExitsWhenFull` | 03-syzkaller/executor/executor.cc:767-783 | the process exits for lack of threads only when every thread is executing a call |
| `Executor.EveryPassComplete` | 03-syzkaller/executor/executor.cc:566-763 | a finished run has handed every call to a thread once per pass, in order, with a second pass if and only if colliding was asked for |
| `Executor.SweepCompletes` | 03-syzkaller/executor/executor.cc:698-737 | a call that is done when main starts to look for completed calls is completed before main goes on |
| `Executor.WaitsForCall` | 03-syzkaller/executor/executor.cc:689-707 | main waits for every call of the first pass and for every other call of the second, and then looks for completed calls |
| `VmLoop.Loop.constructor` | 03-syzkaller/syz-manager/manager.go:305-323 | all instances are free, the last one first |
| `VmLoop.Loop.Promote` | 03-syzkaller/syz-manager/manager.go:329-339 | pending crashes move to the queue unless their title is being reproduced, when they stay, or no reproduction is needed, when they are settled |
| `VmLoop.Loop.StartRepros` | 03-syzkaller/syz-manager/manager.go:352-366 | reproductions of the last queued crashes start while instances and queue allow, none before triage is over; instances stay partitioned |
| `VmLoop.Loop.StartInstances` | 03-syzkaller/syz-manager/manager.go:367-376 | fuzzing starts on free instances unless a reproduction waits for them |
| `VmLoop.Loop.Prepare` | 03-syzkaller/syz-manager/manager.go:325-383 | after each turn a queued crash waits only before triage is over or for lack of instances, free instances remain only for a queued crash, a shutdown starts nothing, and something is running, so the loop is never stuck |
| `VmLoop.Loop.Handle` | 03-syzkaller/syz-manager/manager.go:384-445 | every event keeps the partition, the count of reproducing instances and the set of titles exact, and every crash that ever arrived is pending, queued, being reproduced or settled |
| `VmLoop.Run` | 03-syzkaller/syz-manager/manager.go:305-447 | at every wait something is under way, and the loop ends only when shut down with every instance returned |
| `VmLoop.ReproEnds` | 03-syzkaller/syz-manager/manager.go:405-427 | a finished reproduction gives back exactly its instances |
| `VmLoop.TitleEnds` | 03-syzkaller/syz-manager/manager.go:405-427 | and exactly its title |
| `Coverage.DFunction.SetState` | 02-dependency/lib/DMM/DFunction.cpp:91-97 | the state of a function never goes down |
| `Coverage.DFunction.Update` | 02-dependency/lib/DMM/DFunction.cpp:99-108 | the recursive marking ends on cyclic call graphs; new marks are reachable and have only marked callees |
| `Coverage.DFunction.UpdateUntestedState` | 02-dependency/lib/DMM/DFunction.cpp:110-117 | all callees end up marked, in any order of iteration |
| `Coverage.ExactMore` | 02-dependency/lib/DMM/DFunction.cpp:99-117 | marking from one more function gives exactly the functions reachable from it or from the ones before |
| `Coverage.DModule.UpdateBlock` | 02-dependency/lib/DMM/DBasicBlock.cpp:78-103 | after every update the marked functions are exactly those reachable from functions with an updated block, each at the right state, other blocks are unchanged, and covered blocks are counted right |
| `Alloc.SetAdds` | 03-syzkaller/prog/alloc.go:89-103 | setting one bit of the two-level bitmap adds one granule and no other |
| `Alloc.MemAlloc.constructor` | 03-syzkaller/prog/alloc.go:32-44 | a new allocator has nothing allocated |
| `Alloc.MemAlloc.Set` | 03-syzkaller/prog/alloc.go:97-103 | sets one bit, allocating its block if needed |
| `Alloc.MemAlloc.Get` | 03-syzkaller/prog/alloc.go:105-111 | tells whether a granule is used |
| `Alloc.MemAlloc.NoteAlloc` | 03-syzkaller/prog/alloc.go:46-52 | adds exactly the granules that the bytes touch |
| `Alloc.MemAlloc.Bankruptcy` | 03-syzkaller/prog/alloc.go:78-87 | frees everything |
| `Alloc.MemAlloc.Find` | 03-syzkaller/prog/alloc.go:59-73 | finds the lowest run that fits if and only if one fits |
| `Alloc.MemAlloc.Alloc` | 03-syzkaller/prog/alloc.go:54-76 | returns the lowest free run; live allocations stay disjoint and in range; memory is given up at most once, exactly if nothing fits |
| `Signals.MergeInto` | 03-syzkaller/pkg/signal/signal.go:144-163 | the merging loop computes the join |
| `Signals.DiffOf` | 03-syzkaller/pkg/signal/signal.go:100-115 | the difference loop keeps what is new or has higher priority |
| `Signals.MergeDiff` | 03-syzkaller/pkg/signal/signal.go:100-163 | merging the difference equals merging the whole |
| `Signals.DiffLeast` | 03-syzkaller/pkg/signal/signal.go:100-115 | whatever gives the same merge contains the difference |
| `Signals.TakeBatch` | 03-syzkaller/pkg/signal/signal.go:39-56 | splitting off a batch loses nothing and takes as many elements as asked for |
| `MaxSignal.StepKeeps` | 03-syzkaller/syz-manager/rpc.go:137-157 | every step keeps each fuzzer in order |
| `MaxSignal.NoSignalLost` | 03-syzkaller/syz-manager/rpc.go:69-89 | at every moment of every history a connected fuzzer knows or will be told all of the manager's signal, and nothing it found new is lost |
| `MaxSignal.PollsDrain` | 03-syzkaller/syz-fuzzer/fuzzer.go:376-391 | each poll hands out the next batch; when none is left the fuzzer knows everything |
| `MaxSignal.DiscoverOk` | 03-syzkaller/syz-fuzzer/fuzzer.go:495-507 | new signal is known to the fuzzer at once and will be reported |
| `MaxSignal.DiscoveryStays` | 03-syzkaller/syz-fuzzer/fuzzer.go:425-507 | what a fuzzer discovers or learns it knows ever after, and what of a discovery was new to it is with the manager or on its way at every later moment, until its process is replaced |
| `MaxSignal.SendOk` | 03-syzkaller/syz-fuzzer/fuzzer.go:466-475 | grabbing the new signal moves it into the request |
| `Checksum.FoldIsResidue` | 03-syzkaller/executor/common.h:373-374 | folding is arithmetic modulo 2^16 - 1 |
| `Checksum.AddWords` | 03-syzkaller/executor/common.h:366-371 | the 32-bit accumulator does not overflow for up to 131072 bytes |
| `Checksum.Update` | 03-syzkaller/executor/common.h:361-375 | an update adds the words of the data and folds |
| `Checksum.Accumulate` | 03-syzkaller/executor/test.h:166-195 | the checksum of even chunks with any last one equals that of the whole, as in section 2 of RFC 1071 |
| `Checksum.OddIsPadded` | 03-syzkaller/executor/common.h:370-371 | an odd length counts as if a zero byte followed, as in section 4.1 of RFC 1071 |
| `Checksum.StoredChecksumVerifies` | 03-syzkaller/executor/common.h:377-380 | the stored digest makes the whole sum fold to all ones, as in section 1 of RFC 1071 |
| `Checksum.LongerDataOverflows` | 03-syzkaller/executor/common.h:361-375 | one word more than 131072 bytes can lose a carry |
| `MinimizeCalls.DropKept` | 03-syzkaller/prog/minimization.go:71-77 | removing calls one by one depends only on which calls are kept |
| `ProgMinimize.RemoveCalls` | 03-syzkaller/prog/minimization.go:62-80 | the loop over programs in memory, for answers that may differ each time: the result stands for the original reduced to some of its calls, the index follows its call, a changed result was accepted, removing any other kept call was refused when it was tried, and the original is untouched |
| `Minimize.CutData` | 03-syzkaller/prog/minimization.go:220-243 | the cutting loop ends with a prefix of the data that respects the minimal length |
| `Minimize.DoProgress` | 03-syzkaller/prog/minimization.go:93-103 | an attempt keeps the shape, or makes the tree smaller after trying a new path |
| `Minimize.Pass` | 03-syzkaller/prog/minimization.go:43-50 | one pass tries the arguments in order until one asks for a restart |
| `MinimizeLog.MinimizeArgs` | 03-syzkaller/prog/minimization.go:33-51 | the restart loop ends for every predicate with every argument tried and no more nodes than before; its questions are a history of passes in which every question is about the last accepted state with one thing simplified, an accepted change stays, a refused one is undone, and a removal ends the pass |
| `MinimizeLog.LastAcceptedIff` | 03-syzkaller/prog/minimization.go:33-51 | the result is what was accepted last if and only if no pass that kept its working copy ended with a refused removal, with nothing accepted after it |
| `MinimizeLog.NeverAgrees` | 03-syzkaller/prog/minimization.go:190-243 | if nothing is accepted and there is no blob, nothing changes |
| `MinimizeAgreed.AlwaysAgrees` | 03-syzkaller/prog/minimization.go:93-243 | if everything is accepted and no path comes up twice, nothing is left to simplify: no value but defaults, no reference, no pointee, and blobs and arrays as short as allowed |
| `MinimizeAgreed.SameNameStays` | 03-syzkaller/prog/minimization.go:93-103 | of two fields with the same name only the first is tried |
| `MinimizeLog.CrashKeepsValues` | 03-syzkaller/prog/minimization.go:179-218 | after a crash no integer and no resource changes |
| `MinimizeLog.IntDecided` | 03-syzkaller/prog/minimization.go:179-198 | after an attempt an integer is the default if and only if it was before or its question was accepted, and unchanged otherwise |
| `MinimizeLog.ResourceDecided` | 03-syzkaller/prog/minimization.go:200-218 | a resource keeps its reference if and only if it was not asked about or refused |
| `Resources.Round` | 03-syzkaller/prog/resources.go:139-162 | a round adds calls that are ready, in any order; a round without change means a closed set |
| `Resources.Explain` | 03-syzkaller/prog/resources.go:164-185 | every call that is not supported lacks a resource |
| `Resources.TransitivelyEnabledCalls` | 03-syzkaller/prog/resources.go:126-190 | the supported calls are the least closed set and have a creation order; together with the disabled ones they are all enabled calls |
| `Resources.LeastIsUnique` | 03-syzkaller/prog/resources.go:138-163 | the result does not depend on the order of iteration |
| `ChoiceTable.BuildRow` | 03-syzkaller/prog/prio.go:222-238 | a row holds the running sums of the weights of enabled calls |
| `ChoiceTable.SearchInts` | 03-syzkaller/prog/prio.go:251-252 | the binary search finds the smallest index that reaches the draw |
| `ChoiceTable.Choose` | 03-syzkaller/prog/prio.go:242-257 | the first draw selects an enabled call of positive weight, the one a linear scan selects |
| `ChoiceTable.ChosenByWeight` | 03-syzkaller/prog/prio.go:207-257 | over all draws each call is selected exactly as often as its weight says |

## Left out

- Parser: the recursive descent over arguments is modelled on the remaining text instead of a position in the line; only its lexer and data loops are modelled in place.
- ProgEdits.Prog.RegenerateArg: calls are named by position instead of by pointer, and slices of arguments are sequences that nodes own.
- ProgValues.EditClone: of regenerated arguments only constants are among the edits of the list; others need generated arguments that fit, and ProgValues.Isolation covers them.
- Squasher.Elems.SquashPtrImpl: trees are values; only the list of pieces is updated in place.
- SquashMemory.SquashKeepsImage: checksum instructions, which come after all copyins, are not executed; bitfields of 64 bits are excluded, because the mask of the executor then shifts by the width of a word, which is undefined; objects end inside memory.
- Memory.FieldApplies: requires fewer than 64 bits, because the mask of the executor is undefined for 64.
- ExecWriter.SerializeForExec: requires fields that fit their bits in the instruction words; checksum instructions are given as a list instead of being derived from the descriptions; a reference without any index, on which the source panics, is written as index 0 and is excluded by ExecDecode.ValidCompiles.
- ExecMeaning.CompiledBehaves: the executor is taken to hold any number of results; ExecWhole.LimitIff says when its table suffices.
- Executor.OneRecordEach: coverage, comparisons and flags inside a record are not modelled, nor is the time that waits take, so that any wait may end early; setting an event is one step.
- ProgMinimize.RemoveCalls: the predicate is a stream of answers, and what it was asked about is recorded.
- MinimizeLog.MinimizeArgs: does not claim that the predicate holds of the result, which MinimizeLog.LastAcceptedIff says when it does; the predicate is a stream of answers, and length fields that are recalculated after a cut or a removal are not modelled.
- MaxSignal.NoSignalLost: a fuzzer has one poll at a time, and connecting again replaces the process of that name; corpus inputs and candidates in replies are not modelled.
- Coverage.DModule.UpdateBlock: inference of uncovered neighbours and the inputs kept per block are not modelled; every block has a function.
- VmLoop.Run: queries of the loop by other goroutines, which change nothing, are not modelled; whether a crash needs a reproduction is an arbitrary function, a new one each turn.
- ChoiceTable.Choose: requires a positive total, without which the source panics; weights are integers, taken after the conversion from floating point.
- Alloc.MemAlloc.Alloc: requires a request no larger than memory, without which the source does not return.
- Comments and automatic values in program text, type names, and the fix-up of calls after parsing.
- Generation and mutation of values, hints, priorities from the corpus, and text of machine code: random choice without a specification.
- System-call wrappers, sandboxes, network and USB setup of the executor, the hub, the continuous-integration service, dashboards and web pages.
- Parsing of object files and assembly, and remote calls of the mapper; its call graph and blocks are taken as given.
