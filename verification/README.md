# Mea-eDomus automation core: a verified model

The project models the logic of a home-automation server written in C, and proves what it
keeps over all inputs and all runs.

- **Formulas** (`Formula`, `Precedence`, `Operators`, `StackMachine`, `Compiler`, `Faults`, `Overrun`,
  `FormulaLaws`): the compiler from infix formulas to stack instructions, its error codes, and the
  stack machine that runs them. Arithmetic,
  truncation and variable lookup are parameters. An incoming operator pops at most one pending
  operator, as in the source; the project proves for exactly which formulas that gives the usual
  meaning.
- **JSON** (`Json`, `JsonParser`, `JsonRoundTrip`, `JsonLiterals`, `JsonRefusals`, `JsonPrinter`,
  `JsonBuffer`): the recursive parser, the two-pass printer and the growing-buffer printer.
- **Web server** (`SocketQueue`, `Glob`): the ring of 20 sockets between one master and many
  workers, as atomic steps with condition variables, and the backtracking pattern matcher.
- **Queue** (`Queue`): the doubly linked list with a cursor, and its sorted index.
- **Automaton** (`Inputs`, `Marks`, `FormulaCache`, `Evaluation`, `Automaton`): the input table and
  its change marks, the match/play/reset cycle, the ids of variables, rule reloads and the cache of
  compiled formulas.
- **Timers** (`Timers`), **parameters** (`Parameters`), **registry** (`Registry`,
  `RegistryEffects`, `RegistryInPlace`): timers, counted handles on cached parsed strings, and interfaces and devices
  with their ids and index.

Where the source updates something in place, a class or an array method does it here and is proved
against a function of the old state; the laws are lemmas about those functions and about runs of
them. `dafny verify dfyconfig.toml` checks the whole project.

The code and what it sets out to do part ways in places. The model follows the code, and the lemmas
say exactly when the promise holds:

- precedence holds exactly where one pop suffices (`Precedence.PrecedenceExactly`,
  `FormulaLaws.MeansExactly`); `FormulaLaws.SecondPopExample` is a formula where it does not;
- a formula whose compilation reaches a variable that is not in the input table waits for ever: the
  id request adds the entry under a lock that it already holds (`FormulaCache.BlocksExactly`; `{x}`
  in `FormulaCache.UnlistedBlocks`);
- a variable that already has an id cannot be compiled again before the next reload, so a formula
  that names a variable twice, or one that another formula has used, never compiles
  (`FormulaCache.CompilesExactly`; `{a}+{a}` in `FormulaCache.RepeatedIsBroken`);
- the compiler checks neither its ten operators nor its eighty instructions, and overruns them
  exactly on formulas with more than ten rises of priority at a level or more than eighty
  instructions (`Overrun.OverrunExactly`, `FormulaCache.OverrunsExactly`; `#1` and ten times
  `+#1*#1` in `Overrun.OverrunExample`);
- ids are narrowed to 16 bits, and lead back to their variable exactly when they fit
  (`FormulaCache.LeadsHomeExactly`; id 0x8000 in `FormulaCache.TooManyIds`);
- a new input fires change rules in every cycle until it is assigned (`Inputs.FiresUnwritten`; two
  cycles in `Inputs.NewFiresAgain`);
- the indexed search runs off the index exactly for keys below every element
  (`Queue.List.FindUsingIndex`; `Queue.BelowLeastExample`), and taking the last element from under
  the cursor leaves it dangling (`Queue.List.Out`; `Queue.DanglingExample`);
- a device may be given the name of another interface's device, which it then hides in the index
  (`Registry.AddDeviceExactly`, `Registry.LoadExactly`; `Registry.TwiceNamedExample`);
- deleting a device through the wrong interface leaves it in the tree and out of the index
  (`Registry.DeleteDeviceExactly`; `Registry.WrongOwnerExample`);
- a forced clean frees handles in use (`Parameters.CleanSafeExactly`;
  `Parameters.ForcedCleanExample`), and any clean does once an entry has a multiple of 65536 handles
  out (`Parameters.WrappedCleanExample`); parameters that the cache had no room for are freed at
  their release exactly when the allocated memory did not hold the mark of the cache
  (`Parameters.UncachedFreedExactly`);
- a string whose last backslash escapes the end of the text is read past it
  (`JsonRoundTrip.OverreadExactly`; `JsonRoundTrip.OverreadExample`);
- the search for the next timer keeps the latest end, which is the next to fall exactly when all
  running timers end together (`Timers.NextFallsFirstExactly`; `Timers.LaterIsFound`).

## Model

| member | source | states |
|---|---|---|
| Precedence.PrecedenceExactly | src/mea_eval.c:234-257 | the instructions emitted for a formula are the postfix of its usual reading (precedence, left associativity) if and only if no operator, at any level, arrives where both the top pending operator and the one below it bind at least as strongly |
| Precedence.EmitAgainstReading | src/mea_eval.c:429-478 | the general form behind it: from any pending operators and half-read terms, one pop per operator gives the reading's instructions exactly when one pop suffices |
| Formula.EmitLength | src/mea_eval.c:328-510 | the number of emitted instructions is the formula's size plus the operators pending, whatever the order |
| Operators.ReadingOfSum | src/mea_eval.c:234-257 | the grammar's law for `+` and `-`: a formula read before either, joined to a term of `*`, `/` and `%`, reads as the operation on the two readings |
| Operators.ReadingOfTerm | src/mea_eval.c:234-257 | the grammar's law for `*`, `/` and `%`: a term followed by one of them and an operand reads as the operation on the two, so the left ones are done first |
| Operators.ReadingOfOperand | src/mea_eval.c:339-461 | one operand reads as a number, a variable, what its parentheses hold, or the function of what its parentheses hold |
| Operators.ReadingOfThree | src/mea_eval.c:234-257 | with each operator by name: for `+` or `-` before `*`, `/` or `%` the second is done first; in each other case the first is, so operators of one group associate to the left |
| Operators.EmittedForThree | src/mea_eval.c:465-502 | the instructions emitted for three operands and any two operators: the second's comes first exactly for `+` or `-` before `*`, `/` or `%` |
| Operators.CompiledThree | src/mea_eval.c:328-510 | the tokens of three operands and any two operators compile to those instructions, with the ids given in the order met |
| Operators.CompiledNumbers | src/mea_eval.c:328-510 | three numbers and any two operators compile to five instructions, whatever the callback: which five, and in which order, operator by operator |
| Operators.EmittedForCall | src/mea_eval.c:391-457 | a function's instruction comes right behind its argument's and before that of an operator on either side |
| Precedence.OnePopFits | src/mea_eval.c:330 | where one pop suffices, no level ever holds more than three pending operators, so the array of ten is never overrun |
| Precedence.OperatorsFitExactly | src/mea_eval.c:422-479 | as many operators wait at a level as priorities have risen there: the array of a given size is kept at every level if and only if priorities rise at most that often, the first operator included |
| Compiler.CompileExactly | src/mea_eval.c:328-510 | a token list compiles if and only if it is the text of a formula within the limits whose variables are all given ids in the order met, and then the instructions are exactly those of that formula with those ids |
| Compiler.Accepted | src/mea_eval.c:328-510 | every accepted token list is the text of a formula, which the lemma returns |
| Compiler.WalkSound | src/mea_eval.c:339-502 | a level that is accepted from any position, with any operators pending, has read the text of a chain that ends where the level ends |
| Compiler.WalkExactly | src/mea_eval.c:339-502 | a chain's text at any position and level, with any operators waiting: within the limits it is read to its end and its instructions follow those already emitted; beyond them the arrays are overrun |
| Compiler.CompileKeeps | src/mea_eval.c:525-556 | whatever a compilation's outcome, what each id request keeps, the whole compilation keeps |
| Faults.FirstOperandFaults | src/mea_eval.c:332-461 | error codes at the first operand: an empty text, a token that starts nothing, a refused variable, a function without its parenthesis, an empty parenthesis |
| Faults.TooDeepExactly | src/mea_eval.c:332-345 | eleven opened parentheses are refused as too deep, or as an empty level when nothing follows |
| Faults.WalkBreaks | src/mea_eval.c:461-495 | what follows a formula at any level: a parenthesis that closes nothing, a token that is no operator, or an operator without an operand is refused with its own code, each variable before it having been asked for |
| Faults.AfterFormulaFaults | src/mea_eval.c:461-495 | the same for a whole text: a formula and more is refused with the code for what comes next |
| Faults.UnclosedFaults | src/mea_eval.c:350-421 | a parenthesis, or a function's, that the text does not close has its own error code each |
| Faults.InsideFaults | src/mea_eval.c:350-371 | inside parentheses a token that is no operator is refused as such |
| Compiler.Builder.Push | src/mea_eval.c:260-292 | one instruction is appended, or the fixed buffer is full and nothing changes |
| Compiler.Builder.Arrive | src/mea_eval.c:429-444 | an operator pops at most one pending operator and takes its place, or is stacked above it |
| Compiler.Builder.ReadOperand | src/mea_eval.c:339-461 | the in-place reading of one operand agrees with the specification, on success and for every error |
| Compiler.Builder.EvalLevel | src/mea_eval.c:328-510 | the in-place compilation of one parenthesis level, with its own operator array, agrees with the specification |
| Compiler.Builder.EmitRemaining | src/mea_eval.c:498-502 | the operators left at the end of a level are emitted from the top down |
| Compiler.BuildStack | src/mea_eval.c:527-556 | the whole in-place compiler computes the specified outcome: instructions, or the error code's fault, and the environment after all id requests |
| Overrun.OverrunExactly | src/mea_eval.c:328-510 | a formula nested at most ten deep, whose variables all get ids, overruns the compiler's arrays if and only if priorities rise more than ten times at some level or it has more than eighty instructions; otherwise it compiles |
| Overrun.JoiningOverruns | src/mea_eval.c:330-479 | numbers joined by operators overrun the arrays if and only if there are forty operators or eleven rises of priority |
| Overrun.OverrunExample | src/mea_eval.c:461-477 | `#1` followed by k times `+#1*#1` overruns the arrays if and only if k is at least ten, with 41 instructions and no parenthesis at ten |
| Overrun.ModestNeverOverruns | src/mea_eval.c:328-510 | a text of at most ten operators and calls, for at most eighty instructions, overruns nothing, be it a formula or not |
| StackMachine.StepInPlace | src/mea_eval.c:582-623 | one instruction on the array of 50 slots does what it does on the sequence of cells |
| StackMachine.Calc | src/mea_eval.c:582-640 | the loop over the array of 50 slots computes the specified run, with the overflow check after each instruction |
| StackMachine.ExecutePostfix | src/mea_eval.c:582-640 | postfix instructions push the tree's value, or stop as the tree's evaluation stops, above any stack with room |
| StackMachine.RunPostfix | src/mea_eval.c:582-640 | running the postfix of a tree is evaluating the tree, failures included |
| StackMachine.RunIsSafe | src/mea_eval.c:372-502 | the instructions of any formula, of any precedence shape, never pop an empty stack and never read an id as a number or a number as an id: they end with one value, or in an arithmetic, lookup or overflow failure |
| StackMachine.PushesOverflowExactly | src/mea_eval.c:582-626 | numbers pushed one after the other stop the run with an overflow if and only if there are fifty of them |
| StackMachine.FreeRun | src/mea_eval.c:582-640 | over arithmetic that builds trees, instructions that yield a tree are the postfix of that tree: the machine loses nothing |
| FormulaLaws.RunsAsRead | src/mea_eval.c:582-640 | compile then run gives the usual reading's value, failing exactly as the reading fails, for every formula where one pop suffices |
| FormulaLaws.ValueExactly | src/mea_eval.c:429-444 | over trees as numbers, where no two different computations agree by accident, the run gives the usual reading if and only if one pop suffices |
| FormulaLaws.MeansExactly | src/mea_eval.c:429-444 | run and reading agree for every arithmetic on trees, in value and in failure, if and only if one pop suffices |
| FormulaLaws.SecondPopExample | src/mea_eval.c:429-444 | `a - b*c + d` compiles, and on whole numbers runs to `a - (b*c + d)`, while its usual reading gives `a - b*c + d`: the two differ exactly when d is not 0 |
| FormulaLaws.PrintedRunsAsTree | src/mea_eval.c:328-510 | the fully parenthesised text of any expression tree within the limits compiles and runs to the tree's value, with no condition on precedence |
| FormulaLaws.ReadingOfPrinted | src/mea_eval.c:339-361 | the usual reading of a fully parenthesised text is the tree it was printed from, with at most two operators pending |
| FormulaLaws.RunRenamed | src/mea_eval.c:582-640 | renaming a program's variables together with what they are looked up in changes no result |
| JsonRoundTrip.RoundTrip | src/cJSON.c:333-353 | for every tree of null, booleans, 32-bit integers, NUL-free strings, arrays and objects, parsing the printed text, formatted or not, gives back the same tree, order and duplicate names included, and consumes all of it |
| JsonRoundTrip.PrintIsInjective | src/cJSON.c:352-353 | two printable trees with the same text are the same tree, even when one was formatted and the other not |
| JsonRoundTrip.ParsePrinted | src/cJSON.c:367-379 | a printed value is parsed back anywhere inside a longer text, from its first character to its last |
| JsonRoundTrip.ParseInteger | src/cJSON.c:106-125 | a printed integer is read back wherever nothing that could continue a number follows it |
| JsonRoundTrip.ParseQuoted | src/cJSON.c:202-259 | a printed string is read back through its escapes |
| JsonRoundTrip.OverreadExactly | src/cJSON.c:202-259 | a string without \u escapes is read past the end of the text if and only if no quote ends it and its last backslash escapes the end of the text |
| JsonRoundTrip.OverreadExample | src/cJSON.c:202-259 | a text of a quote and a backslash is read past its end |
| JsonRoundTrip.PrintIsText | src/cJSON.c:382-414 | the text of a printable tree is NUL-free and does not start with a blank, so a C string carries it |
| JsonLiterals.DecimalIsRead | src/cJSON.c:106-125 | every decimal, with sign, fraction and exponent or without, is read as the digits of its whole part and its fraction together, with a scale of one less for each digit of the fraction, moved by the signed exponent |
| JsonLiterals.ExponentIsRead | src/cJSON.c:114-117 | an exponent after e or E is read with its sign: minus is negative, plus or none is not |
| JsonLiterals.AppendedIsShifted | src/cJSON.c:111-113 | the digits of a number and a fraction together are the number moved by as many places, and the fraction's own digits |
| JsonLiterals.EscapesByName | src/cJSON.c:262-317 | each escape the printer writes, by its character |
| JsonLiterals.Utf8IsDecoded | src/cJSON.c:238-247 | the bytes written for any code point, of 1 to 4 as its size demands, have the marks of UTF-8 and decode to it |
| JsonLiterals.UnicodeIsRead | src/cJSON.c:226-248 | a \u escape of any code point is read as its UTF-8, in one for 16 bits and in a pair beyond |
| JsonLiterals.LayoutByExample | src/cJSON.c:446-670 | the text of an object with an array and an object inside, formatted and not, character by character |
| JsonRefusals.SkipExactly | src/cJSON.c:330 | blanks are the characters up to the space, and the first other one ends them |
| JsonRefusals.NoValueIsRefused | src/cJSON.c:367-379 | a text that starts no value, or with a misspelt word, is refused |
| JsonRefusals.ArrayOutcomes | src/cJSON.c:418-443 | an array is empty, of one item, or refused: for a comma with no value behind it, or anything but a comma or the end behind an item |
| JsonRefusals.ObjectOutcomes | src/cJSON.c:526-559 | an object is empty, of one member, or refused: for a name without quotes, a missing colon, or a separator out of place |
| JsonRefusals.OtherEscapes | src/cJSON.c:249 | a character escaped without a meaning of its own stands for itself |
| JsonRefusals.DroppedEscapes | src/cJSON.c:226-235 | a zero, a low half of a pair, and a high half without its low one stand for nothing |
| JsonParser.SkipBlanks | src/cJSON.c:330 | the loop over blanks stops where the specification says |
| JsonParser.ReadNumber | src/cJSON.c:106-125 | the number reader's loops compute the specified digits and scale |
| JsonParser.ReadExponent | src/cJSON.c:114-117 | the exponent's sign and digits, or none, are read as specified |
| JsonParser.ReadString | src/cJSON.c:202-259 | the string reader's loop decodes every escape, surrogate pairs and malformed ones included, as specified |
| JsonParser.ReadValue | src/cJSON.c:367-379 | the value reader agrees with the specification on every text, accepted or not |
| JsonParser.ReadArray | src/cJSON.c:418-443 | the array reader's loop agrees with the specification on every text |
| JsonParser.ReadObject | src/cJSON.c:526-559 | the object reader's loop agrees with the specification on every text |
| JsonPrinter.StringSize | src/cJSON.c:262-288 | the first pass over a string counts exactly the characters of its quoted text |
| JsonPrinter.WriteString | src/cJSON.c:290-317 | the second pass writes exactly the quoted text, inside the size counted |
| JsonPrinter.PrintNumber | src/cJSON.c:157-171 | an integer's text, in two characters for zero and in 21 otherwise, which is always room enough |
| JsonPrinter.PrintValue | src/cJSON.c:382-414 | the two-pass printer's array holds exactly the text of the tree, with its NUL inside the allocation |
| JsonPrinter.ComposeArray | src/cJSON.c:509-522 | the texts of an array's items, computed in the first pass, are joined within the size computed from their lengths |
| JsonPrinter.PrintArray | src/cJSON.c:446-523 | the two-pass array printer writes the array's text |
| JsonPrinter.ComposeObject | src/cJSON.c:651-669 | the names and values of an object are joined within the size computed in the first pass |
| JsonPrinter.PrintObject | src/cJSON.c:562-670 | the two-pass object printer writes the object's text |
| JsonBuffer.Pow2GtIsPower | src/cJSON.c:127 | on 32-bit words, the bit-smearing computation gives a power of two that is at least its argument and less than twice it |
| JsonBuffer.Pow2GtIsPowerAtLeast | src/cJSON.c:127 | for requests of 1 to 2^30 characters the bit-smearing computation is exactly the size that the buffer model grows to |
| JsonBuffer.PowerAtLeast | src/cJSON.c:127 | the size a buffer grows to is a power of two at least as large as the request |
| JsonBuffer.PrintBuffer.Ensure | src/cJSON.c:131-146 | room for the request behind the offset, with everything written so far kept |
| JsonBuffer.PrintBuffer.Update | src/cJSON.c:148-154 | the offset moves to the end of the text just written |
| JsonBuffer.PrintBuffer.PrintValue | src/cJSON.c:382-414 | the growing-buffer printer appends exactly the tree's text behind what the buffer already holds |
| JsonBuffer.PrintBuffer.PrintArray | src/cJSON.c:465-480 | the same for arrays, element by element through the buffer |
| JsonBuffer.PrintBuffer.PrintObject | src/cJSON.c:582-619 | the same for objects, member by member |
| JsonBuffer.PrintAllocated | src/cJSON.c:352-353 | the two-pass printer returns the text of the tree |
| JsonBuffer.PrintBuffered | src/cJSON.c:355-363 | the growing-buffer printer returns the same text, whatever size the buffer started with |
| SocketQueue.Context.Produce | src/mongoose.c:4959-4977 | an accepted socket is stored behind the others, or the ring is full and nothing changes |
| SocketQueue.Context.Consume | src/mongoose.c:4877-4904 | the oldest socket is taken, and the joint subtraction of 20 leaves the contents as they were |
| SocketQueue.PutContents | src/mongoose.c:4967-4972 | storing at the head's slot appends to the contents and overwrites no live slot |
| SocketQueue.TakeContents | src/mongoose.c:4889-4898 | taking at the tail's slot removes the first of the contents, also across the wrap |
| SocketQueue.StepKeepsOrder | src/mongoose.c:4877-4904 | each atomic step keeps: deliveries, ring, and the socket in the master's hand are the accepted sockets in order, with 0 <= tail <= 20 and tail <= head <= tail + 20 |
| SocketQueue.RunsKeepInvariant | src/mongoose.c:4877-4977 | every interleaving keeps the order of sockets and the alertness of the threads, from any state that has them |
| SocketQueue.DeliveredInOrder | src/mongoose.c:4877-4977 | over every interleaving of one master and any number of workers, what has been delivered is a prefix of what was accepted, in order and each exactly once |
| SocketQueue.NoLostWakeUp | src/mongoose.c:4877-4977 | in every reachable state, a non-empty ring means some worker is not blocked, a blocked master means the ring is full, and master and workers are never all blocked |
| SocketQueue.NobodySleepsBesideWork | src/mongoose.c:4877-4977 | over every interleaving, while any worker is blocked, at least as many workers are on their way to the ring as there are sockets in it |
| SocketQueue.AllCanBeDelivered | src/mongoose.c:4877-4977 | from every reachable state some continuation delivers every socket in the ring |
| Glob.MatchPrefix | src/mongoose.c:875-912 | a positive result n means that the first n characters match some alternative of the pattern; any other result means that no alternative matches a non-empty prefix; the first alternative that matches one is taken, at its longest |
| Glob.MatchStar | src/mongoose.c:892-906 | trying a star's longest span first and one character less each time finds the longest prefix that the pattern matches, or none exactly when there is none |
| Glob.AlternativesSplit | src/mongoose.c:878-884 | matching a pattern with a bar is matching its first alternative or the rest |
| Glob.LaterIsLonger | src/mongoose.c:892-906 | why the first success is the longest: a pattern that matches from two places reaches at least as far from the later one |
| Glob.ChosenOnce | src/mongoose.c:875-912 | the pattern and the text determine the result |
| Glob.PlainMatches | src/mongoose.c:907-911 | a pattern without special characters matches itself and nothing else |
| Glob.StarMatchesExactly | src/mongoose.c:892-902 | `t*` matches t and anything up to the next slash, and `t**` matches t and anything at all |
| Glob.EndMatchesExactly | src/mongoose.c:890-906 | `**t$` matches a whole text if and only if it ends with t, and nothing less |
| Glob.QuestionsMatchExactly | src/mongoose.c:888-889 | each `?` takes exactly one character |
| Queue.List.In | src/mea_queue.c:25-59 | the list becomes the new element followed by the old ones, the cursor stays on its element, and the index is out of force |
| Queue.List.Out | src/mea_queue.c:62-95 | the oldest element is taken off; a cursor on it is left dangling, any other stays; an empty queue is refused unchanged |
| Queue.List.First | src/mea_queue.c:142-150 | the cursor goes to the newest element, if there is one |
| Queue.List.Last | src/mea_queue.c:153-161 | the cursor goes to the oldest element, if there is one |
| Queue.List.Next | src/mea_queue.c:164-177 | the cursor moves one element on, or off the end |
| Queue.List.Prev | src/mea_queue.c:180-194 | the cursor moves one element back, or off the start |
| Queue.List.Current | src/mea_queue.c:245-258 | the data under the cursor, if it is on an element |
| Queue.List.RemoveCurrent | src/mea_queue.c:261-315 | the element under the cursor is unlinked and the cursor moves on; an only element goes wherever the cursor is |
| Queue.List.Cleanup | src/mea_queue.c:197-242 | every element is released, oldest first, and a cursor that was on one is left dangling |
| Queue.List.FindElem | src/mea_queue.c:340-363 | the scan returns the first element that compares equal, or there is none; it is an error exactly on an empty queue |
| Queue.List.CreateIndex | src/mea_queue.c:387-449 | the index is a sorted permutation of the data, in force exactly when the queue is not empty |
| Queue.List.RecreateIndex | src/mea_queue.c:452-494 | the index is made again unless it is in force and not forced; refused exactly when there is data but no order |
| Queue.List.RemoveIndex | src/mea_queue.c:497-511 | the index is dropped and the list untouched |
| Queue.List.GetByIndex | src/mea_queue.c:367-384 | the i-th element in order, exactly when an index is in force and i is within the data |
| Queue.List.FindUsingIndex | src/mea_queue.c:514-550 | bisection ends, and finds an element that compares equal whenever there is one; it runs off the index exactly when the key is below every element, which is when the unsigned bound wraps |
| Queue.FirstInFirstOut | src/mea_queue.c:25-315 | over every run of queue calls, what came out followed by what is left is a subsequence, in order, of what went in, missing exactly as many elements as were dropped; with none dropped it is what went in |
| Queue.Traversal | src/mea_queue.c:142-194 | first-to-next reads every element once from the newest, last-to-prev every element once from the oldest |
| Queue.RemoveDoes | src/mea_queue.c:261-315 | removing takes out the element under the cursor alone, and leaves the cursor on the one behind it, or nowhere |
| Queue.CursorStays | src/mea_queue.c:25-95 | what goes in or out leaves the cursor on its element, unless that one is taken |
| Queue.CursorMoves | src/mea_queue.c:142-194 | first, last, next and previous put the cursor on the newest, the oldest, the following and the preceding element, and change nothing else |
| Queue.BelowLeastExample | src/mea_queue.c:514-550 | the search for 3 in an indexed queue that holds 5 runs off the index |
| Queue.DanglingExample | src/mea_queue.c:62-95 | a cursor on the only element is left on freed memory when that element is taken |
| Inputs.InputsTable.AddToInputs | src/automator.c:1904-2065 | the table after an assignment: value, and mark by the old value, the old mark, the forced mark and the update flag; and whether the change is announced |
| Inputs.InputsTable.ResetChangeFlags | src/automator.c:2080-2096 | every mark becomes STAY except UNKNOWN and NEW |
| Inputs.InputsTable.PlayOutputRules | src/automator.c:1346-1440 | which rules fire, each on the table as the actions of the rules before it left it; the table after all actions, whose assignments are evaluated when their rule fires; and which rules are dropped |
| Inputs.InputsTable.Turn | src/automatorServer.c:280-328 | one match, play and reset turn of the automaton |
| Inputs.Provenance | src/automator.c:1904-2065 | an entry is as the last assignment to it left it, or as it was before |
| Inputs.EdgesAreFresh | src/automator.c:1346-1440 | over every run of cycles, a rise or fall rule fires only on an edge that an assignment of the same cycle produced and no later one replaced |
| Inputs.FiresUnwritten | src/automator.c:1371-1402 | a rule fires on an input its cycle has not assigned if and only if the input is still NEW and the rule is for changes or for new inputs: a new input fires again in every cycle until it is assigned |
| Inputs.NewFiresAgain | src/automator.c:1371-1402 | one new input that nothing assigns fires a change rule in the first cycle and again in the second |
| Inputs.StayExactly | src/automator.c:1917-1998 | an assignment of a typed value is marked STAY if and only if a known input already has that value; only a value without a type gives UNKNOWN, only text over another type gives TYPECHANGE |
| Inputs.AnnouncedExactly | src/automator.c:1917-2015 | an updating assignment of a typed value, with no mark forced, goes unannounced if and only if a known input already has that value |
| Inputs.EdgesBalance | src/automator.c:1904-2065 | while an input stays boolean, RISE and FALL strictly alternate and #RISE - #FALL is its net change, over any sequence of assignments and ends of cycle |
| Inputs.RunIsActs | src/automatorServer.c:280-328 | what a run of cycles leaves in an input is what its own assignments, by input and output rules, and the ends of the cycles make of it |
| Inputs.EdgesBalanceInRun | src/automator.c:1904-2065 | in every run of cycles that writes only booleans to a boolean input, its RISE and FALL strictly alternate over all cycles and #RISE - #FALL is its net change |
| Inputs.NoFallNoDecrease | src/automator.c:1904-2065 | a numeric input that no assignment marks FALL never decreases between any two moments of its run |
| Marks.KnownMarks | src/automator.c:1930-1991 | a known input keeping its type is marked RISE if and only if the new number is greater or the new boolean is a new true, FALL if and only if it is less or a new false, STAY if and only if it is the same, and a text CHANGE if and only if it is another |
| Marks.UnknownMarks | src/automator.c:1930-1991 | an input of unknown value keeping its type is marked by the new value alone: RISE for numbers above zero and true, FALL for the others and false, CHANGE for texts |
| Marks.TypeChangeMarks | src/automator.c:1917-1991 | a change of type is marked by the new value alone: FALL for zero and false, RISE for other numbers and true, TYPECHANGE for texts |
| Marks.OtherMarks | src/automator.c:1904-2065 | all other assignments: a first one is marked NEW, or UNKNOWN when it does not update, a forced mark is taken over, an assignment that does not update leaves UNKNOWN; the value is stored, and no other input changes |
| Marks.ResetMarks | src/automator.c:2080-2096 | at the end of a cycle every value stays, UNKNOWN and NEW stay, and every other mark becomes STAY |
| Marks.NoRiseNoIncrease | src/automator.c:1904-2065 | a numeric input that no assignment marks RISE never increases between any two moments of its run |
| Marks.FiresWritten | src/automator.c:1371-1402 | over every run of cycles, a rule on an input written in its cycle fires if and only if the last write before it left RISE for kind 1, FALL for kind 2, CHANGE, RISE, FALL or NEW for kind 3, NEW for kind 4 |
| Marks.NumericRules | src/automator.c:1371-1402 | so when that write is a number to a known number, rise rules fire exactly on an increase, fall rules exactly on a decrease, change rules exactly on either, and rules for new inputs never |
| Marks.RuleDoes | src/automator.c:1346-1440 | a rule changes the table only if it fires and assigns or clears: an assignment is made unforced, and a cleared input keeps its value and becomes UNKNOWN |
| Marks.RulesKept | src/automator.c:1346-1440 | a rule is dropped if and only if its input exists by then and its kind is none of 1 to 4; the others stay in order |
| FormulaCache.GetIdExactly | src/automator.c:559-597 | asking for an id gives the next one, which leads to the name's entry, exactly when the name has an entry and no id; it fails, changing nothing, exactly on a name with an id, and never returns exactly on a name without an entry |
| FormulaCache.ShortWidened | src/automator.c:2412-2427 | an id survives the 16-bit round trip if and only if it is at most 0x7FFF or at least 0xFFFF8000 |
| FormulaCache.LeadsHomeExactly | src/automator.c:600-625 | the id compiled for a variable leads to the variable's own entry if and only if the id is at most 0x7FFF or at least 0xFFFF8000 |
| FormulaCache.TooManyIds | src/automator.c:2412-2427 | a variable with id 0x8000 has no value at run time |
| FormulaCache.BindExactly | src/automator.c:559-597 | a formula's variables all get ids if and only if each has an entry in the table, none has an id yet and none occurs twice; it is then compiled under the ids its variables have |
| FormulaCache.CompilesExactly | src/mea_eval.c:798-829 | which formulas compile into the cache: exactly those within the compiler's limits whose variables are listed inputs, pairwise distinct and without ids; the outcome is remembered if and only if the evaluation neither waits for ever nor overruns the compiler's arrays, and the state says which of the two it did |
| FormulaCache.BlocksExactly | src/automator.c:559-570 | an evaluation never returns if and only if the formula is not cached and, of the names that compiling it asks ids for in order, the first that is not free has no entry in the table |
| FormulaCache.OverrunsExactly | src/mea_eval.c:798-829 | an evaluation overruns the compiler's arrays if and only if the formula is not cached, its text overruns them when no variable is refused, and every name asked for by then is free |
| FormulaCache.OverfullExactly | src/mea_eval.c:328-510 | the text of a formula nested at most ten deep is such a text if and only if priorities rise more than ten times at some level or there are more than eighty instructions |
| FormulaCache.DefinedExactly | src/mea_eval.c:798-829 | for a formula within the limits, an evaluation is defined if and only if it is cached, or does not wait for ever on one of its variables |
| FormulaCache.UnlistedBlocks | src/automator.c:1904-1910 | `{x}` on a table without x never returns: the entry is added under the lock that the id request already holds |
| FormulaCache.RepeatedIsBroken | src/automator.c:559-597 | `{a}+{a}`, on a table where a is an input with no id, is cached as a failure |
| FormulaCache.RequestedOf | src/mea_eval.c:155-171 | the names that compiling a formula within the limits asks ids for are its variables, in the order they are written |
| FormulaCache.BuildKeeps | src/mea_eval.c:798-829 | a compilation, even a failed one, leaves every id given before as it was |
| FormulaCache.ReloadedCoherent | src/automator.c:2249-2377 | after a reload the inputs are the rules' names, none has an id, no association is left and nothing is cached, while the id counter goes on |
| FormulaCache.ReloadKeepsValues | src/automator.c:2249-2328 | an input that the new rules still name keeps its value and its mark |
| FormulaCache.ReloadCreates | src/automator.c:2249-2328 | an input that only the new rules name starts as the text N/A, marked NEW |
| FormulaCache.EmptyCoherent | src/automator.c:173-215 | the program starts coherent |
| FormulaCache.RunsCoherent | src/mea_eval.c:724-829 | over every run of evaluations, assignments and reloads, each cached program is its formula's instructions under the ids its variables now have, and each id leads to the live entry of that name |
| FormulaCache.RunsUnlessBlocked | src/mea_eval.c:724-829 | where no text evaluated is one that overruns the arrays, the runs of the other results are exactly the runs in which no evaluation waits for ever |
| FormulaCache.CacheIsKept | src/mea_eval.c:724-829 | between reloads a cached program, or a cached failure, never changes: a failed formula keeps failing |
| FormulaCache.RunByNames | src/automator.c:600-625 | running by ids gives what running by names would, when the ids of the formula's own variables fit in 16 bits with their sign |
| FormulaCache.CachedMeaning | src/mea_eval.c:798-829 | after any run, if the ids of the formula's own variables fit in 16 bits with their sign, evaluating from the cache gives the formula's meaning on the inputs' present values, and the usual reading's value or failure where one pop suffices |
| Evaluation.VariableAnswer | src/mea_eval.c:595-612 | a cached lone variable answers the number its input holds at present, and fails if and only if it holds none |
| Evaluation.TwoVariablesAnswer | src/mea_eval.c:595-612 | two cached variables and an operator answer the operation on the numbers their inputs hold at present, the first on the left, and fail when either holds none or the operation fails |
| Evaluation.AssignedThenAnswered | src/mea_eval.c:595-612 | after an assignment a cached variable answers the number assigned, or fails if it is no number; an assignment to another input changes nothing |
| FormulaCache.AssignedIsPut | src/automator.c:1904-2065 | an assignment to the table with ids is, on values and marks, the assignment of the change-mark model |
| Automaton.Automaton.GetId | src/automator.c:559-597 | the in-place id request is the specified one, including the wait for the lock that it holds when the name has no entry |
| Automaton.Automaton.GetFloatById | src/automator.c:600-625 | a numeric value by id, or none |
| Automaton.Automaton.CleanIdNameAssocs | src/automator.c:628-638 | no association is left |
| Automaton.Automaton.ResetIds | src/automator.c:641-649 | every entry of the table loses its id and keeps the rest |
| Automaton.Automaton.Sync | src/automator.c:2249-2328 | the table is rebuilt from the rules' names, reusing entries, creating the missing ones and freeing exactly those no longer named |
| Automaton.Automaton.Reload | src/automator.c:2331-2377 | sync, then cache, associations and ids cleared |
| Automaton.Automaton.CalcNumericByCache | src/mea_eval.c:798-829 | the answer is that of the cached program, compiled at its first use, whenever the evaluation is defined; otherwise the thread waits for ever or the memory is spoilt, each exactly as specified |
| Timers.Add | src/datetimeServer.c:84-94 | the sum is exact in nanoseconds and normalised when the operands are |
| Timers.Diff | src/datetimeServer.c:97-107 | the difference is exact in nanoseconds and normalised when the operands are |
| Timers.Cmp | src/datetimeServer.c:110-131 | on normalised times the field-wise comparison orders the instants |
| Timers.Duration | src/datetimeServer.c:422-454 | minutes, seconds, hundredths and milliseconds convert exactly; a duration that is not positive, or a date as unit, is refused |
| Timers.TimerTable.StartTimer | src/datetimeServer.c:422-493 | the timer runs until now plus the duration; a timer that exists keeps its own duration, unit and callback |
| Timers.TimerTable.StartAlarm | src/datetimeServer.c:375-419 | the timer runs until the date; a timer that exists keeps its own callback |
| Timers.TimerTable.StopTimer | src/datetimeServer.c:584-606 | the timer is stopped, or there is none |
| Timers.TimerTable.RemoveTimer | src/datetimeServer.c:560-581 | the timer is gone, or there was none |
| Timers.TimerTable.RemoveAllTimers | src/datetimeServer.c:533-557 | no timer is left |
| Timers.TimerTable.UpdateStates | src/datetimeServer.c:328-347 | exactly the running timers whose end is strictly past fall, and each of them that has a callback is called once |
| Timers.TimerTable.FindNextFalling | src/datetimeServer.c:350-372 | a running timer that no running timer outlasts, as the code has it, or none when none is running |
| Timers.NextFallsFirstExactly | src/datetimeServer.c:350-372 | the timer found is the next to fall if and only if all running timers end at the same instant |
| Timers.LaterIsFound | src/datetimeServer.c:350-372 | of two timers started together for one second and for two, the second is found |
| Timers.RunningExactly | src/datetimeServer.c:328-606 | after every run, a timer is running if and only if it was last started at some call, not halted since, and not past its end at any update; its end is then that start plus its duration |
| Timers.CalledExactly | src/datetimeServer.c:328-347 | a callback runs at an update if and only if the update is strictly after the last start plus the duration, nothing stopped, removed or restarted the timer, no update came after the end before, and the timer was made with a callback |
| Timers.OncePerStart | src/datetimeServer.c:328-493 | two calls back of the same timer are separated by a start |
| Timers.StartDoes | src/datetimeServer.c:422-493 | a start leaves the timer running from now for the duration in nanoseconds, a timer that exists keeping its own duration, unit and callback, and touches no other |
| Timers.AlarmDoes | src/datetimeServer.c:375-419 | an alarm leaves the timer running until its date, and touches no other |
| Timers.StopDoes | src/datetimeServer.c:560-606 | a stop leaves the timer STOPPED and otherwise as it was, a removal leaves none, and neither touches another |
| Timers.UpdateDoes | src/datetimeServer.c:328-347 | an update lets exactly the running timers whose end lies before now fall, calls exactly those of them back that have a callback, and changes nothing else |
| Parameters.Cache.GetFromCache | src/parameters_utils.c:166-197 | the cached parameters, with their time of access renewed, or none |
| Parameters.Cache.AddToCache | src/parameters_utils.c:96-162 | the parameters are cached, marked and counted, unless 200 already are |
| Parameters.Cache.AllocParsed | src/parameters_utils.c:345-560 | the handle given out, the count raised, and what is cached |
| Parameters.Cache.ReleaseParsed | src/parameters_utils.c:323-342 | the count lowered; freed exactly when not marked as cached and not in use |
| Parameters.Cache.CleanCache | src/parameters_utils.c:52-93 | exactly the entries that are due, and unused unless forced, are evicted and freed, and the counter goes down by as many |
| Parameters.AllocKeepsSafe | src/parameters_utils.c:345-560 | an allocation succeeds exactly when the string and the labels are not empty and it is cached or parses; the handle is live |
| Parameters.ReleaseKeepsSafe | src/parameters_utils.c:323-342 | a release frees exactly what is not marked as cached, and the state stays safe |
| Parameters.UncachedFreedExactly | src/parameters_utils.c:323-342 | parameters that the cache had no room for are freed at their release, however much later, if and only if the memory they were put in did not by chance hold the mark of the cache; otherwise they stay, neither held nor cached |
| Parameters.FullCacheUncached | src/parameters_utils.c:345-560 | with the cache full, a string that is not in it gives parameters whose mark is what the memory held |
| Parameters.CleanSafeExactly | src/parameters_utils.c:52-93 | an eviction leaves every held handle live if and only if no entry due has handles out; one that is not forced does so if and only if no entry old enough has a multiple of 65536 handles out |
| Parameters.CleanDoes | src/parameters_utils.c:52-93 | an entry survives a clean, unchanged, if and only if its last access is no more than a positive age ago, or the clean is not forced and its count of handles is not zero; exactly the others' memory is freed |
| Parameters.UsedThenCleaned | src/parameters_utils.c:52-197 | parameters given out at one time and cleaned at another stay cached if and only if the clean is not forced or they are no older than its age |
| Parameters.ForcedCleanExample | src/parameters_utils.c:52-93 | one string parsed and held, then a forced clean: the handle is out and its memory freed |
| Parameters.WrappedCleanExample | src/parameters_utils.c:52-93 | 65536 handles of one entry, then a clean that is not forced: held memory is freed |
| Parameters.EmptySafe | src/parameters_utils.c:46-49 | the cache starts safe |
| Parameters.HandleSafety | src/parameters_utils.c:52-197 | over every run of allocations, releases and unforced cleans, no held handle is freed, each entry's count is the number of its handles out, and the counter is the number of cached entries, never above 200 |
| RegistryInPlace.Registry.constructor | src/interfacesServer.c:1181-1243 | a file whose interface names do not repeat is relinked and indexed, into a registry that meets the invariant if and only if its device names do not repeat |
| RegistryInPlace.Registry.RemoveDevicesFromIndex | src/interfacesServer.c:224-242 | the index loses exactly the entries whose device carries the interface's id |
| RegistryInPlace.Registry.FindDevice | src/cJSON.c:675 | a device of the interface with that name, or there is none |
| RegistryInPlace.Registry.AddInterface | src/interfacesServer.c:542-627 | a valid interface with a new name is added under the next id, which is used up even when the name is taken; the invariant is kept |
| RegistryInPlace.Registry.UpdateInterface | src/interfacesServer.c:630-715 | the interface and its devices are replaced by copies, the given fields changed, and the index leads to the copies; the invariant is kept |
| RegistryInPlace.Registry.DeleteInterface | src/interfacesServer.c:495-539 | the interface, its devices and their index entries are gone; the invariant is kept |
| RegistryInPlace.Registry.AddDevice | src/interfacesServer.c:848-968 | the first check that fails gives its code; a new device is added under the next id and indexed; the invariant is kept if and only if the request is refused or the name was not in the index |
| RegistryInPlace.Registry.UpdateDevice | src/interfacesServer.c:718-801 | the given fields change in the same node; the invariant is kept |
| RegistryInPlace.Registry.DeleteDevice | src/interfacesServer.c:804-845 | the device leaves the interface and its name leaves the index |
| Registry.LoadExactly | src/interfacesServer.c:1181-1243 | a loaded file meets the invariant if and only if its device names do not repeat over all interfaces; then interface ids follow the file from 100 and device ids from 1000, and the index has exactly the file's device names |
| Registry.UpdateInterfaceGood | src/interfacesServer.c:630-715 | updating an interface keeps the invariant although every device node is replaced |
| Registry.AddDeviceExactly | src/interfacesServer.c:848-968 | adding a device keeps the index right if and only if the request is refused or the name is not in the index yet |
| Registry.TwiceNamedExample | src/interfacesServer.c:934-960 | a device added under the name of another interface's device is accepted and takes its place in the index, while both stay in the tree |
| Registry.DeleteDeviceExactly | src/interfacesServer.c:804-845 | deleting a device keeps the index right if and only if the interface named is not there or has no devices, or no device has the name, or the interface owns it |
| Registry.WrongOwnerExample | src/interfacesServer.c:804-845 | a device deleted through another interface stays in the tree and leaves the index |
| Registry.StepExactly | src/interfacesServer.c:495-968 | a request keeps the invariant if and only if it is a refused addition or one of a new name, a deletion that names the owner, or of another kind; no request gives an id that was given before |
| Registry.RegistryHolds | src/interfacesServer.c:495-968 | the registry is right throughout a run if and only if every request is so; then ids are distinct and below the counters, each device carries its interface's id, the index leads from exactly the devices' names to those very nodes, and no id is given twice |
| RegistryEffects.DeleteInterfaceDoes | src/interfacesServer.c:495-539 | after code 0 the name is no interface, no device has that owner, no index entry leads to a device that had it, and every other interface, device and entry is as before; code -1 is exactly for an unknown name and changes nothing |
| RegistryEffects.AddInterfaceDoes | src/interfacesServer.c:542-627 | an interface is added if and only if name, state and type are valid and the name is free; it has what was given and empty texts otherwise; the id is used up even when the name is taken, and nothing else changes |
| RegistryEffects.UpdateInterfaceDoes | src/interfacesServer.c:630-715 | given fields replace the interface's own and absent ones stay; every other interface, and every device under its index entry, is as before |
| RegistryEffects.AddDeviceAnswers | src/interfacesServer.c:848-968 | which code an addition answers, for each of them exactly when |
| RegistryEffects.AddDeviceDoes | src/interfacesServer.c:848-968 | a device added has what was given, under its interface, with the next id, and is indexed by its name; everything else is as before |
| RegistryEffects.UpdateDeviceDoes | src/interfacesServer.c:718-801 | which code an update answers, and that given fields replace that device's own, absent ones stay, and everything else is as before |
| RegistryEffects.DeleteDeviceDoes | src/interfacesServer.c:804-845 | which code a deletion answers, and that the device and the name's index entry are gone and everything else is as before |
| RegistryEffects.LoadedInterfaces | src/interfacesServer.c:1181-1243 | each interface of the file is there with the file's fields, with ids from 100 in file order |
| RegistryEffects.LoadedDevices | src/interfacesServer.c:1181-1243 | the devices of the file are the nodes, in file order, each with its fields, its interface and that one's id, with ids from 1000 |

## Left out

- Precedence.PrecedenceExactly: formulas are tokens; characters, blanks, number syntax and the length of a variable's name are not modelled.
- Compiler.BuildStack: growth past 80 instructions or past 10 pending operators of one level is the outcome `Overrun`, since the C code then writes outside what it owns, and nothing is said about what follows; the error position pointer and the leaked buffer of a failed compilation are not modelled.
- FormulaCache.OverfullExactly: for formulas nested deeper than ten, which never compile, and for texts that are no formulas, no exact condition says whether they are refused before they overrun the arrays; `Overrun.ModestNeverOverruns` covers the short ones.
- StackMachine.Calc: arithmetic is a parameter that may fail, so rounding and not-a-number are not modelled; nor is `%` by a divisor that is not 0 but truncates to 0, as in `#5 % #0.5`, which the source computes as a division by integer zero and which ends the process.
- StackMachine.StepInPlace: the same: an operator applied has a result or fails.
- FormulaCache.RunsCoherent: runs exclude evaluations that overrun the compiler's arrays, after which nothing is known of the memory, and evaluations that never return, after which no thread gets the table's lock; `FormulaCache.OverrunsExactly` and `FormulaCache.BlocksExactly` say exactly which those are; the id counter does not wrap at 32 bits; reloads and evaluations do not overlap.
- FormulaCache.CachedMeaning: assumes that the ids of the formula's own variables fit in 16 bits with their sign, which `FormulaCache.FewIdsFit` gives for the first 32767 ids; beyond that the code does not have the property (`FormulaCache.LeadsHomeExactly`).
- JsonRoundTrip.RoundTrip: numbers that are not 32-bit integers are parsed but not printed, since their printing is floating-point formatting; byte arrays and reference items are not modelled.
- JsonParser.ReadString: a truncated escape that makes the source read past the end of its text is the outcome `Overread`, without saying what is read there, and which \u escapes do so is not characterised; the size of the allocated string is not modelled.
- JsonBuffer.PrintBuffer.Ensure: the new size is computed on unbounded integers; it is what the 32-bit computation gives up to 2^30 characters (`JsonBuffer.Pow2GtIsPowerAtLeast`), and larger texts are not modelled.
- JsonPrinter.PrintValue: allocation failures, in this and every other component.
- SocketQueue.NoLostWakeUp: the running phase only, with spurious wake-ups; stopping and thread cancellation are not modelled.
- Glob.MatchPrefix: lengths are unbounded integers and case folding is not used by the matcher.
- Queue.List.In: null data, clones of a queue and a null queue pointer are not modelled; data of a node is never replaced.
- Queue.List.CreateIndex: the library's sort is modelled by its result, for comparison functions whose signs agree both ways and that are transitive.
- Queue.List.Next: calls through a dangling cursor, which read freed memory, are excluded; the same for Prev, Current and RemoveCurrent.
- Inputs.InputsTable.Turn: the match phase is the assignments it makes; the walk over the input rules, whose end the source does not ensure, and the evaluation of their expressions are not modelled.
- Inputs.InputsTable.AddToInputs: names and strings are shorter than the fixed fields, and times of update are not modelled; of the notice of change, only whether it is sent.
- Timers.TimerTable.StartTimer: names are in lower case, as the automaton gives them; a mixed-case name would be stored under one key and looked up under another.
- Timers.TimerTable.UpdateStates: the order of calls back, what a callback does, and updates while another thread starts a timer are not modelled.
- Parameters.Cache.AllocParsed: parsing is a parameter that succeeds or not; the key ignores the upper-case flag, so nothing is said about contents; the two levels of the cache are one map; calls do not overlap.
- Parameters.HandleSafety: fewer than 65536 handles of one entry are out at a time, which is the range of the counter.
- Registry.RegistryHolds: after an addition under a name in use, the source's index holds both entries, the older one hidden until the newer is removed, while the model keeps the one that is found; so nothing is said about what follows a request that breaks the invariant.
- Registry.LoadExactly: interface names of a file do not repeat.
- RegistryInPlace.Registry.AddInterface: the tree is kept as interfaces by name and device nodes by address with their owner, so the order of siblings after the load is not modelled; the running interface objects and the index by device path are not modelled.
- RegistryInPlace.Registry.UpdateInterface: the addresses of the copies are one choice of fresh addresses; the index by device path and the order of siblings are not modelled.
- RegistryInPlace.Registry.DeleteInterface: the index by device path and the running interface objects are not modelled.
- HTTP requests, the file system, serial lines, plugins, scripts, logging and process supervision: calls into code outside these components.
- MD5, SHA-1, sunrise computation and libc's number scanning: arithmetic libraries.
