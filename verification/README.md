# TestFramework core, modelled in Dafny

This project models the sequential core of a small C++ unit-test framework. It has five parts:

- **ANSI decorator** (`src/PrintHelpers.h`). `decorate` builds an SGR control sequence, as in section 8.3.117 of ECMA-48. The sequence is `ESC [` followed by the non-zero codes of the text colour, style and background, separated by `;`, then `m`. The intended behaviour is to wrap every line of the input in that prefix and the reset `ESC[0m`. The loop as written does not do this for every input; see Findings. `red`, `green`, `yellow`, `boldRed`, `boldGreen` and `boldYellow` are fixed instances of it.
- **Transcript comparator** (`src/tests/test_helpers/CompareOutput.cpp`).
  - `getLines` splits a transcript on `'\n'`.
  - `build_string` concatenates parts.
  - `main` compares an expected and an actual transcript, first by line count and then line by line. It returns exit code 0 or 1 with a diagnostic message.
- **Assertions** (`src/Assert.h`). `assert_`, `assertTrue_`, `assertFalse_` and `assertEqual_` either return or throw `assertion_error` with a message. The throw is the `Failure` of a `Result<(), string>`.
- **Output capture** (`src/TestPrinter.h`). This is a sequential state machine: a started flag, the id of the main thread, and a map from thread id to buffer. `getStream` sends the caller either to standard output or to its own buffer, which is created empty on first use.
- **Registry and runner** (`src/TestFramework.h`). Tests live in an ordered map filled by `emplace`, so the first registration of a name wins. `executeTests` runs them in ascending name order. It prints `Executing: <name>` before each test and has no failure boundary.

Module layout, one module per concern:

| file | module | contents |
|---|---|---|
| `results.dfy` | `Results` | `Option`, `Result` |
| `text.dfy` | `Text` | `Count`, `Split`, `Join`, `Concat` and their round trips |
| `decimal.dfy` | `Decimal` | `std::to_string` on naturals, with a parser as its inverse |
| `lex_order.dfy` | `LexOrder` | the `std::string` `operator<` that orders the test map |
| `print_helpers.dfy` | `PrintHelpers` | the decorator, with the line split the loop is meant to make |
| `decorate_as_written.dfy` | `DecorateAsWritten` | the decorator's loop as written, one character per byte (see Findings) |
| `compare_output.dfy` | `CompareOutput` | `getLines`, `build_string`, the verdict of `main` |
| `assertions.dfy` | `Assertions` | the four assertion helpers |
| `test_printer.dfy` | `TestPrinter` | the capture router and runs of calls against it |
| `test_framework.dfy` | `TestFramework` | the registry, `emplace`, `executeTests` and the registrations of the print test |

On duplicate registration, the code keeps the first body registered under a name, and so does `TestFramework.Emplace`.

Modelling decisions:

- `ESC` is `27 as char`.
- A `std::string` is a Dafny `string` with one character per byte, so every character of a string the program handles is below 256. The as-written decorator agrees with the code for such strings.
- `size_t` arithmetic is taken modulo 2^64 where it matters, which is in `DecorateAsWritten`.
- A `size_t` converted to `char` keeps its low byte.
- Thread ids are a type parameter.
- The `std::map` is a strictly ascending sequence of entries, with keys ordered by `LexOrder.Less`.
- A test body is an opaque `TestBody`: the text it writes and the message it throws, if it throws.

## Model

| member | source | states |
|---|---|---|
| Text.Split | src/tests/test_helpers/CompareOutput.cpp:11-20 | splitting at a separator gives one more piece than there are separators, no piece contains the separator, and joining the pieces back gives the input |
| Text.SplitOfJoin | src/tests/test_helpers/CompareOutput.cpp:11-20 | the other round trip: splitting the join of separator-free pieces gives back the pieces |
| Decimal.NatToString | src/PrintHelpers.h:66 | `std::to_string` of a natural is a non-empty digit string with no leading zero except for 0 itself |
| Decimal.ParseNatToString | src/PrintHelpers.h:66 | reading the decimal numeral back gives the number, so different codes get different numerals |
| LexOrder.LessTotal | src/TestFramework.h:7 | the key order of the test map is total: two different names are always ordered one way or the other |
| LexOrder.LessTransitive | src/TestFramework.h:7 | the key order of the test map is transitive |
| LexOrder.LessIsLexBelow | src/TestFramework.h:7 | the character-by-character `operator<` on names is the textbook order: a proper prefix comes first, otherwise the smaller character at the first difference decides |
| PrintHelpers.BuildPrefix | src/PrintHelpers.h:54-71 | the prefix built by the loop with its `first` flag is ESC '[' then the non-zero codes in the order colour, style, background, separated by ';', then 'm' |
| PrintHelpers.Prefix | src/PrintHelpers.h:54-71 | the prefix starts with ESC '[' and ends with 'm', and between them holds only digits and ';' |
| PrintHelpers.ParametersDecode | src/PrintHelpers.h:58-69 | cut at ';', the prefix parameters are exactly the non-zero codes in order, each a decimal numeral of a positive value; so there is no leading, trailing or doubled ';' |
| PrintHelpers.Decorate | src/PrintHelpers.h:45-52 | with colour, style and background all zero, the text is returned unchanged |
| PrintHelpers.DecorateLines | src/PrintHelpers.h:72-81 | the lines of the decorated text are the lines of the input, each wrapped in prefix and reset |
| PrintHelpers.DecorateSingleLine | src/PrintHelpers.h:73-81 | input without a line break comes back as prefix + input + ESC"[0m" |
| PrintHelpers.DecorateBrackets | src/PrintHelpers.h:76-81 | whenever decoration applies, the output starts with the prefix and ends with the reset |
| PrintHelpers.DecorateLineBreaks | src/PrintHelpers.h:73-79 | every line break of the output has the reset just before it and the prefix just after it |
| PrintHelpers.UndecorateDecorate | src/PrintHelpers.h:72-83 | removing prefix and reset from every output line recovers the input exactly |
| PrintHelpers.DecorateDefault | src/PrintHelpers.h:45-49 | the one-argument form uses black text: every line is wrapped in ESC"[30m" and the reset |
| PrintHelpers.Colored | src/PrintHelpers.h:94-122 | decorating with a foreground colour, at most bold and no background wraps every line in ESC"[3d" (plus ";1" when bold) "m" and the reset, `d` being the colour's digit |
| PrintHelpers.BoldRed | src/PrintHelpers.h:94-97 | every line is wrapped in ESC"[31;1m" and the reset |
| PrintHelpers.BoldGreen | src/PrintHelpers.h:99-102 | every line is wrapped in ESC"[32;1m" and the reset |
| PrintHelpers.Red | src/PrintHelpers.h:104-107 | every line is wrapped in ESC"[31m" and the reset |
| PrintHelpers.Green | src/PrintHelpers.h:109-112 | every line is wrapped in ESC"[32m" and the reset |
| PrintHelpers.BoldYellow | src/PrintHelpers.h:114-117 | every line is wrapped in ESC"[33;1m" and the reset |
| PrintHelpers.Yellow | src/PrintHelpers.h:119-122 | every line is wrapped in ESC"[33m" and the reset |
| DecorateAsWritten.FindFrom | src/PrintHelpers.h:73-75 | `find(c, pos)` gives the first position at or after `pos` holding `c`, or nothing when there is none |
| DecorateAsWritten.Decorate | src/PrintHelpers.h:45-84 | the code as written agrees with the intended decoration when no attribute is set and when the text has no line break |
| DecorateAsWritten.SecondBreakLeftBare | src/PrintHelpers.h:75 | on "a\nb\nc" in red, the code as written wraps "b\nc" as one line, so its second line break is not followed by the prefix, while the intended output brackets every break |
| DecorateAsWritten.BreakAtTenNeverEnds | src/PrintHelpers.h:73-75 | on "0123456789\n" the loop as written finds the same line break forever, for every bound on its rounds |
| CompareOutput.GetLines | src/tests/test_helpers/CompareOutput.cpp:8-21 | one more line than there are '\n', no line contains '\n', and joining the lines with '\n' gives the input back |
| CompareOutput.SplitEdgeCases | src/tests/test_helpers/CompareOutput.cpp:11-20 | the empty transcript is one empty line, and a final '\n' adds one empty line |
| CompareOutput.BuildString | src/tests/test_helpers/CompareOutput.cpp:24-31 | the loop that writes each part into one buffer yields the in-order concatenation of the parts |
| Text.ConcatPlacesParts | src/tests/test_helpers/CompareOutput.cpp:24-31 | in a concatenation, each part sits unchanged at the offset where the parts before it end |
| CompareOutput.CountMismatchMessage | src/tests/test_helpers/CompareOutput.cpp:58-63 | the parts written into one buffer give "Output mismatch. Expected ", the expected count in decimal, " lines but got ", the actual count, " lines." |
| CompareOutput.CountsDistinguish | src/tests/test_helpers/CompareOutput.cpp:58-63 | both counts can be read back from the count mismatch message: different counts give different messages |
| CompareOutput.LineMismatchMessage | src/tests/test_helpers/CompareOutput.cpp:71-78 | the parts written into one buffer give "Output mistmatch on line ", the 1-based line number in decimal, then the expected and received lines, each quoted on its own line |
| CompareOutput.FirstDifference | src/tests/test_helpers/CompareOutput.cpp:69-82 | the scan finds the first index where the lines differ, all earlier lines being equal, or reports that all are equal |
| CompareOutput.Compare | src/tests/test_helpers/CompareOutput.cpp:47-86 | the exit code is 0 or 1, it is 0 exactly when the two transcripts are equal, and success prints no message |
| CompareOutput.CompareCountMismatch | src/tests/test_helpers/CompareOutput.cpp:57-66 | different line counts fail with "Output mismatch. Expected N lines but got M lines.", N and M being line-break counts plus one |
| CompareOutput.CompareFirstMismatch | src/tests/test_helpers/CompareOutput.cpp:69-81 | with equal counts, the failure names the first differing line by its 1-based number, with its expected and received text |
| CompareOutput.LineNumbersDistinguish | src/tests/test_helpers/CompareOutput.cpp:71-78 | the line number can be read back from the mismatch message: mismatches on different lines give different messages |
| CompareOutput.CompareIdentical | src/tests/test_helpers/CompareOutput.cpp:84-85 | a transcript always matches itself |
| CompareOutput.CompareOrderSensitive | src/tests/test_helpers/CompareOutput.cpp:68-82 | swapping two different lines of a transcript makes the comparison fail |
| Assertions.Check | src/Assert.h:12-21 | `assert_` succeeds exactly when the condition holds; without detail it fails with the message alone, with detail it fails with message + "\n    Test detail: " + detail |
| Assertions.CheckDetailRecoverable | src/Assert.h:18-19 | a failure message starts with the message, and the detail can be read back from it |
| Assertions.BoolToString | src/Assert.h:25-31 | `std::to_string` of a `bool` is "1" for true and "0" for false |
| Assertions.AssertTrue | src/Assert.h:23-27 | fails exactly when the condition is false, with "Failed asserting that 0 is True." followed by the detail |
| Assertions.AssertFalse | src/Assert.h:29-33 | fails exactly when the condition is true, with "Failed asserting that 1 is False." followed by the detail |
| Assertions.AssertEqual | src/Assert.h:39-46 | fails exactly when the values differ, with "Failed asserting that two values are equal." followed by the detail |
| TestPrinter.Initial | src/TestPrinter.h:53-56 | a new printer has not started a run and holds no buffers |
| TestPrinter.StreamForThread | src/TestPrinter.h:8-15 | a thread gets its own buffer exactly when it has one, and nothing (`nullptr`) otherwise |
| TestPrinter.GetStream | src/TestPrinter.h:28-45 | callers that are not captured get standard output and change nothing; a captured caller gets its own buffer, which is added empty only when missing |
| TestPrinter.StartTests | src/TestPrinter.h:47-50 | starting raises the flag, records the main thread, keeps the buffers, and leaves the main thread uncaptured |
| TestPrinter.Write | src/TestPrinter.h:28-45 | a write by a caller that is not captured goes to standard output and leaves the state alone; a captured write outputs nothing and appends the text to the caller's buffer |
| TestPrinter.NothingCapturedBeforeStart | src/TestPrinter.h:28-45 | before a run starts, every caller writes to standard output and the state is unchanged |
| TestPrinter.MainThreadNotCaptured | src/TestPrinter.h:30-44 | after `startTests(m)`, thread `m` keeps writing to standard output |
| TestPrinter.GetStreamStable | src/TestPrinter.h:31-41 | asking again gives the same stream and changes nothing, and no existing buffer is replaced or emptied |
| TestPrinter.WriteIsolated | src/TestPrinter.h:31-41 | a captured write appends to the writer's buffer only; the map gains at most the writer's key and other buffers are untouched |
| TestPrinter.RunMonotone | src/TestPrinter.h:47-50 | over any sequence of calls the started flag is never lowered, and every buffer stays, only growing at its end |
| TestPrinter.BufferHoldsOwnWrites | src/TestPrinter.h:28-45 | during a run, a non-main thread's buffer grows by exactly what that thread writes, whatever other threads do |
| TestFramework.Emplace | src/TestFramework.h:40 | registering a name already present leaves the map unchanged; a new name adds one entry under it, and lookups of all other names are unchanged |
| TestFramework.LookupRegister | src/TestFramework.h:34-46 | after registration, the map holds for each name the body of its first registration, and nothing for names never registered |
| TestFramework.RegisterKeys | src/TestFramework.h:34-46 | the map's names are exactly the names registered, each once, so it has no more entries than there were registrations |
| TestFramework.FirstRegistrationWins | src/TestFramework.h:40 | later registrations of a name do not replace the first one |
| TestFramework.AscendingDeterminedByLookup | src/TestFramework.h:7 | two ordered maps with the same lookups are identical, entries and order included |
| TestFramework.RegistrationOrderIrrelevant | src/TestFramework.h:7-16 | registrations that agree on every name's first body give the same map, so the run order does not depend on the registration order |
| TestFramework.ExecutedPrefix | src/TestFramework.h:12-21 | the tests called form a prefix of the map; the run covers the whole map exactly when no test throws, and otherwise ends with the test whose exception escaped |
| TestFramework.ExecuteAll | src/TestFramework.h:12-21 | when no test throws, every test runs exactly once in ascending name order, each one's output right after its own "Executing: " line |
| TestFramework.ExecuteStopsAtThrow | src/TestFramework.h:16-20 | when test k is the first to throw, tests 0..k run, its exception escapes, and no later test is announced or run |
| TestFramework.PrintTestOrder | src/tests/PrintTest.cpp:5-32 | the six registrations of the print test run as NoPrintTest, NoPrintTest2, NoPrintTest3, PrintTest, PrintTest2, PrintTest3 |

## Left out

- Locking and thread identity in `src/TestPrinter.h`. `shared_lock`, `unique_lock` and `this_thread::get_id` are not modelled. The calling thread is a parameter and each call is one atomic step.
- The unsynchronised `startedTestRun_` flag. Its data race cannot be expressed in a sequential model.
- Writes to `std::cout` and `std::stringstream`. Output is a returned string, and a stream is named by the thread that owns it.
- The printing done by `exitAndPrint`. Its effect is modelled as exit code 1 plus the message printed first.
- CompareOutput.Compare: takes the two transcripts directly. The `argc` check and its exception are not modelled, and neither is reading a C string up to its NUL.
- Preprocessor macros in `src/TestFramework.h` and `src/Assert.h`. Registration is a sequence of `(name, body)` pairs.
- Test bodies called through `void(*)()` values. Each is an opaque outcome: the output it writes, and the message it throws, if any.
- `assertEqualWithoutPrint_`. It is an empty stub.
- Assertions.AssertEqual: compares values of any Dafny type with equality, not arbitrary C++ `operator==`.
- DecorateAsWritten.Decorate: the loop's rounds are bounded by `fuel`, and `None` stands for a loop still running when the fuel runs out. A `char` built from a `size_t` is taken as its low byte, whatever the signedness of `char`.
- Reordering of lines in the comparator. The TODO at `src/tests/test_helpers/CompareOutput.cpp:68` plans it, but the code compares lines in order, and so does the model.

## Findings

| source | as written | input that shows it | evidently intended | confidence | as-written member | corrected member |
|---|---|---|---|---|---|---|
| src/PrintHelpers.h:75 | The loop advances with `in.find(newLinePtr, '\n')`. This resolves to `find(char, size_t)`, so it searches for the low byte of the previous position, starting at position 10. | `"a\nb\nc"` in red: the second break is never found and `"b\nc"` is wrapped as one line. `"0123456789\n"`: the break at 10 is found again every round and the loop does not stop. | `in.find('\n', newLinePtr + 1)`: every line wrapped, every break bracketed by reset and prefix | not executed | DecorateAsWritten.SecondBreakLeftBare, DecorateAsWritten.BreakAtTenNeverEnds | PrintHelpers.Decorate, PrintHelpers.DecorateLineBreaks, PrintHelpers.UndecorateDecorate |
