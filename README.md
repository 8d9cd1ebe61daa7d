# goenv: a verified model of the `.env` line processor

goenv reads a `.env` file of `NAME=VALUE` lines and sets each name in the
process environment. This project models its one source file, `env.go`, in
Dafny and proves what it does:

- `Scanner` models the two byte scanners. `readUntil` returns the prefix before
  (or through) the first occurrence of a delimiter byte. `readUntilNewline`
  does the same for a line terminator, either `\n` or `\r\n`. Each is given as
  a specification function (`UntilByte`, `UntilNewline`) with first-occurrence
  contracts, and as a method with the source's scanning loop (`ReadUntil`,
  `ReadUntilNewline`) proved equal to it.
- `Sink` models the environment that `os.Setenv` writes to. It is a class over
  the current name-to-value map and a log of every assignment, in call order.
  Lemmas about `Assigned`, the replay of a log over a map, state
  last-write-wins and that names never assigned are untouched.
- `Env` models `deserAndSetEnvironment` and `ProcessEnv`.
  - The specification is a pure pipeline. `Lines` cuts the input the way the
    loop does. `Classify` decides what one iteration does with a line. `Run`
    folds over the lines with the 1-based line counter. `Parse` is the whole
    pass from line 1.
  - `DeserAndSetEnvironment` is the source's loop over a shrinking `data`,
    with `lineNo` and the sink. It is proved to make exactly the assignments
    of `Parse(input)`, in order, and to return its error.
- `Seqs` and `Wrappers` hold generic sequence facts and `Option`/`Result`.

Two behaviours of the source are reproduced on purpose:

- **The blank-line test looks only at length and first byte.** `LooksBlank` is
  true of every 1-byte line and of every 2-byte line that starts with `\r`.
  On a terminated line that single byte can only be `\n` and those two bytes
  only `\r\n`, so mid-file the test is exact. On the final line, with no
  terminator, it drops a remainder such as `A` or `\r=` without error
  (`FinalRemainderDropped`).
- **The value lookahead's error branch (env.go:100-103) is dead.** A
  terminated line still ends in `\n` after its first `=`, so the lookahead
  cannot fail. `ParseNeverValueUnreadable` proves no input produces
  `ValueUnreadable`. The branch is still modelled in `SplitLine`.

Parameters stand in for the outside world:

- the contents of `.env` (or its absence) are the `file` parameter of
  `ProcessEnv`;
- the process environment is an `Environment` object passed to the driver.

## Model

| member | source | states |
|---|---|---|
| Scanner.FriendlyName | env.go:10-15 | a delimiter has a (non-empty) friendly name exactly when it is `\n`, `\r`, space or tab |
| Scanner.UntilByte | env.go:21-39 | succeeds iff the delimiter occurs; the result is a prefix of the buffer ending just before (or, inclusive, just after) the first occurrence; otherwise the error names the delimiter and its friendly name, with no partial prefix |
| Scanner.UntilByteAt | env.go:22-29 | given the index of the first occurrence, the result is `buf[..i]`, or `buf[..i+1]` when the delimiter is included |
| Scanner.ReadUntil | env.go:21-39 | the scanning loop with early return computes exactly `UntilByte` |
| Scanner.UntilNewline | env.go:45-65 | succeeds iff a line feed occurs; the inclusive result ends at the first line feed, the exclusive one holds no line feed; otherwise `NoNewline` |
| Scanner.UntilNewlineAt | env.go:46-61 | with the first line feed at `k`, the result is the prefix cut at `k+1` (inclusive), or before `k` or before a `\r` right in front of it (exclusive); a lone `\r` is content |
| Scanner.UntilNewlineSplit | env.go:47-60 | through its first line feed a buffer is the exclusive result followed by `\r\n` when a carriage return precedes that line feed, `\n` otherwise |
| Scanner.ReadUntilNewline | env.go:45-65 | the loop with its carriage-return lookahead computes exactly `UntilNewline` |
| Env.NextLine | env.go:72-77 | the line taken is a non-empty prefix of the data; it is flagged end-of-file iff the data has no line feed, and is then all of it; otherwise it ends at the first line feed |
| Env.TakeLine | env.go:72-77 | the loop's line read, with the fallback to the whole remainder, gives `NextLine` |
| Env.LinesPartition | env.go:71-113 | the lines the loop carves are well formed (one final line feed each, only the last unterminated) and concatenate to exactly the input |
| Env.LinesAppend | env.go:84-85 | cutting the input after a line feed cuts its list of lines at the same place |
| Env.NewlinesBefore | env.go:84-86 | the `k`-th line (from 0) starts after exactly `k` line feeds, which is what the line counter counts |
| Env.Consume | env.go:111-112 | one iteration keeps consumed bytes plus remaining data equal to the input, and the line counter one more than the line feeds consumed |
| Env.Classify | env.go:79-104 | a line is blank iff it passes the length test; it lacks a separator iff it is not blank and holds no `=`, and the error then names `=` with no friendly name; any name it yields holds no `=` |
| Env.ClassifyNoBadValue | env.go:97-104 | on a well-formed line the value lookahead never fails |
| Env.AssignShape | env.go:89-104 | an assigned line is its name, `=`, its value and its terminator; the name holds no `=` and the value no line feed |
| Env.TerminatedValue | env.go:94-100 | after the first `=` of a terminated line, the exclusive newline scan succeeds and drops exactly the terminator |
| Env.SplitTerminated | env.go:89-104 | a terminated line `name=value` with `\n` or `\r\n` splits at the first `=` back into `name` and `value`; later `=` stay in the value |
| Env.SplitFinal | env.go:94-98 | a final unterminated line `name=value` that is not dropped has the value running to the end of the input |
| Env.SplitLine | env.go:89-104 | the name read, the value slice and lookahead, and their errors, decide as `Classify` does, with the current line number in the error |
| Env.Run | env.go:71-115 | no more assignments than lines; a missing-separator error carries a line number among those processed |
| Env.RunRejected | env.go:89-92 | the first line without `=` stops processing with its own number; only the assignments of the lines before it are made |
| Env.RunAppend | env.go:71-113 | processing two runs of lines in turn: the second is processed only if the first raised no error, numbered on from it |
| Env.Advance | env.go:71-113 | one iteration's worth of the specification: the first line's entry decides, then the rest goes on with the next line number |
| Env.ParseNeverValueUnreadable | env.go:100-103 | every error processing can return is a missing separator |
| Env.ParseSucceeds | env.go:68-116 | processing succeeds iff every line is blank or holds `=`, and it then makes one assignment per non-blank line, in file order |
| Env.ParseMissingSeparator | env.go:89-92 | a failure at line `n` means line `n` is non-blank without `=`, sits after exactly `n-1` line feeds, all earlier lines were accepted and only their assignments were made |
| Env.FinalRemainderDropped | env.go:80-83 | a final unterminated remainder of 1 byte, or of 2 bytes led by `\r`, changes nothing, not even when it lacks `=` |
| Env.RenderParse | env.go:68-116 | a file of `NAME=VALUE` and blank lines, in any mix of `\n` and `\r\n`, assigns each name its value in file order, skips the blank lines and succeeds |
| Env.RenderParseFinal | env.go:97-110 | such a file followed by a last `name=value` with no terminator assigns it after all the others |
| Env.FinalAssignmentMade | env.go:97-110 | after whole lines processed without error, an unterminated `name=value` is assigned last |
| Env.DeserAndSetEnvironment | env.go:68-116 | the loop terminates, returns the error of `Parse(input)`, appends exactly its assignments to the sink's log in order, and leaves the map as their replay over the old one |
| Env.ProcessEnv | env.go:118-129 | an unreadable file reports `FileUnavailable` and assigns nothing; otherwise processing is that of the contents |
| Sink.Environment.Setenv | env.go:106 | one assignment: the name maps to the value and the call is appended to the log |
| Sink.AssignedAppend | env.go:106 | replaying two logs in turn is replaying their concatenation |
| Sink.AssignedLastWins | env.go:106 | a name holds the value of its latest assignment |
| Sink.AssignedUntouched | env.go:106 | a name never assigned keeps its old value, or stays unset |

## Left out

- Error messages are modelled as error kinds and their data, not as text.
  This covers the delimiter byte, whether it has a friendly name, the line
  number, and the name whose value failed. The `strconv.Quote` escaping and
  the string concatenation (env.go:33-38, 91, 102, 121) are not modelled.
- `os.ReadFile(".env")` is file I/O. It becomes the `Option` parameter of
  `ProcessEnv`.
- `os.Setenv` is not the real process-global environment. It is the
  `Environment` sink, which cannot fail. State left over in the real
  environment between calls is not modelled.
- Names and values stay as bytes. The conversion to Go strings, which is
  byte-preserving, is not modelled.
- The loop body of `deserAndSetEnvironment` is split into `TakeLine` (the
  line read) and `SplitLine` (the name/value split). The loop's own
  statements, including the blank-line test, the early return, the sink call
  and the slicing of `data`, stay in `DeserAndSetEnvironment`.
- env_test.go is not modelled. Its cases are instances of `RenderParse`,
  `RenderParseFinal`, `ParseMissingSeparator` and `UntilByte`.
