# fw-simple-go in Dafny

A model of the core of fw-simple-go. This small firewall watches log files. It classifies every
appended line against per-file accept and reject regular expressions, and
adds the address found in the line to an ipset set (`<name>-accept`,
`<name>-reject`). A rejected address is first widened to its network by a
configurable mask length. At startup it compiles the configured patterns
(expanding an `__IP__` shortcut) and, unless they already exist, creates the
two sets and the two iptables rules that use them.

Modules:

- `Wrappers`: the `Option` type. In the operations of the firewall itself (`GenerateBitSequence`, `ParseIPv4`, `PrepareRegex`, `InitRegexps`, `ProcessFileChange`) None stands for a fatal exit or a panic of the program; in the helpers (`IndexOf`, `ParseFields`, `IpsetAdd`) it means not found or not accepted.
- `Strings`: the Go `strings`/`strconv` operations used. These are `Index`, `Contains`,
  `Replace(…, 1)`, `TrimRight`, `Itoa` and decimal reading.
- `Mask`: `generateBitSequence` and the masking of a uint32. Go's `uint32` is `bv32`, so its wrap-around and shift-by-32 behaviour are exact.
- `IPv4`: `net.ParseIP(…).To4()` on dotted-decimal text, the big-endian packing
  into a uint32 and back, and `net.IP.String`.
- `Host`: the process environment: `PATH` and the external commands run. It is a class
  whose `issued` field is the trace of commands. Whether a command succeeds, and
  what `iptables-save` prints, are functions of the command and of the history.
- `Config`: the configuration value, compiled expressions (`Regexp`), and
  `FindStringSubmatch` as an abstract function (`Finder`).
- `Processor`: `matchAndProcessIP` and `addIPToSet`. There is a pure decision function
  (`LineAction`) and methods that run the commands.
- `Scanner`: `bufio.Scanner` with `ScanLines` over the unread bytes, and the cursor arithmetic.
- `Reader`: `ProcessFileChange`. It is a `Cursor` class holding the offset, with its scanning
  loop proved against the function `ProcessData`.
- `App`: `prepareRegex`, `initRegexps` and `setupIPSetsAndTables`.

### Reading a file that is still being written

A reader that tails a log file would be expected to hand over complete lines
only, and to keep its cursor within the file (`offset <= size`). The code in
`pkg/processor/processor.go` does not quite do that. It reads with
`bufio.Scanner`, which also returns a last line that has no terminator yet and
drops one `\r` before a `\n`, and it moves the cursor by `len(line) + 1` for
every line all the same. As a result:

- after a last line without a terminator, when the lines read hold no `\r`,
  the cursor ends one byte past the end of the file (each `\r\n` line read in
  the same pass takes one byte back off that overshoot). If the file is then read again unchanged, it looks shorter
  than the cursor, so the whole file is read again from offset 0
  (`Scanner.UnterminatedLineSplit`, `Scanner.StartOffset`);
- a line read while it was still being written is handled as it was. When it
  is completed by more text and a terminator, the next read starts one byte
  into the completion: its first byte is skipped and the rest is handled as a
  line of its own (`Scanner.UnterminatedLineSplit`);
- with `\r\n` terminators the cursor lags one byte per line
  (`Scanner.AdvanceBounds`). After `n` such lines the next read starts `n`
  bytes before the end of what was read, so those bytes, already handled as
  part of earlier lines, are handled again as a new line that can match a
  pattern. After `a\r\nb\r\n` the cursor is 4 and the next read returns one
  empty line (`Scanner.CRLFReread`).

For data of complete lines without `\r`, the cursor moves exactly to the end
of the file, the lines written out again give back the data, and every line is
handled once (`Scanner.AdvanceExact`, `Scanner.ScanLinesUnlines`, `Scanner.AppendedOnce`).

## Model

| member | source | states |
|---|---|---|
| Mask.GenerateBitSequence | pkg/processor/processor.go:69-75 | None (the panic) exactly for n outside [0, 32]; otherwise bit i of the word is set iff it is one of the leftmost n bits; n = 32 gives all ones, n = 0 gives zero |
| Mask.MaskAddress | pkg/processor/processor.go:60 | the masked word keeps bit i of the address iff it is one of the top n bits and clears all others; identity for n = 32, zero for n = 0 |
| IPv4.ToUint32 | pkg/processor/processor.go:59 | big-endian packing: each byte of the address is found again at its position in the word |
| IPv4.FromUint32 | pkg/processor/processor.go:61 | splitting a word into bytes with byte() conversions loses nothing: packing the bytes gives the word back |
| IPv4.ParseFormatIPv4 | pkg/processor/processor.go:58-62 | every address, printed as net.IP.String does, parses back to the same address |
| IPv4.FormatParseIPv4 | pkg/processor/processor.go:58-62 | text that parses as an address is exactly how that address prints (no leading zeros, no extra text) |
| IPv4.ParseIPv4 | pkg/processor/processor.go:58-59 | an address comes out exactly when the text is four dot-separated byte fields and nothing else; its bytes are those fields, in order |
| IPv4.FormatIPv4 | pkg/processor/processor.go:62 | the four bytes in decimal, most significant first, separated by dots |
| IPv4.ParseJoinOctets | pkg/processor/processor.go:58-62 | the four bytes of an address joined by dots parse back to that address |
| IPv4.ParseFieldsJoinStep | pkg/processor/processor.go:58 | a printed byte and a dot in front of printed fields that parse back parse back as one more field, the byte first |
| IPv4.ParseFieldsBytes | pkg/processor/processor.go:58-59 | every field read is a byte value (below 256) |
| IPv4.JoinParseFields | pkg/processor/processor.go:58 | dot-separated fields that parse are the printed form of the values parsed |
| Strings.IndexOf | cmd/fw-app/main.go:47 | the first index where the target occurs; None exactly when it occurs nowhere |
| Strings.Contains | cmd/fw-app/main.go:66 | true exactly when the substring occurs at some index |
| Strings.ReplaceFirst | cmd/fw-app/main.go:47 | a string without the target comes back unchanged; otherwise one occurrence is replaced, so the length changes by the replacement's length minus the target's |
| Strings.ReplaceFirstAtFirst | cmd/fw-app/main.go:47 | Replace with n = 1 changes a string without the target not at all, and otherwise splices the replacement in at the first occurrence, keeping everything before and after |
| Strings.IndexOfFirst | cmd/fw-app/main.go:47 | an occurrence with none before it is the one strings.Index finds |
| Strings.TrimRight | cmd/fw-app/main.go:60 | the result is a prefix that does not end in the trimmed character, and everything removed was that character |
| Strings.FormatInt | cmd/fw-app/main.go:69 | Itoa: a minus sign exactly for negative numbers, and digits that read back as the absolute value |
| Strings.DecimalValueFormatNat | pkg/processor/processor.go:62 | the decimal text of a number reads back as that number |
| Processor.FirstMatch | pkg/processor/processor.go:49-55 | the index of the first expression that matches the line: none before it matches, and it matches unless it is past the end |
| Processor.Classify | pkg/processor/processor.go:48-66 | accepted iff some accept pattern matches; rejected iff no accept pattern matches and some reject pattern does; the groups are those of the first matching pattern of that kind |
| Processor.MaskOctets | pkg/processor/processor.go:59-61 | defined iff the mask length is in [0, 32]; the bytes pack to exactly the masked word |
| Processor.SetName | pkg/processor/processor.go:79 | the set name is the firewall name, a dash, then the kind of set, and nothing else |
| Processor.AddCommand | pkg/processor/processor.go:80 | the command is `ipset -exist add` followed by the set name and the entry, and no other argument |
| Processor.LineAction | pkg/processor/processor.go:48-66 | every add a line calls for is an `ipset -exist add` on the `<name>-accept` or the `<name>-reject` set |
| Processor.RejectNetwork | pkg/processor/processor.go:58-61 | a network comes out iff the capture is a dotted-decimal IPv4 address and the mask length is in [0, 32] |
| Processor.SkipIffNoMatch | pkg/processor/processor.go:48-66 | a line does nothing iff no accept pattern and no reject pattern of its file matches it |
| Processor.AcceptPrecedence | pkg/processor/processor.go:49-55 | a line matched by an accept pattern is never rejected: it adds the /32 of the group of the first matching accept pattern, or panics |
| Processor.PanicIff | pkg/processor/processor.go:51-59 | handling a line panics exactly when the deciding pattern has no group, the rejected capture is not an IPv4 address, or the mask length is outside [0, 32] |
| Processor.RejectEntryNetwork | pkg/processor/processor.go:56-63 | a rejected line that does not panic runs `ipset -exist add <name>-reject <net>/<bits>`, where net reads back as itself and keeps exactly the top bits of the captured address |
| Processor.MaskOctetsFull | pkg/processor/processor.go:59-61 | with a 32-bit mask the rejected address is kept whole |
| Processor.RejectEntry24 | pkg/processor/processor.go:56-63 | a rejected 10.1.2.77 under a 24-bit mask adds 10.1.2.0/24 to the fw-reject set |
| Processor.AddIPToSet | pkg/processor/processor.go:78-85 | runs exactly `ipset -exist add <name>-<set> <ip>`, appended to the history; reports whether it succeeded |
| Host.IpsetAddExistIdempotent | pkg/processor/processor.go:80 | with -exist, adding an entry to an existing set succeeds and a repeat changes nothing; without -exist the repeat fails |
| Host.IpsetExistAdd | pkg/processor/processor.go:80 | the command is `ipset -exist add` with the given set and entry as its last two arguments |
| Host.IpsetAddRepeat | pkg/processor/processor.go:80-81 | on a host whose `ipset -exist add` succeeds as the ipset semantics say, over the sets that existed before (kept across a restart) and those created since, an add that succeeded leaves its entry in its set, and running it again straight away succeeds too |
| Host.IpsetSetsStep | pkg/processor/processor.go:80 | no command removes a set, and an `ipset -exist add` creates none |
| Host.IpsetSetsGrow | pkg/processor/processor.go:80 | every set of a history is still there after any further commands |
| Processor.RepeatedAddSucceeds | pkg/processor/processor.go:78-83 | on such a host, once a line's add has succeeded its entry is in the set, and handling the same line again straight away succeeds too |
| Host.Host.Run | pkg/processor/processor.go:80-81 | the command is appended to the history, and the result is whether it succeeds after the commands run before it |
| Host.Host.CombinedOutput | cmd/fw-app/main.go:64-65 | the command is appended to the history, and the result is what it prints after the commands run before it |
| Processor.MatchAndProcessIP | pkg/processor/processor.go:48-66 | a skipped line runs nothing; a panicking line runs nothing and ends the process; otherwise exactly the add command of LineAction is run and the process lives iff it succeeds |
| Reader.Cursor.ProcessFileChange | pkg/processor/processor.go:18-43 | an unopenable file is fatal and changes nothing; otherwise reading starts at the cursor, or at 0 when the file has shrunk, and the liveness, the commands run and the new cursor are those of ProcessData on the unread bytes |
| Reader.Cursor.ScanFrom | pkg/processor/processor.go:34-39 | the scanning loop ends with the cursor, command history and liveness that ProcessData gives for the unread bytes |
| Reader.Cursor.HandleLine | pkg/processor/processor.go:38 | one line's handling runs exactly what its decision calls for |
| Reader.ProcessData | pkg/processor/processor.go:34-39 | the command history only grows, and the cursor moves exactly when there is unread data |
| Reader.RepeatedLineHarmless | pkg/processor/processor.go:35-38 | on an ipset-backed host, a line handled twice in a row ends the process exactly when handling it once does |
| Reader.HandleSurvivesMoreSets | pkg/processor/processor.go:35-38 | on an ipset-backed host, lines handled without ending the process are handled without ending it from any history that has at least the same sets |
| Reader.RereadSurvives | pkg/processor/processor.go:27-38 | on an ipset-backed host, a batch of lines handled without ending the process can be handled again right after, as when the file is read again from offset 0, without ending it |
| Reader.ProcessDataLines | pkg/processor/processor.go:34-39 | reading line by line is scanning all lines, handling them in order, and moving the cursor past exactly the lines handled |
| Reader.Handle | pkg/processor/processor.go:35-39 | lines are handled in order; handling stops only after a fatal line, and otherwise all lines are handled |
| Reader.HandleAdds | pkg/processor/processor.go:35-39 | the commands run are exactly the add commands the handled lines call for, in order |
| Reader.HandleSucceeded | pkg/processor/processor.go:35-39 | every command run succeeded, except the last one when the process ended on it |
| Reader.HandleStop | pkg/processor/processor.go:35-39 | a process that ended did so on the last handled line: it panicked, or its add command was the last one run and failed |
| Scanner.ScanToken | pkg/processor/processor.go:35-36 | one scan consumes at least one byte and at most the data, and returns a prefix of the data no longer than what it consumed |
| Scanner.ScanTokenLine | pkg/processor/processor.go:35-36 | one scan stops after the first line terminator, or takes all the data when there is none; the line is what precedes the terminator without one trailing carriage return, and holds no terminator |
| Scanner.ScanLines | pkg/processor/processor.go:34-36 | there are no lines exactly when there is no unread data |
| Scanner.ScanLinesNoLF | pkg/processor/processor.go:35-36 | no line returned holds a line terminator |
| Scanner.ScanLinesUnlines | pkg/processor/processor.go:35-36 | for complete lines without carriage returns, the lines returned, each followed by a terminator, are exactly the data |
| Scanner.UnlinesScanLines | pkg/processor/processor.go:35-36 | lines without terminators or carriage returns, written out each with a terminator, are read back as exactly those lines |
| Scanner.Advance | pkg/processor/processor.go:37 | the cursor moves at least one byte per line |
| Scanner.AdvanceUnlines | pkg/processor/processor.go:37 | the cursor moves over lines by exactly their length when written out with terminators |
| Scanner.DropCR | pkg/processor/processor.go:36 | a line loses one trailing carriage return and nothing else |
| Scanner.StartOffset | pkg/processor/processor.go:27-32 | reading starts at the cursor, or at 0 when the file is shorter than the cursor; either way within the file |
| Scanner.AdvanceBounds | pkg/processor/processor.go:35-37 | the cursor moves at most one byte past the data, and lags it by at most one byte per line |
| Scanner.AdvanceExact | pkg/processor/processor.go:35-37 | without carriage returns the cursor moves exactly over the data, plus one byte after a line that has no terminator |
| Scanner.ScanLinesAppend | pkg/processor/processor.go:34-36 | complete lines followed by more data are scanned as the two parts would be separately |
| Scanner.AppendedOnce | pkg/processor/processor.go:18-43 | two bursts of complete lines are each read exactly once, and the two reads return what one read of both would |
| Scanner.CRLFReread | pkg/processor/processor.go:27-37 | after two `\r\n` lines the cursor sits on the last line's carriage return, and the next read of the same file returns one empty line |
| Scanner.UnterminatedLineSplit | pkg/processor/processor.go:27-37 | a last line without terminator or carriage return is read whole and leaves the cursor one byte past the end of the file; read again unchanged, the file is read from offset 0; once the line is completed by `r` and a terminator, the next read starts one byte into `r` and returns the rest of `r` as a line of its own |
| App.ExpandPattern | cmd/fw-app/main.go:47 | a pattern without `__IP__` is kept as written; otherwise its length changes by the address expression's length minus the marker's, one marker being replaced |
| App.CompiledStep | cmd/fw-app/main.go:35-37 | compiling one more pattern appends its expression, and all patterns so far still compile when it does |
| App.ExpandPatternFirst | cmd/fw-app/main.go:47 | a pattern without `__IP__` compiles as written; otherwise the address expression takes the place of the first marker only |
| App.SecondMarkerKept | cmd/fw-app/main.go:47 | of two markers only the first is expanded |
| App.PrepareRegex | cmd/fw-app/main.go:46-52 | a compiled expression comes out iff the expanded pattern compiles, and it is compiled from the expanded pattern |
| App.Compiled | cmd/fw-app/main.go:35-40 | one compiled expression per pattern, in order, each from that pattern expanded |
| App.CompiledMapPatterns | cmd/fw-app/main.go:31-41 | for every file, the matchers are its configured patterns, compiled and expanded, in the configured order |
| App.CompiledMapAdd | cmd/fw-app/main.go:34-41 | finishing one more file adds its entry, and only when it has patterns of that kind |
| App.AppendCompiled | cmd/fw-app/main.go:35-40 | succeeds iff every pattern compiles, and then the file's entry holds the compiled patterns (no entry when there are none) |
| App.InitRegexps | cmd/fw-app/main.go:31-43 | succeeds iff every pattern of every file compiles, and then both maps are rebuilt from the files and nothing else in the configuration changes |
| App.NewPath | cmd/fw-app/main.go:58-61 | an empty configured path leaves PATH alone; otherwise the configured path without its trailing colons, a colon and the old PATH |
| App.BootstrapCommands | cmd/fw-app/main.go:69-81 | four commands: ipset, iptables, ipset, iptables |
| App.BootstrapOrder | cmd/fw-app/main.go:69-81 | each set is created before the rule that uses it; reject traffic is dropped, accept traffic accepted; the reject set's timeout reads back as the configured one |
| Host.RunUntilFailure | cmd/fw-app/main.go:69-84 | the commands run form a prefix of the list; all ran when all succeeded; at least one ran otherwise |
| Host.RunUntilFailureStops | cmd/fw-app/main.go:69-84 | every command run but the last succeeded, and the last succeeded exactly when the whole list ran |
| App.Bootstrap | cmd/fw-app/main.go:69-84 | runs the four commands in order, stopping at the first that fails, and reports whether all succeeded |
| App.SetupIPSetsAndTables | cmd/fw-app/main.go:57-87 | PATH is extended as NewPath says; iptables-save runs; if its output names the accept set nothing more runs, otherwise the bootstrap commands run until the first failure and the result is whether all succeeded |

## Left out

- The debounced file watcher (`pkg/watcher/watcher.go`), the goroutines and the `WaitGroup` in `main`. They are concurrency around the core; each file's pipeline is modelled on its own.
- Reading `config.json` (`pkg/config/config.go`) is not part of this model; the configuration is taken as a value.
- The regular-expression engine. `FindStringSubmatch` is an abstract `Finder`, and whether `regexp.Compile` accepts a text is an abstract `valid` predicate. So `IPRegexString` is carried as text and never interpreted.
- File I/O: `os.Open`, `os.Stat` and `Seek` become the file's content given as a value, or None when it cannot be opened. The error of `os.Stat`, ignored by the code, is not modelled.
- `bufio.Scanner` errors: lines longer than the 64 KiB token limit and read errors (the fatal `scanner.Err()` path) are not modelled.
- Logging (`log.Printf`) is not modelled; `log.Fatal` and panics are modelled as the process ending (a false result, a `Panic` action, or None).
- What ipset and iptables do is not modelled beyond success or failure of each command, except for the set semantics of `ipset add` in `Host.IpsetAdd`.
- Host.IpsetSets: only `ipset create` and `ipset -exist add` change the modelled sets, starting from the sets that existed before the history, and only the success of `ipset -exist add` is tied to them (by `Host.IpsetBacked`, an assumption the repeat lemmas take); whether the other commands succeed stays a free function of the history.
- Host.IpsetBacked: an `-exist add` to an existing set succeeds whatever the entry text is. Real ipset also rejects malformed entries, such as an accept capture that is not an address or `0.0.0.0/0` into a `hash:net` set when the mask length is 0. Entry validation is not modelled: a host that rejects some entry does not satisfy `IpsetBacked`, and the repeat lemmas say nothing about it.
- `os.Getenv`/`os.Setenv` are the `path` field of `Host`; the ignored error of `Setenv` is not modelled.
- Processor.RejectNetwork: `net.ParseIP` is modelled on dotted-decimal IPv4 text only. IPv6 text that carries an IPv4 address (such as `::ffff:1.2.3.4`) is treated as a non-address, because the patterns are IPv4 by design.
- Strings are sequences of characters standing for bytes; multi-byte UTF-8 content is not distinguished from single bytes.
- The order in which `initRegexps` visits the files (Go map iteration) is a nondeterministic choice; which file's bad pattern is reported first is not modelled, only that the process ends.
- `main` itself (the order initRegexps, setupIPSetsAndTables, then the watchers) is not modelled as a member.
