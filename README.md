# Address filter and configuration reload of the visor `watch` command

This project models the two pieces of sequential logic inside the `watch`
command of sentinel-visor, a Filecoin chain indexer:

- the **address allow-list** (`chain/filter.go`): an `AddressFilter` keeps a
  list of address strings verbatim, and `Allow` is an exact-equality linear
  search over it, so an empty (or nil) list denies every address;
- the **configuration-reload goroutine** (`commands/watch.go:90-141`): it
  watches the configuration file, runs an `updater` once at start-up, then
  loops over filesystem events, the event channel closing, watcher errors
  and ticker fires. Each input stops the loop for good (a closed channel, a
  watcher error), runs the `updater` (a tick, or an event whose op has the
  Write bit), or is ignored (any other event). The `updater` reads the file,
  decodes its `addresses_filter` field and publishes a new filter to the indexer with `SetAddressFilter`;
- two small pure pieces of the same command: the `tasks` flag's default
  built with `strings.Join` and read back with `strings.Split`
  (`commands/watch.go:36`, `:49`), and the mapping of `scheduler.Run`'s
  error to the command's result (`commands/watch.go:155-159`).

Files: `wrappers.dfy` (an `Option` type standing for Go's nil),
`filter.dfy` (module `Filter`), `tasks.dfy` (module `Tasks`),
`runresult.dfy` (module `RunResult`), `reload.dfy` (module `Reload`).

The reload goroutine is modelled twice over, once as specification and once
as the imperative object the source drives. `Reload.Step` and `Reload.Run`
are pure functions over a `WatchState` snapshot: the installed filter
(`None` until the first `SetAddressFilter`), the running flag, the number of
`updater` runs and the history of published filters. The class
`Reload.ConfigWatcher` holds the same fields, with one method per input of
the `select` statement and a `Loop` method for the `for { select }` loop;
the constructor is proved to leave the object as `Start` says, `Updater` to
move it as `Updated` says, each input method as `Step` says and `Loop` as
`Run` says; the lemmas state what these functions guarantee.

The file read and the JSON decode are one abstract input, `Reload.Load`:
`ReadFail`, `ParseFail` (the file is not syntactically valid JSON) or `Parsed(list)` (the
decoded `addresses_filter`; an absent key decodes to the empty list).

**The code departs from the intended behaviour on syntax errors.** A
malformed file is meant to keep the last good filter in place. The code
logs the decode error but does not return
(`commands/watch.go:110-115`), so `SetAddressFilter` still runs with the
list the decode left behind, which after a syntax error is nil: the
installed filter becomes deny-all and the last good filter is lost. The
model follows the code (`Reload.ParseFailInstallsDenyAll`,
`Reload.ParseFailDropsLastGood`) and states the intended updater beside it
(`Reload.UpdatedIntended`, `Reload.IntendedKeepsLastGood`); see
"## Findings".

## Model

| member | source | states |
|---|---|---|
| `Filter.AddressFilter.Allow` | chain/filter.go:11-18 | `Allow(a)` holds exactly when `a` is one of the stored addresses |
| `Filter.Scan` | chain/filter.go:12-17 | the range loop from position `i` returns true exactly when some position at or after `i` holds the address, false when the list is exhausted |
| `Filter.NewAddressFilter` | chain/filter.go:3-5 | the filter keeps the list verbatim (same length, same entry at every position, duplicates kept) and allows exactly its members |
| `Filter.EmptyDeniesAll` | chain/filter.go:11-18 | the filter of an empty or nil list allows no address (deny by default) |
| `Filter.ExactMatchOnly` | chain/filter.go:13 | matching is exact equality: `["f1"]` allows `"f1"` but not `"F1"`, `" f1"` or `"f1 "` |
| `Filter.SameElementsSameAnswers` | chain/filter.go:11-18 | two lists with the same elements, whatever their order and duplicates, give the same answer for every address |
| `Filter.PermutationSameAnswers` | chain/filter.go:11-18 | reordering the list never changes an answer |
| `Filter.DuplicateSameAnswers` | chain/filter.go:11-18 | appending a copy of an entry never changes an answer |
| `Filter.Monotone` | chain/filter.go:11-18 | an address allowed by a list is allowed by every list holding all its elements |
| `Tasks.Join` | commands/watch.go:36 | `strings.Join` gives "" for no parts and the part itself for one; the join of separator-free parts holds exactly one separator fewer than there are parts |
| `Tasks.Split` | commands/watch.go:49 | `strings.Split` yields one piece more than there are separators, and no piece holds a separator |
| `Tasks.SplitJoin` | commands/watch.go:36-49 | splitting the join of a non-empty list of separator-free parts gives back the parts |
| `Tasks.JoinSplit` | commands/watch.go:36-49 | joining the pieces of a split gives back the string, for every string |
| `Tasks.DefaultTasksRoundTrip` | commands/watch.go:36-49 | reading back the default `tasks` value yields the four task names in order |
| `RunResult.Is` | commands/watch.go:156 | `errors.Is` holds exactly when the target occurs on the error's unwrap chain |
| `RunResult.IsErr` | commands/watch.go:156 | `errors.Is` of a nil error is false; otherwise as above |
| `RunResult.Exit` | commands/watch.go:155-159 | the command returns nil exactly when `Run` returned nil or an error wrapping `context.Canceled`; otherwise it returns `Run`'s error unchanged |
| `RunResult.WrappedCancelIsClean` | commands/watch.go:155-159 | `context.Canceled` wrapped to any depth maps to nil |
| `RunResult.PassThrough` | commands/watch.go:155-159 | nil maps to nil, and a failure or deadline error wrapped to any depth is returned unchanged |
| `Reload.IsWrite` | commands/watch.go:131 | the mask test `op & Write == Write` holds exactly when bit 1 of the op is set |
| `Reload.Decoded` | commands/watch.go:107-113 | the list handed to `NewAddressFilter` is the decoded `addresses_filter` after a good decode, and one whose filter allows nothing after a syntax error |
| `Reload.Updated` | commands/watch.go:101-116 | an updater run leaves the running flag alone, counts one run, and publishes exactly one filter when the read succeeded and none when it failed |
| `Reload.Start` | commands/watch.go:90-118 | the loop runs exactly when watcher creation and registration succeed; exactly one updater run happens then and none otherwise; a filter is installed only after both succeed and the read succeeded |
| `Reload.Step` | commands/watch.go:125-139 | a stopped loop ignores its input; a running one stops exactly on a close or a watcher error; publications are only appended, at most one per input |
| `Reload.Run` | commands/watch.go:124-140 | after a sequence of inputs the loop still runs exactly when it ran at the start and no input closed the channel or reported an error |
| `Reload.ReadFailKeepsFilter` | commands/watch.go:102-106 | a failed read runs the updater but publishes nothing: installed filter and publications unchanged |
| `Reload.ParsedInstallsList` | commands/watch.go:107-115 | a successful decode installs exactly the filter of the decoded list, replacing any previous one, and allows exactly that list |
| `Reload.ParseFailInstallsDenyAll` | commands/watch.go:110-115 | a syntax error still publishes, a filter that denies every address |
| `Reload.ParseFailDropsLastGood` | commands/watch.go:110-115 | after a good load of `["f1"]`, a syntax error makes `"f1"` denied: the last good filter is not kept |
| `Reload.ReloadIdempotent` | commands/watch.go:101-116 | reloading unchanged content installs the same filter again |
| `Reload.NonWriteEventIgnored` | commands/watch.go:131-133 | an event whose op lacks the Write bit changes nothing |
| `Reload.WriteEventReloads` | commands/watch.go:126-133 | on a running loop an event reloads exactly when its op has the Write bit, and then acts as a tick |
| `Reload.WriteBitExamples` | commands/watch.go:131 | Write alone or combined with other ops reloads; Create, Remove, Rename, Chmod (alone or together) do not |
| `Reload.TickReloadsOnce` | commands/watch.go:137-138 | a tick on a running loop has exactly the effect of one updater run, which counts one run and keeps the loop running |
| `Reload.CloseOrErrorStops` | commands/watch.go:126-136 | a closed event channel or a watcher error stops the loop and changes nothing else (on a stopped loop, nothing at all) |
| `Reload.UpdatedIntended` | commands/watch.go:101-116 | the updater with a return after the decode error: it counts one run, leaves the running flag alone, and publishes exactly when the file decoded |
| `Reload.StepIntended` | commands/watch.go:125-139 | the select loop running that updater: a stopped loop ignores its input, a running one stops exactly on a close or a watcher error |
| `Reload.IntendedKeepsLastGood` | commands/watch.go:110-115 | with the intended updater, a syntax error, from a tick or an event, leaves the installed filter, the publications and every `Allow` answer unchanged |
| `Reload.IntendedAgreesOtherwise` | commands/watch.go:101-139 | on every input other than a reload hitting a syntax error, the intended loop and the code take the same step |
| `Reload.IntendedKeepsF1` | commands/watch.go:110-115 | after a good load of `["f1"]`, a syntax error under the intended updater keeps `"f1"` allowed |
| `Reload.StoppedIsFinal` | commands/watch.go:124-140 | once stopped, no sequence of inputs changes any part of the state |
| `Reload.NothingAfterStop` | commands/watch.go:126-136 | after a close or an error, the installed filter and the publication history stay as they were whatever follows |
| `Reload.StepConsistent` | commands/watch.go:101-140 | every input keeps the installed filter equal to the last published one, with no more publications than updater runs |
| `Reload.RunConsistent` | commands/watch.go:124-140 | whole runs keep that invariant |
| `Reload.RunExtendsHistory` | commands/watch.go:124-140 | publications are only appended, and the updater count never decreases |
| `Reload.SetupFailureInstallsNothing` | commands/watch.go:91-99 | if watcher creation or registration fails, no filter is ever installed and nothing ever runs |
| `Reload.StartLoadsOnce` | commands/watch.go:91-118 | otherwise exactly one reload runs before the first input, the loop is running, and the installed filter is the initial load's (none after a failed read) |
| `Reload.EndToEnd` | commands/watch.go:101-133 | `["f1"]` at start-up allows `"f1"` only; after the file becomes `["f2"]` and a write event arrives, `"f2"` is allowed and `"f1"` denied |
| `Reload.ConfigWatcher.constructor` | commands/watch.go:90-118 | start-up leaves the object in the state `Start` gives, consistent |
| `Reload.ConfigWatcher.Updater` | commands/watch.go:101-116 | one updater run moves the object as `Updated` says and keeps it consistent |
| `Reload.ConfigWatcher.OnEvent` | commands/watch.go:126-133 | a filesystem event moves the object as `Step` says |
| `Reload.ConfigWatcher.OnEventsClosed` | commands/watch.go:126-130 | a closed event channel moves the object as `Step` says |
| `Reload.ConfigWatcher.OnWatchError` | commands/watch.go:134-136 | a watcher error moves the object as `Step` says |
| `Reload.ConfigWatcher.OnTick` | commands/watch.go:137-138 | a ticker fire moves the object as `Step` says |
| `Reload.ConfigWatcher.Loop` | commands/watch.go:124-140 | the loop moves the object as `Run` says over the inputs, and stops taking inputs only when they run out or the loop has stopped |

## Findings

| source | as written | input that shows it | evidently intended | confidence | as-written member | corrected member |
|---|---|---|---|---|---|---|
| commands/watch.go:110-115 | after a decode error the updater logs and falls through to `SetAddressFilter` with the nil list, installing a deny-all filter | start-up load of `{"addresses_filter": ["f1"]}`, then the file holds invalid JSON and the ticker fires: `"f1"` is now denied | return after the decode error, as the read failure does at :103-106, keeping the last good filter | medium, not executed | `Reload.ParseFailDropsLastGood` | `Reload.IntendedKeepsLastGood` |

The rest of the model, the class included, follows the code as written;
`Reload.UpdatedIntended` and `Reload.StepIntended` state the intended
behaviour beside it.

## Left out

- Flag definitions and the logging, metrics, tracing, lens and database setup of the command (`commands/watch.go:23-83`): plumbing over code that is not part of this model.
- `ioutil.ReadFile` and `json.Unmarshal`: their combined outcome is the abstract input `Reload.Load`. `ParseFail` stands for a syntax error, which leaves the list empty; JSON type errors, which fill the list partly (`{"addresses_filter": ["f1", 2]}` leaves `["f1", ""]`), are decoder behaviour and are not modelled.
- fsnotify's operating-system semantics (which ops are emitted, coalescing of events) and `time.NewTicker` with its 5-minute period: inputs arrive as a sequence in the order the `select` received them. The op bit values (`Write` is `1 << 1`) come from fsnotify.
- Which ready channel `select` picks when several are ready: the input sequence fixes that order.
- Concurrency between the goroutine and the indexer, and the atomicity of `SetAddressFilter` (implemented in `chain.TipSetIndexer`, not part of this model): publication is a plain field assignment on a sequential object.
- The scheduler, its restart policy, `chain.NewTipSetIndexer` and `chain.NewWatcher` (`commands/watch.go:85`, `:143-152`): external framework code; only `scheduler.Run`'s result is modelled.
- Log output: it has no observable effect.
- The task-name constants of package chain are not part of this model; the values used are the indexer's task names, and the round trip needs only that none holds a comma.
- `RunResult.Is`: error types with their own `Is` or `Unwrap() []error` methods are not modelled; only single wrapping as `xerrors.Errorf("...: %w", err)` produces.
- `RunResult.Is` compares `Error` values by structure, so two failures with the same text are equal, whereas Go compares `errors.New` values by identity. `Exit` is unaffected: its only target is the single sentinel `Canceled`.
- `Tasks.Split` and `Tasks.Join`: modelled for a one-character separator, the only one the command uses.
- Go strings are byte strings, while a Dafny `string` is a sequence of Unicode characters. For valid UTF-8, which is all `json.Unmarshal` produces, exact equality (`chain/filter.go:13`) and splitting on the ASCII `","` (`commands/watch.go:49`) give the same answers on either view.
- Go's nil versus empty slice: the source never distinguishes them for the filter, and both are the empty sequence.
