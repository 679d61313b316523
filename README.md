# switchboardui core in Dafny

This project models the logic at the core of the switchboard panel (a PyQt desktop tool). The panel drives banks of 0/1 switches and exchanges each bank's packed value over MQTT. It covers:

- **Bit packing.** `publish_state` turns a bank into one integer: switch j becomes bit j. `apply_value` writes a value back into a bank. It undoes `publish_state` only on a board of twelve switches and for values below 4096 (see Findings).
- **The switch state machine.** Press, release, hold-mode change and silent set on a `SwitchWidget`. `activate` and `deactivate` each emit one `toggled`, and `toggled` makes the board publish.
- **Board-level operations of the window.** Routing of received topics into the value cache (`custom_on_message`), `apply_cached`, the switch loop of `on_reset`, and the name object `on_save_config` builds.
- **Name loading.** `_load_switch_names` reads board names from the configuration: boards and switches ordered by the number after `_`, blanks as `SW i`, twelve defaults for other entries.
- **The reconnect worker.** Its `run` loop retries a broker connection until it succeeds or the thread is asked to stop.

Modules:

- `Wrappers`: `Option` and `Result`.
- `Text`: the Python string and number operations the code relies on: `str(n)`, `bin(n)[2:]`, `int(s)`, `zfill`, `split`, `startswith`, `endswith`.
- `Codec`: bit packing, and `apply_value` both as written and as evidently intended.
- `Switches`: `class Switch` (`SwitchWidget`) and `class Board` (`SwitchboardWidget`). Their fields change in place.
- `Names`: `_load_switch_names`, and the object `on_save_config` writes.
- `Panel`: `class App` (`SwitchBoardApp`): board keys, boards, cache.
- `Reconnect`: `ReconnectWorker.run` over two oracle sequences, one for call outcomes and one for interruption flags.

Things that come from outside the core are parameters or ghost state:

- The protobuf decode of a received payload is a parameter of type `Option<nat>`; `None` means decoding raised.
- The values handed to the MQTT client by `publish_state` are recorded in the ghost field `Board.published`.
- The number of `toggled` emissions per switch is the ghost counter `Switch.toggledCount`.
- The reconnect outcomes and interruption flags are the sequences `outcomes` and `interrupts`.

Where the code and its description differ, the model follows the code:

- **`apply_cached` looks up `sb_{idx}` by position** (1-based). It does not use the loaded key of board idx. `Panel.App.ApplyCached` states exactly that.
  - Board idx publishes on `switchboard-idx/out`, and a message on that topic is cached under `sb_idx` when that is a loaded key. `Panel.RouteOwnTopic` and `Panel.ReceiveOwnTopic` show this.
  - With the keys `sb_1` … `sb_n` in order, each board therefore gets back its own last value.
  - With other keys, position and key come apart. Take the keys `sb_2` and `sb_5`. A message on `switchboard-2/out` is cached under `sb_2` and applied to the second board, whose key is `sb_5`. The first board looks up `sb_1`, which is never cached.
- **`apply_cached` calls `apply_value` as written.** An IndexError from one board leaves `apply_cached`, so the later boards are not set.
- **The hold checkbox is flipped by Qt before `handle_mode_change` runs.** The handler then only forces the state to 0. `Switch.HandleModeChange` models both steps.
- **`on_reset` deactivates each switch through `deactivate`.** That call emits `toggled`, so a reset publishes the bank once per switch (`Board.Reset`, `ResetTrace`).

## Model

| member | source | states |
|---|---|---|
| Text.ParseNat | gui.py:17 | `int(s, base)` succeeds exactly when `s` is a non-empty string of digits of the base; every other text is the ValueError path |
| Text.ToDigits | gui.py:153 | `str(n)` / `bin(n)[2:]`: at least one digit, every digit below the base, no leading zero for n > 0 |
| Text.ParseToDigits | gui.py:17 | reading the printed digits of n back with `int` gives n, for every base from 2 to 10 |
| Text.ToDigitsValue | gui.py:17 | the value of the printed digits of n is n |
| Text.LeadingZerosValue | gui.py:153 | zero padding in front of a digit string keeps it a digit string and leaves its value unchanged |
| Text.ZFill | gui.py:153 | `zfill(width)`: length is the larger of the two, the text is a suffix, and everything before it is '0' |
| Text.Before | gui.py:355 | `split(sep)[0]`: contains no separator; it is the whole text without a separator, otherwise the text up to the first one |
| Text.After | gui.py:355 | the text is what `Before` gives, the separator, and the result, in that order |
| Text.SplitAt | gui.py:355 | for a prefix without the separator, `Before` returns that prefix and `After` returns exactly what follows the separator |
| Text.PrefixSuffix | gui.py:354 | a text assembled as p + m + q passes `startswith(p)` and `endswith(q)` |
| Codec.Normalize | gui.py:104 | `1 if state else 0`: the result is 1 exactly when the argument is nonzero |
| Codec.BitString | gui.py:147 | the joined text has one binary digit per switch |
| Codec.BitStringAt | gui.py:147 | character p of the joined text is the state of switch n - 1 - p (the list is reversed) |
| Codec.BitStringValue | gui.py:147-148 | reading the joined text in base 2 gives the reference weight, switch j weighing 2^j |
| Codec.ValueBound | gui.py:147-148 | a bank of n switches packs into [0, 2^n - 1] |
| Codec.Encode | gui.py:147-148 | `int(bitstring, 2)` equals the reference weight (switch j is bit j) and lies below 2^n |
| Codec.AllZeroValue | gui.py:147-148 | an all-inactive bank of any size packs to 0 |
| Codec.AllOneValue | gui.py:147-148 | an all-active bank of n switches packs to 2^n - 1 |
| Codec.OnlyActiveValue | gui.py:147-148 | a bank whose only active switch is j packs to 2^j |
| Codec.EncodeExtremes | gui.py:147-148 | all inactive encodes to 0, all active to 2^n - 1, and a single active switch j to 2^j |
| Codec.TwelveSwitchExamples | gui.py:147-148 | with twelve switches: all active gives 4095, only the last switch gives 2048, only the first gives 1 |
| Codec.LowBitsValue | gui.py:152-155 | the n low bits of any value, read as a bank, pack to the value modulo 2^n: bits that do not fit are dropped |
| Codec.DecodeEncode | gui.py:147-155 | taking the n low bits of an encoded bank of n switches gives the bank back, for every n |
| Codec.EncodeDecode | gui.py:147-155 | encoding the n low bits of a value below 2^n gives the value back |
| Codec.PaddedBin | gui.py:153 | `bin(value)[2:].zfill(width)` is at least `width` characters long and all binary digits |
| Codec.DigitsLength | gui.py:153 | a value below 2^m has at most m binary digits, so padding to m characters adds only zeros |
| Codec.PaddedBinIsBitString | gui.py:147-153 | for a value below 2^w, the text padded to w characters is the text `publish_state` builds for the value's w low bits |
| Codec.AppliedDigits | gui.py:154-155 | the loop over the reversed switches has a result exactly when the n switches do not outnumber the digits; then switch k holds digit n - 1 - k |
| Codec.AppliedPadded | gui.py:152-155 | `apply_value` with padding width w: defined exactly when n is at most the padded length, and then switch k takes padded digit n - 1 - k |
| Codec.AppliedAsWritten | gui.py:152-155 | `apply_value` as written (width 12): it completes exactly when n is at most the padded length, and the bank then has n switches |
| Codec.AfterApplyValue | gui.py:152-155 | the bank after `apply_value` as written, whether or not it raises, has as many switches as before |
| Codec.AfterApplyValueCases | gui.py:152-155 | without an IndexError the bank after the loop is the one `AppliedAsWritten` gives; with one, the low switches that the digits did not reach keep their old states |
| Codec.DigitsAtLeast | gui.py:153 | a value of at least 2^m has more than m binary digits |
| Codec.AsWrittenFails | gui.py:152-155 | `apply_value` raises IndexError exactly when the board has more than twelve switches and the value is below 2^(n-1), so that the padded text has fewer than n digits |
| Codec.PowerDigits | gui.py:153 | `bin(2^m)[2:]` is '1' followed by m zeros |
| Codec.PaddedPowerTwelve | gui.py:153 | `bin(4096)[2:].zfill(12)` is thirteen characters long: '1' and twelve zeros |
| Codec.AsWrittenKeepsTopDigits | gui.py:152-155 | on twelve switches, `apply_value(4096)` writes the top twelve of thirteen digits, so only the last switch ends up active and the board packs to 2048, not to 4096 mod 4096 = 0 |
| Codec.BitStringDigit | gui.py:147-155 | digit n - 1 - k of the joined text, read back with `int`, is the state of switch k |
| Codec.BitStringApplies | gui.py:147-155 | writing a bank's joined text back digit by digit, reversed, restores the bank |
| Codec.PaddedMatchesWidth | gui.py:152-155 | when the padding width equals the number of switches and the value fits, switch k gets bit k |
| Codec.AsWrittenTwelve | gui.py:152-155 | with twelve switches and a value below 4096, `apply_value` gives switch k bit k |
| Codec.AsWrittenRoundTrip | gui.py:147-155 | with twelve switches, `apply_value(encode(states))` restores every state |
| Codec.AsWrittenEncodeAfterApply | gui.py:147-155 | with twelve switches, encoding after `apply_value(v)` gives v back for every v in [0, 4095] |
| Codec.AsWrittenLosesShortBank | gui.py:152-155 | on a one-switch board, the active state encodes to 1 but `apply_value(1)` leaves the switch inactive |
| Codec.AsWrittenOverrunsLongBank | gui.py:152-155 | on a thirteen-switch board, `apply_value(encode(all inactive))` runs past the twelve digits (IndexError) |
| Switches.Switch.constructor | gui.py:39-62 | a new switch is inactive, has the given hold mode and name, and has emitted nothing |
| Switches.Switch.Activate | gui.py:86-90 | state becomes 1 and exactly one `toggled` is emitted |
| Switches.Switch.Deactivate | gui.py:92-96 | state becomes 0 and exactly one `toggled` is emitted |
| Switches.Switch.HandlePress | gui.py:72-80 | in hold mode the state becomes 1, even if it was already 1; in latching mode it flips; exactly one `toggled` either way |
| Switches.Switch.HandleRelease | gui.py:82-84 | in hold mode the state becomes 0 with one `toggled`; in latching mode nothing changes and nothing is emitted |
| Switches.Switch.HandleModeChange | gui.py:98-101 | the hold flag is flipped and the state forced to 0; no `toggled` (the counter is outside the frame) |
| Switches.Switch.SetStateSilent | gui.py:103-112 | any nonzero argument sets state 1 and zero sets 0; only the state changes, so nothing is emitted |
| Switches.ZeroPrefix | gui.py:324-326 | the bank part-way through the reset loop: switches before m are 0, the rest as they were |
| Switches.ResetTrace | gui.py:324-326 | one published value per deactivated switch during a reset |
| Switches.ResetEndsAtZero | gui.py:324-326 | the last value a reset of a non-empty bank publishes is 0 |
| Switches.Board.constructor | gui.py:129-132 | one inactive latching switch per name, in order, switches distinct, nothing published |
| Switches.Board.PublishState | gui.py:146-150 | the packed value of the current bank is appended to what the client received |
| Switches.Board.Press | gui.py:72-80 | only switch j's state changes (set in hold mode, flipped otherwise); its one `toggled` publishes the new bank; holds and names unchanged |
| Switches.Board.Release | gui.py:82-84 | in hold mode switch j becomes 0 and the new bank is published; otherwise the bank and the published values are unchanged |
| Switches.Board.ModeChange | gui.py:98-101 | switch j's state becomes 0 and its hold flag flips; names and published values are unchanged |
| Switches.Board.ApplyValueAsWritten | gui.py:152-155 | `apply_value` as written: ok is true exactly when `AppliedAsWritten` is defined; the bank becomes `AfterApplyValue` of the old bank, so on IndexError the switches already written hold their digits and the rest keep their states; holds, names, `toggled` counts and published values are unchanged |
| Switches.Board.ApplyPadded | gui.py:152-155 | the same loop for any padding width, switch by switch, in terms of `AppliedPadded` |
| Switches.Board.WriteDigits | gui.py:154-155 | the loop succeeds exactly when the switches do not outnumber the digits; switch k holds digit n - 1 - k when that digit exists, otherwise it keeps its old state |
| Switches.Board.WriteBit | gui.py:155 | `set_state_silent` on switch k: only that switch's state changes, to the normalised value |
| Switches.Board.ApplyValue | gui.py:152-155 | the corrected `apply_value`: the bank becomes the n low bits of v, so switch k takes bit k for any n; holds, names, `toggled` counts and published values are unchanged |
| Switches.Board.Reset | gui.py:324-328 | every switch ends at 0 with hold cleared and one more `toggled`; names are kept; the board publishes `ResetTrace` of the old bank |
| Switches.Board.ResetSwitch | gui.py:325-328 | one reset step: switch k is deactivated, publishing the bank with switches 0..k at 0, and its hold flag is cleared |
| Names.KeyIndexOf | gui.py:17 | `int(key.split("_")[1])` on a key written as prefix, `_`, number reads back that number |
| Names.DefaultNames | gui.py:27 | the default list has n entries, entry i being "SW i" |
| Names.FillBlanks | gui.py:22-25 | same length as the input, no empty name left, a blank at position i becomes "SW i", and every other name is kept |
| Names.Keyed | gui.py:17 | fails exactly when some key has no readable number; otherwise every item is paired, in order, with its key number |
| Names.SortSorted | gui.py:17 | `sorted` by key number gives a sorted permutation of its input |
| Names.SortKeepsSorted | gui.py:17 | input already in key order comes out of the sort unchanged |
| Names.InsertWithIndex | gui.py:17 | inserting an item puts it first among the items with its own number and moves no other item relative to its equals |
| Names.SortStable | gui.py:17 | `sorted` is stable: for every key number, the items with that number come out in their input order |
| Names.KeyedInOrder | gui.py:17 | items whose keys are readable and in order are keyed without error and left in place by the sort |
| Names.EntryNames | gui.py:19-27 | a list keeps its length with blanks filled; any other non-object value gives the twelve defaults; an object fails exactly when some key has no readable number, and otherwise gives its values sorted by key number with blanks filled |
| Names.DictNames | gui.py:19-23 | a name object with readable keys loads as the values of a stably sorted permutation of its numbered items, with blanks filled; one name per item |
| Names.NamesOfEntries | gui.py:18-28 | on success, one board per sorted entry, keeping its key and the names its entry yields |
| Names.LoadSwitchNames | gui.py:15-28 | the loop of `_load_switch_names` returns what `LoadedNames` specifies, including the first error raised |
| Names.LoadedView | gui.py:15-19 | a successful load visits the keyed items sorted by key number, as a sorted permutation |
| Names.LoadedKeys | gui.py:15-28 | a successful load yields one board per configured entry, with the same keys |
| Names.LoadedOrdered | gui.py:17-19 | every loaded key has a readable number, and the numbers are nondecreasing |
| Names.LoadedEntries | gui.py:19-27 | every loaded board carries the names its own configured entry gives |
| Names.SwitchItems | gui.py:335-336 | the name object of one board: entry j is ("sw_j", name of switch j), and its key reads back as j |
| Names.SavedConfig | gui.py:332-336 | the `switch_names` object: one entry per board key, in order, each holding that board's name object |
| Names.LoadSavedEntry | gui.py:20-23 | reading a saved name object back gives the board's names with blanks filled |
| Names.SavedEntriesLoad | gui.py:19-23 | entries that each load to the wanted names load, in order, to the whole wanted list |
| Names.LoadAfterSave | gui.py:331-336 | with keys in key-number order, saving and loading gives every board back under its key with its names (blanks as "SW j") |
| Names.LoadDefaults | gui.py:16-27 | a missing `switch_names` object loads as no boards; an entry that is neither object nor list gets the twelve defaults |
| Panel.TopicKey | gui.py:354-356 | a key exists exactly for topics that start with "switchboard-" and end with "/out", and it starts with "sb_" |
| Panel.TopicKeyOf | gui.py:354-356 | the topic "switchboard-N/out", where N contains no '-' or '/', routes to "sb_N" |
| Panel.RouteOwnTopic | gui.py:354-356 | board i's own topic "switchboard-i/out" (gui.py:257) routes to the key "sb_i" that `apply_cached` reads |
| Panel.Received | gui.py:351-368 | after a message, only the routed key can change; it must be a loaded key, and it changes to the decoded value, which exists |
| Panel.ReceiveOwnTopic | gui.py:354-364 | a value decoded on board i's topic, with "sb_i" loaded, is stored under "sb_i"; nothing else changes |
| Panel.ReceiveIgnores | gui.py:354-366 | other topics, unknown boards and failed decodes leave the cache exactly as it was |
| Panel.CachedAsWritten | gui.py:347-349 | the bank a board gets from its cache entry keeps its length, and is the old bank when nothing is cached |
| Panel.CachedApplies | gui.py:347-349 | when `apply_value` does not raise on the cached value, the board gets exactly the bank `AppliedAsWritten` gives |
| Panel.CachedStandardBoard | gui.py:347-349 | a twelve-switch board with a cached value below 4096 does not raise, and then packs to that value |
| Panel.CachedRestoresBank | gui.py:347-349 | applying the packed value of a twelve-switch bank restores that bank |
| Panel.RaisesOnLongBoard | gui.py:347-349 | on a board of more than twelve switches, every cached value below 4096 raises IndexError |
| Panel.CachedBanksAt | gui.py:346-349 | the target of board c is the value cached under "sb_(c+1)", applied as written to its old bank |
| Panel.RaisingBoardsAt | gui.py:346-349 | board c raises exactly when `apply_value` raises on the value cached under "sb_(c+1)" |
| Panel.DefaultKeyInOrder | gui.py:167-172 | the default board key "sb_1" has a readable number |
| Panel.LoadedKeysInOrder | gui.py:163-164 | the loaded board keys are readable and in key-number order |
| Panel.SaveThenLoad | gui.py:331-336 | the object saved from the window's boards, loaded or defaulted, loads back to the same keys with each board's names |
| Panel.NewBoards | gui.py:253-266 | one fresh, valid board per loaded entry, with disjoint switches; board i publishes on "switchboard-(i+1)/out"; switches named as loaded, all inactive and latching |
| Panel.AddBoard | gui.py:254-266 | one round of the constructor's loop appends one fresh board built from its topic and names, distinct from and sharing no switch with the earlier boards |
| Panel.NameItems | gui.py:335-336 | the inner loop of `on_save_config` builds exactly the name object of the board |
| Panel.App.constructor | gui.py:253-270 | boards in key order with their loaded names, all inactive and latching; one empty cache entry per key; a single default board when none is loaded; the window's switches are exactly the switches of its boards, all new |
| Panel.App.OnMessage | gui.py:351-368 | the cache becomes `Received` of the old cache, and the cache still has exactly the loaded keys |
| Panel.App.ApplyCached | gui.py:345-349 | `raised` is the first board whose cached value makes `apply_value` raise, None when no board raises; every board up to and including that one is set from the value cached under "sb_i" by `apply_value` as written (left alone when nothing is cached), and the later boards are untouched; holds, names and published values are unchanged |
| Panel.App.ApplyLoop | gui.py:346-349 | the loop visits the boards in order and stops after the first that raises: the b boards visited hold their targets, the others are untouched, and b covers every board when none raised |
| Panel.App.AppliedCache | gui.py:346-349 | where the loop ends, stated per board: which boards raise, and which bank each board holds |
| Panel.App.ApplyOne | gui.py:347-349 | one round of the loop: board b reaches its target in `CachedBanks`, also when it raises; ok is false exactly when it raises; the other boards, and all holds and names, are unchanged |
| Panel.App.SetBoard | gui.py:347-349 | `apply_value` as written on board b with its cached value: ok is false exactly when it raises, board b gets `CachedAsWritten` of its old bank, and no other board changes |
| Panel.App.Reset | gui.py:324-329 | every switch of every board ends at 0 with hold cleared; names are kept; each board publishes its reset trace |
| Panel.App.ResetOne | gui.py:325-329 | one round of the reset loop changes board b only |
| Panel.App.SaveConfig | gui.py:331-336 | the built object is `SavedConfig` of the keys and the boards' current names |
| Reconnect.FirstStop | utilities.py:21-24 | the loop stops after call k: call k succeeds or the flag is set after it, and every earlier call failed with the flag clear |
| Reconnect.TraceShape | utilities.py:20-27 | `run` makes FirstStop + 1 calls, then emits `loop_start` and `finished(True)` after a success, or `finished(False)` alone |
| Reconnect.Run | utilities.py:20-27 | the loop with its early return produces exactly `Trace`, the call-by-call definition of the events |
| Reconnect.FirstSuccessConnects | utilities.py:21-26 | if call k is the first success, with the flag clear after each earlier failure, there are exactly k + 1 calls, then `loop_start` and `finished(True)` |
| Reconnect.SuccessBeforeInterruption | utilities.py:21-26 | a first call that succeeds connects even when interruption was already requested |
| Reconnect.InterruptionCancels | utilities.py:21-24 | a flag seen set after failed call k ends with `finished(False)`: no `loop_start`, no call after k |
| Reconnect.FinishedOnce | utilities.py:20-27 | `finished` is emitted exactly once, last, carrying the outcome of the last call; `loop_start` appears at most once, just before `finished(True)` |
| Reconnect.NoRetryCap | utilities.py:21-22 | when the first m calls fail and the flag stays clear, more than m calls are made, for any m |
| Reconnect.FailFailSucceed | utilities.py:21-26 | fail, fail, succeed with no interruption: three calls, one `loop_start`, `finished(True)` |

## Left out

- Qt widgets, layout, styling, button enablement, and window setup: UI only. This includes `_reconnect_thread_cleanup` and `on_lockin`, the `QThread` wiring, and the checked and enabled flags that `on_reset` sets on buttons. Only the hold checkbox is modelled, as `Switch.hold`.
- The MQTT client: `publish`, `loop_stop`, `disconnect`, `custom_reconnect`, and the interruption request in `on_reset`. `publish` is recorded as `Board.published`; `custom_reconnect` and the interruption flag are oracle sequences. These are calls into a library outside this model.
- Protobuf serialisation (`to_protobuf`, `SerializeToString`, `from_protobuf`). A received payload is given already decoded, as `Option<nat>`. The field is assumed unsigned, so negative values are not modelled.
- `_origin_enum_for`, a lookup in a generated protobuf module.
- File I/O and logging: `read_config`, the `json.dump` in `on_save_config`, and the log handlers. The configuration arrives as the items of its `switch_names` object; saving returns the object.
- main.py, which only starts the application.
- What happens to an IndexError once it leaves `apply_cached`: the method is a button's slot, so the exception goes to Qt's event loop. `Panel.App.ApplyCached` returns the board that raised instead.
- Concurrency: `custom_on_message` runs on the MQTT client's thread, and `run` on a worker thread. Each is modelled as one atomic sequential step.
- Reconnect.Run: runs that never stop are not modelled. `Stops` requires some call to succeed or some flag to be set; without that, the source loops forever.
- Text.ParseNat: Python's `int` also accepts a sign, surrounding whitespace, underscores and non-ASCII digits. Only plain ASCII digit strings are modelled; everything else is the ValueError path.
- Names.EntryNames: name values are modelled as strings. Non-string JSON values in a name list or object, whose truthiness decides whether `SW i` replaces them, are not modelled.
- Names.LoadedNames: the configuration's items are a sequence. Duplicate keys, which a parsed JSON object cannot hold, would appear twice in the result instead of collapsing into one `OrderedDict` entry.
- Switches.Board.PublishState: requires a non-empty bank. `int("", 2)` raises on an empty board, but `publish_state` only runs from a switch's `toggled`, so the board has at least one switch.

## Findings

| source | as written | input that shows it | evidently intended | confidence | as-written member | corrected member |
|---|---|---|---|---|---|---|
| gui.py:152-155 | `apply_value` pads `bin(value)` to twelve digits and writes digit i to switch n - 1 - i, whatever the number n of switches or the size of the value | a one-switch board (a one-name list in the configuration) publishes 1 when active, but `apply_value(1)` reads the leading padding '0' and leaves it inactive; a thirteen-switch board raises IndexError on value 0; a twelve-switch board given 4096 keeps the top twelve of its thirteen digits and packs to 2048 | switch k takes bit k of the value for any n, inverting `publish_state` | not executed | Codec.AsWrittenLosesShortBank, Codec.AsWrittenOverrunsLongBank, Codec.AsWrittenKeepsTopDigits, Switches.Board.ApplyValueAsWritten | Codec.DecodeEncode, Switches.Board.ApplyValue |

`Panel.App.ApplyCached` keeps the call as written, so that it states what the window does. The corrected `Switches.Board.ApplyValue` stands beside it, with the intended round trip proved.
