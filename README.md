# cmus now-playing widget and group switch, modelled in Dafny

This models the only logic in a personal qtile window-manager configuration.
The rest of that file is declarative data handed to the host.

- **`Cmus.get_info`** parses the text printed by `cmus-remote -C status` into a record with six fields: status, file, artist, album, title, stream.
- **`Cmus.now_playing`** keeps the last playback status it saw. It recolours the widget's text only when that status changes, and chooses the text to show.
- **`Cmus.play`** and the click bindings choose the `cmus-remote` command a click sends.
- **`whereScreen`** picks the group to show when a group key is pressed.

Modules, one per component:

- `Wrappers` (`wrappers.dfy`): the `Option` type, standing for Python's `None`.
- `Text` (`text.dfy`): the CPython `str` operations the parser depends on. These are `startswith`, `in`/`index`, `strip()`, `splitlines()` and `split("/")`. Their whitespace and line-break character sets are CPython's. `"\r\n"` counts as one line break, and a final line break opens no empty line.
- `CmusStatus` (`cmus_status.dfy`): `get_info`. `ParseStatus` is its functional specification. It is built from `LineStep` (what one line does: set one field, end the scan, or nothing) and `Apply` (the outer loop over these line effects). `GetInfo` and `ScanLine` are the imperative loops, each proved equal to that specification. Lemmas state the parsing rules in terms of where a key occurs in a line.
- `CmusWidget` (`cmus_widget.dfy`): the display text, the `Cmus` class and the click commands. The class's fields are `status`, `local` and the layout `colour`. The invariant `Valid()` says that while the cached status is non-empty, the colour is the one that goes with it.
- `Groups` (`groups.dfy`): `whereScreen`.

Two consequences of the code's scan rule are easy to miss:

- The scan does not stop at every line it does not recognise. It stops only at a line that starts with `set`, and only when the first key that does not move on is absent from that line. A key moves on when it occurs only at index 5 or later, or when it is absent from a line that does not start with `set`. So a line such as `set status_display_program x` sets the status field (`status` first occurs at index 4) and does not end the scan. `StopNeedsSetLine`, `SetLineWithoutStatusStops` and `LineStepSpec` state exactly when the scan stops.
- A key counts when its first occurrence starts before index 5, and the value is everything after that occurrence, stripped. So `tag albumartist X` sets `album` to `artist X`: the key `artist` is tried first, but it first occurs at index 9, so it moves on; `album` occurs at index 4. `TryKeySpec` and `SetFieldIsFirstHit` state this rule, and `AlbumArtistTagSetsAlbum` proves the example.

## Model

| member | source | states |
|---|---|---|
| `Text.FindSpec` | qtile/config.py:77-78 | The search that stands for `data in line` and `line.index(data)` returns the first position where the key occurs, and nothing exactly when the key occurs nowhere |
| `Text.FindFromSpec` | qtile/config.py:77-78 | Searching from a position finds the first occurrence at or after it, or nothing when there is none |
| `Text.TrimStartSpec` | qtile/config.py:80 | Left-stripping cuts only whitespace (CPython's `isspace` set) and keeps a suffix that does not start with whitespace |
| `Text.TrimEndSpec` | qtile/config.py:80 | Right-stripping cuts only whitespace and keeps a prefix that does not end with whitespace |
| `Text.StripSpec` | qtile/config.py:80 | `strip()` keeps a slice of the input that neither starts nor ends with whitespace and cuts only whitespace around it; the result is empty exactly when the input is all whitespace |
| `Text.SplitLines` | qtile/config.py:65 | `splitlines()` gives no lines exactly when the text is empty |
| `Text.SplitLinesRejoin` | qtile/config.py:65 | The lines `splitlines()` gives, each followed by the terminator it cut, give back the text. Each terminator is one line-break character or `"\r\n"` taken as one. Every line but the last has one, and the last lacks one only when it is non-empty. No line holds a line-break character, and a lone `"\r"` terminator is never followed by `"\n"` |
| `Text.ReadsAsLinesIsSplitLines` | qtile/config.py:65 | Any division of the text into lines and terminators with those properties is the one `splitlines()` gives, so they fix `splitlines()` exactly |
| `Text.Split` | qtile/config.py:105 | `split("/")` gives at least one piece, and no piece contains the separator |
| `Text.JoinSplit` | qtile/config.py:105 | Joining the pieces of a split with the separator gives back the original string |
| `Text.SplitHasSeveralPieces` | qtile/config.py:105 | A split has more than one piece exactly when the separator occurs in the string |
| `Text.LastPieceIsSuffix` | qtile/config.py:105 | `split("/")[-1]` is the longest suffix without `/`: it ends the path, contains no `/`, is preceded by `/` whenever the path contains one, and is the whole string when it contains none |
| `CmusStatus.Info.Set` | qtile/config.py:80 | Assigning `info[data]` sets that key to the value and leaves the other five keys unchanged |
| `CmusStatus.GetInfo` | qtile/config.py:58-84 | The outer loop over the output's lines, with its early return, computes exactly `ParseStatus` of the output |
| `CmusStatus.ScanLine` | qtile/config.py:76-83 | The inner loop over the keys computes exactly what the line does (`LineStep`): the first key found before index 5 sets its field and breaks; a key absent from a `set` line ends the scan |
| `CmusStatus.TryKeySpec` | qtile/config.py:77-83 | Trying one key sets its field exactly when the key occurs somewhere before index 5, and then to the stripped text after its first occurrence; it ends the scan exactly when the key occurs nowhere and the line starts with `set` |
| `CmusStatus.ScanSkips` | qtile/config.py:76-83 | Trying keys from a position on changes nothing exactly when every one of them moves on to the next key |
| `CmusStatus.ScanDecides` | qtile/config.py:76-83 | Trying keys from a position on has the effect of the first key that does not move on |
| `CmusStatus.LineStepSpec` | qtile/config.py:75-83 | A line does nothing exactly when every key moves on; otherwise the first key, in the order status, file, artist, album, title, stream, that does not move on decides the line, so one line sets at most one field |
| `CmusStatus.FirstNotPassing` | qtile/config.py:76-83 | When some key does not move on, there is a first such key in the dictionary's order |
| `CmusStatus.StopNeedsSetLine` | qtile/config.py:82-83 | Only a line starting with `set` can end the scan |
| `CmusStatus.SetLineWithoutStatusStops` | qtile/config.py:82-83 | A line that starts with `set` and does not contain `status` ends the scan |
| `CmusStatus.SetFieldIsFirstHit` | qtile/config.py:76-81 | A line that sets a field sets it from that key's first occurrence, at an index below 5, to the stripped rest of the line, and every key tried before it moved on |
| `CmusStatus.TryKeySetsFromFirstOccurrence` | qtile/config.py:76-80 | A key whose trial sets its field sets it from the key's first occurrence, which lies before index 5, to the stripped text after it |
| `CmusStatus.StatusLineSetsStatus` | qtile/config.py:64-81 | A line beginning with `status` sets the status field to the stripped rest of the line |
| `CmusStatus.LateKeyPasses` | qtile/config.py:76-83 | In a line that does not start with `set`, a key with no occurrence before index 5 moves on to the next key |
| `CmusStatus.AlbumArtistTagSetsAlbum` | qtile/config.py:76-81 | A line starting `tag albumartist ` sets `album`, not `artist`, to the stripped text after `album`, which starts with `artist ` |
| `CmusStatus.ParseStatusShape` | qtile/config.py:64-84 | `get_info` gives a record exactly when the output starts with `status`; the output then has a first line, which begins with `status` and sets the status field before the other lines act |
| `CmusStatus.FieldUntouched` | qtile/config.py:66-84 | A field that no line sets keeps the value it was created with |
| `CmusStatus.ApplyAppend` | qtile/config.py:75-84 | Lines that do not end the scan, followed by more lines, act one after the other |
| `CmusStatus.StopCutsOff` | qtile/config.py:82-84 | Everything from the first line that ends the scan onward has no effect |
| `CmusStatus.LastWriteWins` | qtile/config.py:75-81 | A field holds the value of the last line that sets it, provided no earlier line ended the scan |
| `CmusStatus.UnsetFieldIsEmpty` | qtile/config.py:64-84 | When the output starts with `status`, a field that no line sets is `""` in the returned record |
| `CmusStatus.StopLineEndsParse` | qtile/config.py:82-84 | `get_info` returns what the lines before the first scan-ending line gave; later lines have no effect |
| `CmusStatus.LaterLineOverwrites` | qtile/config.py:75-81 | In the returned record, a field holds the value of the last line that sets it, provided no earlier line ended the scan |
| `CmusWidget.DisplayText` | qtile/config.py:98-113 | A local file (path starting with `/`) shows `artist - title` unless both are empty; then it shows a `/`-free suffix of the path that follows a `/`. Anything else shows the stream name, or the title when the stream name is empty |
| `CmusWidget.BaseNameShown` | qtile/config.py:103-106 | A local file `dir/name` with empty artist and title shows `name`, when `name` contains no `/` |
| `CmusWidget.DisplayExamples` | qtile/config.py:98-111 | `Bob`/`Song` on a local file shows `Bob - Song`; a stream shows `RadioX` when the stream name is set and `TrackY` (the title) when it is not |
| `CmusWidget.Cmus.constructor` | qtile/config.py:44-48 | A new widget has seen no status (`""`), has `local` unset, and keeps the layout's colour |
| `CmusWidget.Cmus.WithDefaults` | qtile/config.py:38-48 | A widget configured with no colours gets the play colour `fc5f5c` and the no-play colour `6e7072`, and starts like any new widget |
| `CmusWidget.Cmus.NowPlaying` | qtile/config.py:86-114 | With no record, state and colour stay as they were and the text is the escaped `""`. With a record, the status is stored, the colour changes only when the status differs from the cached one (to the play colour exactly for `playing`), `local` records whether the path starts with `/`, and the text is the escaped display text. The colour invariant is kept |
| `CmusWidget.Cmus.Play` | qtile/config.py:116-121 | Toggle pause (`-u`) exactly for `playing` or `paused`, play (`-p`) exactly for `stopped`, nothing for any other status |
| `CmusWidget.Cmus.OnClick` | qtile/config.py:50-56 | Button 1 runs `play`; buttons 4 and 5 send next (`-n`) and previous (`-r`) whatever the status |
| `CmusWidget.RepeatedPoll` | qtile/config.py:91-97 | Two polls with the same output give the same text, and the second leaves the colour as the first left it |
| `Groups.WhereScreen` | qtile/config.py:144-151 | Going back to the previous group happens exactly when the requested name is the current group's. Otherwise the first group with that name is chosen. Nothing changes exactly when no group has that name |

## Left out

- Running `cmus-remote` (`call_process`, `subprocess.Popen`) is not modelled, nor is the `CalledProcessError` fallback (qtile/config.py:61-63): the command's output is the `output` parameter, whichever path produced it, and click commands are returned as `Command` values with their argument vectors.
- `pangocffi.markup_escape_text` (qtile/config.py:114) is a foreign GLib call; `NowPlaying` takes it as the opaque parameter `escape`, and what escaping does is not modelled.
- The host widget machinery (`base.ThreadPoolText`, `add_defaults`, `add_callbacks`, the polling thread and the float `update_interval`) is not modelled; `poll` only returns `now_playing`, which `NowPlaying` models. The configurable colours are constructor parameters; `WithDefaults` builds the widget with the two default colours, standing for a configuration that sets neither.
- `CmusStatus.GetInfo` runs the inner key loop as a separate method, `ScanLine`. The inner loop's `return info` shows up as a `Stop` result, on which `GetInfo` returns at once; `break` shows up as a `SetField` result. The behaviour is the same; only the nesting differs, to keep each proof small.
- `now_playing`'s `if info:` test is modelled as "a record was returned": a dictionary with six keys is always truthy. The identity re-format `"{0}".format(now_playing)` (qtile/config.py:112-113) is dropped.
- `Groups.WhereScreen` returns which group is handed to `set_group`, not the host's screen state after the call. The host's `previous_group` bookkeeping, and a missing previous group, are host behaviour and are not modelled.
- All declarative configuration (keys, lazy commands, groups and ScratchPad, layouts, widget list, screens, mouse bindings, float rules, global flags; qtile/config.py:153-432) has no logic and is not modelled. The startup hooks `autostart` and `changeStartGroup`, and `toggleFunction`, only spawn processes or call the host, so they are not modelled either.
- Strings are sequences of Unicode scalar values, as CPython `str` values are except for lone surrogates, which are not modelled.
