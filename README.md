# jj-watch core, modelled in Dafny

jj-watch is a terminal viewer. It runs `jj log` over and over and shows the newest
output in a bottom-anchored pane until the user presses `q` or Esc. This project
models the sequential logic of the two core files:

- `src/app/log_widget.rs`. This file holds the log widget's three-way state
  (`JjLogState`). It holds the lossy UTF-8 step that turns the command's stdout
  bytes into a string. It holds `update`, which replaces the state wholesale after
  each run, and the `u16` rectangle arithmetic of `render`.
- `src/app.rs`. This file holds the `should_quit` flag that `handle_event` sets,
  and the `while !should_quit` loop of `run`. That loop draws on timer ticks, hands
  input events to the handler, and returns at once if a draw fails.

Files and modules:

- `wrappers.dfy` (`Wrappers`): `Option`.
- `utf8.dfy` (`Utf8`): the UTF-8 syntax of section 4 of RFC 3629 (`EncodesChar`,
  `WellFormed`). It has the standard library's per-character scan (`NextStep`)
  and its `utf8_chunks` (`ValidPrefix`, `SubpartLen`, `Chunks`). It has the
  `map`/`filter`/`join` pipeline (`DecodeStdout`) and a greedy reference decoder
  (`Lossy`). The greedy decoder keeps a whole character or drops one byte. The
  pipeline is proved equal to it.
- `log_widget.dfy` (`LogWidget`): styled `Text`, `LogState`, `Rect` over a `u16`
  subset type, and the class `JjLogWidget` with `Default`, `Update` and `Render`.
- `app.dfy` (`App`): crossterm's `Event`, reduced to what the handler inspects.
  It has the class `App` with its constructor, `HandleEvent` and `Run`. It also has
  `RunFrom`, the loop written as a function over a sequence of `Tick(drawOk)` and
  `Input(event)` steps, which `Run` is proved to compute.

Modelling choices:

- The ANSI parser (`ansi_to_tui::IntoText`) is a parameter: a total function from
  well-formed UTF-8 to `Option<Text>`. `None` stands for the parse error that
  `unwrap` turns into a panic. When that happens the state is never written.
- The command runs outside the model. `Update` receives the captured stdout bytes
  and the exit status's `success()` flag.
- The redraw timer, the terminal's event stream and `terminal.draw` are abstracted
  into a sequence of loop steps. A tick carries whether its draw succeeded. An
  iteration of `tokio::select!` completes only on a tick or on an `Ok` event. An
  `Err` item or the end of the stream only disables that branch for one
  iteration, so such items are not steps. If the steps run out before the loop
  stops, the outcome is `Running`.
- `render` can panic in three ways. A line count above `u16::MAX` makes
  `try_into().expect` panic. A `u16` addition that overflows panics, as it does
  with Rust's overflow checks on. Each panic is a distinct `Panicked` outcome, not
  a precondition.

Behaviour of the code worth knowing when reading the model:

- A failed run keeps and renders stdout, exactly as a successful one does; stderr
  is never read (`src/app/log_widget.rs:54-71`, `88-97`).
- The "No data yet" line appears only while no run has completed. A run with
  empty output shows whatever the parser makes of the empty string.
- The area is anchored vertically first, then inset on the left by
  `min(left_margin, width)` (`src/app/log_widget.rs:99-113`).

## Model

| member | source | states |
|---|---|---|
| `Utf8.NextStep` | src/app/log_widget.rs:56 | one step of the chunk scan: a character of 1 to 4 bytes, or an ill-formed subpart of 1 to 3 bytes, never past the end of the input |
| `Utf8.NextStepMatchesGrammar` | src/app/log_widget.rs:56 | both directions: a prefix is an RFC 3629 UTF8-char exactly when the scan reports that prefix as a character; every byte after the first of an ill-formed subpart is a continuation byte |
| `Utf8.Lossy` | src/app/log_widget.rs:54-60 | the greedy lossy decoding is never longer than its input |
| `Utf8.ValidPrefixWellFormed` | src/app/log_widget.rs:56 | the valid run at the head of a chunk is well-formed UTF-8 |
| `Utf8.ValidPrefixMaximal` | src/app/log_widget.rs:56 | the valid run is maximal: if input follows it, the scan finds an ill-formed subpart there |
| `Utf8.ChunksCover` | src/app/log_widget.rs:56 | the valid and invalid parts of the chunks, concatenated in order, are exactly the stdout bytes |
| `Utf8.ChunksValidWellFormed` | src/app/log_widget.rs:56-57 | every chunk's `valid()` part is well-formed UTF-8 |
| `Utf8.ValidParts` | src/app/log_widget.rs:57 | `map(valid)` keeps one part per chunk, in order, each being that chunk's valid part |
| `Utf8.NonEmptyParts` | src/app/log_widget.rs:58 | the filter leaves no empty part |
| `Utf8.JoinNonEmptyParts` | src/app/log_widget.rs:57-60 | dropping empty parts does not change the joined string |
| `Utf8.ChunksJoinIsLossy` | src/app/log_widget.rs:54-60 | joining the valid parts of the chunks equals greedy decoding (keep a character or drop one byte) |
| `Utf8.DecodeIsLossy` | src/app/log_widget.rs:54-60 | the pipeline as written (chunks, map, filter, join) computes the greedy decoding |
| `Utf8.DecodeIdentity` | src/app/log_widget.rs:54-60 | stdout that is already well-formed UTF-8 comes out unchanged |
| `Utf8.DecodeSound` | src/app/log_widget.rs:54-60 | the decoded string is well-formed UTF-8, is an in-order subsequence of the stdout bytes, and is never longer than they are |
| `Utf8.LossyIdentity` | src/app/log_widget.rs:54-60 | greedy decoding of well-formed bytes is the identity |
| `Utf8.LossyWellFormed` | src/app/log_widget.rs:54-60 | greedy decoding always yields well-formed UTF-8 |
| `Utf8.LossySubsequence` | src/app/log_widget.rs:54-60 | greedy decoding yields an in-order subsequence of its input |
| `Utf8.SubsequenceLength` | src/app/log_widget.rs:54-60 | an in-order subsequence is never longer than its source; `DecodeSound` draws its length bound from it |
| `Utf8.ValidPrefix` | src/app/log_widget.rs:56 | the length of the run of whole characters at the head of the input, as `utf8_chunks` scans it; never past the end |
| `Utf8.SubpartLen` | src/app/log_widget.rs:56 | the length of the ill-formed subpart ending the first chunk (0 at a well-formed end); a non-empty input always yields a non-empty chunk |
| `Utf8.Chunks` | src/app/log_widget.rs:56 | `utf8_chunks`: definition; each chunk is the valid run then the ill-formed subpart that stopped it, the rest chunked likewise |
| `Utf8.Join` | src/app/log_widget.rs:59-60 | `collect` then `join("")`: definition; the parts concatenated in order |
| `Utf8.DecodeStdout` | src/app/log_widget.rs:54-60 | the pipeline as written: definition; chunks, `map(valid)`, `filter(!is_empty)`, `join("")` |
| `LogWidget.Polled` | src/app/log_widget.rs:62-71 | definition: the parsed decoded stdout under `Succeeded` when the exit status is success and `Failed` otherwise; `None` when the parse fails (the `unwrap` panic) |
| `LogWidget.Content` | src/app/log_widget.rs:88-97 | definition: the placeholder text for the unpopulated state, the stored text for `Ok` and `Err` alike |
| `App.AsKeyPressEvent` | src/app.rs:68 | `as_key_press_event`: definition; the key event of a `Key` event whose kind is `Press`, nothing otherwise |
| `App.IsQuitEvent` | src/app.rs:68-71 | definition: a key press whose code is `Char('q')` or `Esc` |
| `App.AfterEvent` | src/app.rs:67-74 | definition: the flag after `handle_event`, the old flag or-ed with `IsQuitEvent` |
| `App.RunFrom` | src/app.rs:41-52 | definition of the loop over steps: stop with `Ok` once the flag is set, with the draw error on a failed tick; count a frame per successful tick; hand each input to the handler |
| `LogWidget.JjLogWidget.Default` | src/app/log_widget.rs:21-28 | the default widget has left margin 1, `reverse_lines` set and an unpopulated state (`#[derive(Default)]` at line 119) |
| `LogWidget.JjLogWidget.Update` | src/app/log_widget.rs:54-79 | if the parser accepts the decoded stdout, the state becomes `Ok` or `Err` of the parsed text, by exit status. The old state plays no part. If the parser rejects it, the task panics and the state stays as it was |
| `LogWidget.PolledPopulates` | src/app/log_widget.rs:68-78 | a completed poll leaves a populated state, `Succeeded` exactly when the command succeeded, holding the parsed lossily decoded stdout in both cases |
| `LogWidget.ContentAfterPoll` | src/app/log_widget.rs:88-97 | after a poll with well-formed stdout, render shows exactly what the parser made of stdout, whatever the exit status |
| `LogWidget.ContentBeforePoll` | src/app/log_widget.rs:96 | before any poll, render shows the single line "No data yet" |
| `LogWidget.JjLogWidget.Render` | src/app/log_widget.rs:83-116 | the content is the state's text. With `reverse_lines` the height becomes `min(lines, height)`, the bottom edge stays put and `y` never decreases. `x` grows by `min(margin, width)`, `width` shrinks by the same amount and the right edge stays put. A line count over `u16::MAX` or an overflowing `u16` addition is a panic, exactly when it occurs |
| `App.App.constructor` | src/app.rs:26-32 | a new app is not quitting and holds a default log widget |
| `App.App.HandleEvent` | src/app.rs:67-74 | the quit flag afterwards is the old flag or-ed with "this event is a press of `q` or Esc" |
| `App.App.Run` | src/app.rs:34-53 | the loop's outcome, frame count and consumed steps are those of `RunFrom` from the current flag, and the flag ends set exactly when `run` returns `Ok` |
| `App.QuitEventIff` | src/app.rs:67-71 | an event quits exactly when it is a key press (not a repeat or release) of `Char('q')` or `Esc`, whatever the modifiers |
| `App.AfterEventMonotone` | src/app.rs:70 | once set, the flag stays set; handling an event twice is handling it once; a non-quit event leaves the flag as it was |
| `App.AfterEventsIff` | src/app.rs:67-74 | after a sequence of events the flag is set exactly when it was set before or some event in the sequence quits |
| `App.RunFromQuitting` | src/app.rs:41 | a loop that starts with the flag set returns `Ok` at once without drawing |
| `App.RunFromStopsAtFirst` | src/app.rs:41-52 | the loop consumes all steps up to and including the first quit event or failed draw, and none after it. It returns `Ok` exactly on a quit event and the draw error exactly on a failed draw. It keeps running only if no step stops it. The frames drawn are the successful ticks it consumed |
| `App.TicksKeepOutcome` | src/app.rs:41-50 | ticks never change the quit flag: removing every successful tick leaves the loop's outcome unchanged |

## Left out

- Spawning the poller (`JjLogWidget::run`, `update_runner`) and its fixed-rate `interval` are out, because they are concurrency and timing. `Update` models one pass of the loop body.
- The `RwLock` around the state and its poisoning `expect`s are out. The state is a plain field, which a single sequential caller cannot see torn.
- Running `jj log` (`Config::command`, `output().await`) and the launch-failure `unwrap` are out, because they are process I/O. `Update` takes stdout and the success flag as inputs. `src/config.rs` and the `Config` value that `App::new` stores are not part of this model.
- ANSI/SGR parsing (`ansi_to_tui`) is out, because it is a foreign library. It is the `parse` parameter.
- `Text::render`, `App::render`'s layout split and title line, and the frame buffer are out, because they belong to ratatui. `Render` computes the target rectangle only and does not say which lines ratatui shows in it.
- `FRAMES_PER_SECOND` and the `Duration::from_secs_f32` period are out, because they are floating point and timing. `tokio::select!` fairness is out, because any interleaving of ticks and events is a step sequence.
- `LogWidget.JjLogWidget.Render`: release builds wrap `u16` additions instead of panicking. Only the overflow-checked behaviour is modelled.
- A panic inside `Render` during a draw is not tied to the `Tick` outcome. A tick's draw result is an input to the loop, not computed.
- `src/app/status_line_widget.rs` is not compiled into the program. `src/main.rs` and `src/args.rs` are terminal setup and CLI parsing. None of the three are part of this model.
