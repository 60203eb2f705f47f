/** The application: a quit flag set by key presses, and the main loop that draws a
    frame on every timer tick and hands every input event to the key handler until
    the flag is set. */
module App {
  import opened Wrappers
  import opened LogWidget

  // ---------------------------------------------------------------------------
  // Terminal input events (crossterm's `Event`, reduced to what the handler inspects).

  datatype KeyCode = Char(c: char) | Esc | Enter | Backspace | Tab | Up | Down | Left | Right | F(n: nat) | OtherKey
  datatype KeyModifier = Shift | Control | Alt | Super | Hyper | Meta
  datatype KeyEventKind = Press | Repeat | Release
  datatype KeyEvent = KeyEvent(code: KeyCode, modifiers: set<KeyModifier>, kind: KeyEventKind)

  datatype Event =
    | FocusGained
    | FocusLost
    | Key(key: KeyEvent)
    | Mouse
    | Paste(text: string)
    | Resize(columns: U16, rows: U16)

  /** `Event::as_key_press_event`: the key event of a key press, nothing otherwise. */
  function AsKeyPressEvent(event: Event): Option<KeyEvent> {
    if event.Key? && event.key.kind == Press then Some(event.key) else None
  }

  /** The events `handle_event` treats as a request to quit. */
  predicate IsQuitEvent(event: Event) {
    match AsKeyPressEvent(event)
    case Some(key) => key.code == Char('q') || key.code == Esc
    case None => false
  }

  /** The quit flag after `handle_event`. */
  function AfterEvent(quit: bool, event: Event): bool {
    quit || IsQuitEvent(event)
  }

  /** The quit flag after handling a sequence of events one after another. */
  function AfterEvents(quit: bool, events: seq<Event>): bool
    decreases |events|
  {
    if events == [] then quit else AfterEvents(AfterEvent(quit, events[0]), events[1..])
  }

  // ---------------------------------------------------------------------------
  // The main loop.

  /** What one iteration of the loop's `select!` completes on: a timer tick, whose
      draw either succeeds or fails, or an input event read from the terminal. */
  datatype LoopStep = Tick(drawOk: bool) | Input(event: Event)

  /** How `run` ends: `Ok(())` after a quit, the "failed to draw frame" error, or
      still running when the given steps run out. */
  datatype Outcome = Quit | DrawFailed | Running

  /** The outcome, the number of frames drawn, and the number of steps consumed. */
  datatype Trace = Trace(outcome: Outcome, frames: nat, consumed: nat)

  /** The loop over a sequence of steps, starting from quit flag `quit`. */
  function RunFrom(quit: bool, steps: seq<LoopStep>): Trace
    decreases |steps|
  {
    if quit then Trace(Quit, 0, 0)
    else if steps == [] then Trace(Running, 0, 0)
    else match steps[0]
      case Tick(drawOk) =>
        if !drawOk then Trace(DrawFailed, 0, 1)
        else
          var t := RunFrom(false, steps[1..]);
          Trace(t.outcome, t.frames + 1, t.consumed + 1)
      case Input(event) =>
        var t := RunFrom(AfterEvent(false, event), steps[1..]);
        Trace(t.outcome, t.frames, t.consumed + 1)
  }

  /** A step that ends the loop: a failed draw or a quit event. */
  predicate Stops(step: LoopStep) {
    match step
    case Tick(drawOk) => !drawOk
    case Input(event) => IsQuitEvent(event)
  }

  /** The number of frames drawn by the ticks among `steps`. */
  function FramesIn(steps: seq<LoopStep>): nat
    decreases |steps|
  {
    if steps == [] then 0
    else (if steps[0] == Tick(true) then 1 else 0) + FramesIn(steps[1..])
  }

  /** `steps` without the ticks whose draw succeeded. */
  function WithoutFrames(steps: seq<LoopStep>): seq<LoopStep>
    decreases |steps|
  {
    if steps == [] then []
    else if steps[0] == Tick(true) then WithoutFrames(steps[1..])
    else [steps[0]] + WithoutFrames(steps[1..])
  }

  class App {
    var shouldQuit: bool
    const logWidget: JjLogWidget

    /** `App::new`: not quitting, with a default log widget. */
    constructor ()
      ensures !shouldQuit
      ensures fresh(logWidget)
      ensures logWidget.leftMargin == 1 && logWidget.reverseLines && logWidget.state == Unpopulated
    {
      shouldQuit := false;
      logWidget := new JjLogWidget.Default();
    }

    /** `handle_event`: a press of `q` or Esc sets the quit flag; anything else leaves it. */
    method HandleEvent(event: Event)
      modifies this
      ensures shouldQuit == AfterEvent(old(shouldQuit), event)
    {
      var key := AsKeyPressEvent(event);
      if key.Some? {
        match key.value.code
        case Char('q') => shouldQuit := true;
        case Esc => shouldQuit := true;
        case _ =>
      }
    }

    /** `run`: `while !should_quit`, draw on a tick (returning at once if drawing
        fails) or handle an input event. */
    method Run(steps: seq<LoopStep>) returns (outcome: Outcome, frames: nat, consumed: nat)
      modifies this
      ensures Trace(outcome, frames, consumed) == RunFrom(old(shouldQuit), steps)
      ensures shouldQuit <==> outcome == Quit
    {
      frames, consumed := 0, 0;
      while !shouldQuit
        invariant consumed <= |steps|
        invariant var t := RunFrom(shouldQuit, steps[consumed..]);
                  RunFrom(old(shouldQuit), steps) == Trace(t.outcome, frames + t.frames, consumed + t.consumed)
        decreases |steps| - consumed
      {
        if consumed == |steps| {
          return Running, frames, consumed;
        }
        var step := steps[consumed];
        assert steps[consumed..][1..] == steps[consumed + 1..];
        consumed := consumed + 1;
        match step
        case Tick(drawOk) =>
          if !drawOk {
            return DrawFailed, frames, consumed;
          }
          frames := frames + 1;
        case Input(event) =>
          HandleEvent(event);
      }
      outcome := Quit;
    }
  }

  // ---------------------------------------------------------------------------
  // Properties of the quit flag.

  /** The quit flag becomes set exactly on a quit key press: `q` or Esc, pressed (not
      repeated or released), whatever the modifiers. */
  lemma QuitEventIff(event: Event)
    ensures IsQuitEvent(event) <==>
              event.Key? && event.key.kind == Press && (event.key.code == Char('q') || event.key.code == Esc)
  {
  }

  /** The quit flag is monotone, and handling the same event twice is handling it once. */
  lemma AfterEventMonotone(quit: bool, event: Event)
    ensures quit ==> AfterEvent(quit, event)
    ensures AfterEvent(AfterEvent(quit, event), event) == AfterEvent(quit, event)
    ensures !IsQuitEvent(event) ==> AfterEvent(quit, event) == quit
  {
  }

  /** After a sequence of events the flag is set exactly when it was set before or
      one of the events was a quit event: nothing ever resets it. */
  lemma {:induction false} AfterEventsIff(quit: bool, events: seq<Event>)
    ensures AfterEvents(quit, events) <==> quit || exists i :: 0 <= i < |events| && IsQuitEvent(events[i])
    decreases |events|
  {
    if events != [] {
      AfterEventsIff(AfterEvent(quit, events[0]), events[1..]);
      if exists i :: 0 <= i < |events| - 1 && IsQuitEvent(events[1..][i]) {
        var i :| 0 <= i < |events| - 1 && IsQuitEvent(events[1..][i]);
        assert IsQuitEvent(events[i + 1]);
      }
      if exists i :: 0 <= i < |events| && IsQuitEvent(events[i]) {
        var i :| 0 <= i < |events| && IsQuitEvent(events[i]);
        if i > 0 {
          assert IsQuitEvent(events[1..][i - 1]);
        }
      }
    }
  }

  // ---------------------------------------------------------------------------
  // Properties of the loop.

  /** A loop that starts with the flag set returns `Ok` at once, drawing nothing. */
  lemma RunFromQuitting(steps: seq<LoopStep>)
    ensures RunFrom(true, steps) == Trace(Quit, 0, 0)
  {
  }

  /** From a running loop: it consumes the steps up to and including the first one
      that stops it, and no further; it returns `Ok` exactly when that step is a quit
      event and the draw error exactly when it is a failed draw; it keeps running
      only if no step stops it; and the frames drawn are the ticks it consumed. */
  lemma {:induction false} RunFromStopsAtFirst(steps: seq<LoopStep>)
    ensures var t := RunFrom(false, steps);
            t.consumed <= |steps| &&
            (forall j :: 0 <= j < t.consumed - 1 ==> !Stops(steps[j])) &&
            (t.outcome == Running <==> t.consumed == |steps| && forall j :: 0 <= j < |steps| ==> !Stops(steps[j])) &&
            (t.outcome == Quit <==> 0 < t.consumed && steps[t.consumed - 1].Input? && Stops(steps[t.consumed - 1])) &&
            (t.outcome == DrawFailed <==> 0 < t.consumed && steps[t.consumed - 1] == Tick(false)) &&
            t.frames == FramesIn(steps[..t.consumed])
    decreases |steps|
  {
    if steps != [] {
      var rest := steps[1..];
      RunFromStopsAtFirst(rest);
      var r := RunFrom(false, rest);
      var t := RunFrom(false, steps);
      assert forall j :: 0 <= j < |rest| ==> rest[j] == steps[j + 1];
      match steps[0]
      case Tick(drawOk) =>
        if drawOk {
          assert steps[..t.consumed] == [steps[0]] + rest[..r.consumed];
          FramesInCons(steps[0], rest[..r.consumed]);
        } else {
          assert steps[..1] == [steps[0]];
          FramesInCons(steps[0], []);
        }
      case Input(event) =>
        if IsQuitEvent(event) {
          assert steps[..1] == [steps[0]];
          FramesInCons(steps[0], []);
        } else {
          assert steps[..t.consumed] == [steps[0]] + rest[..r.consumed];
          FramesInCons(steps[0], rest[..r.consumed]);
        }
    } else {
      assert steps[..0] == [];
    }
  }

  lemma FramesInCons(step: LoopStep, steps: seq<LoopStep>)
    ensures FramesIn([step] + steps) == (if step == Tick(true) then 1 else 0) + FramesIn(steps)
  {
    assert ([step] + steps)[1..] == steps;
  }

  /** Ticks never touch the quit flag: taking out every successful tick leaves how
      the loop ends unchanged. */
  lemma {:induction false} TicksKeepOutcome(quit: bool, steps: seq<LoopStep>)
    ensures RunFrom(quit, WithoutFrames(steps)).outcome == RunFrom(quit, steps).outcome
    decreases |steps|
  {
    if !quit && steps != [] {
      var rest := steps[1..];
      if steps[0] == Tick(true) {
        TicksKeepOutcome(false, rest);
      } else {
        var w := [steps[0]] + WithoutFrames(rest);
        assert w[0] == steps[0] && w[1..] == WithoutFrames(rest);
        match steps[0]
        case Tick(_) =>
        case Input(event) =>
          TicksKeepOutcome(AfterEvent(false, event), rest);
      }
    }
  }
}
