/** The log widget: the state the poller replaces after every run of `jj log`, and
    the area the renderer draws it into (bottom-anchored, then inset by a left margin). */
module LogWidget {
  import opened Wrappers
  import opened Utf8

  /** Rust's `u16`. */
  type U16 = n: int | 0 <= n <= U16_MAX
  const U16_MAX: int := 0xFFFF

  function Min(a: int, b: int): int {
    if a <= b then a else b
  }

  // ---------------------------------------------------------------------------
  // Styled text, as the ANSI parser produces it and the renderer consumes it.

  /** The SGR parameters a span was coloured with (empty: unstyled). */
  datatype Style = Style(sgr: seq<nat>)

  datatype Span = Span(content: string, style: Style)
  datatype Line = Line(spans: seq<Span>)
  datatype Text = Text(lines: seq<Line>)

  /** `Text::from(Span::raw(s))`: one line holding one unstyled span. */
  function RawText(s: string): Text {
    Text([Line([Span(s, Style([]))])])
  }

  const NoDataYet: string := "No data yet"

  // ---------------------------------------------------------------------------
  // The widget's state.

  /** `JjLogState`: nothing polled yet, or the parsed stdout of the last run, under
      `Ok` when the command exited successfully and `Err` otherwise. */
  datatype LogState = Unpopulated | Succeeded(text: Text) | Failed(text: Text)

  /** The state a completed run leaves behind, when the ANSI parser accepted the
      decoded stdout (None when it did not and `unwrap` panicked). */
  function Polled(stdout: seq<Byte>, success: bool, parse: Utf8String -> Option<Text>): Option<LogState> {
    DecodeSound(stdout);
    match parse(DecodeStdout(stdout))
    case None => None
    case Some(text) => Some(if success then Succeeded(text) else Failed(text))
  }

  /** The content the renderer shows for a state. */
  function Content(state: LogState): Text {
    match state
    case Unpopulated => RawText(NoDataYet)
    case Succeeded(text) => text
    case Failed(text) => text
  }

  // ---------------------------------------------------------------------------
  // Rendering geometry.

  /** ratatui's `Rect`. */
  datatype Rect = Rect(x: U16, y: U16, width: U16, height: U16)

  /** The ways `render` panics: the line count does not fit in `u16`; or a `u16`
      addition overflows (Rust's overflow checks) in the vertical or horizontal step. */
  datatype RenderPanic = LineCountCast | VerticalOverflow | HorizontalOverflow

  datatype Rendered = Drawn(content: Text, area: Rect) | Panicked(reason: RenderPanic)

  class JjLogWidget {
    const leftMargin: U16
    const reverseLines: bool
    var state: LogState

    /** `JjLogWidget::default`. */
    constructor Default()
      ensures leftMargin == 1 && reverseLines && state == Unpopulated
    {
      leftMargin := 1;
      reverseLines := true;
      state := Unpopulated;
    }

    /** The part of `update` after the command ran: decode stdout, parse it, and
        replace the state wholesale. A parser failure panics before the write, so the
        state is then left as it was. */
    method Update(stdout: seq<Byte>, success: bool, parse: Utf8String -> Option<Text>) returns (panicked: bool)
      modifies this
      ensures panicked <==> Polled(stdout, success, parse).None?
      ensures state == if panicked then old(state) else Polled(stdout, success, parse).value
    {
      var outputString := DecodeStdout(stdout);
      DecodeSound(stdout);
      var outputText := parse(outputString);
      if outputText.None? {
        return true;
      }
      var result := if success then Succeeded(outputText.value) else Failed(outputText.value);
      state := result;
      panicked := false;
    }

    /** `render`: pick the content, bottom-anchor the area to the content's line count
        when `reverseLines` is set, then move the left edge right by the margin,
        clamped to the width. */
    method Render(area: Rect) returns (r: Rendered)
      ensures r.Drawn? ==> r.content == Content(state)
      ensures reverseLines && |Content(state).lines| > U16_MAX ==> r == Panicked(LineCountCast)
      ensures reverseLines && |Content(state).lines| <= U16_MAX && area.y + area.height > U16_MAX ==>
                r == Panicked(VerticalOverflow)
      ensures (reverseLines ==> |Content(state).lines| <= U16_MAX && area.y + area.height <= U16_MAX) ==>
                (r.Panicked? <==> area.x + Min(leftMargin, area.width) > U16_MAX) &&
                (r.Panicked? ==> r.reason == HorizontalOverflow)
      ensures r.Drawn? && reverseLines ==>
                r.area.height == Min(|Content(state).lines|, area.height) &&
                r.area.y + r.area.height == area.y + area.height &&
                r.area.y >= area.y
      ensures r.Drawn? && !reverseLines ==> r.area.y == area.y && r.area.height == area.height
      ensures r.Drawn? ==>
                r.area.x == area.x + Min(leftMargin, area.width) &&
                r.area.width == area.width - Min(leftMargin, area.width) &&
                r.area.x + r.area.width == area.x + area.width
    {
      var content := Content(state);
      var a := area;
      if reverseLines {
        if |content.lines| > U16_MAX {
          return Panicked(LineCountCast);
        }
        var lineCount: U16 := |content.lines|;
        lineCount := Min(lineCount, a.height);
        if a.y + a.height > U16_MAX {
          return Panicked(VerticalOverflow);
        }
        a := a.(y := a.y + a.height - lineCount);
        a := a.(height := lineCount);
      }
      var margin: U16 := Min(leftMargin, a.width);
      if a.x + margin > U16_MAX {
        return Panicked(HorizontalOverflow);
      }
      a := a.(x := a.x + margin);
      a := a.(width := a.width - margin);
      r := Drawn(content, a);
    }
  }

  // ---------------------------------------------------------------------------
  // Properties of a poll and of what the renderer then shows.

  /** A poll that the parser accepted populates the state: `Succeeded` exactly when
      the command succeeded, and in both cases with the parsed decoded stdout. */
  lemma PolledPopulates(stdout: seq<Byte>, success: bool, parse: Utf8String -> Option<Text>)
    requires Polled(stdout, success, parse).Some?
    ensures var st := Polled(stdout, success, parse).value;
            !st.Unpopulated? && (st.Succeeded? <==> success) &&
            WellFormed(Lossy(stdout)) && Some(st.text) == parse(Lossy(stdout))
  {
    DecodeIsLossy(stdout);
    LossyWellFormed(stdout);
  }

  /** After a poll, the renderer shows what the parser made of stdout, whatever the
      exit status; when stdout was well-formed UTF-8, the parser saw it unchanged. */
  lemma ContentAfterPoll(stdout: seq<Byte>, success: bool, parse: Utf8String -> Option<Text>)
    requires WellFormed(stdout)
    requires Polled(stdout, success, parse).Some?
    ensures Some(Content(Polled(stdout, success, parse).value)) == parse(stdout)
  {
    DecodeIdentity(stdout);
  }

  /** Before any poll, the renderer shows the single line "No data yet". */
  lemma ContentBeforePoll()
    ensures Content(Unpopulated).lines == [Line([Span("No data yet", Style([]))])]
  {
  }
}
