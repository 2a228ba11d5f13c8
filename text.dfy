/** The styled text `Text`: a word-wrap flag, a maximum width and the text
    handed to the renderer, with a display setter that routes through the
    word-wrap formatter when the flag is set. */
module TextDisplay {

  /** The word-wrap formatter, seen from the outside: it rewrites the render
      text of the object it is given, bounded by a maximum width. Its
      algorithm is not part of this model, so it is a parameter. */
  type Wrapper = (seq<char>, real) -> seq<char>

  /** The observable state of a `Text`. */
  datatype TextState = TextState(wordWrap: bool, maxWidth: real, renderText: seq<char>)

  /** The render text after one call of the display setter with argument `text`. */
  function Display(st: TextState, text: seq<char>, wrap: Wrapper): seq<char>
  {
    if st.wordWrap then wrap(st.renderText, st.maxWidth) else text
  }

  /** The state after a run of display-setter calls, first argument first. */
  function AfterAll(st: TextState, texts: seq<seq<char>>, wrap: Wrapper): TextState
    decreases |texts|
  {
    if texts == [] then st
    else AfterAll(st.(renderText := Display(st, texts[0], wrap)), texts[1..], wrap)
  }

  /** The formatter applied `n` times to the same width. */
  function WrapTimes(wrap: Wrapper, s: seq<char>, width: real, n: nat): seq<char>
    decreases n
  {
    if n == 0 then s else WrapTimes(wrap, wrap(s, width), width, n - 1)
  }

  /** With word wrap off, the argument is shown verbatim. */
  lemma DisplayVerbatimWithoutWrap(st: TextState, text: seq<char>, wrap: Wrapper)
    requires !st.wordWrap
    ensures Display(st, text, wrap) == text
  {
  }

  /** With word wrap on, the argument is never looked at: the formatter
      rewrites the text that is already displayed. */
  lemma DisplayIgnoresArgumentWithWrap(st: TextState, a: seq<char>, b: seq<char>, wrap: Wrapper)
    requires st.wordWrap
    ensures Display(st, a, wrap) == Display(st, b, wrap) == wrap(st.renderText, st.maxWidth)
  {
  }

  /** No display-setter call changes the configuration; with word wrap off
      the last argument is what is displayed. */
  lemma {:induction false} AfterAllWithoutWrap(st: TextState, texts: seq<seq<char>>, wrap: Wrapper)
    requires !st.wordWrap
    ensures AfterAll(st, texts, wrap).wordWrap == st.wordWrap
    ensures AfterAll(st, texts, wrap).maxWidth == st.maxWidth
    ensures texts != [] ==> AfterAll(st, texts, wrap).renderText == texts[|texts| - 1]
    ensures texts == [] ==> AfterAll(st, texts, wrap) == st
    decreases |texts|
  {
    if texts != [] {
      var next := st.(renderText := Display(st, texts[0], wrap));
      AfterAllWithoutWrap(next, texts[1..], wrap);
    }
  }

  /** With word wrap on, a run of `n` display-setter calls shows the
      formatter applied `n` times to what was displayed before, whatever
      the arguments were. */
  lemma {:induction false} AfterAllWithWrap(st: TextState, texts: seq<seq<char>>, wrap: Wrapper)
    requires st.wordWrap
    ensures AfterAll(st, texts, wrap) == st.(renderText := WrapTimes(wrap, st.renderText, st.maxWidth, |texts|))
    decreases |texts|
  {
    if texts != [] {
      var next := st.(renderText := Display(st, texts[0], wrap));
      AfterAllWithWrap(next, texts[1..], wrap);
    }
  }

  /** An idempotent formatter (wrapping wrapped text changes nothing)
      applied `n >= 1` times is the same as applied once. */
  lemma {:induction false} WrapTimesIdempotent(wrap: Wrapper, s: seq<char>, width: real, n: nat)
    requires forall x: seq<char> :: wrap(wrap(x, width), width) == wrap(x, width)
    ensures n > 0 ==> WrapTimes(wrap, s, width, n) == wrap(s, width)
    decreases n
  {
    if n > 1 {
      WrapTimesIdempotent(wrap, wrap(s, width), width, n - 1);
    }
  }

  /** With word wrap on and an idempotent formatter, any non-empty run of
      display-setter calls leaves the formatter's rewrite of the text shown
      before the run, whatever the arguments: no argument reaches the
      render text. */
  lemma IdempotentWrapFreezesDisplay(st: TextState, texts: seq<seq<char>>, wrap: Wrapper)
    requires st.wordWrap && texts != []
    requires forall x: seq<char> :: wrap(wrap(x, st.maxWidth), st.maxWidth) == wrap(x, st.maxWidth)
    ensures AfterAll(st, texts, wrap) == st.(renderText := wrap(st.renderText, st.maxWidth))
  {
    AfterAllWithWrap(st, texts, wrap);
    WrapTimesIdempotent(wrap, st.renderText, st.maxWidth, |texts|);
  }

  class Text {
    var wordWrap: bool
    var maxWidth: real
    var renderText: seq<char>
    /** The word-wrap formatter this object calls. */
    const wrap: Wrapper

    function State(): TextState
      reads this
    {
      TextState(wordWrap, maxWidth, renderText)
    }

    constructor (wrapper: Wrapper, wrapOn: bool, width: real)
      ensures wrap == wrapper
      ensures State() == TextState(wrapOn, width, [])
    {
      wrap := wrapper;
      wordWrap := wrapOn;
      maxWidth := width;
      renderText := [];
    }

    method SetWordWrap(on: bool)
      modifies this`wordWrap
      ensures State() == old(State()).(wordWrap := on)
    {
      wordWrap := on;
    }

    method SetMaxWidth(width: real)
      modifies this`maxWidth
      ensures State() == old(State()).(maxWidth := width)
    {
      maxWidth := width;
    }

    /** The display setter: verbatim without word wrap; with it, the
        formatter is run on the current render text and `text` is dropped. */
    method SetString(text: seq<char>)
      modifies this`renderText
      ensures State() == old(State()).(renderText := Display(old(State()), text, wrap))
      ensures wordWrap ==> renderText == wrap(old(renderText), maxWidth)
      ensures !wordWrap ==> renderText == text
    {
      if wordWrap {
        renderText := wrap(renderText, maxWidth);
      } else {
        renderText := text;
      }
    }
  }
}
