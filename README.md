# Malena text entry: a Dafny model

Malena is a thin object-oriented layer over SFML. It provides shapes, sprites,
styled text, a font manager and a text-entry widget, `Typer`. This project
models the only two pieces with behaviour of their own.

- **`Typer`'s text-entered handler** (`typer.dfy`, module `TyperWidget`).
  The class `Typer` holds the widget's string and its focus state.
  `OnTextEntered` is the callback that `Typer::registerEvents` installs.
  It does nothing unless the widget is focused. When focused, it narrows
  the event's 32-bit code point to a `char`. On backspace it removes the
  last character. It appends printable characters, newlines and tabs. It
  drops every other control character. Then it writes the string back.
  The pure function `Step` gives one focused event's effect on the string,
  and `Replay` folds `Step` over a run of events. The lemmas about them
  state what a run of keystrokes does.
- **`Text`'s display setter** (`text.dfy`, module `TextDisplay`).
  The class `Text` holds the word-wrap flag, the maximum width and the text
  handed to the renderer. `SetWordWrap` and `SetMaxWidth` store their
  argument. With wrapping off, `SetString` shows its argument verbatim.
  With wrapping on, it runs the word-wrap formatter on the text that is
  *already* displayed, with the maximum width, and the argument is never
  used. `Display` and `AfterAll` give this on values.

Modelling choices:

- `char` is taken to be signed and 8 bits wide (`SChar`, -128..127). The
  conversion from the code point keeps the low 8 bits as a two's-complement
  value (`Narrow`). So a code point whose low byte is 0x80 or more becomes
  negative and fails `c >= ' '`, and is dropped. Any other code point
  above 127 is handled as the char with the same low byte. U+0141, for
  instance, is appended as `A`, U+0108 acts as a backspace, and U+010D is
  dropped like a carriage return.
- A defensive handler would ignore a backspace on an empty string. This
  one calls `std::string::pop_back`, which is undefined behaviour on an
  empty string, and the model follows it. `Step` returns `None` for that
  case. `OnTextEntered` requires a non-empty string when a focused event
  narrows to backspace.
- Whether the write-back at src/Graphics/Typer.cpp:26 reaches `Text`'s
  word-wrap-aware setter depends on src/Graphics/Typer.h and Shape.h, which
  are not part of this model. `Typer` derives from `Shape<sf::Text>`, so the
  write-back is modelled as a direct store of the string. The ghost field
  `written` logs every string passed to it.
- The word-wrap formatter `TextManipulators::wordwrap` is not part of this
  model. `Text` holds it as a function value `wrap` that the constructor
  receives, from the current render text and the width to the new render
  text.
- `maxWidth` is a C++ `float` that is only stored and passed on. It is a
  `real` here, and no arithmetic is done on it.

## Model

| member | source | states |
|---|---|---|
| TyperWidget.Narrow | src/Graphics/Typer.cpp:18 | the `char` the handler tests is the unique signed 8-bit value congruent to the code point modulo 256; code points below 128 are kept as they are |
| TyperWidget.SameLowByteSameChar | src/Graphics/Typer.cpp:18-24 | every decision of the handler depends only on the narrowed char: code points with the same low byte give the same char and the same edit of any string |
| TyperWidget.HighLowByteDropped | src/Graphics/Typer.cpp:18-24 | a code point whose low byte is 0x80 or more narrows to a negative char and leaves the string unchanged |
| TyperWidget.NonAsciiAliasesAscii | src/Graphics/Typer.cpp:18-24 | U+0141 is appended as `A`, because only its low byte survives narrowing |
| TyperWidget.Step | src/Graphics/Typer.cpp:17-26 | one focused event: undefined exactly when backspace meets an empty string; backspace otherwise removes exactly the last character and is never appended; printable chars (32..127, DEL included), newline and tab are appended at the end, so the old string is a prefix; any other control char leaves the string unchanged |
| TyperWidget.BackspaceOnEmptyUndefined | src/Graphics/Typer.cpp:20-21 | backspace on an empty string has no defined result, alone or as a run of one event |
| TyperWidget.BackspaceUndoesAppend | src/Graphics/Typer.cpp:20-24 | appending a character and then pressing backspace gives back the original string |
| TyperWidget.TypeThenErase | src/Graphics/Typer.cpp:20-24 | typing "H", "E" and a backspace on an empty string leaves "H" |
| TyperWidget.Kept | src/Graphics/Typer.cpp:23-24 | the characters of a run that the handler appends: no more than the run holds, each printable, a newline or a tab, and all of the run when every character passes the filter |
| TyperWidget.ReplayConcat | src/Graphics/Typer.cpp:13-28 | the left fold of the per-event rule over two consecutive runs of events is the fold over the first run, continued with the second |
| TyperWidget.ReplayWithoutBackspace | src/Graphics/Typer.cpp:20-24 | a run of focused events without backspace keeps the old string as a prefix and appends exactly the characters that pass the filter, in order |
| TyperWidget.ReplayDefinedWhenEnoughText | src/Graphics/Typer.cpp:20-21 | a run is defined whenever the string holds at least as many characters as the run has backspaces |
| TyperWidget.Typer.constructor | src/Graphics/Typer.cpp:5-8 | a new widget has an empty string and the focus state given by the focus manager, and has written nothing yet |
| TyperWidget.Typer.OnTextEntered | src/Graphics/Typer.cpp:13-28 | unfocused: string and write-back log unchanged, so nothing is written; focused: the new string is `Step` of the old string and the narrowed char, and it is written back exactly once, also when the char was dropped; the focus state never changes |
| TyperWidget.SameLowBytesSameReplay | src/Graphics/Typer.cpp:13-28 | two runs of events whose code points have the same low bytes, event by event, leave any string in the same state |
| TyperWidget.DeliverEvents | src/Graphics/Typer.cpp:13-28 | events delivered one after another to a focused widget leave the string equal to the fold of `Step` over the narrowed chars, and the widget stays focused |
| TextDisplay.DisplayVerbatimWithoutWrap | src/Graphics/Text.cpp:24-25 | with word wrap off, the displayed text is the argument exactly |
| TextDisplay.DisplayIgnoresArgumentWithWrap | src/Graphics/Text.cpp:22-23 | with word wrap on, any two arguments give the same displayed text: the formatter applied to the current render text and the maximum width |
| TextDisplay.AfterAllWithoutWrap | src/Graphics/Text.cpp:20-26 | a run of display-setter calls never changes the word-wrap flag or the maximum width; with word wrap off the last argument is displayed |
| TextDisplay.AfterAllWithWrap | src/Graphics/Text.cpp:20-26 | with word wrap on, `n` display-setter calls show the formatter applied `n` times to what was displayed before, whatever the arguments; flag and width are unchanged |
| TextDisplay.WrapTimesIdempotent | src/Graphics/Text.cpp:22-23 | an idempotent formatter applied `n >= 1` times to the same width equals one application |
| TextDisplay.IdempotentWrapFreezesDisplay | src/Graphics/Text.cpp:20-26 | with word wrap on and an idempotent formatter, any non-empty run of display-setter calls leaves the formatter's rewrite of the text shown before the run, flag and width unchanged, whatever the arguments: after the first call the render text stays fixed and no argument of the run reaches it |
| TextDisplay.Text.SetWordWrap | src/Graphics/Text.cpp:10-13 | the flag becomes the argument and nothing else changes; a second call with the same value therefore changes nothing |
| TextDisplay.Text.SetMaxWidth | src/Graphics/Text.cpp:15-18 | the maximum width becomes the argument and nothing else changes, the displayed text included |
| TextDisplay.Text.SetString | src/Graphics/Text.cpp:20-26 | the new render text is `Display` of the old state and the argument: the argument verbatim without word wrap, the formatter on the old render text with it; flag and width are unchanged |

## Left out

- The body of `TextManipulators::wordwrap` (src/Utilities/TextManipulators is not part of this model). It is a parameter of `Text`, so no greedy line-fill and no width bound is modelled or proved.
- The formatter receives the whole object (`*this`) by non-const reference. It could read more than the render text and the width, such as the font or the character size; the model passes it only those two. It could also write other fields; the model assumes it writes nothing but the render text, and `TextDisplay.Text.SetString`'s promise that the flag and the width are unchanged on the wrap path rests on that assumption.
- `Text`'s constructor and its defaults for `wordWrap` and `maxWidth` are in src/Graphics/Text.h, which is not part of this model. `TextDisplay.Text.constructor` takes the initial values as parameters.
- Which setter `Typer::setString` and `Typer::getString` reach, and the conversions between `std::string` and `sf::String`. The round trip is taken to keep the chars unchanged.
- The focus manager behind `checkState(FOCUSED)`. The focus state is a plain field fixed at construction, and the handler only reads it.
- The model does not connect `Typer` to `Text`: typing is shown to reach `Typer`'s string, and the display setter is shown to drop its argument under word wrap, but no lemma relates keystrokes to what a wrapping `Text` displays.
- Event registration through `onTextEntered`, SFML's event dispatch, and all rendering. These are calls into SFML.
- The font cache and font loading (src/FontManager.h). They are file I/O and a global SFML resource table.
- `Application`'s constructor (src/Application/Application.cpp) and `Sprite` (include/Malena/Graphics/Sprite.h). Both only forward to SFML and to the UI manager.
- Platforms where `char` is unsigned. There, code points whose low byte is 0x80 or more would pass `c >= ' '` and be appended.
- Floating-point behaviour of `maxWidth`. The width is stored and passed on unchanged.
