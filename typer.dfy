/** The text-entry widget `Typer`: a focus-gated handler for text-entered
    events that edits the widget's string one character at a time. */
module TyperWidget {

  /** A C++ `char` on a platform where `char` is signed and 8 bits wide. */
  newtype SChar = x: int | -128 <= x < 128

  /** The `unicode` member of a text-entered event: an unsigned 32-bit code point. */
  newtype CodePoint = x: int | 0 <= x < 0x1_0000_0000

  datatype Option<T> = None | Some(value: T)

  const Backspace: SChar := 8
  const Tab: SChar := 9
  const Newline: SChar := 10
  const Space: SChar := 32

  /** Conversion of the 32-bit code point to `char`: the only value of a
      signed 8-bit char that agrees with the code point modulo 256. */
  function Narrow(cp: CodePoint): (c: SChar)
    ensures (c as int - cp as int) % 256 == 0
    ensures cp < 128 ==> c as int == cp as int
  {
    var low := cp as int % 256;
    if low < 128 then low as SChar else (low - 256) as SChar
  }

  /** The characters the handler appends: printable ones (at or above the
      space, which with a signed char means 32..127) plus newline and tab. */
  predicate Appended(c: SChar)
  {
    c >= Space || c == Newline || c == Tab
  }

  /** One focused event applied to the string, in the order the handler
      does it: first the backspace removal, then the append filter.
      `None` stands for the undefined behaviour of removing the last
      character of an empty string. */
  function Step(s: seq<SChar>, c: SChar): (r: Option<seq<SChar>>)
    ensures r.None? <==> c == Backspace && s == []
    ensures r.Some? && c == Backspace ==> r.value == s[..|s| - 1]
    ensures Appended(c) ==> r == Some(s + [c])
    ensures c != Backspace && !Appended(c) ==> r == Some(s)
  {
    var popped := if c != Backspace then Some(s)
                  else if s == [] then None
                  else Some(s[..|s| - 1]);
    match popped
    case None => None
    case Some(t) => if Appended(c) then Some(t + [c]) else Some(t)
  }

  /** The string after a run of focused events: the left fold of `Step`,
      undefined as soon as one step is. */
  function Replay(s: seq<SChar>, cs: seq<SChar>): Option<seq<SChar>>
    decreases |cs|
  {
    if cs == [] then Some(s)
    else match Step(s, cs[0])
         case None => None
         case Some(t) => Replay(t, cs[1..])
  }

  /** The characters of `cs` that the handler would append, in order. */
  function Kept(cs: seq<SChar>): (r: seq<SChar>)
    ensures |r| <= |cs|
    ensures forall i :: 0 <= i < |r| ==> Appended(r[i])
    ensures (forall i :: 0 <= i < |cs| ==> Appended(cs[i])) ==> r == cs
  {
    if cs == [] then []
    else if Appended(cs[0]) then [cs[0]] + Kept(cs[1..])
    else Kept(cs[1..])
  }

  /** The event's decisions depend on nothing but the narrowed character:
      two code points with the same low byte are handled alike. */
  lemma SameLowByteSameChar(a: CodePoint, b: CodePoint)
    requires a as int % 256 == b as int % 256
    ensures Narrow(a) == Narrow(b)
    ensures forall s :: Step(s, Narrow(a)) == Step(s, Narrow(b))
  {
  }

  /** A code point whose low byte is 0x80 or more narrows to a negative
      char, fails every test of the handler and leaves the string as it was. */
  lemma HighLowByteDropped(cp: CodePoint, s: seq<SChar>)
    requires cp as int % 256 >= 128
    ensures Narrow(cp) < 0
    ensures Step(s, Narrow(cp)) == Some(s)
  {
  }

  /** A code point above 127 whose low byte is ASCII is entered as that ASCII
      character: U+0141 is appended as 'A'. */
  lemma NonAsciiAliasesAscii(s: seq<SChar>)
    ensures Step(s, Narrow(0x141)) == Some(s + [65])
  {
  }

  /** Backspace right after an appended character undoes it. */
  lemma BackspaceUndoesAppend(s: seq<SChar>, c: SChar)
    requires Appended(c)
    ensures Replay(s, [c, Backspace]) == Some(s)
  {
    assert [c, Backspace][1..] == [Backspace];
    assert (s + [c])[..|s + [c]| - 1] == s;
    assert Step(s + [c], Backspace) == Some(s);
    assert Replay(s + [c], [Backspace]) == Replay(s, []);
  }

  /** Replaying a concatenation is replaying its two halves one after the other. */
  lemma {:induction false} ReplayConcat(s: seq<SChar>, a: seq<SChar>, b: seq<SChar>)
    ensures Replay(s, a + b) == match Replay(s, a)
                                case None => None
                                case Some(t) => Replay(t, b)
    decreases |a|
  {
    if a == [] {
      assert a + b == b;
    } else {
      assert (a + b)[0] == a[0];
      assert (a + b)[1..] == a[1..] + b;
      match Step(s, a[0])
      case None =>
      case Some(t) => ReplayConcat(t, a[1..], b);
    }
  }

  /** Without backspaces, a run of focused events keeps the old string as a
      prefix and appends exactly the printable characters, newlines and tabs,
      in order; every other control character is dropped. */
  lemma {:induction false} ReplayWithoutBackspace(s: seq<SChar>, cs: seq<SChar>)
    requires Backspace !in cs
    ensures Replay(s, cs) == Some(s + Kept(cs))
    decreases |cs|
  {
    if cs != [] {
      assert cs[0] != Backspace;
      assert Backspace !in cs[1..] by {
        assert forall x :: x in cs[1..] ==> x in cs;
      }
      assert Step(s, cs[0]).Some?;
      var t := Step(s, cs[0]).value;
      assert Replay(s, cs) == Replay(t, cs[1..]);
      ReplayWithoutBackspace(t, cs[1..]);
      if Appended(cs[0]) {
        assert Kept(cs) == [cs[0]] + Kept(cs[1..]);
        assert s + Kept(cs) == t + Kept(cs[1..]);
      } else {
        assert Kept(cs) == Kept(cs[1..]);
        assert t == s;
      }
      assert Replay(t, cs[1..]) == Some(t + Kept(cs[1..]));
    } else {
      assert s + Kept(cs) == s;
    }
  }

  /** The replay is defined whenever the string holds at least as many
      characters as the run has backspaces: the undefined removal can only
      happen when backspaces outnumber what is there to remove. */
  lemma {:induction false} ReplayDefinedWhenEnoughText(s: seq<SChar>, cs: seq<SChar>)
    requires |s| >= multiset(cs)[Backspace]
    ensures Replay(s, cs).Some?
    decreases |cs|
  {
    if cs != [] {
      assert cs == [cs[0]] + cs[1..];
      assert multiset(cs) == multiset{cs[0]} + multiset(cs[1..]);
      var t := Step(s, cs[0]).value;
      ReplayDefinedWhenEnoughText(t, cs[1..]);
    }
  }

  /** Typing "H", "E" and a backspace leaves "H". */
  lemma TypeThenErase()
    ensures Replay([], [72, 69, Backspace]) == Some([72])
  {
    var empty: seq<SChar> := [];
    assert Step(empty, 72) == Some(empty + [72]) && empty + [72] == [72];
    assert Replay(empty, [72]) == Some([72]);
    BackspaceUndoesAppend([72], 69);
    ReplayConcat(empty, [72], [69, Backspace]);
    assert [72, 69, Backspace] == [72 as SChar] + [69, Backspace];
  }

  /** Backspace on an empty string has no defined outcome. */
  lemma BackspaceOnEmptyUndefined()
    ensures Step([], Backspace).None?
    ensures Replay([], [Backspace]).None?
  {
  }

  /** The widget: its string and the focus state that an external focus
      manager sets; `written` records every string handed back to the
      display with `setString`. */
  class Typer {
    var text: seq<SChar>
    var focused: bool
    ghost var written: seq<seq<SChar>>

    constructor (focus: bool)
      ensures text == [] && focused == focus && written == []
    {
      text := [];
      focused := focus;
      written := [];
    }

    /** The text-entered callback. Unfocused: nothing happens at all.
        Focused: the string is edited by `Step` and written back, even when
        the character was dropped. */
    method OnTextEntered(cp: CodePoint)
      requires focused && Narrow(cp) == Backspace ==> text != []
      modifies this`text, this`written
      ensures focused == old(focused)
      ensures !focused ==> text == old(text) && written == old(written)
      ensures focused ==> Step(old(text), Narrow(cp)) == Some(text)
      ensures focused ==> written == old(written) + [text]
    {
      if focused {
        var t := text;
        var c := Narrow(cp);
        if c == Backspace {
          t := t[..|t| - 1];
        }
        if c >= Space || c == Newline || c == Tab {
          t := t + [c];
        }
        text := t;
        written := written + [t];
      }
    }
  }

  /** The narrowed characters of a run of events. */
  function NarrowAll(cps: seq<CodePoint>): seq<SChar>
  {
    seq(|cps|, i requires 0 <= i < |cps| => Narrow(cps[i]))
  }

  /** Two runs of events whose code points agree in their low bytes, event by
      event, leave any string in the same state: only the narrowed chars of
      a run matter. */
  lemma SameLowBytesSameReplay(s: seq<SChar>, a: seq<CodePoint>, b: seq<CodePoint>)
    requires |a| == |b|
    requires forall i :: 0 <= i < |a| ==> a[i] as int % 256 == b[i] as int % 256
    ensures Replay(s, NarrowAll(a)) == Replay(s, NarrowAll(b))
  {
    forall i | 0 <= i < |a|
      ensures NarrowAll(a)[i] == NarrowAll(b)[i]
    {
      SameLowByteSameChar(a[i], b[i]);
    }
    assert NarrowAll(a) == NarrowAll(b);
  }

  /** The event loop delivering a run of text-entered events to a focused
      widget: the final string is the replay of the narrowed characters,
      and the focus is left as it was. */
  method DeliverEvents(typer: Typer, cps: seq<CodePoint>)
    requires typer.focused
    requires Replay(typer.text, NarrowAll(cps)).Some?
    modifies typer
    ensures typer.focused
    ensures Some(typer.text) == Replay(old(typer.text), NarrowAll(cps))
  {
    var cs := NarrowAll(cps);
    var i := 0;
    while i < |cps|
      invariant 0 <= i <= |cps|
      invariant typer.focused
      invariant Replay(typer.text, cs[i..]) == Replay(old(typer.text), cs)
    {
      assert cs[i..][1..] == cs[i + 1..];
      typer.OnTextEntered(cps[i]);
      i := i + 1;
    }
  }
}
