/** The karaoke filter-script compiler of `internal_generate_video`.

    Each lyric line becomes one `drawtext` directive: its text is trimmed, cleared of the
    characters that would break the filter syntax, wrapped onto two lines when long, and
    shown during the line's own time window. The script is the comma-joined list of the
    scaling filter followed by the directives, in lyric order. */
module Karaoke {
  import opened Wrappers
  import opened Text

  /** One lyric object of the request; a field is `None` when its key is missing. A time
      is carried as the text Python's `str()` gives the JSON number. */
  datatype Lyric = Lyric(text: Option<string>, startTime: Option<string>, endTime: Option<string>)

  /** Quote, colon, backslash and percent: removed from every lyric text. */
  const Forbidden: set<char> := {'\'', ':', '\\', '%'}

  /** Texts longer than this are wrapped onto two lines. */
  const MaxLineLength := 42

  /** `strip()`, then `replace` of each forbidden character by nothing, in the server's
      order: quote, colon, backslash, percent. */
  function CleanText(raw: string): (r: string)
    ensures NoneOf(r, Forbidden)
    ensures r == Keep(Strip(raw), Forbidden)
    ensures forall c :: c in r <==> c in Strip(raw) && c !in Forbidden
  {
    var t := Strip(raw);
    KeepEachForbidden(t);
    Keep(Keep(Keep(Keep(t, {'\''}), {':'}), {'\\'}), {'%'})
  }

  /** Removing the four characters one after the other removes the set of them. */
  lemma KeepEachForbidden(t: string)
    ensures Keep(Keep(Keep(Keep(t, {'\''}), {':'}), {'\\'}), {'%'}) == Keep(t, Forbidden)
  {
    KeepKeep(t, {'\''}, {':'});
    KeepKeep(t, {'\''} + {':'}, {'\\'});
    KeepKeep(t, {'\''} + {':'} + {'\\'}, {'%'});
    assert {'\''} + {':'} + {'\\'} + {'%'} == Forbidden;
  }

  /** The word wrap: a text longer than `MaxLineLength` becomes the first half of its words
      (rounded down), a line break, and the remaining words, each half joined by spaces. */
  function Wrap(txt: string): string {
    if |txt| > MaxLineLength then
      var ws := Words(txt);
      var mid := |ws| / 2;
      JoinWith(" ", ws[..mid]) + "\n" + JoinWith(" ", ws[mid..])
    else
      txt
  }

  /** A text of at most `MaxLineLength` characters is emitted as it is. */
  lemma WrapShort(txt: string)
    requires |txt| <= MaxLineLength
    ensures Wrap(txt) == txt
    ensures CountOf(Wrap(txt), '\n') == CountOf(txt, '\n')
  {
  }

  /** Joining words with spaces puts no line break in. */
  lemma JoinedWordsHaveNoBreak(ws: seq<string>)
    requires forall i :: 0 <= i < |ws| ==> IsWord(ws[i])
    ensures NoneOf(JoinWith(" ", ws), {'\n'})
  {
    forall i | 0 <= i < |ws|
      ensures NoneOf(ws[i], {'\n'})
    {
      assert IsWord(ws[i]);
    }
    JoinWithNoneOf(" ", ws, {'\n'});
  }

  /** The two halves of a long text's wrap, each its words joined by spaces. */
  function FirstLine(txt: string): string {
    var ws := Words(txt);
    JoinWith(" ", ws[..|ws| / 2])
  }

  function SecondLine(txt: string): string {
    var ws := Words(txt);
    JoinWith(" ", ws[|ws| / 2..])
  }

  /** A long text is wrapped exactly once: the result holds one line break, its first line
      holds the first half of the words (rounded down) and its second line the rest, and
      splitting it on whitespace gives back the original word list. */
  lemma WrapLong(txt: string)
    requires |txt| > MaxLineLength
    ensures var r := Wrap(txt);
      var ws := Words(txt);
      var k := IndexOf(r, '\n');
      && CountOf(r, '\n') == 1
      && 0 <= k
      && Words(r[..k]) == ws[..|ws| / 2]
      && Words(r[k + 1..]) == ws[|ws| / 2..]
      && Words(r) == ws
  {
    var ws := Words(txt);
    WrapLines(txt);
    BreakBetween(FirstLine(txt), SecondLine(txt));
    WordsSplitAt(FirstLine(txt), '\n', SecondLine(txt));
    PrefixSuffix(ws, |ws| / 2);
  }

  /** Each line of the wrap re-splits to its half of the word list and has no break. */
  lemma WrapLines(txt: string)
    ensures var ws := Words(txt);
      && Words(FirstLine(txt)) == ws[..|ws| / 2]
      && Words(SecondLine(txt)) == ws[|ws| / 2..]
      && '\n' !in FirstLine(txt) && '\n' !in SecondLine(txt)
  {
    var ws := Words(txt);
    var mid := |ws| / 2;
    WordsAreWords(txt);
    JoinedWordsHaveNoBreak(ws[..mid]);
    JoinedWordsHaveNoBreak(ws[mid..]);
    WordsOfJoin(ws[..mid]);
    WordsOfJoin(ws[mid..]);
  }

  /** Two break-free lines joined by a break: one break, and it sits between them. */
  lemma BreakBetween(a: string, b: string)
    requires '\n' !in a && '\n' !in b
    ensures var r := a + ['\n'] + b;
      && CountOf(r, '\n') == 1
      && IndexOf(r, '\n') == |a|
      && r[..|a|] == a
      && r[|a| + 1..] == b
  {
    CountOfAppend(a, ['\n'] + b, '\n');
    CountOfAppend(['\n'], b, '\n');
    AppendAssoc(a, ['\n'], b);
    IndexOfAppend(a, '\n', ['\n'] + b);
    AroundSeparator(a, '\n', b);
  }

  /** A long text with no word or a single word wraps to a text that starts with the break. */
  lemma WrapLeadingBreak(txt: string)
    requires |txt| > MaxLineLength && |Words(txt)| <= 1
    ensures Wrap(txt)[0] == '\n'
  {
    var ws := Words(txt);
    assert ws[..|ws| / 2] == [];
  }

  /** Wrapping adds only spaces and a line break, so it keeps out any character the text
      did not have besides those two. */
  lemma WrapKeepsOut(txt: string, bad: set<char>)
    requires NoneOf(txt, bad) && ' ' !in bad && '\n' !in bad
    ensures NoneOf(Wrap(txt), bad)
  {
    if |txt| > MaxLineLength {
      var ws := Words(txt);
      var mid := |ws| / 2;
      WordsNoneOf(txt, bad);
      JoinWithNoneOf(" ", ws[..mid], bad);
      JoinWithNoneOf(" ", ws[mid..], bad);
      var a := JoinWith(" ", ws[..mid]);
      var b := JoinWith(" ", ws[mid..]);
      assert forall i :: 0 <= i < |a + "\n" + b| ==>
        (a + "\n" + b)[i] in a || (a + "\n" + b)[i] == '\n' || (a + "\n" + b)[i] in b;
    }
  }

  // ---------------------------------------------------------------- one directive

  /** The font argument; in the filter text the drive colon is escaped with a backslash. */
  const Font := "C\\:/Windows/Fonts/arial.ttf"

  const TextPrefix := "drawtext=fontfile='" + Font + "':text='"

  /** The fixed part between the text and the window, as the server's f-string pieces. */
  const StyleInfix := "'" + ":fontcolor=white:fontsize=42:"
    + "box=1:boxcolor=black@0.6:boxborderw=10:"
    + "x=(w-text_w)/2:y=(h-text_h)/2+200:"
    + "enable='between(t,"

  const WindowSuffix := ")'"

  /** The fixed text of a directive: before the overlay text, between the text and the
      window bounds, and after them. The text is closed by the quote that opens `infix`. */
  datatype Frame = Frame(prefix: string, infix: string, suffix: string) {
    predicate Closes() {
      infix != [] && infix[0] == '\''
    }

    /** The directive for a text and a window `between(t, start, end)`. */
    function Fill(txt: string, start: string, end: string): string {
      prefix + txt + infix + start + "," + end + suffix
    }

    /** Reads a directive back: the text runs up to the first quote, the start bound up to
        the first comma of the window. */
    function Read(d: string): Option<(string, string, string)> {
      match AfterPrefix(prefix, d)
      case None => None
      case Some(rest) => ReadText(rest)
    }

    function ReadText(rest: string): Option<(string, string, string)> {
      match CutAt(rest, '\'')
      case None => None
      case Some((txt, tail)) =>
        match ReadStyle(tail)
        case None => None
        case Some((start, end)) => Some((txt, start, end))
    }

    function ReadStyle(tail: string): Option<(string, string)> {
      match AfterPrefix(infix, tail)
      case None => None
      case Some(w) =>
        match BeforeSuffix(w, suffix)
        case None => None
        case Some(window) => ReadBounds(window)
    }
  }

  /** The two bounds of a window `start,end`, split at the first comma. */
  function ReadBounds(window: string): Option<(string, string)> {
    match CutAt(window, ',')
    case None => None
    case Some((start, commaEnd)) => Some((start, commaEnd[1..]))
  }

  lemma BoundsRoundTrip(start: string, end: string)
    requires ',' !in start
    ensures ReadBounds(start + "," + end) == Some((start, end))
  {
    assert start + "," + end == start + ([','] + end);
    CutAtAppend(start, ',', [','] + end);
    assert ([','] + end)[1..] == end;
  }

  lemma BoundsSound(window: string)
    requires ReadBounds(window).Some?
    ensures window == ReadBounds(window).value.0 + "," + ReadBounds(window).value.1
    ensures ',' !in ReadBounds(window).value.0
  {
    var (start, commaEnd) := CutAt(window, ',').value;
    SplitAtHead(start, commaEnd);
  }

  lemma StyleRoundTrip(f: Frame, start: string, end: string)
    requires ',' !in start
    ensures f.ReadStyle(f.infix + ((start + "," + end) + f.suffix)) == Some((start, end))
  {
    AfterPrefixAppend(f.infix, (start + "," + end) + f.suffix);
    BeforeSuffixAppend(start + "," + end, f.suffix);
    BoundsRoundTrip(start, end);
  }

  lemma StyleSound(f: Frame, tail: string)
    requires f.ReadStyle(tail).Some?
    ensures var (start, end) := f.ReadStyle(tail).value;
      tail == f.infix + ((start + "," + end) + f.suffix) && ',' !in start
  {
    var w := AfterPrefix(f.infix, tail).value;
    var window := BeforeSuffix(w, f.suffix).value;
    BoundsSound(window);
  }

  lemma TextRoundTrip(f: Frame, txt: string, start: string, end: string)
    requires f.Closes() && '\'' !in txt && ',' !in start
    ensures f.ReadText(txt + (f.infix + ((start + "," + end) + f.suffix))) == Some((txt, start, end))
  {
    var tail := f.infix + ((start + "," + end) + f.suffix);
    CutAtAppend(txt, '\'', tail);
    StyleRoundTrip(f, start, end);
  }

  lemma TextSound(f: Frame, rest: string)
    requires f.ReadText(rest).Some?
    ensures var (txt, start, end) := f.ReadText(rest).value;
      rest == txt + (f.infix + ((start + "," + end) + f.suffix)) && '\'' !in txt && ',' !in start
  {
    var (txt, tail) := CutAt(rest, '\'').value;
    StyleSound(f, tail);
  }

  /** A text without a quote and a start bound without a comma read back from their
      directive unchanged. */
  lemma FillRead(f: Frame, txt: string, start: string, end: string)
    requires f.Closes() && '\'' !in txt && ',' !in start
    ensures f.Read(f.Fill(txt, start, end)) == Some((txt, start, end))
  {
    var rest := txt + (f.infix + ((start + "," + end) + f.suffix));
    FillAssoc(f, txt, start, end);
    AfterPrefixAppend(f.prefix, rest);
    TextRoundTrip(f, txt, start, end);
  }

  /** Whatever reads as a directive is the directive of what it reads as. */
  lemma ReadFill(f: Frame, d: string)
    requires f.Read(d).Some?
    ensures var (txt, start, end) := f.Read(d).value;
      d == f.Fill(txt, start, end) && '\'' !in txt && ',' !in start
  {
    var rest := AfterPrefix(f.prefix, d).value;
    TextSound(f, rest);
    var x := f.ReadText(rest).value;
    assert f.Read(d).value == x;
    FillAssoc(f, x.0, x.1, x.2);
  }

  lemma FillAssoc(f: Frame, txt: string, start: string, end: string)
    ensures f.Fill(txt, start, end) == f.prefix + (txt + (f.infix + ((start + "," + end) + f.suffix)))
  {
  }

  /** The `drawtext` overlay: white 42-point text on a translucent black box, centred, 200
      pixels below the middle, enabled while `between(t, start, end)` holds. */
  const Overlay := Frame(TextPrefix, StyleInfix, WindowSuffix)

  lemma OverlayCloses()
    ensures Overlay.Closes()
  {
  }

  function Drawtext(txt: string, start: string, end: string): string {
    Overlay.Fill(txt, start, end)
  }

  /** A directive whose text has no quote and whose start bound has no comma reads back to
      exactly its text and bounds. */
  lemma DrawtextRoundTrip(txt: string, start: string, end: string)
    requires '\'' !in txt && ',' !in start
    ensures Overlay.Read(Drawtext(txt, start, end)) == Some((txt, start, end))
  {
    OverlayCloses();
    FillRead(Overlay, txt, start, end);
  }

  /** The overlay text of a lyric: a missing text is the empty text. */
  function OverlayText(l: Lyric): string {
    Wrap(CleanText(l.text.GetOr("")))
  }

  /** The directive of one lyric; a missing time is `0`. */
  function LyricDirective(l: Lyric): string {
    Drawtext(OverlayText(l), l.startTime.GetOr("0"), l.endTime.GetOr("0"))
  }

  /** The overlay text never holds a forbidden character, whatever the lyric. */
  lemma OverlayTextClean(l: Lyric)
    ensures NoneOf(OverlayText(l), Forbidden)
  {
    CleanWrapped(l.text.GetOr(""));
  }

  lemma CleanWrapped(raw: string)
    ensures NoneOf(Wrap(CleanText(raw)), Forbidden)
  {
    WrapClean(CleanText(raw));
  }

  /** Wrapping a text free of forbidden characters keeps it free of them: the breaks it adds
      are spaces and one newline, neither of them forbidden. */
  lemma WrapClean(t: string)
    requires NoneOf(t, Forbidden)
    ensures NoneOf(Wrap(t), Forbidden)
  {
    assert ' ' !in Forbidden && '\n' !in Forbidden;
    WrapKeepsOut(t, Forbidden);
  }

  /** Each lyric whose start renders without a comma (as every number does) gets a directive
      that shows its cleaned text during its own window. */
  lemma LyricDirectiveWindow(l: Lyric)
    requires ',' !in l.startTime.GetOr("0")
    ensures Overlay.Read(LyricDirective(l)) ==
      Some((OverlayText(l), l.startTime.GetOr("0"), l.endTime.GetOr("0")))
  {
    OverlayTextClean(l);
    DrawtextRoundTrip(OverlayText(l), l.startTime.GetOr("0"), l.endTime.GetOr("0"));
  }

  /** The text `Hello` is clean already. */
  lemma HelloClean()
    ensures CleanText("Hello") == "Hello"
  {
    StripHello();
    KeepNoneOf("Hello", Forbidden);
  }

  lemma StripHello()
    ensures Strip("Hello") == "Hello"
  {
    StripUntrimmed("Hello");
  }

  /** The text `Hello` is shown as it is. */
  lemma HelloOverlay()
    ensures OverlayText(Lyric(Some("Hello"), Some("1.0"), Some("3.5"))) == "Hello"
  {
    HelloClean();
    WrapShort("Hello");
  }

  /** The line `{startTime: 1.0, endTime: 3.5, text: "Hello"}` overlays `Hello` between 1.0
      and 3.5. */
  lemma LyricDirectiveHello()
    ensures LyricDirective(Lyric(Some("Hello"), Some("1.0"), Some("3.5"))) ==
      Drawtext("Hello", "1.0", "3.5")
  {
    HelloOverlay();
  }

  /** A lyric with every key missing overlays the empty text between 0 and 0. */
  lemma LyricDirectiveDefaults()
    ensures LyricDirective(Lyric(None, None, None)) == Drawtext("", "0", "0")
  {
    assert Strip("") == "";
  }

  // ---------------------------------------------------------------- the script

  /** The first filter: scale the picture to 1280x720. */
  const ScaleFilter := "scale=1280:720"

  /** The loop of `internal_generate_video`: the filter list, one directive appended per
      lyric in order, and the script text written to the filter file. */
  method CompileFilterScript(lyrics: seq<Lyric>) returns (lines: seq<string>, script: string)
    ensures |lines| == |lyrics| + 1
    ensures lines[0] == ScaleFilter
    ensures forall i :: 0 <= i < |lyrics| ==> lines[i + 1] == LyricDirective(lyrics[i])
    ensures script == JoinWith(",", lines)
  {
    lines, script := AppendEach(ScaleFilter, lyrics, LyricDirective);
  }

  /** The loop itself, for any directive function: `first`, then one directive per item in
      order, and their comma join. */
  method AppendEach<T>(first: string, items: seq<T>, directive: T -> string)
    returns (lines: seq<string>, script: string)
    ensures |lines| == |items| + 1
    ensures lines[0] == first
    ensures forall i :: 0 <= i < |items| ==> lines[i + 1] == directive(items[i])
    ensures script == JoinWith(",", lines)
  {
    lines := [first];
    script := first;
    var i := 0;
    while i < |items|
      invariant 0 <= i <= |items|
      invariant |lines| == i + 1 && lines[0] == first
      invariant forall j :: 0 <= j < i ==> lines[j + 1] == directive(items[j])
      invariant script == JoinWith(",", lines)
    {
      var d := directive(items[i]);
      JoinWithSnoc(",", lines, d);
      lines := lines + [d];
      script := script + "," + d;
      i := i + 1;
    }
  }
}
