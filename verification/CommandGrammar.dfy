/** The language of command lines: every text is a line of words with white space between them, and
    the splitter returns the values of its words. */
module CommandGrammar {
  import opened Tokens

  /** Inside quotes: a character that stands for itself, or a backslash and any character. */
  datatype QuotedChar = Raw(c: char) | Backslashed(c: char)

  /** A part of a word: a character outside quotes, a quoted part, or a quoted part that the text ends
      in, with a backslash left over or not. */
  datatype Piece = Plain(c: char) | Quote(chars: seq<QuotedChar>) | Open(chars: seq<QuotedChar>, dangling: bool)

  type Word = seq<Piece>

  /** White space, and words each followed by white space. */
  datatype WordLine = WordLine(lead: string, words: seq<Word>, gaps: seq<string>)

  // ---- how it is typed, and what it means ----

  function CharText(q: QuotedChar): string {
    match q
    case Raw(c) => [c]
    case Backslashed(c) => ['\\', c]
  }

  function QuotedText(chars: seq<QuotedChar>): string {
    if chars == [] then "" else CharText(chars[0]) + QuotedText(chars[1..])
  }

  function QuotedValue(chars: seq<QuotedChar>): string {
    if chars == [] then "" else [chars[0].c] + QuotedValue(chars[1..])
  }

  function PieceText(p: Piece): string {
    match p
    case Plain(c) => [c]
    case Quote(chars) => "\"" + QuotedText(chars) + "\""
    case Open(chars, dangling) => "\"" + QuotedText(chars) + if dangling then "\\" else ""
  }

  function PieceValue(p: Piece): string {
    match p
    case Plain(c) => [c]
    case Quote(chars) => QuotedValue(chars)
    case Open(chars, dangling) => QuotedValue(chars) + if dangling then "\\" else ""
  }

  function WordText(w: Word): string {
    if w == [] then "" else PieceText(w[0]) + WordText(w[1..])
  }

  function WordValue(w: Word): string {
    if w == [] then "" else PieceValue(w[0]) + WordValue(w[1..])
  }

  function WordsText(words: seq<Word>, gaps: seq<string>): string
    requires |words| == |gaps|
  {
    if words == [] then "" else WordText(words[0]) + gaps[0] + WordsText(words[1..], gaps[1..])
  }

  function Values(words: seq<Word>): seq<string> {
    if words == [] then [] else [WordValue(words[0])] + Values(words[1..])
  }

  predicate ValidChars(chars: seq<QuotedChar>) {
    forall i | 0 <= i < |chars| && chars[i].Raw? :: !NeedsEscape(chars[i].c)
  }

  /** Only the end of the text may leave a quote open. */
  predicate ValidPiece(p: Piece, atEnd: bool) {
    match p
    case Plain(c) => c != '"' && !IsSpace(c)
    case Quote(chars) => ValidChars(chars)
    case Open(chars, _) => ValidChars(chars) && atEnd
  }

  predicate ValidWord(w: Word, atEnd: bool) {
    w != [] && forall i | 0 <= i < |w| :: ValidPiece(w[i], atEnd && i == |w| - 1)
  }

  predicate ValidWords(words: seq<Word>, gaps: seq<string>) {
    |words| == |gaps|
    && forall i | 0 <= i < |words| ::
         && AllSpace(gaps[i]) && (i < |words| - 1 ==> gaps[i] != "")
         && ValidWord(words[i], i == |words| - 1 && gaps[i] == "")
  }

  predicate ValidLine(l: WordLine) {
    AllSpace(l.lead) && ValidWords(l.words, l.gaps)
  }

  function LineText(l: WordLine): string
    requires |l.words| == |l.gaps|
  {
    l.lead + WordsText(l.words, l.gaps)
  }

  // ---- every line splits into the values of its words ----

  lemma {:induction false} ScanChars(chars: seq<QuotedChar>, rest: string, current: string)
    requires ValidChars(chars)
    ensures Scan(QuotedText(chars) + rest, true, true, current)
         == Scan(rest, true, true, current + QuotedValue(chars))
    decreases |chars|
  {
    hide Scan, NeedsEscape, CharText;
    if chars == [] {
      assert QuotedText(chars) + rest == rest && current + QuotedValue(chars) == current;
    } else {
      var q, more := chars[0], QuotedText(chars[1..]);
      assert QuotedText(chars) + rest == CharText(q) + (more + rest);
      ScanChar(q, more + rest, current);
      ScanChars(chars[1..], rest, current + [q.c]);
      assert current + [q.c] + QuotedValue(chars[1..]) == current + QuotedValue(chars);
    }
  }

  lemma ScanChar(q: QuotedChar, tail: string, current: string)
    requires q.Raw? ==> !NeedsEscape(q.c)
    ensures Scan(CharText(q) + tail, true, true, current) == Scan(tail, true, true, current + [q.c])
  {
    var text := CharText(q) + tail;
    if q.Raw? {
      assert text[1..] == tail;
    } else {
      assert text[1..] == [q.c] + tail && text[1..][1..] == tail;
    }
  }

  lemma ScanQuotes(rest: string, inToken: bool, current: string)
    ensures Scan("\"" + rest, inToken, false, current) == Scan(rest, true, true, current)
    ensures Scan("\"" + rest, true, true, current) == Scan(rest, true, false, current)
  {
    assert ("\"" + rest)[1..] == rest;
  }

  lemma ScanPiece(p: Piece, rest: string, inToken: bool, current: string)
    requires ValidPiece(p, false)
    ensures Scan(PieceText(p) + rest, inToken, false, current) == Scan(rest, true, false, current + PieceValue(p))
  {
    match p
    case Plain(c) => assert ([c] + rest)[1..] == rest;
    case Quote(chars) =>
      hide Scan;
      var inner := QuotedText(chars);
      assert PieceText(p) + rest == "\"" + (inner + ("\"" + rest));
      ScanQuotes(inner + ("\"" + rest), inToken, current);
      ScanChars(chars, "\"" + rest, current);
      ScanQuotes(rest, true, current + QuotedValue(chars));
  }

  /** The text may end inside quotes: they need not be closed. */
  lemma ScanOpen(p: Piece, inToken: bool, current: string)
    requires p.Open? && ValidPiece(p, true)
    ensures Scan(PieceText(p), inToken, false, current) == [current + PieceValue(p)]
  {
    var inner, end := QuotedText(p.chars), if p.dangling then "\\" else "";
    var value := current + QuotedValue(p.chars);
    assert PieceText(p) == "\"" + (inner + end);
    ScanQuotes(inner + end, inToken, current);
    ScanChars(p.chars, end, current);
    ScanEnd(p.dangling, value);
    assert value + end == current + PieceValue(p);
  }

  lemma ScanEnd(dangling: bool, current: string)
    ensures var end := if dangling then "\\" else "";
            Scan(end, true, true, current) == [current + end]
  {
    if dangling {
      assert "\\"[1..] == "";
    } else {
      assert current + "" == current;
    }
  }

  lemma {:induction false} ScanWord(w: Word, rest: string, inToken: bool, current: string)
    requires forall i | 0 <= i < |w| :: ValidPiece(w[i], false)
    ensures Scan(WordText(w) + rest, inToken, false, current)
         == Scan(rest, inToken || w != [], false, current + WordValue(w))
    decreases |w|
  {
    hide Scan, PieceText, PieceValue, ValidPiece;
    if w == [] {
      assert WordText(w) + rest == rest && current + WordValue(w) == current;
    } else {
      var tail := WordText(w[1..]) + rest;
      assert WordText(w) + rest == PieceText(w[0]) + tail;
      ScanPiece(w[0], tail, inToken, current);
      ScanWord(w[1..], rest, true, current + PieceValue(w[0]));
      assert current + PieceValue(w[0]) + WordValue(w[1..]) == current + WordValue(w);
    }
  }

  /** The last word, which may end in an open quote. */
  lemma {:induction false} ScanLastWord(w: Word, inToken: bool, current: string)
    requires ValidWord(w, true)
    ensures Scan(WordText(w), inToken, false, current) == [current + WordValue(w)]
    decreases |w|
  {
    hide Scan, PieceText, PieceValue;
    var p, tail := w[0], w[1..];
    if tail == [] {
      assert WordText(tail) == "" && WordText(w) == PieceText(p) && WordValue(w) == PieceValue(p);
      if p.Open? {
        ScanOpen(p, inToken, current);
      } else {
        assert PieceText(p) + "" == PieceText(p);
        ScanPiece(p, "", inToken, current);
        ScanNothing(current + PieceValue(p));
      }
    } else {
      assert ValidPiece(p, false);
      ScanPiece(p, WordText(tail), inToken, current);
      ScanLastWord(tail, true, current + PieceValue(p));
      assert current + PieceValue(p) + WordValue(tail) == current + WordValue(w);
    }
  }

  lemma ScanNothing(current: string)
    ensures Scan("", true, false, current) == [current] && Scan("", false, false, "") == []
  {
  }

  lemma {:induction false} ScanSpaces(gap: string, rest: string)
    requires AllSpace(gap)
    ensures Scan(gap + rest, false, false, "") == Scan(rest, false, false, "")
  {
    if gap == "" {
      assert gap + rest == rest;
    } else {
      assert (gap + rest)[1..] == gap[1..] + rest;
      ScanSpaces(gap[1..], rest);
    }
  }

  lemma ScanGap(gap: string, rest: string, current: string)
    requires AllSpace(gap) && gap != ""
    ensures Scan(gap + rest, true, false, current) == [current] + Scan(rest, false, false, "")
  {
    assert (gap + rest)[1..] == gap[1..] + rest;
    ScanSpaces(gap[1..], rest);
  }

  lemma {:induction false} ScanWords(words: seq<Word>, gaps: seq<string>)
    requires ValidWords(words, gaps)
    ensures Tokens.Tokens(WordsText(words, gaps)) == Values(words)
  {
    hide Scan, WordText, WordValue, ValidPiece, AllSpace;
    if words == [] {
      ScanNothing("");
    } else {
      var w, gap := words[0], gaps[0];
      var rest := WordsText(words[1..], gaps[1..]);
      assert "" + WordValue(w) == WordValue(w);
      if gap == "" {
        assert |words| == 1 && rest == "" && WordsText(words, gaps) == WordText(w);
        ScanLastWord(w, false, "");
      } else {
        assert WordsText(words, gaps) == WordText(w) + (gap + rest);
        ScanWord(w, gap + rest, false, "");
        ScanGap(gap, rest, WordValue(w));
        ScanWords(words[1..], gaps[1..]);
      }
    }
  }

  /** Every line splits into exactly the values of its words. */
  lemma LineSplits(l: WordLine)
    requires ValidLine(l)
    ensures Tokens.Tokens(LineText(l)) == Values(l.words)
  {
    hide Scan, AllSpace;
    ScanSpaces(l.lead, WordsText(l.words, l.gaps));
    ScanWords(l.words, l.gaps);
  }

  // ---- every text is a line ----

  /** The first character inside quotes that do not end here. */
  lemma FirstQuoted(text: string) returns (q: QuotedChar, rest: string)
    requires text != "" && text[0] != '"' && (text[0] == '\\' ==> |text| > 1)
    ensures text == CharText(q) + rest && |rest| < |text| && (q.Raw? ==> !NeedsEscape(q.c))
  {
    if text[0] == '\\' {
      q, rest := Backslashed(text[1]), text[2..];
    } else {
      q, rest := Raw(text[0]), text[1..];
    }
  }

  function EndOf(p: Piece): string
    requires !p.Plain?
  {
    if p.Quote? then "\"" else if p.dangling then "\\" else ""
  }

  function WithChar(q: QuotedChar, p: Piece): Piece
    requires !p.Plain?
  {
    p.(chars := [q] + p.chars)
  }

  /** A quoted part that starts just after its quote. */
  lemma {:induction false} ParseQuote(text: string) returns (p: Piece, rest: string)
    ensures !p.Plain? && text == QuotedText(p.chars) + EndOf(p) + rest && |rest| <= |text|
    ensures ValidPiece(p, rest == "")
    decreases |text|
  {
    if text == "" {
      p, rest := Open([], false), "";
    } else if text[0] == '"' {
      p, rest := Quote([]), text[1..];
      assert "" + "\"" + rest == text;
    } else if text[0] == '\\' && |text| == 1 {
      p, rest := Open([], true), "";
      assert "" + "\\" + "" == text;
    } else {
      hide QuotedText, EndOf, CharText, NeedsEscape, ValidPiece;
      var q, tail := FirstQuoted(text);
      var inner;
      inner, rest := ParseQuote(tail);
      p := WithChar(q, inner);
      PrependChar(q, inner, rest == "");
      FourParts(CharText(q), QuotedText(inner.chars), EndOf(inner), rest);
    }
  }

  lemma PrependChar(q: QuotedChar, inner: Piece, atEnd: bool)
    requires !inner.Plain? && ValidPiece(inner, atEnd) && (q.Raw? ==> !NeedsEscape(q.c))
    ensures var p := WithChar(q, inner);
            !p.Plain? && ValidPiece(p, atEnd) && EndOf(p) == EndOf(inner)
            && QuotedText(p.chars) == CharText(q) + QuotedText(inner.chars)
  {
    hide NeedsEscape;
    var chars := [q] + inner.chars;
    assert chars[1..] == inner.chars;
    assert forall i | 0 < i < |chars| :: chars[i] == inner.chars[i - 1];
  }

  lemma QuoteText(p: Piece)
    requires !p.Plain?
    ensures PieceText(p) == "\"" + (QuotedText(p.chars) + EndOf(p))
  {
  }

  lemma PrependSpace(c: char, l: WordLine) returns (m: WordLine)
    requires ValidLine(l) && IsSpace(c)
    ensures ValidLine(m) && LineText(m) == [c] + LineText(l)
  {
    m := l.(lead := [c] + l.lead);
    assert [c] + (l.lead + WordsText(l.words, l.gaps)) == LineText(m);
  }

  /** A part of a word before a line joins the word that the line starts with, or is a word itself. */
  lemma PrependPiece(p: Piece, l: WordLine) returns (m: WordLine)
    requires ValidLine(l) && ValidPiece(p, LineText(l) == "")
    ensures ValidLine(m) && LineText(m) == PieceText(p) + LineText(l)
  {
    if l.lead == "" && l.words != [] {
      m := JoinPiece(p, l);
    } else {
      m := NewWord(p, l);
    }
  }

  lemma WordHasText(w: Word)
    requires w != []
    ensures WordText(w) != ""
  {
    assert PieceText(w[0]) != "";
  }

  lemma JoinPiece(p: Piece, l: WordLine) returns (m: WordLine)
    requires ValidLine(l) && ValidPiece(p, LineText(l) == "") && l.lead == "" && l.words != []
    ensures ValidLine(m) && LineText(m) == PieceText(p) + LineText(l)
  {
    WordHasText(l.words[0]);
    hide PieceText, AllSpace, ValidPiece, WordText, ValidWord, WordsText;
    var w, gap := l.words[0], l.gaps[0];
    m := l.(words := [[p] + w] + l.words[1..]);
    JoinedWord(p, w, |l.words| == 1 && gap == "");
    NewFirst(l.words, l.gaps, [p] + w);
    hide ValidWords;
    JoinedText(p, l.words, l.gaps);
    WithoutLead(l);
    WithoutLead(m);
  }

  lemma WithoutLead(l: WordLine)
    requires |l.words| == |l.gaps| && l.lead == ""
    ensures LineText(l) == WordsText(l.words, l.gaps)
  {
    hide WordsText;
  }

  lemma JoinedText(p: Piece, words: seq<Word>, gaps: seq<string>)
    requires |words| == |gaps| && words != []
    ensures WordsText([[p] + words[0]] + words[1..], gaps) == PieceText(p) + WordsText(words, gaps)
  {
    hide PieceText, WordText, WordsText;
    TextOfFirst(words, gaps, words[0]);
    TextOfFirst(words, gaps, [p] + words[0]);
    FirstAndRest(words);
    LongerWord(p, words[0]);
    FourParts(PieceText(p), WordText(words[0]), gaps[0], WordsText(words[1..], gaps[1..]));
  }

  lemma FirstAndRest<T>(s: seq<T>)
    requires s != []
    ensures [s[0]] + s[1..] == s
  {
  }

  lemma FourParts(a: string, b: string, c: string, d: string)
    ensures a + b + c + d == a + (b + c + d)
  {
  }

  lemma LongerWord(p: Piece, w: Word)
    ensures WordText([p] + w) == PieceText(p) + WordText(w)
  {
    var v: Word := [p] + w;
    assert v[1..] == w;
  }

  lemma TextOfFirst(words: seq<Word>, gaps: seq<string>, v: Word)
    requires |words| == |gaps| && words != []
    ensures WordsText([v] + words[1..], gaps) == WordText(v) + gaps[0] + WordsText(words[1..], gaps[1..])
  {
    assert ([v] + words[1..])[1..] == words[1..];
  }

  lemma NewFirst(words: seq<Word>, gaps: seq<string>, v: Word)
    requires ValidWords(words, gaps) && words != [] && ValidWord(v, |words| == 1 && gaps[0] == "")
    ensures ValidWords([v] + words[1..], gaps)
  {
    hide ValidWord, AllSpace;
    var all := [v] + words[1..];
    assert forall i | 0 < i < |all| :: all[i] == words[i];
  }

  lemma JoinedWord(p: Piece, w: Word, atEnd: bool)
    requires ValidPiece(p, false) && ValidWord(w, atEnd)
    ensures ValidWord([p] + w, atEnd) && WordText([p] + w) == PieceText(p) + WordText(w)
  {
    hide PieceText, ValidPiece;
    var v: Word := [p] + w;
    assert v[1..] == w;
    assert forall i | 0 < i < |v| :: v[i] == w[i - 1];
  }

  lemma NewWord(p: Piece, l: WordLine) returns (m: WordLine)
    requires ValidLine(l) && ValidPiece(p, LineText(l) == "") && (l.lead != "" || l.words == [])
    ensures ValidLine(m) && LineText(m) == PieceText(p) + LineText(l)
  {
    hide PieceText, AllSpace;
    var w: Word := [p];
    m := WordLine("", [w] + l.words, [l.lead] + l.gaps);
    NoSpace();
    assert w[1..] == [] && WordText(w) == PieceText(p) + WordText([]) == PieceText(p);
    assert m.words[1..] == l.words && m.gaps[1..] == l.gaps;
    assert LineText(m) == "" + (PieceText(p) + l.lead + WordsText(l.words, l.gaps));
    assert PieceText(p) + l.lead + WordsText(l.words, l.gaps) == PieceText(p) + (l.lead + WordsText(l.words, l.gaps));
    assert forall i | 0 < i < |m.words| :: m.words[i] == l.words[i - 1] && m.gaps[i] == l.gaps[i - 1];
  }

  /** Every text is a line, and splits into the values of its words. */
  lemma {:induction false} EveryTextIsALine(text: string) returns (l: WordLine)
    ensures ValidLine(l) && LineText(l) == text && Tokens.Tokens(text) == Values(l.words)
    decreases |text|
  {
    hide Scan, Tokens.Tokens, WordsText, ValidPiece, PieceText, ValidWord, AllSpace, QuotedText, EndOf;
    if text == "" {
      l := EmptyLine();
    } else {
      var c, rest := text[0], text[1..];
      assert text == [c] + rest;
      if c == '"' {
        var p, tail := ParseQuote(rest);
        QuoteText(p);
        assert "\"" + (QuotedText(p.chars) + EndOf(p) + tail) == PieceText(p) + tail;
        var m := EveryTextIsALine(tail);
        l := PrependPiece(p, m);
      } else {
        var m := EveryTextIsALine(rest);
        if IsSpace(c) {
          l := PrependSpace(c, m);
        } else {
          PlainPiece(c);
          l := PrependPiece(Plain(c), m);
        }
      }
    }
    LineSplits(l);
  }

  lemma EmptyLine() returns (l: WordLine)
    ensures ValidLine(l) && LineText(l) == ""
  {
    l := WordLine("", [], []);
  }

  lemma PlainPiece(c: char)
    requires c != '"' && !IsSpace(c)
    ensures ValidPiece(Plain(c), true) && ValidPiece(Plain(c), false) && PieceText(Plain(c)) == [c]
  {
  }

  // ---- consequences ----

  /** A word in the form in which the client quotes it. */
  function QuotedWord(arg: string): (w: Word) {
    if NeedsQuotes(arg) then [Quote(CharsOf(arg))] else PlainWord(arg)
  }

  function CharsOf(arg: string): seq<QuotedChar> {
    if arg == "" then []
    else [if NeedsEscape(arg[0]) then Backslashed(arg[0]) else Raw(arg[0])] + CharsOf(arg[1..])
  }

  function PlainWord(arg: string): (w: Word)
    ensures |w| == |arg|
  {
    seq(|arg|, i requires 0 <= i < |arg| => Plain(arg[i]))
  }

  lemma {:induction false} CharsAre(arg: string)
    ensures ValidChars(CharsOf(arg)) && QuotedText(CharsOf(arg)) == Escaped(arg) && QuotedValue(CharsOf(arg)) == arg
  {
    if arg != "" {
      CharsAre(arg[1..]);
      assert arg == [arg[0]] + arg[1..];
    }
  }

  lemma {:induction false} PlainWordIs(arg: string)
    ensures WordText(PlainWord(arg)) == arg && WordValue(PlainWord(arg)) == arg
  {
    if arg != "" {
      assert PlainWord(arg)[1..] == PlainWord(arg[1..]);
      PlainWordIs(arg[1..]);
      assert arg == [arg[0]] + arg[1..];
    }
  }

  lemma QuotedWordIs(arg: string)
    ensures WordText(QuotedWord(arg)) == Quoted(arg) && WordValue(QuotedWord(arg)) == arg
    ensures ValidWord(QuotedWord(arg), false)
  {
    CharsAre(arg);
    PlainWordIs(arg);
    if NeedsQuotes(arg) {
      SingleWord(Quote(CharsOf(arg)));
    }
  }

  lemma SingleWord(p: Piece)
    ensures WordText([p]) == PieceText(p) && WordValue([p]) == PieceValue(p)
  {
    var w: Word := [p];
    assert w[1..] == [] && WordText([]) == "" && WordValue([]) == "";
    assert PieceText(p) + "" == PieceText(p) && PieceValue(p) + "" == PieceValue(p);
  }

  /** Quoted words, each followed by white space. */
  function Spaced(args: seq<string>, gaps: seq<string>): string
    requires |args| == |gaps|
  {
    if args == [] then "" else Quoted(args[0]) + gaps[0] + Spaced(args[1..], gaps[1..])
  }

  ghost predicate AreGaps(gaps: seq<string>) {
    forall i | 0 <= i < |gaps| :: AllSpace(gaps[i]) && (i < |gaps| - 1 ==> gaps[i] != "")
  }

  lemma {:induction false} SpacedSplits(args: seq<string>, gaps: seq<string>)
    requires |args| == |gaps| && AreGaps(gaps)
    ensures Tokens.Tokens(Spaced(args, gaps)) == args
  {
    hide Scan, Quoted, AllSpace, QuotedWord, WordText, WordValue, ValidWord, ValidPiece;
    if args == [] {
      ScanNothing("");
    } else {
      var w, rest := QuotedWord(args[0]), Spaced(args[1..], gaps[1..]);
      QuotedWordIs(args[0]);
      assert "" + args[0] == args[0];
      assert Spaced(args, gaps) == WordText(w) + (gaps[0] + rest);
      NeverOpen(w);
      ScanWord(w, gaps[0] + rest, false, "");
      SpacedSplits(args[1..], gaps[1..]);
      assert args == [args[0]] + args[1..];
      if gaps[0] == "" {
        assert args[1..] == [] && gaps[0] + rest == "";
        ScanNothing(args[0]);
      } else {
        ScanGap(gaps[0], rest, args[0]);
      }
    }
  }

  lemma NeverOpen(w: Word)
    requires ValidWord(w, false)
    ensures w != [] && forall i | 0 <= i < |w| :: ValidPiece(w[i], false)
  {
  }

  /** However much white space of whatever kind stands before, between and after quoted words, the
      line splits into exactly those words. */
  lemma AnySpacingSplits(lead: string, args: seq<string>, gaps: seq<string>)
    requires |args| == |gaps| && AllSpace(lead) && AreGaps(gaps)
    ensures Tokens.Tokens(lead + Spaced(args, gaps)) == args
  {
    hide Scan, AllSpace;
    ScanSpaces(lead, Spaced(args, gaps));
    SpacedSplits(args, gaps);
  }

  lemma WhiteSpaceHasNoWords(text: string)
    requires AllSpace(text)
    ensures Tokens.Tokens(text) == []
  {
    assert text + "" == text;
    ScanSpaces(text, "");
  }

  /** Quotes inside a word do not end it. */
  lemma QuotesInsideAWord(x: string, y: string, z: string)
    requires forall i | 0 <= i < |x| :: x[i] != '"' && !IsSpace(x[i])
    requires forall i | 0 <= i < |y| :: !NeedsEscape(y[i])
    requires forall i | 0 <= i < |z| :: z[i] != '"' && !IsSpace(z[i])
    ensures Tokens.Tokens(x + "\"" + y + "\"" + z) == [x + y + z]
  {
    hide Scan, IsSpace, NeedsEscape;
    var q := Quote(seq(|y|, i requires 0 <= i < |y| => Raw(y[i])));
    var tail := PieceText(q) + z;
    RawChars(y);
    assert x + "\"" + y + "\"" + z == x + tail;
    PlainScan(x, tail, false, "");
    assert "" + x == x;
    ScanPiece(q, z, x != "", x);
    assert z + "" == z;
    PlainScan(z, "", true, x + y);
    ScanNothing(x + y + z);
  }

  lemma PlainScan(x: string, rest: string, inToken: bool, current: string)
    requires forall i | 0 <= i < |x| :: x[i] != '"' && !IsSpace(x[i])
    ensures Scan(x + rest, inToken, false, current) == Scan(rest, inToken || x != "", false, current + x)
  {
    PlainWordIs(x);
    hide Scan, WordText, WordValue;
    ScanWord(PlainWord(x), rest, inToken, current);
  }

  lemma {:induction false} RawChars(y: string)
    requires forall i | 0 <= i < |y| :: !NeedsEscape(y[i])
    ensures var chars := seq(|y|, i requires 0 <= i < |y| => Raw(y[i]));
            ValidChars(chars) && QuotedText(chars) == y && QuotedValue(chars) == y
  {
    var chars := seq(|y|, i requires 0 <= i < |y| => Raw(y[i]));
    if y != "" {
      RawChars(y[1..]);
      assert chars[1..] == seq(|y| - 1, i requires 0 <= i < |y| - 1 => Raw(y[1..][i]));
      assert y == [y[0]] + y[1..];
    }
  }

  /** White space is what the "C" locale takes for it. */
  lemma WhiteSpaceIs(c: char)
    ensures IsSpace(c) <==> c as int in {0x20, 0x09, 0x0A, 0x0B, 0x0C, 0x0D}
  {
  }

  /** A command line with any white space around it, and any after its command word that starts with
      a space or a tab, splits into the word and the rest. Other white space does not end the word. */
  lemma AnyLineSplits(before: string, verb: string, gap: string, args: string, after: string)
    requires AllSpace(before) && AllSpace(gap) && AllSpace(after)
    requires verb != "" && IsTrimmed(verb) && (forall i | 0 <= i < |verb| :: verb[i] != ' ' && verb[i] != '\t')
    requires IsTrimmed(args)
    requires if args == "" then gap == "" else gap != "" && (gap[0] == ' ' || gap[0] == '\t')
    ensures SplitLine(before + (verb + gap + args) + after) == Tokens.Line(verb, args)
  {
    var t, rest := verb + gap + args, gap + args;
    assert t == verb + rest && (rest != "" ==> rest[0] == gap[0]);
    TrimmedPadded(before, t, after);
    VerbLengthOf(verb, rest);
    assert t[..|verb|] == verb && t[|verb|..] == rest;
    NoSpace();
    assert gap + args + "" == rest;
    TrimmedPadded(gap, args, "");
  }

  /** Quoting leaves a word as it is exactly when it needs no quotes: it is not empty and has neither
      white space nor a quote or backslash. */
  lemma QuotedExactly(arg: string)
    ensures Quoted(arg) == arg <==>
            arg != "" && forall i | 0 <= i < |arg| :: arg[i] != '"' && arg[i] != '\\' && !IsSpace(arg[i])
  {
    EscapedIsLonger(arg);
  }

  lemma {:induction false} EscapedIsLonger(arg: string)
    ensures |Escaped(arg)| >= |arg|
  {
    if arg != "" {
      EscapedIsLonger(arg[1..]);
    }
  }
}
