/** Command lines: splitting them into words, quoting words into them, trimming. A byte is a
    character; the white space is that of the "C" locale. */
module Tokens {
  predicate IsSpace(c: char) {
    c == ' ' || ('\t' <= c <= '\r')
  }

  // ---- what the splitter computes ----

  /** The words of the rest of a text, given what has been read of the current word. */
  function Scan(text: string, inToken: bool, quoted: bool, current: string): seq<string>
    decreases |text|
  {
    if text == "" then (if inToken then [current] else [])
    else
      var c, rest := text[0], text[1..];
      if quoted then
        if c == '\\' && rest != "" then Scan(rest[1..], inToken, true, current + [rest[0]])
        else if c == '"' then Scan(rest, inToken, false, current)
        else Scan(rest, inToken, true, current + [c])
      else if c == '"' then Scan(rest, true, true, current)
      else if IsSpace(c) then (if inToken then [current] else []) + Scan(rest, false, false, "")
      else Scan(rest, true, false, current + [c])
  }

  function Tokens(text: string): seq<string> {
    Scan(text, false, false, "")
  }

  /** Splits on white space, honouring double quotes and backslash escapes inside them. */
  method Tokenize(text: string) returns (tokens: seq<string>)
    ensures tokens == Tokens(text)
  {
    tokens := [];
    var current, inToken, quoted := "", false, false;
    var i := 0;
    while i < |text|
      invariant 0 <= i <= |text|
      invariant Tokens(text) == tokens + Scan(text[i..], inToken, quoted, current)
    {
      var c := text[i];
      if quoted {
        if c == '\\' && i + 1 < |text| {
          i := i + 1;
          current := current + [text[i]];
        } else if c == '"' {
          quoted := false;
        } else {
          current := current + [c];
        }
      } else if c == '"' {
        quoted := true;
        inToken := true;
      } else if IsSpace(c) {
        if inToken {
          tokens := tokens + [current];
        }
        current := "";
        inToken := false;
      } else {
        current := current + [c];
        inToken := true;
      }
      i := i + 1;
    }
    if inToken {
      tokens := tokens + [current];
    }
  }

  // ---- quoting ----

  predicate NeedsEscape(c: char) {
    c == '"' || c == '\\'
  }

  predicate NeedsQuotes(arg: string) {
    arg == "" || exists i :: 0 <= i < |arg| && (NeedsEscape(arg[i]) || IsSpace(arg[i]))
  }

  function Escaped(arg: string): string {
    if arg == "" then "" else (if NeedsEscape(arg[0]) then "\\" else "") + [arg[0]] + Escaped(arg[1..])
  }

  function Quoted(arg: string): string {
    if NeedsQuotes(arg) then "\"" + Escaped(arg) + "\"" else arg
  }

  lemma {:induction false} EscapedAppend(arg: string, c: char)
    ensures Escaped(arg + [c]) == Escaped(arg) + (if NeedsEscape(c) then "\\" else "") + [c]
  {
    if arg == "" {
      assert arg + [c] == [c];
      assert Escaped([c][1..]) == "";
    } else {
      EscapedAppend(arg[1..], c);
      assert (arg + [c])[1..] == arg[1..] + [c];
    }
  }

  /** A word as it must be typed to be read back as that word. */
  method QuoteArg(arg: string) returns (out: string)
    ensures out == Quoted(arg)
  {
    if !NeedsQuotes(arg) {
      return arg;
    }
    out := "\"";
    for i := 0 to |arg|
      invariant out == "\"" + Escaped(arg[..i])
    {
      EscapedAppend(arg[..i], arg[i]);
      assert arg[..i + 1] == arg[..i] + [arg[i]];
      if NeedsEscape(arg[i]) {
        out := out + "\\";
      }
      out := out + [arg[i]];
    }
    assert arg[..|arg|] == arg;
    out := out + "\"";
  }

  /** Inside quotes, an escaped word and its closing quote read as the word. */
  lemma {:induction false} ScanEscaped(arg: string, rest: string, current: string)
    ensures Scan(Escaped(arg) + "\"" + rest, true, true, current) == Scan(rest, true, false, current + arg)
    decreases arg
  {
    if arg == "" {
      assert Escaped(arg) + "\"" + rest == "\"" + rest;
      assert ("\"" + rest)[1..] == rest;
      assert current + arg == current;
    } else {
      var tail := Escaped(arg[1..]) + "\"" + rest;
      ScanEscaped(arg[1..], rest, current + [arg[0]]);
      assert current + [arg[0]] + arg[1..] == current + arg;
      var text := Escaped(arg) + "\"" + rest;
      if NeedsEscape(arg[0]) {
        assert text == "\\" + [arg[0]] + tail;
        assert text[1..][1..] == tail && text[1..][0] == arg[0];
      } else {
        assert text == [arg[0]] + tail;
        assert text[1..] == tail;
      }
    }
  }

  /** Outside quotes, a word without special characters reads as itself. */
  lemma {:induction false} ScanPlain(arg: string, rest: string, inToken: bool, current: string)
    requires forall i | 0 <= i < |arg| :: !NeedsEscape(arg[i]) && !IsSpace(arg[i])
    ensures Scan(arg + rest, inToken, false, current) == Scan(rest, inToken || arg != "", false, current + arg)
    decreases arg
  {
    if arg == "" {
      assert arg + rest == rest && current + arg == current;
    } else {
      ScanPlain(arg[1..], rest, true, current + [arg[0]]);
      assert (arg + rest)[1..] == arg[1..] + rest;
      assert current + [arg[0]] + arg[1..] == current + arg;
    }
  }

  lemma ScanQuoted(arg: string, rest: string)
    ensures Scan(Quoted(arg) + rest, false, false, "") == Scan(rest, true, false, arg)
  {
    if NeedsQuotes(arg) {
      ScanEscaped(arg, rest, "");
      var text := Quoted(arg) + rest;
      assert text[1..] == Escaped(arg) + "\"" + rest;
      assert "" + arg == arg;
    } else {
      ScanPlain(arg, rest, false, "");
      assert "" + arg == arg;
    }
  }

  /** Words quoted and put on one line with single spaces between them. */
  function Joined(args: seq<string>): string {
    if args == [] then ""
    else if |args| == 1 then Quoted(args[0])
    else Quoted(args[0]) + " " + Joined(args[1..])
  }

  lemma {:induction false} JoinedAppend(args: seq<string>, arg: string)
    ensures Joined(args + [arg]) == if args == [] then Quoted(arg) else Joined(args) + " " + Quoted(arg)
  {
    if |args| <= 1 {
      assert args == [] ==> args + [arg] == [arg];
      assert |args| == 1 ==> (args + [arg])[1..] == [arg];
    } else {
      JoinedAppend(args[1..], arg);
      assert (args + [arg])[1..] == args[1..] + [arg];
    }
  }

  /** The splitter returns exactly the words that were quoted and joined, whatever they are. */
  lemma {:induction false} TokensOfJoined(args: seq<string>)
    ensures Tokens(Joined(args)) == args
  {
    hide Quoted;
    if args != [] {
      var rest := if |args| == 1 then "" else " " + Joined(args[1..]);
      assert Joined(args) == Quoted(args[0]) + rest;
      ScanQuoted(args[0], rest);
      if |args| == 1 {
        assert args == [args[0]];
      } else {
        TokensOfJoined(args[1..]);
        assert rest[1..] == Joined(args[1..]);
        assert args == [args[0]] + args[1..];
      }
    }
  }

  // ---- trimming ----

  predicate AllSpace(s: string) {
    forall i | 0 <= i < |s| :: IsSpace(s[i])
  }

  function TrimmedFront(s: string): (t: string)
    ensures |t| <= |s|
  {
    if s != "" && IsSpace(s[0]) then TrimmedFront(s[1..]) else s
  }

  function TrimmedBack(s: string): (t: string)
    ensures |t| <= |s|
  {
    if s != "" && IsSpace(s[|s| - 1]) then TrimmedBack(s[..|s| - 1]) else s
  }

  function Trimmed(s: string): string {
    TrimmedBack(TrimmedFront(s))
  }

  method Trim(s: string) returns (t: string)
    ensures t == Trimmed(s)
  {
    t := s;
    while t != "" && IsSpace(t[0])
      invariant TrimmedFront(s) == TrimmedFront(t)
      decreases |t|
    {
      t := t[1..];
    }
    while t != "" && IsSpace(t[|t| - 1])
      invariant Trimmed(s) == TrimmedBack(t)
      decreases |t|
    {
      t := t[..|t| - 1];
    }
  }

  predicate IsTrimmed(s: string) {
    s != "" ==> !IsSpace(s[0]) && !IsSpace(s[|s| - 1])
  }

  lemma SpaceAtEnds(a: string)
    requires AllSpace(a) && a != ""
    ensures IsSpace(a[0]) && AllSpace(a[1..]) && IsSpace(a[|a| - 1]) && AllSpace(a[..|a| - 1])
  {
  }

  lemma AllSpaceAppend(a: string, b: string)
    requires AllSpace(a) && AllSpace(b)
    ensures AllSpace(a + b)
  {
  }

  lemma {:induction false} FrontOfPadded(a: string, t: string)
    requires AllSpace(a)
    ensures TrimmedFront(a + t) == TrimmedFront(t)
  {
    hide AllSpace, IsSpace;
    if a == "" {
      assert a + t == t;
    } else {
      SpaceAtEnds(a);
      FrontOfPadded(a[1..], t);
      assert (a + t)[0] == a[0];
      assert (a + t)[1..] == a[1..] + t;
    }
  }

  lemma {:induction false} BackOfPadded(t: string, b: string)
    requires AllSpace(b)
    ensures TrimmedBack(t + b) == TrimmedBack(t)
    decreases |b|
  {
    hide AllSpace, IsSpace;
    if b == "" {
      assert t + b == t;
    } else {
      var c, s := b[..|b| - 1], t + b;
      SpaceAtEnds(b);
      BackOfPadded(t, c);
      assert s[|s| - 1] == b[|b| - 1];
      assert s[..|s| - 1] == t + c;
    }
  }

  /** What trimming takes off the front is white space, and it goes as far as it can. */
  lemma {:induction false} FrontIsSpace(s: string)
    ensures var t := TrimmedFront(s);
            s == s[..|s| - |t|] + t && AllSpace(s[..|s| - |t|]) && (t != "" ==> !IsSpace(t[0]))
  {
    hide AllSpace, IsSpace;
    if s != "" && IsSpace(s[0]) {
      var t := TrimmedFront(s[1..]);
      var a := s[1..][..|s| - 1 - |t|];
      FrontIsSpace(s[1..]);
      assert s == [s[0]] + s[1..] == [s[0]] + a + t;
      assert s[..|s| - |t|] == [s[0]] + a;
      SingleSpace(s[0]);
      AllSpaceAppend([s[0]], a);
    } else {
      assert s[..0] == "" && "" + s == s;
      NoSpace();
    }
  }

  lemma {:induction false} BackIsSpace(s: string)
    ensures var t := TrimmedBack(s);
            s == t + s[|t|..] && AllSpace(s[|t|..]) && (t != "" ==> !IsSpace(t[|t| - 1]))
  {
    hide AllSpace, IsSpace;
    if s != "" && IsSpace(s[|s| - 1]) {
      var front, c := s[..|s| - 1], s[|s| - 1];
      var t := TrimmedBack(front);
      var b := front[|t|..];
      BackIsSpace(front);
      assert s == front + [c] == t + b + [c] == t + (b + [c]);
      assert s[|t|..] == b + [c];
      SingleSpace(c);
      AllSpaceAppend(b, [c]);
    } else {
      assert s[|s|..] == "" && s + "" == s;
      NoSpace();
    }
  }

  lemma SingleSpace(c: char)
    requires IsSpace(c)
    ensures AllSpace([c])
  {
  }

  lemma NoSpace()
    ensures AllSpace("")
  {
  }

  lemma TrimmedAlready(s: string)
    requires IsTrimmed(s)
    ensures TrimmedFront(s) == s && TrimmedBack(s) == s
  {
    hide IsSpace;
  }

  /** Trimming is what removes the white space around a text, and nothing more. */
  lemma TrimmedPadded(a: string, t: string, b: string)
    requires AllSpace(a) && AllSpace(b) && IsTrimmed(t)
    ensures Trimmed(a + t + b) == t
  {
    hide AllSpace, IsSpace, TrimmedFront, TrimmedBack;
    TrimmedAlready(t);
    if t == "" {
      assert a + t + b == (a + b) + t;
      AllSpaceAppend(a, b);
      FrontOfPadded(a + b, t);
    } else {
      assert a + t + b == a + (t + b);
      FrontOfPadded(a, t + b);
      FrontStaysPut(t, b);
      BackOfPadded(t, b);
    }
  }

  lemma FrontStaysPut(t: string, b: string)
    requires IsTrimmed(t) && t != ""
    ensures TrimmedFront(t + b) == t + b
  {
    hide IsSpace;
    assert (t + b)[0] == t[0];
  }

  /** What is left is trimmed, and what went was white space before and after it. */
  lemma TrimmedIsTrimmed(s: string)
    ensures var f, t := TrimmedFront(s), Trimmed(s);
            IsTrimmed(t) && |t| <= |f| <= |s| && AllSpace(s[..|s| - |f|]) && AllSpace(f[|t|..])
            && s == s[..|s| - |f|] + t + f[|t|..]
  {
    hide AllSpace, IsSpace, TrimmedFront, TrimmedBack;
    var f, t := TrimmedFront(s), Trimmed(s);
    FrontIsSpace(s);
    BackIsSpace(f);
    var a, b := s[..|s| - |f|], f[|t|..];
    assert s == a + f == a + (t + b);
    assert a + (t + b) == a + t + b;
    assert t != "" ==> f[0] == t[0];
  }

  // ---- command lines ----

  predicate IsBlank(c: char) {
    c == ' ' || c == '\t'
  }

  /** The length of the longest prefix without blanks. */
  function VerbLength(s: string): (n: nat)
    ensures n <= |s| && (forall i | 0 <= i < n :: !IsBlank(s[i])) && (n < |s| ==> IsBlank(s[n]))
  {
    if s == "" || IsBlank(s[0]) then 0 else 1 + VerbLength(s[1..])
  }

  datatype Line = Line(verb: string, args: string)

  /** A command line as its first word and the trimmed rest. */
  function SplitLine(line: string): Line {
    var t := Trimmed(line);
    var n := VerbLength(t);
    Line(t[..n], Trimmed(t[n..]))
  }

  /** One argument: verbatim when not quoted, else the first word. */
  function SingleArg(args: string): string {
    var t := Trimmed(args);
    if t != "" && t[0] == '"' then
      var words := Tokens(t);
      if words == [] then "" else words[0]
    else t
  }

  lemma QuotedIsTrimmed(arg: string)
    ensures Quoted(arg) != "" && IsTrimmed(Quoted(arg))
  {
  }

  lemma {:induction false} JoinedIsTrimmed(args: seq<string>)
    ensures IsTrimmed(Joined(args)) && (args != [] ==> Joined(args) != "")
  {
    if args != [] {
      QuotedIsTrimmed(args[0]);
      if |args| > 1 {
        JoinedIsTrimmed(args[1..]);
      }
    }
  }

  lemma TrimmedOfTrimmed(t: string)
    requires IsTrimmed(t)
    ensures Trimmed(t) == t
  {
    TrimmedPadded("", t, "");
    assert "" + t + "" == t;
  }

  lemma {:induction false} VerbLengthOf(v: string, rest: string)
    requires forall i | 0 <= i < |v| :: !IsBlank(v[i])
    requires rest == "" || IsBlank(rest[0])
    ensures VerbLength(v + rest) == |v|
  {
    if v == "" {
      assert v + rest == rest;
    } else {
      VerbLengthOf(v[1..], rest);
      assert (v + rest)[1..] == v[1..] + rest;
    }
  }

  /** A trimmed line splits at its first blank. */
  lemma SplitsAfterVerb(verb: string, args: string)
    requires verb != "" && (forall i | 0 <= i < |verb| :: !IsSpace(verb[i]))
    requires IsTrimmed(args)
    ensures SplitLine(verb + if args == "" then "" else " " + args) == Line(verb, args)
  {
    var rest := if args == "" then "" else " " + args;
    var line := verb + rest;
    assert IsTrimmed(line);
    TrimmedOfTrimmed(line);
    VerbLengthOf(verb, rest);
    assert line[..|verb|] == verb && line[|verb|..] == rest;
    if args == "" {
      TrimmedOfTrimmed("");
    } else {
      assert " " + args + "" == rest;
      TrimmedPadded(" ", args, "");
    }
  }

  lemma JoinedFirst(verb: string, args: seq<string>)
    requires !NeedsQuotes(verb)
    ensures Joined([verb] + args) == verb + if Joined(args) == "" then "" else " " + Joined(args)
  {
    JoinedIsTrimmed(args);
    assert ([verb] + args)[1..] == args;
    if args == [] {
      assert verb + "" == verb;
    }
  }

  /** A line put together from a plain command word and any arguments splits into that word and
      a rest that reads as exactly those arguments. */
  lemma JoinedLineSplits(verb: string, args: seq<string>)
    requires !NeedsQuotes(verb)
    ensures SplitLine(Joined([verb] + args)) == Line(verb, Joined(args))
    ensures Tokens(SplitLine(Joined([verb] + args)).args) == args
  {
    JoinedFirst(verb, args);
    JoinedIsTrimmed(args);
    SplitsAfterVerb(verb, Joined(args));
    TokensOfJoined(args);
  }

  lemma TokensOfQuoted(arg: string)
    ensures Tokens(Quoted(arg)) == [arg]
  {
    var args := [arg];
    TokensOfJoined(args);
    assert |args| == 1 && Joined(args) == Quoted(args[0]);
  }

  /** A single argument arrives as it was given, whatever characters it has. */
  lemma SingleArgOfQuoted(arg: string)
    ensures SingleArg(Quoted(arg)) == arg
  {
    hide Scan, Tokens, Escaped, TrimmedFront, TrimmedBack, Trimmed, IsTrimmed;
    var q := Quoted(arg);
    QuotedIsTrimmed(arg);
    TrimmedOfTrimmed(q);
    if NeedsQuotes(arg) {
      assert q[0] == '"';
      TokensOfQuoted(arg);
    } else {
      assert q == arg && !NeedsEscape(arg[0]);
    }
  }

  /** Typed without a leading quote, the whole text is the argument, spaces and all. */
  lemma SingleArgVerbatim(a: string, t: string, b: string)
    requires AllSpace(a) && AllSpace(b) && IsTrimmed(t) && (t == "" || t[0] != '"')
    ensures SingleArg(a + t + b) == t
  {
    TrimmedPadded(a, t, b);
  }
}
