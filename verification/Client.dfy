/** One exchange of the control protocol: the command-line client, the server's answer, and both
    together over sockets that cut the bytes arbitrarily. */
module Client {
  import opened SocketIo
  import Json
  import Tokens

  const RAW := "--json"

  // ---- the request ----

  /** The arguments without the client's own option. */
  function Words(args: seq<string>): seq<string> {
    if args == [] then [] else (if args[0] == RAW then [] else [args[0]]) + Words(args[1..])
  }

  lemma {:induction false} WordsAppend(args: seq<string>, arg: string)
    ensures Words(args + [arg]) == Words(args) + if arg == RAW then [] else [arg]
  {
    if args == [] {
      assert args + [arg] == [arg] && [arg][1..] == [];
    } else {
      WordsAppend(args[1..], arg);
      assert (args + [arg])[1..] == args[1..] + [arg];
    }
  }

  /** Every --json goes, wherever it stands, and nothing else does. */
  lemma {:induction false} WordsAround(a: seq<string>, b: seq<string>)
    ensures Words(a + [RAW] + b) == Words(a) + Words(b)
    ensures RAW !in a ==> Words(a) == a
  {
    if a == [] {
      assert a + [RAW] + b == [RAW] + b && ([RAW] + b)[1..] == b;
      assert [] + Words(b) == Words(b);
    } else {
      WordsAround(a[1..], b);
      assert (a + [RAW] + b)[1..] == a[1..] + [RAW] + b;
      assert a == [a[0]] + a[1..];
    }
  }

  function Request(args: seq<string>): string {
    Tokens.Joined(Words(args))
  }

  method JoinRequest(args: seq<string>) returns (request: string, rawJson: bool)
    ensures request == Request(args)
    ensures rawJson <==> RAW in args
  {
    request, rawJson := "", false;
    for i := 0 to |args|
      invariant request == Request(args[..i])
      invariant rawJson <==> RAW in args[..i]
    {
      ghost var words := Words(args[..i]);
      WordsAppend(args[..i], args[i]);
      assert args[..i + 1] == args[..i] + [args[i]];
      if args[i] == RAW {
        rawJson := true;
        assert words + [] == words;
        continue;
      }
      Tokens.JoinedAppend(words, args[i]);
      Tokens.JoinedIsTrimmed(words);
      if request != "" {
        request := request + " ";
      }
      var word := Tokens.QuoteArg(args[i]);
      request := request + word;
    }
    assert args[..|args|] == args;
  }

  predicate OneLine(words: seq<string>) {
    forall i | 0 <= i < |words| :: '\n' !in words[i]
  }

  lemma {:induction false} EscapedNewline(word: string)
    ensures '\n' in Tokens.Escaped(word) <==> '\n' in word
  {
    if word != "" {
      EscapedNewline(word[1..]);
      assert word == [word[0]] + word[1..];
    }
  }

  /** The joined request has a raw newline exactly when one of its words has. */
  lemma {:induction false} NewlineInJoined(words: seq<string>)
    ensures '\n' in Tokens.Joined(words) <==> !OneLine(words)
  {
    if words != [] {
      EscapedNewline(words[0]);
      assert '\n' in Tokens.Quoted(words[0]) <==> '\n' in words[0];
      if |words| > 1 {
        NewlineInJoined(words[1..]);
        assert OneLine(words) <==> '\n' !in words[0] && OneLine(words[1..]) by {
          assert forall i | 0 < i < |words| :: words[i] == words[1..][i - 1];
        }
      }
    }
  }

  // ---- the server ----

  datatype Handled = Result(result: Json.CommandResult) | Throws(what: string)

  const REQUEST_TOO_LONG := "Request too long"

  function ErrorResponse(message: string): string {
    "{\"ok\":false,\"message\":" + Json.Quoted(message) + "}\n"
  }

  lemma ErrorResponseIsJson(message: string)
    ensures ErrorResponse(message) == Json.ToJson(Json.CommandResult(false, message, "")) + "\n"
  {
  }

  /** What the server answers to the bytes of one connection. */
  function ReplyTo(bytes: string, ending: Ending, sameUser: bool, handler: string -> Handled): string {
    if !sameUser then ""
    else
      match StatusOf(bytes, ending)
      case Error => ""
      case TooLong => ErrorResponse(REQUEST_TOO_LONG)
      case Line =>
        match handler(FirstLine(bytes))
        case Result(r) => Json.ToJson(r) + "\n"
        case Throws(what) => ErrorResponse("Internal error: " + what)
  }

  datatype Command = NoCommand | Command(line: string)

  /** The line that is handed to the handler, if any. */
  function HandledLine(bytes: string, ending: Ending, sameUser: bool): Command {
    if sameUser && StatusOf(bytes, ending) == Line then Command(FirstLine(bytes)) else NoCommand
  }

  method Serve(client: Incoming, answer: Outgoing, sameUser: bool, handler: string -> Handled)
    returns (handled: Command)
    modifies client`events, answer
    ensures handled == HandledLine(old(Bytes(client.events)), client.ending, sameUser)
    ensures var reply := ReplyTo(old(Bytes(client.events)), client.ending, sameUser, handler);
            answer.wire == old(answer.wire) + reply[..Delivered(old(answer.efforts), |reply|)]
  {
    hide Delivered, FirstLine, ErrorResponse, Json.ToJson;
    assert answer.wire + "" == answer.wire;
    handled := NoCommand;
    if !sameUser {
      return;
    }
    var status, request := ReadLine(client);
    if status == Error {
      return;
    }
    if status == TooLong {
      var _ := SendAll(answer, ErrorResponse(REQUEST_TOO_LONG));
      return;
    }
    handled := Command(request);
    var response: string;
    match handler(request) {
      case Result(r) => response := Json.ToJson(r) + "\n";
      case Throws(what) => response := ErrorResponse("Internal error: " + what);
    }
    var _ := SendAll(answer, response);
  }

  // ---- the client ----

  datatype Outcome = Usage | Unreachable | Aborted | Answered(ok: bool, text: string, toStdout: bool)

  function Interpret(line: string, rawJson: bool): Outcome {
    var ok := Json.LooksOk(line);
    if rawJson then Answered(ok, line, true)
    else
      match Json.Lookups(line, Json.MESSAGE)
      case Missing => Answered(ok, line, ok)
      case Found(message) => Answered(ok, message, ok)
      case Throws => Aborted
  }

  /** What the client makes of the bytes it receives. */
  function Shown(bytes: string, ending: Ending, rawJson: bool): Outcome {
    if StatusOf(bytes, ending) != Line || FirstLine(bytes) == "" then Unreachable
    else Interpret(FirstLine(bytes), rawJson)
  }

  /** The first half of the client: joining and sending the request. */
  method SendRequest(args: seq<string>, socket: Outgoing) returns (given: bool, sent: bool, rawJson: bool)
    modifies socket
    ensures given == (Words(args) != []) && rawJson == (RAW in args)
    ensures !given ==> !sent && socket.wire == old(socket.wire)
    ensures given ==>
      var data := Request(args) + "\n";
      var k := Delivered(old(socket.efforts), |data|);
      socket.wire == old(socket.wire) + data[..k] && sent == (k == |data|)
  {
    var request, raw := JoinRequest(args);
    Tokens.JoinedIsTrimmed(Words(args));
    given, sent, rawJson := request != "", false, raw;
    if given {
      sent := SendAll(socket, request + "\n");
    }
  }

  /** The second half: reading the response and reporting it. */
  method ReadAnswer(answer: Incoming, rawJson: bool) returns (outcome: Outcome)
    modifies answer`events
    ensures outcome == Shown(old(Bytes(answer.events)), answer.ending, rawJson)
  {
    var status, line := ReadLine(answer);
    if status != Line || line == "" {
      return Unreachable;
    }
    if rawJson {
      return Answered(Json.LooksOk(line), line, true);
    }
    var message := Json.FindString(line, Json.MESSAGE);
    match message {
      case Missing => outcome := Answered(Json.LooksOk(line), line, Json.LooksOk(line));
      case Found(m) => outcome := Answered(Json.LooksOk(line), m, Json.LooksOk(line));
      case Throws => outcome := Aborted;
    }
  }

  method RunClient(args: seq<string>, socket: Outgoing, answer: Incoming) returns (outcome: Outcome)
    modifies socket, answer`events
    ensures Words(args) == [] ==> outcome == Usage && socket.wire == old(socket.wire)
    ensures Words(args) != [] ==>
      var data := Request(args) + "\n";
      var k := Delivered(old(socket.efforts), |data|);
      socket.wire == old(socket.wire) + data[..k]
      && outcome == (if k < |data| then Unreachable
                     else Shown(old(Bytes(answer.events)), answer.ending, RAW in args))
  {
    var given, sent, rawJson := SendRequest(args, socket);
    if !given {
      return Usage;
    }
    if !sent {
      return Unreachable;
    }
    outcome := ReadAnswer(answer, rawJson);
  }

  // ---- both ends ----

  /** The command the server handles has exactly the words the client was given. */
  lemma WordsArrive(args: seq<string>, more: string, ending: Ending)
    requires OneLine(Words(args)) && |Request(args)| <= MAX_LINE
    ensures var bytes := Request(args) + "\n" + more;
            StatusOf(bytes, ending) == Line && Tokens.Tokens(FirstLine(bytes)) == Words(args)
  {
    NewlineInJoined(Words(args));
    ArrivesExactly(Request(args), more, ending);
    Tokens.TokensOfJoined(Words(args));
  }

  /** A command that takes one argument, such as the new root path, gets it unchanged. */
  lemma OneArgumentArrives(args: seq<string>, verb: string, arg: string, more: string, ending: Ending)
    requires Words(args) == [verb, arg] && !Tokens.NeedsQuotes(verb)
    requires '\n' !in arg && |Request(args)| <= MAX_LINE
    ensures var line := Tokens.SplitLine(FirstLine(Request(args) + "\n" + more));
            line.verb == verb && Tokens.SingleArg(line.args) == arg
  {
    assert OneLine([verb, arg]) by {
      assert forall i | 0 <= i < |verb| :: !Tokens.IsSpace(verb[i]);
    }
    NewlineInJoined(Words(args));
    ArrivesExactly(Request(args), more, ending);
    assert [verb, arg] == [verb] + [arg];
    Tokens.JoinedLineSplits(verb, [arg]);
    assert Tokens.Joined([arg]) == Tokens.Quoted(arg);
    Tokens.SingleArgOfQuoted(arg);
  }

  lemma LineOfResponse(front: string, back: string)
    requires '\n' !in front
    ensures FirstLine(front + back) == FirstLine(front + back + "\n") == front + FirstLine(back)
  {
    FirstLineAppend(front, back);
    FirstLineAppend(front + back, "\n");
    FirstLineIsPrefix(front + back);
    assert front + back + FirstLine("\n") == front + back;
  }

  lemma FrontIsShown(ok: bool, message: string, tail: string)
    ensures Interpret(Json.Head(ok) + Json.Quoted(message) + tail, false) == Answered(ok, message, ok)
  {
    Json.MessageIsRead(ok, message, tail);
    OkOfLine(ok, message, tail);
  }

  /** A result reaches the user as it is when its first line fits, and not at all otherwise. */
  lemma ResultIsShown(r: Json.CommandResult, ending: Ending)
    ensures Shown(Json.ToJson(r) + "\n", ending, false) ==
            if |FirstLine(Json.ToJson(r))| <= MAX_LINE then Answered(r.ok, r.message, r.ok) else Unreachable
  {
    var front, back := Json.Head(r.ok) + Json.Quoted(r.message), Json.Back(r);
    Json.FrontIsOneLine(r.ok, r.message);
    LineOfResponse(front, back);
    FrontIsShown(r.ok, r.message, FirstLine(back));
  }

  /** With --json the whole response is printed exactly when its data is one line and it fits. */
  lemma RawIsShown(r: Json.CommandResult, ending: Ending)
    ensures Shown(Json.ToJson(r) + "\n", ending, true) == Answered(r.ok, Json.ToJson(r), true)
            <==> '\n' !in r.data && |Json.ToJson(r)| <= MAX_LINE
  {
    var json, front, back := Json.ToJson(r), Json.Head(r.ok) + Json.Quoted(r.message), Json.Back(r);
    Json.NewlineOnlyFromData(r);
    Json.FrontIsOneLine(r.ok, r.message);
    LineOfResponse(front, back);
    FirstLineIsPrefix(json);
    OkOfLine(r.ok, r.message, FirstLine(back));
  }

  lemma OkOfLine(ok: bool, message: string, tail: string)
    ensures Json.LooksOk(Json.Head(ok) + Json.Quoted(message) + tail) == ok
  {
    var quoted := Json.Quoted(message);
    assert Json.Head(ok) + quoted + tail == Json.Head(ok) + (quoted + tail);
    Json.OkIsVisible(ok, quoted + tail);
  }

  lemma ShortErrorIsShown(message: string, ending: Ending)
    requires |message| <= 600
    ensures Shown(ErrorResponse(message), ending, false) == Answered(false, message, false)
  {
    var r := Json.CommandResult(false, message, "");
    ErrorResponseIsJson(message);
    Json.EscapedLength(message);
    FirstLineIsPrefix(Json.ToJson(r));
    ResultIsShown(r, ending);
  }

  lemma TooLongIsRejected(request: string, handler: string -> Handled, more: string, ending: Ending)
    requires '\n' !in request && |request| > MAX_LINE
    ensures ReplyTo(request + "\n" + more, ending, true, handler) == ErrorResponse(REQUEST_TOO_LONG)
    ensures HandledLine(request + "\n" + more, ending, true) == NoCommand
  {
    FirstLineAppend(request, "\n" + more);
    assert request + "\n" + more == request + ("\n" + more);
  }

  /** A peer of another user is not handled and is sent nothing; neither is one whose connection
      breaks before its line is complete. */
  lemma StrangersAndBrokenLines(bytes: string, ending: Ending, sameUser: bool, handler: string -> Handled)
    ensures !sameUser || StatusOf(bytes, ending) == Error ==>
              HandledLine(bytes, ending, sameUser) == NoCommand && ReplyTo(bytes, ending, sameUser, handler) == ""
    ensures sameUser && StatusOf(bytes, ending) != Error ==> ReplyTo(bytes, ending, sameUser, handler) != ""
  {
    if sameUser {
      AnswersHaveText(bytes, handler);
    }
    hide ErrorResponse, FirstLine, Json.ToJson;
  }

  lemma ErrorsHaveText(message: string)
    ensures ErrorResponse(message) != ""
  {
    hide Json.Quoted;
    assert |ErrorResponse(message)| >= 2;
  }

  lemma AnswersHaveText(bytes: string, handler: string -> Handled)
    ensures ErrorResponse(REQUEST_TOO_LONG) != ""
    ensures match handler(FirstLine(bytes))
            case Result(r) => Json.ToJson(r) + "\n" != ""
            case Throws(what) => ErrorResponse("Internal error: " + what) != ""
  {
    hide ErrorResponse, FirstLine, Json.ToJson;
    var message := REQUEST_TOO_LONG;
    ErrorsHaveText(message);
    match handler(FirstLine(bytes))
    case Result(r) => assert |Json.ToJson(r) + "\n"| > 0;
    case Throws(what) => ErrorsHaveText("Internal error: " + what);
  }

  /** What goes wrong in the handler is reported like a failed result. */
  lemma ExceptionIsReported(request: string, what: string, handler: string -> Handled, ending: Ending, ending': Ending)
    requires StatusOf(request, ending) == Line && handler(FirstLine(request)) == Throws(what) && |what| <= 500
    ensures Shown(ReplyTo(request, ending, true, handler), ending', false)
         == Answered(false, "Internal error: " + what, false)
  {
    hide Shown, ErrorResponse;
    ShortErrorIsShown("Internal error: " + what, ending');
  }

  /** A response without a message is shown as it is. */
  lemma NoMessageShowsLine(line: string)
    requires forall j: nat :: !Json.OccursAt(line, Json.Needle(Json.MESSAGE), j)
    ensures Interpret(line, false) == Answered(Json.LooksOk(line), line, Json.LooksOk(line))
  {
    hide Json.Needle, Json.OccursAt;
  }

  // ---- the whole exchange, over both sockets ----

  /** How a network cuts bytes into pieces, and where it interrupts. */
  type Cut = string -> seq<Event>

  ghost predicate CutsFaithfully(cut: Cut) {
    forall bytes :: Bytes(cut(bytes)) == bytes
  }

  /** What a socket that takes these efforts lets through. */
  function Through(efforts: seq<Effort>, data: string): string {
    data[..Delivered(efforts, |data|)]
  }

  /** The client sends, whatever got through is cut into pieces and served, and whatever of the
      answer gets through is cut into pieces and read. */
  method Exchange(args: seq<string>, handler: string -> Handled, sameUser: bool,
        there: seq<Effort>, cutThere: Cut, endThere: Ending, back: seq<Effort>, cutBack: Cut, endBack: Ending)
    returns (handled: Command, outcome: Outcome)
    requires CutsFaithfully(cutThere) && CutsFaithfully(cutBack)
    ensures Words(args) == [] ==> handled == NoCommand && outcome == Usage
    ensures Words(args) != [] ==>
      var data := Request(args) + "\n";
      var arrived := Through(there, data);
      var reply := ReplyTo(arrived, endThere, sameUser, handler);
      handled == HandledLine(arrived, endThere, sameUser)
      && outcome == (if arrived == data then Shown(Through(back, reply), endBack, RAW in args) else Unreachable)
  {
    var toServer := new Outgoing(there);
    var toClient := new Outgoing(back);
    var given, sent, rawJson := SendRequest(args, toServer);
    if !given {
      return NoCommand, Usage;
    }
    assert toServer.wire == Through(there, Request(args) + "\n");
    var atServer := new Incoming(cutThere(toServer.wire), endThere);
    handled := Serve(atServer, toClient, sameUser, handler);
    if !sent {
      return handled, Unreachable;
    }
    ghost var reply := ReplyTo(toServer.wire, endThere, sameUser, handler);
    assert toClient.wire == Through(back, reply);
    var atClient := new Incoming(cutBack(toClient.wire), endBack);
    outcome := ReadAnswer(atClient, rawJson);
  }

  /** What the user sees of a response of which the first k bytes arrive: once they reach past its
      message, the message and ok as they are, if a whole line came and fits, and else nothing. */
  lemma PartOfResultIsShown(r: Json.CommandResult, k: nat, ending: Ending)
    requires |Json.Head(r.ok) + Json.Quoted(r.message)| <= k <= |Json.ToJson(r) + "\n"|
    ensures var part := (Json.ToJson(r) + "\n")[..k];
            Shown(part, ending, false) ==
            if |FirstLine(part)| <= MAX_LINE && ('\n' in part || ending == Eof)
            then Answered(r.ok, r.message, r.ok) else Unreachable
  {
    var front := Json.Head(r.ok) + Json.Quoted(r.message);
    var rest := (Json.Back(r) + "\n")[..k - |front|];
    assert Json.ToJson(r) + "\n" == front + (Json.Back(r) + "\n");
    assert (Json.ToJson(r) + "\n")[..k] == front + rest;
    Json.FrontIsOneLine(r.ok, r.message);
    FirstLineAppend(front, rest);
    FrontIsShown(r.ok, r.message, FirstLine(rest));
  }

  /** A whole exchange over sockets that may stop early: the handler gets exactly the words once
      the whole request got through, and the user its ok and message once the message did. */
  lemma Conversation(args: seq<string>, handler: string -> Handled, r: Json.CommandResult,
        there: seq<Effort>, endThere: Ending, back: seq<Effort>, endBack: Ending)
    requires Words(args) != [] && OneLine(Words(args)) && |Request(args)| <= MAX_LINE
    requires handler(Request(args)) == Result(r)
    requires Through(there, Request(args) + "\n") == Request(args) + "\n"
    ensures var arrived := Through(there, Request(args) + "\n");
            var reply := ReplyTo(arrived, endThere, true, handler);
            var part := Through(back, reply);
            HandledLine(arrived, endThere, true) == Command(Request(args))
            && Tokens.Tokens(Request(args)) == Words(args)
            && (|part| >= |Json.Head(r.ok) + Json.Quoted(r.message)| ==>
                  Shown(part, endBack, false) ==
                  if |FirstLine(part)| <= MAX_LINE && ('\n' in part || endBack == Eof)
                  then Answered(r.ok, r.message, r.ok) else Unreachable)
  {
    RequestArrives(args, endThere);
    Tokens.TokensOfJoined(Words(args));
    var reply := Json.ToJson(r) + "\n";
    var k := Delivered(back, |reply|);
    if k >= |Json.Head(r.ok) + Json.Quoted(r.message)| {
      PartOfResultIsShown(r, k, endBack);
    }
  }

  lemma RequestArrives(args: seq<string>, ending: Ending)
    requires OneLine(Words(args)) && |Request(args)| <= MAX_LINE
    ensures StatusOf(Request(args) + "\n", ending) == Line && FirstLine(Request(args) + "\n") == Request(args)
  {
    NewlineInJoined(Words(args));
    ArrivesExactly(Request(args), "", ending);
    assert Request(args) + "\n" + "" == Request(args) + "\n";
  }

  /** A request that does not fit is handled exactly when so little of it got through that it does,
      and the connection then closed in order. If all of it was sent and all of the answer came
      back, the user is told. */
  lemma TooLongIsReported(args: seq<string>, handler: string -> Handled,
        there: seq<Effort>, endThere: Ending, back: seq<Effort>, endBack: Ending)
    requires OneLine(Words(args)) && |Request(args)| > MAX_LINE
    ensures var data := Request(args) + "\n";
            var arrived := Through(there, data);
            var reply := ReplyTo(arrived, endThere, true, handler);
            (HandledLine(arrived, endThere, true) == NoCommand <==> |arrived| > MAX_LINE || endThere == Failure)
            && (arrived == data && Through(back, reply) == reply ==>
                  Shown(Through(back, reply), endBack, false) == Answered(false, REQUEST_TOO_LONG, false))
  {
    hide Shown, ReplyTo, HandledLine, ErrorResponse, StatusOf, Request, OneLine;
    TooLongIsOneLine(args);
    var request := Request(args);
    var arrived := Through(there, request + "\n");
    PrefixOfTooLong(request, |arrived|, endThere);
    if arrived == request + "\n" {
      TooLongIsRejected(request, handler, "", endThere);
      assert request + "\n" + "" == request + "\n";
      var message := REQUEST_TOO_LONG;
      ShortErrorIsShown(message, endBack);
    }
  }

  lemma TooLongIsOneLine(args: seq<string>)
    requires OneLine(Words(args))
    ensures '\n' !in Request(args)
  {
    NewlineInJoined(Words(args));
  }

  lemma PrefixOfTooLong(request: string, n: nat, ending: Ending)
    requires '\n' !in request && n <= |request| + 1 && |request| > MAX_LINE
    ensures HandledLine((request + "\n")[..n], ending, true) == NoCommand <==> n > MAX_LINE || ending == Failure
  {
    var k := if n <= |request| then n else |request|;
    var tail := (request + "\n")[k..n];
    assert (request + "\n")[..n] == request[..k] + tail;
    FirstLineAppend(request[..k], tail);
    assert n <= |request| ==> tail == "";
  }
}
