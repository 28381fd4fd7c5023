/**
 * The event stream between the chat route and the chat page: the server frames
 * an answer as events, the client parses whatever fragments the network hands
 * it, keeping the unfinished tail in a carry-over buffer.
 */
module Sse {
  import opened Text

  datatype Citation = Citation(documentId: string, chunkId: string, score: real, snippet: string,
                               title: string, index: int)

  datatype DoneInfo = DoneInfo(assistantMessageId: string, abstained: bool, groundingConfidence: real,
                               latencyMs: int, promptVersion: string, model: string)

  datatype Answer = Answer(content: string, citations: seq<Citation>, done: DoneInfo)

  /** The objects the server serialises. */
  datatype Payload = TokenData(text: string) | CitationData(citation: Citation) | DoneData(info: DoneInfo)

  /** A parsed object as the client sees it: only the fields it looks at, each possibly absent. */
  datatype Fields = Fields(text: Option<string>, title: Option<string>, snippet: Option<string>,
                           score: Option<real>, index: Option<int>)

  function FieldsOf(p: Payload): Fields {
    match p
    case TokenData(text) => Fields(Some(text), None, None, None, None)
    case CitationData(c) => Fields(None, Some(c.title), Some(c.snippet), Some(c.score), Some(c.index))
    case DoneData(_) => Fields(None, None, None, None, None)
  }

  /** The JSON library. `parse` yields `None` where it throws. */
  datatype Json = Json(stringify: Payload -> string, parse: string -> Option<Fields>) {
    /** The text of `p` is one line between braces, and parsing it gives the fields back. */
    predicate On(p: Payload) {
      var t := stringify(p);
      |t| >= 2 && t[0] == '{' && t[|t| - 1] == '}' && '\n' !in t && parse(t) == Some(FieldsOf(p))
    }
  }

  // -------------------------------------------------------------------- server

  const CHUNK_SIZE := 24
  const BLANK_LINE := "\n\n"

  function Body(json: Json, event: string, data: Payload): string {
    "event: " + event + "\n" + "data: " + json.stringify(data)
  }

  function Frame(json: Json, event: string, data: Payload): string {
    Body(json, event, data) + BLANK_LINE
  }

  /** What an answer looks like as a list of named events. */
  function TokenEvents(content: string): seq<(string, Payload)> {
    if content == "" then []
    else if |content| <= CHUNK_SIZE then [("token", TokenData(content))]
    else [("token", TokenData(content[..CHUNK_SIZE]))] + TokenEvents(content[CHUNK_SIZE..])
  }

  function CitationEvents(citations: seq<Citation>): seq<(string, Payload)> {
    if citations == [] then []
    else [("citation", CitationData(citations[0]))] + CitationEvents(citations[1..])
  }

  function Events(answer: Answer): seq<(string, Payload)> {
    TokenEvents(answer.content) + CitationEvents(answer.citations) + [("done", DoneData(answer.done))]
  }

  function Frames(json: Json, events: seq<(string, Payload)>): seq<string> {
    if events == [] then []
    else [Frame(json, events[0].0, events[0].1)] + Frames(json, events[1..])
  }

  /** The route handler: `writes` are the successive `reply.raw.write` calls. */
  method WriteAnswer(json: Json, answer: Answer) returns (writes: seq<string>)
    ensures writes == Frames(json, Events(answer))
  {
    writes := [];
    ghost var end := [("done", DoneData(answer.done))];
    ghost var tail := CitationEvents(answer.citations) + end;
    ghost var left := Events(answer);
    assert answer.content[0..] == answer.content;
    Assoc(TokenEvents(answer.content), CitationEvents(answer.citations), end);
    var i := 0;
    while i < |answer.content|
      invariant 0 <= i
      invariant Frames(json, Events(answer)) == writes + Frames(json, left)
      invariant left == TokenEvents(answer.content[Min(i, |answer.content|)..]) + tail
    {
      var stop := Min(i + CHUNK_SIZE, |answer.content|);
      var frame := Frame(json, "token", TokenData(answer.content[i..stop]));
      TokenStep(json, answer.content[i..], tail);
      SliceOfTail(answer.content, i, stop);
      left := TokenEvents(answer.content[stop..]) + tail;
      Assoc(writes, [frame], Frames(json, left));
      writes := writes + [frame];
      i := i + CHUNK_SIZE;
    }
    assert TokenEvents("") + tail == tail;
    for k := 0 to |answer.citations|
      invariant Frames(json, Events(answer)) == writes + Frames(json, left)
      invariant left == CitationEvents(answer.citations[k..]) + end
    {
      var frame := Frame(json, "citation", CitationData(answer.citations[k]));
      CitationStep(json, answer.citations[k..], end);
      assert answer.citations[k..][1..] == answer.citations[k + 1..];
      left := CitationEvents(answer.citations[k + 1..]) + end;
      Assoc(writes, [frame], Frames(json, left));
      writes := writes + [frame];
    }
    assert left == end && end[1..] == [];
    writes := writes + [Frame(json, "done", DoneData(answer.done))];
  }

  function Min(a: int, b: int): int {
    if a < b then a else b
  }

  lemma SliceOfTail(s: string, i: nat, stop: nat)
    requires i <= stop <= |s|
    ensures s[i..][..stop - i] == s[i..stop] && s[i..][stop - i..] == s[stop..]
  {
  }

  lemma TokenStep(json: Json, rest: string, tail: seq<(string, Payload)>)
    requires rest != ""
    ensures var n := Min(CHUNK_SIZE, |rest|);
      Frames(json, TokenEvents(rest) + tail)
      == [Frame(json, "token", TokenData(rest[..n]))] + Frames(json, TokenEvents(rest[n..]) + tail)
  {
    var n := Min(CHUNK_SIZE, |rest|);
    var e := ("token", TokenData(rest[..n]));
    assert rest[..|rest|] == rest;
    assert TokenEvents(rest) == [e] + TokenEvents(rest[n..]);
    FramesCons(json, e, TokenEvents(rest), TokenEvents(rest[n..]), tail);
  }

  lemma CitationStep(json: Json, rest: seq<Citation>, tail: seq<(string, Payload)>)
    requires rest != []
    ensures Frames(json, CitationEvents(rest) + tail)
         == [Frame(json, "citation", CitationData(rest[0]))] + Frames(json, CitationEvents(rest[1..]) + tail)
  {
    FramesCons(json, ("citation", CitationData(rest[0])), CitationEvents(rest), CitationEvents(rest[1..]), tail);
  }

  lemma FramesCons(json: Json, e: (string, Payload), all: seq<(string, Payload)>, rest: seq<(string, Payload)>,
                   tail: seq<(string, Payload)>)
    requires all == [e] + rest
    ensures Frames(json, all + tail) == [Frame(json, e.0, e.1)] + Frames(json, rest + tail)
  {
    assert (all + tail)[1..] == rest + tail;
  }

  // -------------------------------------------------------------------- client

  datatype Shown = Shown(title: string, snippet: string, score: real, index: int)

  /** What the page displays; `failed` once the JSON parser has thrown. */
  datatype Display = Display(assembled: string, citations: seq<Shown>, failed: bool)

  datatype Client = Client(buffer: string, display: Display)

  const FRESH := Client("", Display("", [], false))

  function Field(lines: seq<string>, prefix: string): Option<string> {
    if lines == [] then None
    else if prefix <= lines[0] then Some(Trim(lines[0][|prefix|..]))
    else Field(lines[1..], prefix)
  }

  predicate Truthy(s: Option<string>) {
    s.Some? && s.value != ""
  }

  function OrElse<T>(o: Option<T>, default: T): T {
    if o.Some? then o.value else default
  }

  function HandlePart(json: Json, d: Display, part: string): Display {
    var lines := Split(part, "\n");
    HandleEvent(json, d, Field(lines, "event:"), Field(lines, "data:"))
  }

  function HandleEvent(json: Json, d: Display, event: Option<string>, dataLine: Option<string>): Display {
    if !Truthy(event) || !Truthy(dataLine) then d
    else match json.parse(dataLine.value)
      case None => d.(failed := true)
      case Some(data) =>
        if event.value == "token" && Truthy(data.text) then
          d.(assembled := d.assembled + data.text.value)
        else if event.value == "citation" && Truthy(data.title) then
          d.(citations := d.citations + [Shown(data.title.value, OrElse(data.snippet, ""), OrElse(data.score, 0.0),
                                               OrElse(data.index, |d.citations| + 1))])
        else d
  }

  function HandleParts(json: Json, d: Display, parts: seq<string>): Display
    decreases |parts|
  {
    if d.failed || parts == [] then d
    else HandleParts(json, HandlePart(json, d, parts[0]), parts[1..])
  }

  /** One read: everything up to the last blank line is handled, the rest carried over. */
  function Feed(json: Json, c: Client, chunk: string): Client {
    Deliver(json, c.display, Split(c.buffer + chunk, BLANK_LINE))
  }

  function Deliver(json: Json, d: Display, parts: seq<string>): Client
    requires |parts| >= 1
  {
    Client(parts[|parts| - 1], HandleParts(json, d, parts[..|parts| - 1]))
  }

  function FeedAll(json: Json, c: Client, fragments: seq<string>): Client
    decreases |fragments|
  {
    if c.display.failed || fragments == [] then c
    else FeedAll(json, Feed(json, c, fragments[0]), fragments[1..])
  }

  /** The page's read loop over the fragments the reader delivers. */
  method ReadStream(json: Json, fragments: seq<string>) returns (c: Client)
    ensures c == FeedAll(json, FRESH, fragments)
  {
    var buffer, assembled, citations := "", "", [];
    var n := 0;
    while n < |fragments|
      invariant 0 <= n <= |fragments|
      invariant FeedAll(json, FRESH, fragments)
             == FeedAll(json, Client(buffer, Display(assembled, citations, false)), fragments[n..])
    {
      ghost var before := Client(buffer, Display(assembled, citations, false));
      buffer := buffer + fragments[n];
      var parts := Split(buffer, BLANK_LINE);
      buffer := parts[|parts| - 1];
      parts := parts[..|parts| - 1];
      assert fragments[n..][1..] == fragments[n + 1..];
      ghost var after := Feed(json, before, fragments[n]);
      var k := 0;
      while k < |parts|
        invariant 0 <= k <= |parts|
        invariant after == Client(buffer, HandleParts(json, Display(assembled, citations, false), parts[k..]))
      {
        var part := parts[k];
        assert parts[k..][1..] == parts[k + 1..];
        k := k + 1;
        var lines := Split(part, "\n");
        var event := Field(lines, "event:");
        var dataLine := Field(lines, "data:");
        if !Truthy(event) || !Truthy(dataLine) { continue; }
        var data := json.parse(dataLine.value);
        if data.None? {
          return Client(buffer, Display(assembled, citations, true));
        }
        ghost var shown := |citations|;
        if event.value == "token" && Truthy(data.value.text) {
          assembled := assembled + data.value.text.value;
        }
        if event.value == "citation" && Truthy(data.value.title) {
          citations := citations + [Shown(data.value.title.value, OrElse(data.value.snippet, ""),
                                          OrElse(data.value.score, 0.0), OrElse(data.value.index, |citations| + 1))];
        }
      }
      n := n + 1;
    }
    c := Client(buffer, Display(assembled, citations, false));
  }

  // ------------------------------------------------- fragmentation independence

  lemma {:induction false} HandlePartsAppend(json: Json, d: Display, a: seq<string>, b: seq<string>)
    ensures HandleParts(json, d, a + b) == HandleParts(json, HandleParts(json, d, a), b)
    decreases |a|
  {
    if a == [] {
      assert a + b == b;
    } else if !d.failed {
      assert (a + b)[1..] == a[1..] + b;
      HandlePartsAppend(json, HandlePart(json, d, a[0]), a[1..], b);
    }
  }

  lemma HandleNothing(json: Json, d: Display, parts: seq<string>)
    requires d.failed || parts == []
    ensures HandleParts(json, d, parts) == d
  {
  }

  /** After a failure the buffer is never looked at again. */
  function View(c: Client): Client {
    if c.display.failed then c.(buffer := "") else c
  }

  lemma FeedTwice(json: Json, c: Client, a: string, b: string)
    ensures View(Feed(json, c, a + b))
         == if Feed(json, c, a).display.failed then View(Feed(json, c, a))
            else View(Feed(json, Feed(json, c, a), b))
  {
    hide Split, HandleParts;
    var p := Split(c.buffer + a, BLANK_LINE);
    assert c.buffer + (a + b) == (c.buffer + a) + b;
    SplitAppend(c.buffer + a, b, BLANK_LINE);
    DeliverTwice(json, c.display, p, Split(p[|p| - 1] + b, BLANK_LINE));
  }

  lemma DeliverTwice(json: Json, d: Display, p: seq<string>, q: seq<string>)
    requires |p| >= 1 && |q| >= 1
    ensures View(Deliver(json, d, p[..|p| - 1] + q))
         == if Deliver(json, d, p).display.failed then View(Deliver(json, d, p))
            else View(Deliver(json, Deliver(json, d, p).display, q))
  {
    hide HandleParts;
    var init := p[..|p| - 1];
    assert (init + q)[..|init + q| - 1] == init + q[..|q| - 1];
    HandlePartsAppend(json, d, init, q[..|q| - 1]);
    var mid := HandleParts(json, d, init);
    if mid.failed { HandleNothing(json, mid, q[..|q| - 1]); }
  }

  /** The carried-over tail holds no complete blank line. */
  lemma {:induction false} TailIsUnsplit(s: string)
    ensures var p := Split(s, BLANK_LINE); Split(p[|p| - 1], BLANK_LINE) == [p[|p| - 1]]
    decreases |s|
  {
    hide IndexFrom;
    match IndexFrom(s, BLANK_LINE, 0) {
      case None =>
      case Some(i) => TailIsUnsplit(s[i + 2..]);
    }
  }

  /** However the stream is cut into reads, the page ends up as if it had arrived in one piece. */
  lemma {:induction false} FragmentationIndependent(json: Json, c: Client, fragments: seq<string>)
    requires !c.display.failed && Split(c.buffer, BLANK_LINE) == [c.buffer]
    ensures View(FeedAll(json, c, fragments)) == View(Feed(json, c, Concat(fragments)))
    decreases |fragments|
  {
    hide Split, HandleParts;
    if fragments == [] {
      assert c.buffer + "" == c.buffer;
      HandleNothing(json, c.display, [c.buffer][..0]);
    } else {
      FeedTwice(json, c, fragments[0], Concat(fragments[1..]));
      var next := Feed(json, c, fragments[0]);
      if !next.display.failed {
        TailIsUnsplit(c.buffer + fragments[0]);
        FragmentationIndependent(json, next, fragments[1..]);
      }
    }
  }

  // ---------------------------------------------------------------- round trip

  /** A line free of `\n` stays whole; two of them are told apart by the newline. */
  lemma SplitTwoLines(a: string, b: string)
    requires '\n' !in a && '\n' !in b
    ensures Split(a + "\n" + b, "\n") == [a, b]
    ensures IndexFrom(a + "\n" + b, BLANK_LINE, 0) == None
  {
    hide IndexFrom;
    var s := a + "\n" + b;
    forall j | 0 <= j < |s| ensures At(s, "\n", j) ==> j == |a| {
      assert s[j..j + 1] == [s[j]];
    }
    assert s[|a|..|a| + 1] == "\n";
    IndexFromIs(s, "\n", 0, |a|);
    assert s[..|a|] == a && s[|a| + 1..] == b;
    forall j | 0 <= j < |b| ensures !At(b, "\n", j) {
      assert b[j..j + 1] == [b[j]];
    }
    IndexFromNone(b, "\n", 0);
    assert Split(b, "\n") == [b];
    forall j | 0 <= j && j + 2 <= |s| ensures !At(s, BLANK_LINE, j) {
      assert s[j..j + 2] == [s[j], s[j + 1]];
    }
    IndexFromNone(s, BLANK_LINE, 0);
  }

  /** The first blank line after a body is the one that ends its frame. */
  lemma FrameEndsAtBlankLine(body: string, rest: string)
    requires IndexFrom(body, BLANK_LINE, 0) == None
    requires body != "" && body[|body| - 1] != '\n'
    ensures Split(body + BLANK_LINE + rest, BLANK_LINE) == [body] + Split(rest, BLANK_LINE)
  {
    hide IndexFrom;
    var s := body + BLANK_LINE + rest;
    IndexFromFinds(body, BLANK_LINE, 0);
    forall j | 0 <= j < |body| ensures !At(s, BLANK_LINE, j) {
      if j + 2 <= |body| {
        assert !At(body, BLANK_LINE, j);
        assert body[j..j + 2] == s[j..j + 2];
      } else {
        assert s[j..j + 2][0] == s[j] == body[|body| - 1];
      }
    }
    assert s[|body|..|body| + 2] == BLANK_LINE;
    IndexFromIs(s, BLANK_LINE, 0, |body|);
    assert s[..|body|] == body && s[|body| + 2..] == rest;
  }

  predicate PlainName(event: string) {
    event != "" && '\n' !in event && !IsSpace(event[0]) && !IsSpace(event[|event| - 1])
  }

  function Bodies(json: Json, events: seq<(string, Payload)>): seq<string> {
    if events == [] then []
    else [Body(json, events[0].0, events[0].1)] + Bodies(json, events[1..])
  }

  lemma BodyLines(json: Json, event: string, data: Payload)
    requires json.On(data) && PlainName(event)
    ensures var body := Body(json, event, data);
      && Split(body, "\n") == ["event: " + event, "data: " + json.stringify(data)]
      && IndexFrom(body, BLANK_LINE, 0) == None
      && body != "" && body[|body| - 1] != '\n'
  {
    hide IndexFrom, Split;
    var a, b := "event: " + event, "data: " + json.stringify(data);
    assert Body(json, event, data) == a + "\n" + b;
    SplitTwoLines(a, b);
    assert b[|b| - 1] == '}';
  }

  lemma {:induction false} SplitFrames(json: Json, events: seq<(string, Payload)>)
    requires forall e :: e in events ==> json.On(e.1) && PlainName(e.0)
    ensures Split(Concat(Frames(json, events)), BLANK_LINE) == Bodies(json, events) + [""]
  {
    if events != [] {
      var frames, body := Frames(json, events), Body(json, events[0].0, events[0].1);
      var rest := Concat(Frames(json, events[1..]));
      assert Concat(frames) == body + BLANK_LINE + rest;
      hide IndexFrom, Split;
      BodyLines(json, events[0].0, events[0].1);
      FrameEndsAtBlankLine(body, rest);
      SplitFrames(json, events[1..]);
    }
  }

  /** What one event does to the display. */
  function Apply(d: Display, e: (string, Payload)): Display {
    match e.1
    case TokenData(text) => if e.0 == "token" then d.(assembled := d.assembled + text) else d
    case CitationData(c) =>
      if e.0 == "citation" && c.title != "" then
        d.(citations := d.citations + [Shown(c.title, c.snippet, c.score, c.index)])
      else d
    case DoneData(_) => d
  }

  lemma TrimSpaced(s: string)
    requires s != "" && !IsSpace(s[0]) && !IsSpace(s[|s| - 1])
    ensures Trim(" " + s) == s
  {
    assert (" " + s)[1..] == s;
    assert TrimStart(" " + s) == TrimStart(s) == s;
  }

  lemma LineField(prefix: string, value: string, rest: seq<string>)
    requires value != "" && !IsSpace(value[0]) && !IsSpace(value[|value| - 1])
    ensures Field([prefix + (" " + value)] + rest, prefix) == Some(value)
  {
    var line := prefix + (" " + value);
    assert line[..|prefix|] == prefix && line[|prefix|..] == " " + value;
    assert prefix <= line;
    TrimSpaced(value);
  }

  /** The two lines of a body give back the event name and the serialised data. */
  lemma FieldsOfBody(event: string, data: string)
    requires event != "" && !IsSpace(event[0]) && !IsSpace(event[|event| - 1])
    requires data != "" && !IsSpace(data[0]) && !IsSpace(data[|data| - 1])
    ensures Field(["event: " + event, "data: " + data], "event:") == Some(event)
    ensures Field(["event: " + event, "data: " + data], "data:") == Some(data)
  {
    hide Field, Trim;
    assert "event: " + event == "event:" + (" " + event);
    LineField("event:", event, ["data: " + data]);
    assert ["event: " + event] + ["data: " + data] == ["event: " + event, "data: " + data];
    DataField("event: " + event, data);
  }

  lemma DataField(first: string, data: string)
    requires first != "" && first[0] == 'e'
    requires data != "" && !IsSpace(data[0]) && !IsSpace(data[|data| - 1])
    ensures Field([first, "data: " + data], "data:") == Some(data)
  {
    hide Trim;
    assert "data: " + data == "data:" + (" " + data);
    LineField("data:", data, []);
    assert [first, "data: " + data][1..] == ["data: " + data] + [];
    assert !("data:" <= first);
  }

  lemma HandleBody(json: Json, d: Display, e: (string, Payload))
    requires json.On(e.1) && PlainName(e.0)
    ensures HandlePart(json, d, Body(json, e.0, e.1)) == Apply(d, e)
  {
    hide IndexFrom, Split, Field;
    var t := json.stringify(e.1);
    BodyLines(json, e.0, e.1);
    FieldsOfBody(e.0, t);
    HandleKnownEvent(json, d, e);
  }

  lemma HandleKnownEvent(json: Json, d: Display, e: (string, Payload))
    requires json.On(e.1) && e.0 != ""
    ensures HandleEvent(json, d, Some(e.0), Some(json.stringify(e.1))) == Apply(d, e)
  {
    assert json.parse(json.stringify(e.1)) == Some(FieldsOf(e.1));
    assert d.assembled + "" == d.assembled;
  }

  function ApplyAll(d: Display, events: seq<(string, Payload)>): Display
    decreases |events|
  {
    if events == [] then d else ApplyAll(Apply(d, events[0]), events[1..])
  }

  lemma {:induction false} ApplyAllAppend(d: Display, a: seq<(string, Payload)>, b: seq<(string, Payload)>)
    ensures ApplyAll(d, a + b) == ApplyAll(ApplyAll(d, a), b)
    decreases |a|
  {
    if a == [] {
      assert a + b == b;
    } else {
      assert (a + b)[1..] == a[1..] + b;
      ApplyAllAppend(Apply(d, a[0]), a[1..], b);
    }
  }

  lemma {:induction false} HandleBodies(json: Json, d: Display, events: seq<(string, Payload)>)
    requires !d.failed && forall e :: e in events ==> json.On(e.1) && PlainName(e.0)
    ensures HandleParts(json, d, Bodies(json, events)) == ApplyAll(d, events)
    decreases |events|
  {
    if events != [] {
      HandleBody(json, d, events[0]);
      HandleBodies(json, Apply(d, events[0]), events[1..]);
    }
  }

  lemma {:induction false} TokensAssemble(d: Display, content: string)
    ensures ApplyAll(d, TokenEvents(content)) == d.(assembled := d.assembled + content)
    decreases |content|
  {
    if content == "" {
      assert d.assembled + "" == d.assembled;
    } else if |content| <= CHUNK_SIZE {
      assert TokenEvents(content)[1..] == [];
    } else {
      var head, tail := content[..CHUNK_SIZE], content[CHUNK_SIZE..];
      var rest := TokenEvents(tail);
      assert TokenEvents(content) == [("token", TokenData(head))] + rest;
      assert TokenEvents(content)[1..] == rest;
      TokensAssemble(d.(assembled := d.assembled + head), tail);
      Assoc(d.assembled, head, tail);
      assert head + tail == content;
    }
  }

  /** The citations a reader should see: those with a title, in order. */
  function Titled(citations: seq<Citation>): seq<Shown> {
    if citations == [] then []
    else (if citations[0].title == "" then []
          else [Shown(citations[0].title, citations[0].snippet, citations[0].score, citations[0].index)])
         + Titled(citations[1..])
  }

  lemma {:induction false} CitationsAppear(d: Display, citations: seq<Citation>)
    ensures ApplyAll(d, CitationEvents(citations)) == d.(citations := d.citations + Titled(citations))
    decreases |citations|
  {
    if citations == [] {
      assert d.citations + [] == d.citations;
    } else {
      assert CitationEvents(citations)[1..] == CitationEvents(citations[1..]);
      var next := Apply(d, CitationEvents(citations)[0]);
      CitationsAppear(next, citations[1..]);
      assert next == d.(citations := d.citations + Titled(citations[..1])) by {
        assert Titled(citations[..1][1..]) == [];
        assert d.citations + [] == d.citations;
      }
      TitledStep(d.citations, citations);
    }
  }

  lemma TitledStep(before: seq<Shown>, citations: seq<Citation>)
    requires citations != []
    ensures before + Titled(citations[..1]) + Titled(citations[1..]) == before + Titled(citations)
  {
    assert citations[..1][0] == citations[0] && citations[..1][1..] == [];
    assert Titled(citations) == Titled(citations[..1]) + Titled(citations[1..]);
  }

  lemma {:induction false} TokenNames(content: string)
    ensures forall e :: e in TokenEvents(content) ==> PlainName(e.0)
    decreases |content|
  {
    if |content| > CHUNK_SIZE { TokenNames(content[CHUNK_SIZE..]); }
  }

  lemma {:induction false} CitationNames(citations: seq<Citation>)
    ensures forall e :: e in CitationEvents(citations) ==> PlainName(e.0)
  {
    if citations != [] { CitationNames(citations[1..]); }
  }

  /**
   * Round trip: for every answer and every way of cutting the written stream
   * into reads, the page shows exactly the answer and nothing is left over. Of
   * the JSON library it needs only that the answer's own payloads print and parse.
   */
  lemma RoundTrip(json: Json, answer: Answer, fragments: seq<string>)
    requires forall e :: e in Events(answer) ==> json.On(e.1)
    requires Concat(fragments) == Concat(Frames(json, Events(answer)))
    ensures FeedAll(json, FRESH, fragments)
         == Client("", Display(answer.content, Titled(answer.citations), false))
  {
    hide Split, IndexFrom, HandleParts, FeedAll, ApplyAll;
    var events := Events(answer);
    TokenNames(answer.content);
    CitationNames(answer.citations);
    assert PlainName("done");
    SplitFrames(json, events);
    HandleBodies(json, FRESH.display, events);
    var bodies := Bodies(json, events) + [""];
    assert bodies[..|bodies| - 1] == Bodies(json, events);
    EventsShowAnswer(answer);
    assert "" + Concat(fragments) == Concat(fragments);
    NothingToSplit();
    FragmentationIndependent(json, FRESH, fragments);
  }

  lemma NothingToSplit()
    ensures Split("", BLANK_LINE) == [""]
  {
  }

  lemma EventsShowAnswer(answer: Answer)
    ensures ApplyAll(FRESH.display, Events(answer))
         == Display(answer.content, Titled(answer.citations), false)
  {
    var tokens, cites := TokenEvents(answer.content), CitationEvents(answer.citations);
    var done := [("done", DoneData(answer.done))];
    var d1 := ApplyAll(FRESH.display, tokens);
    TokensAssemble(FRESH.display, answer.content);
    assert "" + answer.content == answer.content;
    var d2 := ApplyAll(d1, cites);
    CitationsAppear(d1, answer.citations);
    assert [] + Titled(answer.citations) == Titled(answer.citations);
    ApplyAllAppend(FRESH.display, tokens, cites);
    ApplyAllAppend(FRESH.display, tokens + cites, done);
    assert done[1..] == [];
  }

  // --------------------------------------------------- codecs for every answer exist

  /** Where `p` comes first among `ps`, or their number. */
  function Position(ps: seq<Payload>, p: Payload): (r: nat)
    ensures p in ps ==> r < |ps| && ps[r] == p
  {
    if ps == [] || ps[0] == p then 0 else 1 + Position(ps[1..], p)
  }

  function Strokes(n: nat): (r: string)
    ensures |r| == n && '\n' !in r
  {
    if n == 0 then "" else Strokes(n - 1) + "1"
  }

  function Payloads(events: seq<(string, Payload)>): (r: seq<Payload>)
    ensures forall e :: e in events ==> e.1 in r
  {
    if events == [] then [] else [events[0].1] + Payloads(events[1..])
  }

  /** A codec that numbers the payloads of a list. */
  function Numbering(ps: seq<Payload>): Json {
    Json((p: Payload) => "{" + Strokes(Position(ps, p)) + "}",
         (t: string) => if 2 <= |t| < |ps| + 2 then Some(FieldsOf(ps[|t| - 2])) else None)
  }

  /** Whatever the tokens and citations of an answer, there is a codec that prints and parses them. */
  lemma EveryAnswerHasACodec(answer: Answer)
    ensures forall e :: e in Events(answer) ==> Numbering(Payloads(Events(answer))).On(e.1)
  {
    hide Events;
    var ps := Payloads(Events(answer));
    forall e | e in Events(answer) ensures Numbering(ps).On(e.1) {
      NumberingIsOn(ps, e.1);
    }
  }

  lemma NumberingIsOn(ps: seq<Payload>, p: Payload)
    requires p in ps
    ensures Numbering(ps).On(p)
  {
    var n := Position(ps, p);
    var t := "{" + Strokes(n) + "}";
    assert Numbering(ps).stringify(p) == t && |t| == n + 2;
  }

  /** The slices: 24 characters each, but for the last, which has the rest. */
  lemma {:induction false} SlicesOf24(content: string, k: nat)
    requires k < |TokenEvents(content)|
    ensures var from := 24 * k;
      from < |content| &&
      TokenEvents(content)[k]
      == ("token", TokenData(content[from..if from + 24 < |content| then from + 24 else |content|]))
    decreases k
  {
    if k > 0 {
      var rest, before := content[24..], 24 * (k - 1);
      SlicesOf24(rest, k - 1);
      var stop := if before + 24 < |rest| then before + 24 else |rest|;
      assert rest[before..stop] == content[24 + before..24 + stop];
    } else {
      assert content[0..|content|] == content;
      assert content != "" && (|content| > 24 ==> content[0..24] == content[..24]);
    }
  }
}
