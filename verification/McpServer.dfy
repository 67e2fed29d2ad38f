/** An MCP server on lines of JSON, answering requests out of order and relaying tool calls
    to the app. */
module McpServer {
  import opened Text

  datatype Json =
    | Null | Bool(b: bool) | Num(n: int) | Str(s: string)
    | Arr(items: seq<Json>) | Obj(fields: map<string, Json>)

  /** How JSON is read and printed. */
  datatype Codec = Codec(parse: string -> Result<Json, string>, show: Json -> string)

  /** Printing keeps the value, on one line, and a blank line is no value. */
  ghost predicate Faithful(c: Codec) {
    && (forall j :: c.parse(c.show(j)) == Ok(j))
    && (forall j :: '\n' !in c.show(j) && '\r' !in c.show(j))
    && (forall s :: Blank(s) ==> c.parse(s).Err?)
  }

  function Get(j: Json, key: string): Option<Json> {
    if j.Obj? && key in j.fields then Some(j.fields[key]) else None
  }

  function Field(j: Json, key: string): Json {
    match Get(j, key) case Some(value) => value case None => Null
  }

  function AsStr(j: Json): Option<string> {
    if j.Str? then Some(j.s) else None
  }

  function OrEmpty(j: Json): Json {
    if j.Null? then Obj(map[]) else j
  }

  // The server's answers.

  /** What an accepted line waits for: its answer, when it could not be read, or the work
      of its method. */
  datatype Job = Said(reply: Json) | Ask(id: Json, name: string, params: Json)

  const PARSE_ERROR := -32700
  const INTERNAL_ERROR := -32603
  const METHOD_NOT_FOUND := -32601

  function RpcResult(id: Json, result: Json): Json {
    Obj(map["jsonrpc" := Str("2.0"), "id" := id, "result" := result])
  }

  function RpcError(id: Json, code: int, message: string): Json {
    Obj(map["jsonrpc" := Str("2.0"), "id" := id, "error" := Obj(map["code" := Num(code), "message" := Str(message)])])
  }

  function McpReply(c: Codec, line: string): Option<Job> {
    if Blank(line) then None
    else
      match c.parse(line)
      case Err(e) => Some(Said(RpcError(Null, PARSE_ERROR, "parse error: " + e)))
      case Ok(message) =>
        var id := Get(message, "id");
        if id.None? || id.value.Null? then None
        else
          match AsStr(Field(message, "method"))
          case None => None
          case Some(name) => Some(Ask(id.value, name, Field(message, "params")))
  }

  const PROTOCOL := "2025-06-18"

  function Initialize(params: Json, version: string): Json {
    var asked := AsStr(Field(params, "protocolVersion"));
    Obj(map["protocolVersion" := Str(if asked.Some? then asked.value else PROTOCOL),
            "capabilities" := Obj(map["tools" := Obj(map[])]),
            "serverInfo" := Obj(map["name" := Str("penguin-mail"), "version" := Str(version)])])
  }

  datatype ToolSpec = ToolSpec(name: string, description: string, schema: Json)

  /** A spec as the app prints it. */
  function SpecJson(spec: ToolSpec): Json {
    Obj(map["name" := Str(spec.name), "description" := Str(spec.description), "input_schema" := spec.schema])
  }

  /** A spec as the server lists it. */
  function ToolJson(spec: ToolSpec): Json {
    Obj(map["name" := Str(spec.name), "description" := Str(spec.description), "inputSchema" := spec.schema])
  }

  /** A spec is read from an object, or from a list of its three parts. */
  function SpecOf(j: Json): Option<ToolSpec> {
    if j.Arr? then
      if |j.items| == 3 && j.items[0].Str? && j.items[1].Str?
      then Some(ToolSpec(j.items[0].s, j.items[1].s, j.items[2])) else None
    else
    match (Get(j, "name"), Get(j, "description"), Get(j, "input_schema"))
    case (Some(Str(name)), Some(Str(description)), Some(schema)) => Some(ToolSpec(name, description, schema))
    case _ => None
  }

  function SpecsOf(items: seq<Json>): Option<seq<ToolSpec>> {
    if items == [] then Some([])
    else
      match (SpecOf(items[0]), SpecsOf(items[1..]))
      case (Some(first), Some(rest)) => Some([first] + rest)
      case _ => None
  }

  function Printed(specs: seq<ToolSpec>, one: ToolSpec -> Json): seq<Json> {
    seq(|specs|, i requires 0 <= i < |specs| => one(specs[i]))
  }

  function McpTools(specs: Json): Json {
    match specs
    case Arr(items) =>
      (match SpecsOf(items) case Some(known) => Arr(Printed(known, ToolJson)) case None => Arr([]))
    case _ => Arr([])
  }

  /** A tool's outcome as the model is told it. */
  function ToolAnswer(c: Codec, outcome: Result<Json, string>): Json {
    var (text, isError) :=
      match outcome {
        case Ok(Str(text)) => (text, false)
        case Ok(result) => (c.show(result), false)
        case Err(error) => (error, true)
      };
    Obj(map["content" := Arr([Obj(map["type" := Str("text"), "text" := Str(text)])]), "isError" := Bool(isError)])
  }

  function SpecsBody(): Json {
    Obj(map["id" := Num(1), "method" := Str("specs")])
  }

  function CallBody(params: Json): Json {
    var name := AsStr(Field(params, "name"));
    Obj(map["id" := Num(1), "method" := Str("call"), "name" := Str(if name.Some? then name.value else ""),
            "input" := OrEmpty(Field(params, "arguments"))])
  }

  /** The message that answers a job, once the app answered what it asked of it. */
  function Reply(c: Codec, version: string, job: Job, outcome: Result<Json, string>): Json {
    match job
    case Said(reply) => reply
    case Ask(id, name, params) =>
      if name == "initialize" then RpcResult(id, Initialize(params, version))
      else if name == "ping" then RpcResult(id, Obj(map[]))
      else if name == "tools/list" then
        (match outcome
         case Ok(specs) => RpcResult(id, Obj(map["tools" := McpTools(specs)]))
         case Err(e) => RpcError(id, INTERNAL_ERROR, e))
      else if name == "tools/call" then RpcResult(id, ToolAnswer(c, outcome))
      else RpcError(id, METHOD_NOT_FOUND, "method not found: " + name)
  }

  /** The jobs of the lines that need an answer. */
  function Jobs(c: Codec, lines: seq<string>): seq<Job> {
    if lines == [] then []
    else
      var before := Jobs(c, lines[..|lines| - 1]);
      match McpReply(c, lines[|lines| - 1]) case Some(job) => before + [job] case None => before
  }

  ghost predicate Answers(c: Codec, version: string, job: Job, reply: Json) {
    exists outcome :: reply == Reply(c, version, job, outcome)
  }

  ghost predicate AllAnswer(c: Codec, version: string, jobs: seq<Job>, replies: seq<Json>) {
    |jobs| == |replies| && forall i :: 0 <= i < |jobs| ==> Answers(c, version, jobs[i], replies[i])
  }

  /** The jobs of the lines read are answered or pending, each once. */
  ghost predicate Held(c: Codec, read: seq<string>, answered: seq<Job>, pending: seq<Job>) {
    multiset(answered) + multiset(pending) == multiset(Jobs(c, read))
  }

  lemma HeldRead(c: Codec, lines: seq<string>, n: nat, answered: seq<Job>, pending: seq<Job>)
    requires n < |lines| && Held(c, lines[..n], answered, pending)
    ensures var job := McpReply(c, lines[n]);
            Held(c, lines[..n + 1], answered, if job.Some? then pending + [job.value] else pending)
  {
    hide McpReply, Jobs;
    JobsNext(c, lines, n);
  }

  lemma HeldTaken(c: Codec, read: seq<string>, answered: seq<Job>, pending: seq<Job>, which: nat)
    requires which < |pending| && Held(c, read, answered, pending)
    ensures Held(c, read, answered + [pending[which]], pending[..which] + pending[which + 1..])
  {
    hide Jobs;
    Without(pending, which);
  }

  lemma HeldAmong(c: Codec, lines: seq<string>, n: nat, answered: seq<Job>, pending: seq<Job>)
    requires n <= |lines| && Held(c, lines[..n], answered, pending)
    ensures multiset(answered) <= multiset(Jobs(c, lines))
  {
    hide Jobs;
    JobsMore(c, lines, n);
  }

  lemma HeldAll(c: Codec, lines: seq<string>, answered: seq<Job>)
    requires Held(c, lines, answered, [])
    ensures multiset(answered) == multiset(Jobs(c, lines))
  {
  }

  /** Serves the lines of the input, taking the next line or the next finished reply in any
      order; where reading and writing are `faulty`, a line or a reply that cannot be read or
      written ends it early. What it wrote answers `answered`, one reply each: all the jobs,
      and nothing else, unless it ended early. */
  method Serve(c: Codec, version: string, lines: seq<string>, faulty: bool)
    returns (finished: bool, output: seq<Json>, ghost answered: seq<Job>)
    ensures !faulty ==> finished
    ensures AllAnswer(c, version, answered, output)
    ensures multiset(answered) <= multiset(Jobs(c, lines))
    ensures finished ==> multiset(answered) == multiset(Jobs(c, lines))
    ensures finished ==> multiset(ReplyIds(output)) == multiset(JobIds(Jobs(c, lines)))
  {
    assert lines[..0] == [] && Jobs(c, []) == [];
    output, answered := [], [];
    assert AllAnswer(c, version, answered, output);
    assert Held(c, lines[..0], answered, []);
    hide Reply, McpReply, Jobs, Answers, AllAnswer, ReplyIds, JobIds, Held;
    var pending: seq<Job> := [];
    var open, next := true, 0;
    while open || pending != []
      invariant 0 <= next <= |lines| && (!open ==> next == |lines|)
      invariant AllAnswer(c, version, answered, output)
      invariant Held(c, lines[..next], answered, pending)
      decreases 2 * (|lines| - next) + |pending| + (if open then 1 else 0)
    {
      HeldAmong(c, lines, next, answered, pending);
      var read: bool, works: bool := *, *;
      if open && (read || pending == []) {
        if faulty && !works {
          return false, output, answered;
        }
        if next < |lines| {
          var job := McpReply(c, lines[next]);
          HeldRead(c, lines, next, answered, pending);
          pending := if job.Some? then pending + [job.value] else pending;
          next := next + 1;
        } else {
          open := false;
        }
      } else {
        var which: nat :| which < |pending|;
        var outcome: Result<Json, string> := *;
        var job := pending[which];
        HeldTaken(c, lines[..next], answered, pending, which);
        pending := pending[..which] + pending[which + 1..];
        if faulty && !works {
          return false, output, answered;
        }
        var reply := Reply(c, version, job, outcome);
        AnswersIt(c, version, job, outcome);
        AnswersMore(c, version, answered, output, job, reply);
        output := output + [reply];
        answered := answered + [job];
      }
    }
    assert lines[..next] == lines;
    HeldAll(c, lines, answered);
    Served(c, version, lines, answered, output);
    finished := true;
  }

  lemma AnswersIt(c: Codec, version: string, job: Job, outcome: Result<Json, string>)
    ensures Answers(c, version, job, Reply(c, version, job, outcome))
  {
    hide Reply;
  }

  lemma AnswersMore(c: Codec, version: string, jobs: seq<Job>, replies: seq<Json>, job: Job, reply: Json)
    requires AllAnswer(c, version, jobs, replies) && Answers(c, version, job, reply)
    ensures AllAnswer(c, version, jobs + [job], replies + [reply])
  {
    hide Answers;
  }

  lemma Without(pending: seq<Job>, which: nat)
    requires which < |pending|
    ensures multiset(pending) == multiset(pending[..which] + pending[which + 1..]) + multiset([pending[which]])
  {
    assert pending == pending[..which] + [pending[which]] + pending[which + 1..];
  }

  lemma JobsNext(c: Codec, lines: seq<string>, n: nat)
    requires n < |lines|
    ensures var job := McpReply(c, lines[n]);
            Jobs(c, lines[..n + 1]) == Jobs(c, lines[..n]) + if job.Some? then [job.value] else []
  {
    hide McpReply;
    assert lines[..n + 1][..n] == lines[..n];
  }

  /** The jobs of the first lines are among the jobs of them all. */
  lemma {:induction false} JobsMore(c: Codec, lines: seq<string>, n: nat)
    requires n <= |lines|
    ensures multiset(Jobs(c, lines[..n])) <= multiset(Jobs(c, lines))
    decreases |lines| - n
  {
    if n == |lines| {
      assert lines[..n] == lines;
    } else {
      assert lines[..n + 1][..n] == lines[..n];
      JobsMore(c, lines, n + 1);
    }
  }

  // What a reply says.

  /** The id a job answers to: the request's, or null for a line that is no JSON. */
  function JobId(job: Job): Json {
    match job case Said(reply) => Null case Ask(id, _, _) => id
  }

  function JobIds(jobs: seq<Job>): (ids: seq<Json>)
    ensures |ids| == |jobs|
  {
    seq(|jobs|, i requires 0 <= i < |jobs| => JobId(jobs[i]))
  }

  function ReplyIds(replies: seq<Json>): (ids: seq<Json>)
    ensures |ids| == |replies|
  {
    seq(|replies|, i requires 0 <= i < |replies| => Field(replies[i], "id"))
  }

  /** A response in JSON-RPC 2.0: either a result or an error, to this id. */
  predicate Responds(reply: Json, id: Json) {
    && Get(reply, "jsonrpc") == Some(Str("2.0")) && Get(reply, "id") == Some(id)
    && (Get(reply, "result").Some? <==> Get(reply, "error").None?)
  }

  predicate Sayable(job: Job) {
    job.Said? ==> Responds(job.reply, Null) && Field(Field(job.reply, "error"), "code") == Num(PARSE_ERROR)
  }

  /** A line is answered exactly when it is no JSON, or a request with an id that is not
      null and a method; so no notification, response or list of requests is. */
  lemma AcceptedExact(c: Codec, line: string)
    ensures var job := McpReply(c, line);
            && (job.Some? && job.value.Said? <==> !Blank(line) && c.parse(line).Err?)
            && (forall id, name, params :: job == Some(Ask(id, name, params))
                 <==> !Blank(line) && c.parse(line).Ok? && !id.Null?
                      && Get(c.parse(line).value, "id") == Some(id)
                      && Get(c.parse(line).value, "method") == Some(Str(name))
                      && params == Field(c.parse(line).value, "params"))
            && (job.Some? ==> Sayable(job.value))
  {
  }

  /** Whatever the app says, a reply is a response with the id of what it answers. */
  lemma ReplyResponds(c: Codec, version: string, job: Job, outcome: Result<Json, string>)
    requires Sayable(job)
    ensures Responds(Reply(c, version, job, outcome), JobId(job))
  {
    hide Initialize, McpTools, ToolAnswer;
  }

  lemma {:induction false} JobsSayable(c: Codec, lines: seq<string>)
    ensures forall job :: job in Jobs(c, lines) ==> Sayable(job)
  {
    hide Sayable, McpReply;
    if lines != [] {
      JobsSayable(c, lines[..|lines| - 1]);
      AcceptedExact(c, lines[|lines| - 1]);
    }
  }

  lemma ReplyIdsAre(c: Codec, version: string, jobs: seq<Job>, replies: seq<Json>)
    requires AllAnswer(c, version, jobs, replies) && forall job :: job in jobs ==> Sayable(job)
    ensures ReplyIds(replies) == JobIds(jobs)
  {
    hide Reply, Sayable;
    forall i | 0 <= i < |jobs| ensures Field(replies[i], "id") == JobId(jobs[i]) {
      assert Answers(c, version, jobs[i], replies[i]);
      var outcome :| replies[i] == Reply(c, version, jobs[i], outcome);
      ReplyResponds(c, version, jobs[i], outcome);
    }
  }

  /** One reply each, so one reply with each id. */
  lemma Served(c: Codec, version: string, lines: seq<string>, answered: seq<Job>, output: seq<Json>)
    requires AllAnswer(c, version, answered, output) && multiset(answered) == multiset(Jobs(c, lines))
    ensures multiset(ReplyIds(output)) == multiset(JobIds(Jobs(c, lines)))
  {
    hide AllAnswer, ReplyIds, JobIds, Jobs, Sayable;
    JobsSayable(c, lines);
    forall job | job in answered ensures Sayable(job) {
      assert job in multiset(answered);
    }
    ReplyIdsAre(c, version, answered, output);
    JobIdsPermute(answered, Jobs(c, lines));
  }

  lemma {:induction false} JobIdsPermute(a: seq<Job>, b: seq<Job>)
    requires multiset(a) == multiset(b)
    ensures multiset(JobIds(a)) == multiset(JobIds(b))
  {
    hide JobIds;
    assert |a| == |multiset(a)| && |b| == |multiset(b)|;
    if a != [] {
      assert a[0] in multiset(b);
      var i :| 0 <= i < |b| && b[i] == a[0];
      var fewer, rest := a[..0] + a[1..], b[..i] + b[i + 1..];
      Without(a, 0);
      Without(b, i);
      Cancel(multiset(fewer), multiset(rest), multiset([a[0]]));
      JobIdsPermute(fewer, rest);
      JobIdsWithout(a, 0);
      JobIdsWithout(b, i);
    }
  }

  lemma Cancel(a: multiset<Job>, b: multiset<Job>, common: multiset<Job>)
    requires a + common == b + common
    ensures a == b
  {
    forall job ensures a[job] == b[job] {
      assert (a + common)[job] == (b + common)[job];
    }
  }

  lemma JobIdsWithout(b: seq<Job>, i: nat)
    requires i < |b|
    ensures multiset(JobIds(b)) == multiset(JobIds(b[..i] + b[i + 1..])) + multiset([JobId(b[i])])
  {
    var before, after := JobIds(b[..i]), JobIds(b[i + 1..]);
    assert JobIds(b) == before + [JobId(b[i])] + after;
    assert JobIds(b[..i] + b[i + 1..]) == before + after;
  }

  // The relay to the app.

  /** The app's tools: what they are, and what a call of one gives. */
  datatype Host = Host(specs: seq<ToolSpec>, call: (string, Json) -> Result<Json, string>)

  /** What the app answers to a line on its socket. */
  function Answer(c: Codec, host: Host, line: string): Json {
    match c.parse(line)
    case Err(e) => Obj(map["id" := Null, "error" := Str("bad request: " + e)])
    case Ok(request) =>
      var id := Field(request, "id");
      var asked := AsStr(Field(request, "method"));
      if asked == Some("specs") then
        Obj(map["id" := id, "result" := Arr(Printed(host.specs, SpecJson))])
      else if asked == Some("call") then
        (match AsStr(Field(request, "name"))
         case None => Obj(map["id" := id, "error" := Str("call needs a tool name")])
         case Some(name) =>
           match host.call(name, OrEmpty(Field(request, "input")))
           case Ok(result) => Obj(map["id" := id, "result" := result])
           case Err(error) => Obj(map["id" := id, "error" := Str(error)]))
      else Obj(map["id" := id, "error" := Str("unknown method")])
  }

  /** What a connection replies to the bytes sent on it: an answer to the first line that
      is not blank. */
  function Connection(c: Codec, host: Host, lines: seq<string>): Option<Json> {
    if lines == [] then None
    else if Blank(lines[0]) then Connection(c, host, lines[1..])
    else Some(Answer(c, host, lines[0]))
  }

  /** What the server makes of the line that came back. */
  function Understood(c: Codec, lines: seq<string>): Result<Json, string> {
    if lines == [] then Err("the mail app closed the tool bridge")
    else
      match c.parse(lines[0])
      case Err(e) => Err("bad reply from the mail app: " + e)
      case Ok(reply) =>
        match Get(reply, "error")
        case Some(Str(error)) => Err(error)
        case Some(error) => if error.Null? then Ok(Field(reply, "result")) else Err(c.show(error))
        case None => Ok(Field(reply, "result"))
  }

  /** A request sent over the socket and its reply read back. */
  function Request(c: Codec, host: Host, body: Json): Result<Json, string> {
    match Connection(c, host, Lines(c.show(body) + "\n"))
    case None => Understood(c, [])
    case Some(reply) => Understood(c, Lines(c.show(reply) + "\n"))
  }

  /** A printed value is the one line sent, and not a blank one. */
  lemma OneLineSent(c: Codec, j: Json)
    requires Faithful(c)
    ensures Lines(c.show(j) + "\n") == [c.show(j)] && !Blank(c.show(j)) && c.parse(c.show(j)) == Ok(j)
  {
    var line := c.show(j);
    assert c.parse(line) == Ok(j);
    LineEndUnique(line + "\n", |line|);
    var sent := line + "\n";
    assert sent[..|line| + 1] == sent && sent[|line| + 1..] == "";
    assert Pieces(sent) == [sent];
    assert sent[..|line|] == line;
    assert |line| > 0 ==> sent[|sent| - 2] in line;
    assert StripLineEnd(sent) == line;
    assert [sent][1..] == [];
  }

  /** The relay loses nothing and adds nothing: the server is told exactly what the app's
      tool gave for the name and the arguments of the call. */
  lemma CallRelayed(c: Codec, host: Host, params: Json)
    requires Faithful(c)
    ensures var name := AsStr(Field(params, "name"));
            var input := Field(params, "arguments");
            Request(c, host, CallBody(params))
            == host.call(if name.Some? then name.value else "", if input == Null then Obj(map[]) else input)
  {
    hide Lines, Blank;
    var body := CallBody(params);
    OneLineSent(c, body);
    var reply := Answer(c, host, c.show(body));
    OneLineSent(c, reply);
  }

  /** What the other requests are answered: the protocol version asked for, or the server's own;
      nothing to a ping; and the errors with the codes section 5.1 of JSON-RPC 2.0 gives them. */
  lemma RepliesExact(c: Codec, version: string, id: Json, name: string, params: Json, outcome: Result<Json, string>)
    ensures var reply := Reply(c, version, Ask(id, name, params), outcome);
            var result, error := Field(reply, "result"), Field(reply, "error");
            match name
            case "initialize" =>
              && Field(result, "protocolVersion")
                 == (if Field(params, "protocolVersion").Str? then Field(params, "protocolVersion")
                     else Str("2025-06-18"))
              && Field(Field(result, "capabilities"), "tools") == Obj(map[])
              && Field(result, "serverInfo") == Obj(map["name" := Str("penguin-mail"), "version" := Str(version)])
            case "ping" => result == Obj(map[])
            case "tools/list" =>
              outcome.Err? ==> Field(error, "code") == Num(-32603) && Field(error, "message") == Str(outcome.error)
            case "tools/call" => error == Null
            case _ => Field(error, "code") == Num(-32601) && Field(error, "message") == Str("method not found: " + name)
  {
  }

  /** A line that is no JSON is answered with a parse error and no id. */
  lemma UnreadExact(c: Codec, line: string)
    requires !Blank(line) && c.parse(line).Err?
    ensures match McpReply(c, line)
            case Some(Said(reply)) =>
              && Get(reply, "id") == Some(Null) && Field(Field(reply, "error"), "code") == Num(-32700)
              && Field(Field(reply, "error"), "message") == Str("parse error: " + c.parse(line).error)
            case _ => false
  {
  }

  /** How a tool is listed, and the forms its spec is read from. */
  lemma ListedAs(spec: ToolSpec)
    ensures SpecOf(SpecJson(spec)) == Some(spec)
    ensures SpecOf(Arr([Str(spec.name), Str(spec.description), spec.schema])) == Some(spec)
    ensures var tool := ToolJson(spec);
            && Field(tool, "name") == Str(spec.name) && Field(tool, "description") == Str(spec.description)
            && Field(tool, "inputSchema") == spec.schema && |tool.fields| == 3
  {
    assert ToolJson(spec).fields.Keys == {"name", "description", "inputSchema"};
  }

  /** What the model reads in a tool's answer: the text of the outcome, or its JSON, or the
      error, and whether it is one. */
  ghost predicate Says(c: Codec, answer: Json, outcome: Result<Json, string>) {
    && Field(answer, "isError") == Bool(outcome.Err?)
    && exists text :: Field(answer, "content") == Arr([Obj(map["type" := Str("text"), "text" := Str(text)])])
         && match outcome
            case Err(error) => text == error
            case Ok(Str(said)) => text == said
            case Ok(value) => c.parse(text) == Ok(value)
  }

  lemma AnswerSays(c: Codec, outcome: Result<Json, string>)
    requires Faithful(c)
    ensures Says(c, ToolAnswer(c, outcome), outcome)
  {
    var text := match outcome case Err(error) => error case Ok(Str(said)) => said case Ok(value) => c.show(value);
    assert Field(ToolAnswer(c, outcome), "content") == Arr([Obj(map["type" := Str("text"), "text" := Str(text)])]);
  }

  lemma CallReplied(c: Codec, version: string, id: Json, params: Json, outcome: Result<Json, string>)
    ensures Field(Reply(c, version, Ask(id, "tools/call", params), outcome), "result") == ToolAnswer(c, outcome)
  {
    hide ToolAnswer;
  }

  /** A call of a tool is answered with what the app's tool gave: its text, or the JSON of
      anything else, and marked as an error exactly when the tool failed. */
  lemma CallAnswered(c: Codec, host: Host, version: string, id: Json, params: Json)
    requires Faithful(c)
    ensures var name := AsStr(Field(params, "name"));
            var input := Field(params, "arguments");
            var outcome :=
              host.call(if name.Some? then name.value else "", if input == Null then Obj(map[]) else input);
            Says(c, Field(Reply(c, version, Ask(id, "tools/call", params), Request(c, host, CallBody(params))),
                          "result"), outcome)
  {
    hide Request, CallBody, Faithful, OrEmpty, Says, Reply, ToolAnswer;
    CallRelayed(c, host, params);
    var outcome := Request(c, host, CallBody(params));
    CallReplied(c, version, id, params, outcome);
    AnswerSays(c, outcome);
  }

  lemma {:induction false} SpecsRead(specs: seq<ToolSpec>)
    ensures SpecsOf(Printed(specs, SpecJson)) == Some(specs)
  {
    if specs != [] {
      var items := Printed(specs, SpecJson);
      assert items[1..] == Printed(specs[1..], SpecJson);
      SpecsRead(specs[1..]);
      assert [specs[0]] + specs[1..] == specs;
    }
  }

  /** The server lists the app's tools, each with its name, its words and its schema. */
  lemma ToolsListed(c: Codec, host: Host, version: string, id: Json, params: Json)
    requires Faithful(c)
    ensures Reply(c, version, Ask(id, "tools/list", params), Request(c, host, SpecsBody()))
            == RpcResult(id, Obj(map["tools" := Arr(Printed(host.specs, ToolJson))]))
  {
    hide Lines, Blank;
    var body := SpecsBody();
    OneLineSent(c, body);
    var reply := Answer(c, host, c.show(body));
    OneLineSent(c, reply);
    SpecsRead(host.specs);
  }
}
