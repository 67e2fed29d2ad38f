/** Reading a server-sent events stream as its bytes arrive (ai/src/sse.rs). A byte is
    written as the character of its number, so a stream is a string whatever text its
    bytes encode. */
module Sse {
  import opened Text

  datatype SseEvent = SseEvent(event: string, data: string)

  /** What the response answers when asked for more. */
  datatype Chunk = Bytes(bytes: string) | Failed

  datatype Failure = Network

  // ---- What a whole stream says

  function DropCr(line: string): string {
    if line != "" && line[|line| - 1] == '\r' then line[..|line| - 1] else line
  }

  /** One line without its line feed, nor a carriage return at its end. */
  function CutLine(piece: string): string {
    DropCr(if piece != "" && piece[|piece| - 1] == '\n' then piece[..|piece| - 1] else piece)
  }

  function CutAll(pieces: seq<string>): (lines: seq<string>)
    ensures |lines| == |pieces|
  {
    if pieces == [] then [] else [CutLine(pieces[0])] + CutAll(pieces[1..])
  }

  function StreamLines(stream: string): seq<string> {
    CutAll(Pieces(stream))
  }

  function Colon(line: string): (n: nat)
    ensures n <= |line|
  {
    if line == "" || line[0] == ':' then 0 else 1 + Colon(line[1..])
  }

  /** A line's field and its value: what stands before its first colon, and what
      stands after it without one leading space. */
  function Field(line: string): (string, string) {
    var n := Colon(line);
    if n == |line| then (line, "")
    else if n + 1 < |line| && line[n + 1] == ' ' then (line[..n], line[n + 2..])
    else (line[..n], line[n + 1..])
  }

  /** A line is a field named up to its first colon, with what follows but for one space, or
      a field without a value. */
  lemma FieldExact(name: string, value: string)
    requires ':' !in name
    ensures Field(name) == (name, "")
    ensures Field(name + ":" + value) == (name, if value != "" && value[0] == ' ' then value[1..] else value)
  {
    ColonAfter(name, "");
    assert name + "" == name;
    ColonAfter(name, ":" + value);
    var line := name + (":" + value);
    assert line == name + ":" + value;
    assert line[..|name|] == name && line[|name| + 1..] == value;
    assert value != "" ==> line[|name| + 1] == value[0] && line[|name| + 2..] == value[1..];
  }

  lemma {:induction false} ColonAfter(name: string, rest: string)
    requires ':' !in name && (rest == "" || rest[0] == ':')
    ensures Colon(name + rest) == |name|
  {
    if name == "" {
      assert name + rest == rest;
    } else {
      assert (name + rest)[1..] == name[1..] + rest;
      ColonAfter(name[1..], rest);
    }
  }

  /** The values of the `data` fields of a block of lines, in order. */
  function DataOf(block: seq<string>): seq<string> {
    if block == [] then []
    else
      var last := block[|block| - 1];
      DataOf(block[..|block| - 1]) + (if Field(last).0 == "data" then [Field(last).1] else [])
  }

  /** The value of the last `event` field of a block, or nothing. */
  function NameOf(block: seq<string>): string {
    if block == [] then ""
    else
      var last := block[|block| - 1];
      if Field(last).0 == "event" then Field(last).1 else NameOf(block[..|block| - 1])
  }

  /** The event a block of lines spells, if it holds data. */
  function BlockEvents(block: seq<string>): seq<SseEvent> {
    if DataOf(block) == [] then [] else [SseEvent(NameOf(block), Join(DataOf(block), "\n"))]
  }

  function FirstBlank(lines: seq<string>): (k: nat)
    ensures k <= |lines|
  {
    if lines == [] || lines[0] == "" then 0 else 1 + FirstBlank(lines[1..])
  }

  /** The events of a stream's lines: one block up to each blank line, and one for what
      the stream ends on. */
  function Events(lines: seq<string>): seq<SseEvent>
    decreases |lines|
  {
    var k := FirstBlank(lines);
    if k == |lines| then BlockEvents(lines) else BlockEvents(lines[..k]) + Events(lines[k + 1..])
  }

  lemma {:induction false} FirstBlankUnique(lines: seq<string>, k: nat)
    requires k <= |lines| && (forall i :: 0 <= i < k ==> lines[i] != "") && (k < |lines| ==> lines[k] == "")
    ensures FirstBlank(lines) == k
  {
    if k > 0 {
      FirstBlankUnique(lines[1..], k - 1);
    }
  }

  ghost predicate NoBlank(block: seq<string>) {
    forall i :: 0 <= i < |block| ==> block[i] != ""
  }

  lemma EventsAtBlank(block: seq<string>, more: seq<string>)
    requires NoBlank(block)
    ensures Events(block + ([""] + more)) == BlockEvents(block) + Events(more)
  {
    var lines := block + ([""] + more);
    FirstBlankUnique(lines, |block|);
    assert lines[..|block|] == block && lines[|block| + 1..] == more;
  }

  lemma EventsAtEnd(block: seq<string>)
    requires NoBlank(block)
    ensures Events(block) == BlockEvents(block)
  {
    FirstBlankUnique(block, |block|);
  }

  lemma BlockStep(block: seq<string>, line: string)
    ensures var (field, value) := Field(line);
            && NameOf(block + [line]) == (if field == "event" then value else NameOf(block))
            && DataOf(block + [line]) == DataOf(block) + (if field == "data" then [value] else [])
    ensures line != "" && line[0] == ':' ==> Field(line).0 == ""
  {
    assert (block + [line])[..|block|] == block;
  }

  // ---- The reader

  function Received(chunks: seq<Chunk>): string {
    if chunks == [] then ""
    else (if chunks[0].Bytes? then chunks[0].bytes else "") + Received(chunks[1..])
  }

  class SseReader {
    /** What the response has yet to answer; it ends after the last. */
    var response: seq<Chunk>
    var buf: string
    var event: string
    var data: seq<string>
    var finished: bool
    /** The lines of the event under way. */
    ghost var block: seq<string>

    ghost predicate Valid()
      reads this
    {
      && NoBlank(block) && event == NameOf(block) && data == DataOf(block)
      && (finished ==> response == [] && (buf == "" || buf[|buf| - 1] == '\n'))
    }

    /** Every event still to come. */
    ghost function Future(): seq<SseEvent>
      reads this
    {
      Events(block + StreamLines(buf + Received(response)))
    }

    constructor (response: seq<Chunk>)
      ensures Valid() && this.response == response && !finished
      ensures Future() == Events(StreamLines(Received(response)))
    {
      this.response := response;
      buf, event, data, finished := "", "", [], false;
      block := [];
      new;
      assert [] + StreamLines("" + Received(response)) == StreamLines(Received(response));
      assert "" + Received(response) == Received(response);
    }

    /** Completes the pending event. */
    method Dispatch() returns (done: Option<SseEvent>)
      requires Valid()
      modifies `event, `data, `block
      ensures Valid() && block == [] && Emitted(done) == BlockEvents(old(block))
    {
      if data == [] {
        done := None;
      } else {
        done := Some(SseEvent(event, Join(data, "\n")));
        data := [];
      }
      event := "";
      block := [];
    }

    /** Applies one line; a blank line completes the pending event. */
    method TakeLine(line: string) returns (done: Option<SseEvent>)
      requires Valid()
      modifies `event, `data, `block
      ensures Valid() && block == After(old(block), line) && Emitted(done) == LineEvents(old(block), line)
    {
      if line == "" {
        done := Dispatch();
        return;
      }
      done := None;
      BlockStep(block, line);
      block := block + [line];
      if line[0] == ':' {
        return;
      }
      var (field, value) := Field(line);
      if field == "event" {
        event := value;
      } else if field == "data" {
        data := data + [value];
      }
    }

    /** Takes the first whole line out of the buffer. */
    method TakeBuffered(end: nat) returns (done: Option<SseEvent>)
      requires Valid() && end < |buf| && '\n' !in buf[..end] && buf[end] == '\n'
      modifies `event, `data, `block, `buf
      ensures Valid() && old(Future()) == Emitted(done) + Future() && |buf| < |old(buf)|
    {
      var line := CutLine(buf[..end + 1]);
      LineOff(block, buf, Received(response), end);
      buf := buf[end + 1..];
      done := TakeLine(line);
    }

    /** Reads on, once the buffer holds no whole line. */
    method Refill() returns (failed: bool)
      requires Valid() && !finished && '\n' !in buf
      modifies `response, `buf, `finished
      ensures Valid() && Future() == old(Future())
      ensures if old(response) == [] then response == [] && finished && !failed
              else response == old(response)[1..] && !finished && failed == old(response)[0].Failed?
    {
      failed := false;
      if response == [] {
        finished := true;
        if buf != "" {
          LastLine(buf);
          buf := buf + "\n";
        }
        assert buf + "" == buf && old(buf) + "" == old(buf);
        return;
      }
      var answer := response[0];
      response := response[1..];
      match answer
      case Bytes(bytes) =>
        assert buf + (bytes + Received(response)) == (buf + bytes) + Received(response);
        buf := buf + bytes;
      case Failed =>
        assert "" + Received(response) == Received(response);
        failed := true;
    }

    /** Completes what the stream ended on. */
    method Finish() returns (done: Option<SseEvent>)
      requires Valid() && finished && '\n' !in buf
      modifies `event, `data, `block
      ensures Valid() && old(Future()) == Emitted(done) && Future() == []
    {
      StreamEnd(block);
      StreamEnd([]);
      assert buf == "";
      done := Dispatch();
    }

    /** The next complete event, or none once the stream ends. */
    method Next() returns (next: Result<Option<SseEvent>, Failure>)
      requires Valid()
      modifies this
      ensures Valid()
      ensures next.Ok? ==> old(Future()) == Emitted(next.value) + Future()
      ensures next == Ok(None) ==> finished && Future() == []
      ensures next.Err? ==> Future() == old(Future()) && |response| < |old(response)|
      ensures Failed !in old(response) ==> next.Ok? && Failed !in response
    {
      while true
        invariant Valid() && Future() == old(Future()) && |response| <= |old(response)|
        invariant Failed !in old(response) ==> Failed !in response
        decreases |response|, !finished, |buf|
      {
        var end := LineEnd(buf);
        if end < |buf| {
          var done := TakeBuffered(end);
          if done.Some? {
            return Ok(done);
          }
        } else if finished {
          var done := Finish();
          return Ok(done);
        } else {
          var failed := Refill();
          if failed {
            return Err(Network);
          }
        }
      }
    }

    /** Every event the stream holds, up to its end or to a failure. */
    method ReadAll() returns (events: seq<SseEvent>, failed: bool)
      requires Valid()
      modifies this
      ensures Valid() && old(Future()) == events + Future()
      ensures !failed ==> Future() == []
      ensures Failed !in old(response) ==> !failed
    {
      events := [];
      ghost var whole := Future();
      while true
        invariant Valid() && whole == events + Future()
        invariant Failed !in old(response) ==> Failed !in response
        decreases |Future()|
      {
        var next := Next();
        if next.Err? {
          return events, true;
        } else if next == Ok(None) {
          return events, false;
        }
        Regroup(events, [next.value.value], Future());
        events := events + [next.value.value];
      }
    }
  }

  /** Every event of a stream, read as its bytes arrive. */
  method ReadStream(chunks: seq<Chunk>) returns (events: seq<SseEvent>)
    requires Failed !in chunks
    ensures events == Events(StreamLines(Received(chunks)))
  {
    var reader := new SseReader(chunks);
    ghost var whole := reader.Future();
    var failed: bool;
    events, failed := reader.ReadAll();
    assert whole == events + [];
  }

  lemma StreamEnd(block: seq<string>)
    requires NoBlank(block)
    ensures Events(block + StreamLines("" + Received([]))) == BlockEvents(block)
    ensures BlockEvents([]) == []
  {
    EventsAtEnd(block);
    assert block + StreamLines("" + Received([])) == block;
  }

  lemma Regroup<T>(a: seq<T>, b: seq<T>, c: seq<T>)
    ensures a + (b + c) == (a + b) + c
  {
  }

  function Emitted(done: Option<SseEvent>): seq<SseEvent> {
    if done.None? then [] else [done.value]
  }

  /** The lines of the event under way after one more line. */
  function After(block: seq<string>, line: string): seq<string> {
    if line == "" then [] else block + [line]
  }

  /** The events one more line completes. */
  function LineEvents(block: seq<string>, line: string): seq<SseEvent> {
    if line == "" then BlockEvents(block) else []
  }

  lemma EventsStep(block: seq<string>, line: string, more: seq<string>)
    requires NoBlank(block)
    ensures Events(block + ([line] + more)) == LineEvents(block, line) + Events(After(block, line) + more)
  {
    if line == "" {
      EventsAtBlank(block, more);
      assert After(block, line) + more == more;
    } else {
      assert block + ([line] + more) == After(block, line) + more;
      assert forall events: seq<SseEvent> :: [] + events == events;
    }
  }

  /** Taking the first line out of the buffer hands it to the block under way. */
  lemma LineOff(block: seq<string>, buf: string, rest: string, end: nat)
    requires end < |buf| && '\n' !in buf[..end] && buf[end] == '\n' && NoBlank(block)
    ensures var line, more := CutLine(buf[..end + 1]), StreamLines(buf[end + 1..] + rest);
            Events(block + StreamLines(buf + rest)) == LineEvents(block, line) + Events(After(block, line) + more)
  {
    var first, more := buf[..end + 1], buf[end + 1..] + rest;
    assert buf + rest == first + more;
    assert first[..end] == buf[..end];
    FirstCut(first, more);
    EventsStep(block, CutLine(first), StreamLines(more));
  }

  lemma FirstCut(first: string, more: string)
    requires OneLine(first) && first[|first| - 1] == '\n'
    ensures StreamLines(first + more) == [CutLine(first)] + StreamLines(more)
  {
    FirstPiece(first, more, |first| - 1);
    assert ([first] + Pieces(more))[1..] == Pieces(more);
  }

  /** The line feed put after a last line without one changes nothing. */
  lemma LastLine(buf: string)
    requires buf != "" && '\n' !in buf
    ensures StreamLines(buf + "\n") == StreamLines(buf)
  {
    LineEndUnique(buf, |buf|);
    assert (buf + "\n")[..|buf|] == buf;
    assert buf[|buf| - 1] in buf;
    FirstCut(buf + "\n", "");
    assert buf + "\n" + "" == buf + "\n";
    assert Pieces(buf) == [buf];
  }
}
