/** Writing events as `event:` and `data:` lines, and when reading them back gives the
    same events. */
module SseWriting {
  import opened Text
  import opened Sse

  /** The lines one event is written as, each with its line feed. */
  function WrittenLines(e: SseEvent): seq<string> {
    (if e.event == "" then [] else ["event: " + e.event + "\n"]) + DataLines(Split(e.data)) + ["\n"]
  }

  function DataLines(data: seq<string>): seq<string> {
    if data == [] then [] else ["data: " + data[0] + "\n"] + DataLines(data[1..])
  }

  function AllLines(events: seq<SseEvent>): seq<string> {
    if events == [] then [] else WrittenLines(events[0]) + AllLines(events[1..])
  }

  function Written(events: seq<SseEvent>): string {
    Flat(AllLines(events))
  }

  function ReadBack(events: seq<SseEvent>): seq<SseEvent> {
    Events(StreamLines(Written(events)))
  }

  /** An event as a reader gets it: a carriage return at the end of a line is lost. */
  function Received(e: SseEvent): SseEvent {
    SseEvent(DropCr(e.event), Join(DropAll(Split(e.data)), "\n"))
  }

  function DropAll(lines: seq<string>): (dropped: seq<string>)
    ensures |dropped| == |lines|
  {
    if lines == [] then [] else [DropCr(lines[0])] + DropAll(lines[1..])
  }

  function ReceivedAll(events: seq<SseEvent>): (received: seq<SseEvent>)
    ensures |received| == |events|
  {
    if events == [] then [] else [Received(events[0])] + ReceivedAll(events[1..])
  }

  /** An event the format can carry: no line feed in its name, and no carriage return
      at the end of its name or of a line of its data. */
  ghost predicate Carried(e: SseEvent) {
    && '\n' !in e.event && DropCr(e.event) == e.event
    && DropAll(Split(e.data)) == Split(e.data)
  }

  // ---- The lines read are the lines written

  ghost predicate FeedlessNames(events: seq<SseEvent>) {
    forall i :: 0 <= i < |events| ==> '\n' !in events[i].event
  }

  ghost predicate FedLine(line: string) {
    OneLine(line) && line[|line| - 1] == '\n'
  }

  lemma {:induction false} FedCut(lines: seq<string>)
    requires forall i :: 0 <= i < |lines| ==> FedLine(lines[i])
    ensures StreamLines(Flat(lines)) == CutAll(lines)
  {
    if lines != [] {
      FedCut(lines[1..]);
      FirstCut(lines[0], Flat(lines[1..]));
    }
  }

  lemma {:induction false} CutAppend(a: seq<string>, b: seq<string>)
    ensures CutAll(a + b) == CutAll(a) + CutAll(b)
  {
    if a == [] {
      assert a + b == b;
    } else {
      assert (a + b)[1..] == a[1..] + b;
      CutAppend(a[1..], b);
    }
  }

  lemma WrittenLine(head: string, line: string)
    requires head != "" && '\n' !in head && head[|head| - 1] == ' ' && '\n' !in line
    ensures FedLine(head + line + "\n") && CutLine(head + line + "\n") == head + DropCr(line)
  {
    var piece := head + line + "\n";
    assert piece[..|piece| - 1] == head + line;
    if line != "" {
      assert (head + line)[..|head + line| - 1] == head + line[..|line| - 1];
    } else {
      assert head + line == head;
    }
  }

  lemma {:induction false} DataLinesFed(data: seq<string>)
    requires forall i :: 0 <= i < |data| ==> '\n' !in data[i]
    ensures forall i :: 0 <= i < |DataLines(data)| ==> FedLine(DataLines(data)[i])
  {
    if data != [] {
      WrittenLine("data: ", data[0]);
      DataLinesFed(data[1..]);
    }
  }

  lemma {:induction false} AllFed(events: seq<SseEvent>)
    requires FeedlessNames(events)
    ensures forall i :: 0 <= i < |AllLines(events)| ==> FedLine(AllLines(events)[i])
  {
    if events != [] {
      var e := events[0];
      SplitLines(e.data);
      DataLinesFed(Split(e.data));
      WrittenLine("event: ", e.event);
      AllFed(events[1..]);
    }
  }

  // ---- What a block of written lines spells

  lemma FieldOf(head: string, rest: string)
    requires Colon(head) == |head| && |rest| >= 2 && rest[0] == ':' && rest[1] == ' '
    ensures Field(head + rest) == (head, rest[2..])
  {
    var line := head + rest;
    ColonAt(head, rest);
    assert line[|head| + 1] == rest[1];
    assert line[..|head|] == head && line[|head| + 2..] == rest[2..];
  }

  lemma {:induction false} ColonAt(head: string, rest: string)
    requires Colon(head) == |head| && rest != "" && rest[0] == ':'
    ensures Colon(head + rest) == |head|
  {
    if head != "" {
      assert (head + rest)[1..] == head[1..] + rest;
      ColonAt(head[1..], rest);
    } else {
      assert head + rest == rest;
    }
  }

  /** The lines of one event as they are read, up to the blank line. */
  function ReadLines(e: SseEvent): seq<string> {
    (if e.event == "" then [] else ["event: " + DropCr(e.event)]) + DataBlock(DropAll(Split(e.data)))
  }

  function DataBlock(values: seq<string>): (lines: seq<string>)
    ensures |lines| == |values|
  {
    if values == [] then [] else ["data: " + values[0]] + DataBlock(values[1..])
  }

  lemma {:induction false} DataBlockCut(data: seq<string>)
    requires forall i :: 0 <= i < |data| ==> '\n' !in data[i]
    ensures CutAll(DataLines(data)) == DataBlock(DropAll(data)) && NoBlank(DataBlock(DropAll(data)))
  {
    hide CutLine, DropCr;
    if data != [] {
      WrittenLine("data: ", data[0]);
      DataBlockCut(data[1..]);
      DataLinesFirst(data);
    }
  }

  lemma DataLinesFirst(data: seq<string>)
    requires data != []
    ensures DataLines(data)[0] == "data: " + data[0] + "\n" && DataLines(data)[1..] == DataLines(data[1..])
  {
  }

  lemma ReadLinesCut(e: SseEvent)
    requires '\n' !in e.event
    ensures CutAll(WrittenLines(e)) == ReadLines(e) + [""] && NoBlank(ReadLines(e))
  {
    hide Text.Split, DataLines, DataBlock, DropAll;
    SplitLines(e.data);
    DataBlockCut(Split(e.data));
    WrittenLine("event: ", e.event);
    var name := if e.event == "" then [] else ["event: " + e.event + "\n"];
    assert CutAll(name) == if e.event == "" then [] else ["event: " + DropCr(e.event)];
    assert CutAll(["\n"]) == [""];
    CutAppend(name, DataLines(Split(e.data)));
    CutAppend(name + DataLines(Split(e.data)), ["\n"]);
  }

  lemma WrittenFields(value: string)
    ensures Field("data: " + value) == ("data", value)
    ensures Field("event: " + value) == ("event", value)
  {
    var rest := ": " + value;
    assert rest[2..] == value;
    FieldOf("data", rest);
    FieldOf("event", rest);
    assert "data: " + value == "data" + rest;
    assert "event: " + value == "event" + rest;
  }

  lemma {:induction false} DataBlockSpells(block: seq<string>, values: seq<string>)
    ensures DataOf(block + DataBlock(values)) == DataOf(block) + values
    ensures NameOf(block + DataBlock(values)) == NameOf(block)
    decreases |values|
  {
    if values == [] {
      assert block + DataBlock(values) == block;
      assert DataOf(block) + values == DataOf(block);
    } else {
      var line, rest := "data: " + values[0], values[1..];
      var longer := block + [line];
      assert DataOf(longer) == DataOf(block) + [values[0]] && NameOf(longer) == NameOf(block) by {
        WrittenFields(values[0]);
        BlockStep(block, line);
      }
      DataBlockSpells(longer, rest);
      Regroup(block, [line], DataBlock(rest));
      Regroup(DataOf(block), [values[0]], rest);
      assert values == [values[0]] + rest;
    }
  }

  lemma ReadLinesSpell(e: SseEvent)
    ensures BlockEvents(ReadLines(e)) == [Received(e)]
  {
    var name := if e.event == "" then [] else ["event: " + DropCr(e.event)];
    assert NameOf(name) == DropCr(e.event) && DataOf(name) == [] by {
      WrittenFields(DropCr(e.event));
      BlockStep([], "event: " + DropCr(e.event));
      assert [] + ["event: " + DropCr(e.event)] == ["event: " + DropCr(e.event)];
    }
    DataBlockSpells(name, DropAll(Split(e.data)));
    assert ReadLines(e) == name + DataBlock(DropAll(Split(e.data)));
    assert DataOf(name) + DropAll(Split(e.data)) == DropAll(Split(e.data));
  }

  /** What is written is read back, but for carriage returns at the ends of lines. */
  lemma {:induction false} ReadBackReceived(events: seq<SseEvent>)
    requires FeedlessNames(events)
    ensures ReadBack(events) == ReceivedAll(events)
  {
    AllFed(events);
    FedCut(AllLines(events));
    CutEvents(events);
  }

  lemma NothingRead()
    ensures BlockEvents([]) == []
  {
  }

  lemma {:induction false} CutEvents(events: seq<SseEvent>)
    requires FeedlessNames(events)
    ensures Events(CutAll(AllLines(events))) == ReceivedAll(events)
  {
    hide BlockEvents, ReadLines, WrittenLines;
    if events == [] {
      EventsAtEnd([]);
      NothingRead();
    } else {
      var e, rest := events[0], events[1..];
      CutAppend(WrittenLines(e), AllLines(rest));
      ReadLinesCut(e);
      var block, more := ReadLines(e), CutAll(AllLines(rest));
      assert (block + [""]) + more == block + ([""] + more);
      EventsAtBlank(block, more);
      ReadLinesSpell(e);
      CutEvents(rest);
    }
  }

  // ---- Exactly which events come back

  lemma {:induction false} DroppedShorter(lines: seq<string>)
    ensures |Join(DropAll(lines), "\n")| <= |Join(lines, "\n")|
    ensures DropAll(lines) != lines ==> |Join(DropAll(lines), "\n")| < |Join(lines, "\n")|
  {
    if lines != [] {
      DroppedShorter(lines[1..]);
      assert DropAll(lines)[1..] == DropAll(lines[1..]);
      assert lines == [lines[0]] + lines[1..];
    }
  }

  lemma ReceivedSame(e: SseEvent)
    requires '\n' !in e.event
    ensures Received(e) == e <==> Carried(e)
  {
    DroppedShorter(Split(e.data));
  }

  /** No name ever read holds a line feed. */
  lemma {:induction false} NamesRead(lines: seq<string>)
    requires forall i :: 0 <= i < |lines| ==> '\n' !in lines[i]
    ensures FeedlessNames(Events(lines))
    decreases |lines|
  {
    var k := FirstBlank(lines);
    var block := lines[..k];
    NameRead(block);
    assert FeedlessNames(BlockEvents(block));
    if k < |lines| {
      NamesRead(lines[k + 1..]);
    } else {
      assert block == lines;
    }
  }

  lemma {:induction false} NameRead(block: seq<string>)
    requires forall i :: 0 <= i < |block| ==> '\n' !in block[i]
    ensures '\n' !in NameOf(block)
  {
    if block != [] {
      var last := block[|block| - 1];
      assert forall i :: 0 <= i < |Field(last).1| ==> Field(last).1[i] in last;
      NameRead(block[..|block| - 1]);
    }
  }

  lemma {:induction false} CutLinesFeedless(pieces: seq<string>)
    requires forall i :: 0 <= i < |pieces| ==> OneLine(pieces[i])
    ensures forall i :: 0 <= i < |pieces| ==> '\n' !in CutAll(pieces)[i]
  {
    if pieces != [] {
      CutLinesFeedless(pieces[1..]);
      var piece := pieces[0];
      assert forall i :: 0 <= i < |CutLine(piece)| ==> CutLine(piece)[i] == piece[i];
      assert forall i :: 0 <= i < |piece| - 1 ==> piece[i] in piece[..|piece| - 1];
    }
  }

  /** Events come back from what they are written as exactly when the format can carry
      each of them. */
  lemma RoundTripExact(events: seq<SseEvent>)
    ensures ReadBack(events) == events <==> forall i :: 0 <= i < |events| ==> Carried(events[i])
  {
    if FeedlessNames(events) {
      ReadBackReceived(events);
      SameExact(events);
    } else {
      PiecesCut(Written(events));
      CutLinesFeedless(Pieces(Written(events)));
      NamesRead(StreamLines(Written(events)));
    }
  }

  lemma {:induction false} SameExact(events: seq<SseEvent>)
    requires FeedlessNames(events)
    ensures ReceivedAll(events) == events <==> forall i :: 0 <= i < |events| ==> Carried(events[i])
  {
    hide Received, Carried, Text.Split, DropAll;
    if events != [] {
      var rest := events[1..];
      SameExact(rest);
      ReceivedSame(events[0]);
      assert events == [events[0]] + rest;
      assert ReceivedAll(events) == [Received(events[0])] + ReceivedAll(rest);
      assert forall i :: 0 < i < |events| ==> events[i] == rest[i - 1];
    }
  }

  /** A carriage return that ends a line of data is lost on the way. */
  lemma ReturnLost()
    ensures ReadBack([SseEvent("", "a\r")]) == [SseEvent("", "a")]
  {
    var data := "a\r";
    LineEndUnique(data, |data|);
    assert data[..|data|] == data && Split(data) == [data];
    assert DropCr(data) == "a" && DropAll([data]) == ["a"];
    ReadBackReceived([SseEvent("", data)]);
  }
}
