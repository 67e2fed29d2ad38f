/** The chat sent to the model each round: whole turns, the oldest dropped when the chat
    outgrows its budget. */
module ChatHistory {
  import opened Text

  /** `calls` and `results` name the tool calls a message makes and answers. */
  datatype Message = Message(user: bool, calls: seq<string>, results: seq<string>, body: string)

  /** A message and its length, measured when it arrived. */
  datatype Entry = Entry(message: Message, size: nat)

  type Turn = seq<Entry>

  datatype Chat = Chat(turns: seq<Turn>, open: Option<Turn>)

  type Measure = Message -> nat

  const EMPTY := Chat([], None)

  function Size(turn: Turn): nat {
    if turn == [] then 0 else turn[0].size + Size(turn[1..])
  }

  function SizeAll(turns: seq<Turn>): nat {
    if turns == [] then 0 else Size(turns[0]) + SizeAll(turns[1..])
  }

  function OpenTurn(chat: Chat): Turn {
    match chat.open case Some(turn) => turn case None => []
  }

  function ChatSize(chat: Chat): nat {
    SizeAll(chat.turns) + Size(OpenTurn(chat))
  }

  function NewEntry(measure: Measure, message: Message): Entry {
    Entry(message, measure(message))
  }

  function AllEntries(turns: seq<Turn>): seq<Entry> {
    if turns == [] then [] else turns[0] + AllEntries(turns[1..])
  }

  function Told(entries: seq<Entry>): (messages: seq<Message>)
    ensures |messages| == |entries|
  {
    seq(|entries|, i requires 0 <= i < |entries| => entries[i].message)
  }

  /** Every message to send, oldest first. */
  function Messages(chat: Chat): seq<Message> {
    Told(AllEntries(chat.turns) + OpenTurn(chat))
  }

  /** The last message of the user's side. */
  function CachePoint(messages: seq<Message>): Option<nat> {
    if messages == [] then None
    else if messages[|messages| - 1].user then Some(|messages| - 1)
    else CachePoint(messages[..|messages| - 1])
  }

  /** Drops whole turns from the front until the chat fits, and never the open one. */
  function Trimmed(budget: nat, chat: Chat): Chat
    decreases |chat.turns|
  {
    if ChatSize(chat) > budget && chat.turns != [] then Trimmed(budget, chat.(turns := chat.turns[1..])) else chat
  }

  function Mapped(measure: Measure, image: Message -> Option<Message>, turn: Turn): Turn {
    if turn == [] then []
    else
      var rest := Mapped(measure, image, turn[1..]);
      match image(turn[0].message) case Some(m) => [NewEntry(measure, m)] + rest case None => rest
  }

  function MappedAll(measure: Measure, image: Message -> Option<Message>, turns: seq<Turn>): (mapped: seq<Turn>)
    ensures |mapped| == |turns|
  {
    seq(|turns|, i requires 0 <= i < |turns| => Mapped(measure, image, turns[i]))
  }

  datatype Step = Begin(question: Message) | Push(message: Message) | Commit | Rollback
                | MapMessages(image: Message -> Option<Message>)

  /** A step of a chat that drops nothing. */
  function Kept(measure: Measure, chat: Chat, step: Step): Chat {
    match step
    case Begin(question) => Chat(chat.turns, Some([NewEntry(measure, question)]))
    case Push(message) =>
      if chat.open.None? then chat else chat.(open := Some(chat.open.value + [NewEntry(measure, message)]))
    case Commit => if chat.open.None? then chat else Chat(chat.turns + [chat.open.value], None)
    case Rollback => chat.(open := None)
    case MapMessages(image) => Chat(MappedAll(measure, image, chat.turns), None)
  }

  /** The same step within the budget: only a turn's end and its taking back do not trim. */
  function After(measure: Measure, budget: nat, chat: Chat, step: Step): Chat {
    var next := Kept(measure, chat, step);
    if step.Commit? || step.Rollback? || (step.Push? && chat.open.None?) then next else Trimmed(budget, next)
  }

  function Run(measure: Measure, budget: nat, steps: seq<Step>): Chat {
    if steps == [] then EMPTY
    else After(measure, budget, Run(measure, budget, steps[..|steps| - 1]), steps[|steps| - 1])
  }

  function Whole(measure: Measure, steps: seq<Step>): Chat {
    if steps == [] then EMPTY else Kept(measure, Whole(measure, steps[..|steps| - 1]), steps[|steps| - 1])
  }

  // What trimming keeps.

  /** The last `n` turns. */
  function Last(turns: seq<Turn>, n: nat): seq<Turn>
    requires n <= |turns|
  {
    turns[|turns| - n..]
  }

  predicate Suffix(kept: seq<Turn>, all: seq<Turn>) {
    |kept| <= |all| && kept == Last(all, |kept|)
  }

  /** Trimming keeps the longest run of last turns that fits beside the open one, whole. */
  lemma {:induction false} TrimLongest(budget: nat, chat: Chat)
    ensures var after := Trimmed(budget, chat);
            && after.open == chat.open && Suffix(after.turns, chat.turns)
            && (ChatSize(after) <= budget || after.turns == [])
            && (forall n :: |after.turns| < n <= |chat.turns| ==>
                  ChatSize(Chat(Last(chat.turns, n), chat.open)) > budget)
    decreases |chat.turns|
  {
    hide ChatSize;
    var after := Trimmed(budget, chat);
    if ChatSize(chat) > budget && chat.turns != [] {
      var fewer := chat.(turns := chat.turns[1..]);
      TrimLongest(budget, fewer);
      forall n | |after.turns| < n <= |chat.turns| ensures ChatSize(Chat(Last(chat.turns, n), chat.open)) > budget {
        if n == |chat.turns| {
          assert Chat(Last(chat.turns, n), chat.open) == chat;
        } else {
          assert Last(chat.turns, n) == Last(fewer.turns, n);
        }
      }
      assert Last(chat.turns, |after.turns|) == Last(fewer.turns, |after.turns|);
    } else {
      assert Last(chat.turns, |chat.turns|) == chat.turns;
    }
  }

  // What every run keeps.

  /** The chat fits, or holds one turn at most. */
  predicate Fits(budget: nat, chat: Chat) {
    ChatSize(chat) <= budget || |chat.turns| + (if chat.open.Some? then 1 else 0) <= 1
  }

  lemma {:induction false} SizeAppend(turns: seq<Turn>, turn: Turn)
    ensures SizeAll(turns + [turn]) == SizeAll(turns) + Size(turn)
  {
    if turns == [] {
      assert [turn][1..] == [];
    } else {
      assert (turns + [turn])[1..] == turns[1..] + [turn];
      SizeAppend(turns[1..], turn);
    }
  }

  lemma SuffixKept(measure: Measure, chat: Chat, whole: Chat, step: Step)
    requires Suffix(chat.turns, whole.turns) && chat.open == whole.open
    ensures var next, kept := Kept(measure, chat, step), Kept(measure, whole, step);
            Suffix(next.turns, kept.turns) && next.open == kept.open
  {
    hide Mapped;
    var next, kept := Kept(measure, chat, step), Kept(measure, whole, step);
    var n, m := |next.turns|, |kept.turns|;
    forall i | 0 <= i < n ensures next.turns[i] == kept.turns[m - n + i] {
      assert i < |chat.turns| ==> chat.turns[i] == whole.turns[|whole.turns| - |chat.turns| + i];
    }
    assert next.turns == Last(kept.turns, n);
  }

  lemma SuffixOn(fewer: seq<Turn>, some: seq<Turn>, all: seq<Turn>)
    requires Suffix(fewer, some) && Suffix(some, all)
    ensures Suffix(fewer, all)
  {
    assert Last(all, |fewer|) == Last(some, |fewer|);
  }

  lemma FitsStep(measure: Measure, budget: nat, chat: Chat, step: Step)
    requires Fits(budget, chat)
    ensures Fits(budget, After(measure, budget, chat, step))
  {
    hide SizeAll, Trimmed, Mapped;
    TrimLongest(budget, Kept(measure, chat, step));
    if step.Commit? && chat.open.Some? {
      SizeAppend(chat.turns, chat.open.value);
    }
  }

  lemma SuffixStep(measure: Measure, budget: nat, chat: Chat, whole: Chat, step: Step)
    requires Suffix(chat.turns, whole.turns) && chat.open == whole.open && Fits(budget, chat)
    ensures var after, kept := After(measure, budget, chat, step), Kept(measure, whole, step);
            Suffix(after.turns, kept.turns) && after.open == kept.open && Fits(budget, after)
  {
    hide Trimmed, Kept, Fits, Suffix, ChatSize;
    var next, kept := Kept(measure, chat, step), Kept(measure, whole, step);
    SuffixKept(measure, chat, whole, step);
    TrimLongest(budget, next);
    SuffixOn(Trimmed(budget, next).turns, next.turns, kept.turns);
    FitsStep(measure, budget, chat, step);
  }

  /** In every run the chat holds the last of the committed turns, whole and in order, and
      the turn under way; it fits the budget, or holds one turn at most. */
  lemma {:induction false} RunKeepsLast(measure: Measure, budget: nat, steps: seq<Step>)
    ensures var chat, whole := Run(measure, budget, steps), Whole(measure, steps);
            && Suffix(chat.turns, whole.turns) && chat.open == whole.open
            && (ChatSize(chat) <= budget || |chat.turns| + (if chat.open.Some? then 1 else 0) <= 1)
  {
    if steps == [] {
    } else {
      var before := steps[..|steps| - 1];
      RunKeepsLast(measure, budget, before);
      SuffixStep(measure, budget, Run(measure, budget, before), Whole(measure, before), steps[|steps| - 1]);
    }
  }

  // What is sent.

  lemma {:induction false} EntriesAppend(turns: seq<Turn>, turn: Turn)
    ensures AllEntries(turns + [turn]) == AllEntries(turns) + turn
  {
    if turns == [] {
      assert [turn][1..] == [] && turns + [turn] == [turn];
    } else {
      assert (turns + [turn])[1..] == turns[1..] + [turn];
      EntriesAppend(turns[1..], turn);
    }
  }

  /** The messages that `image` keeps, each as its image, in order. */
  function Images(image: Message -> Option<Message>, messages: seq<Message>): seq<Message> {
    if messages == [] then []
    else
      Images(image, messages[..|messages| - 1])
      + match image(messages[|messages| - 1]) case Some(m) => [m] case None => []
  }

  lemma {:induction false} ImagesAppend(image: Message -> Option<Message>, a: seq<Message>, b: seq<Message>)
    ensures Images(image, a + b) == Images(image, a) + Images(image, b)
  {
    if b == [] {
      assert a + b == a;
    } else {
      var fewer := b[..|b| - 1];
      assert (a + b)[..|a + b| - 1] == a + fewer;
      ImagesAppend(image, a, fewer);
    }
  }

  lemma {:induction false} MappedTold(measure: Measure, image: Message -> Option<Message>, turn: Turn)
    ensures Told(Mapped(measure, image, turn)) == Images(image, Told(turn))
  {
    if turn != [] {
      var first, rest := turn[0].message, turn[1..];
      MappedTold(measure, image, rest);
      ImagesAppend(image, [first], Told(rest));
      assert Told(turn) == [first] + Told(rest);
      assert [first][..0] == [] && Images(image, [first]) == match image(first) case Some(m) => [m] case None => [];
    }
  }

  lemma {:induction false} AllMappedTold(measure: Measure, image: Message -> Option<Message>, turns: seq<Turn>)
    ensures Told(AllEntries(MappedAll(measure, image, turns))) == Images(image, Told(AllEntries(turns)))
  {
    hide Mapped, Images;
    if turns == [] {
      NoImages(image);
    } else {
      var mapped, rest := MappedAll(measure, image, turns), turns[1..];
      assert mapped[1..] == MappedAll(measure, image, rest);
      AllMappedTold(measure, image, rest);
      MappedTold(measure, image, turns[0]);
      ImagesAppend(image, Told(turns[0]), Told(AllEntries(rest)));
      assert Told(AllEntries(turns)) == Told(turns[0]) + Told(AllEntries(rest));
      assert Told(AllEntries(mapped)) == Told(mapped[0]) + Told(AllEntries(mapped[1..]));
    }
  }

  lemma NoImages(image: Message -> Option<Message>)
    ensures Images(image, []) == []
  {
  }

  lemma ToldTwo(a: seq<Entry>, b: seq<Entry>)
    ensures Told(a + b) == Told(a) + Told(b)
  {
  }

  lemma SentAppend(chat: Chat, entry: Entry)
    requires chat.open.Some?
    ensures Messages(chat.(open := Some(chat.open.value + [entry]))) == Messages(chat) + [entry.message]
  {
    hide AllEntries;
    var before := AllEntries(chat.turns) + chat.open.value;
    assert AllEntries(chat.turns) + (chat.open.value + [entry]) == before + [entry];
    assert Told(before + [entry]) == Told(before) + [entry.message];
  }

  /** What a step that drops nothing makes of the messages sent: a question and what follows it
      come last, in the order they came; committing changes nothing; taking back leaves the
      committed ones, and mapping their images. */
  lemma SentExact(measure: Measure, chat: Chat, step: Step)
    ensures var sent, committed := Messages(Kept(measure, chat, step)), Messages(Chat(chat.turns, None));
            && Messages(chat) == committed + Told(OpenTurn(chat))
            && match step
               case Begin(question) => sent == committed + [question]
               case Push(message) => sent == Messages(chat) + (if chat.open.Some? then [message] else [])
               case Commit => sent == Messages(chat)
               case Rollback => sent == committed
               case MapMessages(image) => sent == Images(image, committed)
  {
    hide AllEntries, Images, Mapped;
    ToldTwo(AllEntries(chat.turns), OpenTurn(chat));
    ToldTwo(AllEntries(chat.turns), []);
    match step
    case Begin(question) => ToldTwo(AllEntries(chat.turns), [NewEntry(measure, question)]);
    case Push(message) =>
      if chat.open.Some? {
        SentAppend(chat, NewEntry(measure, message));
      }
    case Commit =>
      if chat.open.Some? {
        EntriesAppend(chat.turns, chat.open.value);
        assert AllEntries(chat.turns) + chat.open.value + [] == AllEntries(chat.turns) + chat.open.value;
      }
    case Rollback =>
    case MapMessages(image) =>
      var mapped := MappedAll(measure, image, chat.turns);
      AllMappedTold(measure, image, chat.turns);
      assert AllEntries(mapped) + [] == AllEntries(mapped) && AllEntries(chat.turns) + [] == AllEntries(chat.turns);
  }

  /** A step sends the last of what it would send with no budget, and all of it when that fits
      or the step ends a turn or takes one back. */
  lemma SentWithin(measure: Measure, budget: nat, chat: Chat, step: Step)
    ensures var next := Kept(measure, chat, step);
            var sent, all := Messages(After(measure, budget, chat, step)), Messages(next);
            && |sent| <= |all| && sent == all[|all| - |sent|..]
            && (step.Commit? || step.Rollback? || ChatSize(next) <= budget ==> sent == all)
  {
    hide Messages, Kept, ChatSize;
    TrimmedSent(budget, Kept(measure, chat, step));
  }

  lemma {:induction false} TrimmedSent(budget: nat, chat: Chat)
    ensures var sent, all := Messages(Trimmed(budget, chat)), Messages(chat);
            |sent| <= |all| && sent == all[|all| - |sent|..]
    decreases |chat.turns|
  {
    hide ChatSize;
    if ChatSize(chat) > budget && chat.turns != [] {
      var fewer := chat.(turns := chat.turns[1..]);
      var low := AllEntries(fewer.turns) + OpenTurn(chat);
      TrimmedSent(budget, fewer);
      assert AllEntries(chat.turns) + OpenTurn(chat) == chat.turns[0] + low;
      ToldTwo(chat.turns[0], low);
    }
  }

  /** While steps only add and no turn is dropped, everything once sent is sent again first. */
  lemma {:induction false} SentGrows(measure: Measure, budget: nat, steps: seq<Step>, n: nat)
    requires n <= |steps|
    requires forall k :: n <= k < |steps| ==>
               var chat := Run(measure, budget, steps[..k]);
               && (steps[k].Push? || steps[k].Commit? || (steps[k].Begin? && chat.open.None?))
               && After(measure, budget, chat, steps[k]) == Kept(measure, chat, steps[k])
    ensures Messages(Run(measure, budget, steps[..n])) <= Messages(Run(measure, budget, steps))
    decreases |steps|
  {
    hide Messages, Kept, After;
    if n == |steps| {
      assert steps[..n] == steps;
    } else {
      var fewer, last := steps[..|steps| - 1], steps[|steps| - 1];
      assert forall k :: n <= k < |fewer| ==> fewer[..k] == steps[..k] && fewer[k] == steps[k];
      SentGrows(measure, budget, fewer, n);
      assert fewer[..n] == steps[..n];
      AddsMore(measure, budget, Run(measure, budget, fewer), last);
    }
  }

  lemma AddsMore(measure: Measure, budget: nat, chat: Chat, step: Step)
    requires step.Push? || step.Commit? || (step.Begin? && chat.open.None?)
    requires After(measure, budget, chat, step) == Kept(measure, chat, step)
    ensures Messages(chat) <= Messages(After(measure, budget, chat, step))
  {
    hide Messages, After, Kept;
    SentExact(measure, chat, step);
    assert chat.open.None? ==> Told(OpenTurn(chat)) == [];
  }

  /** How long messages are, all together. */
  function Measured(measure: Measure, messages: seq<Message>): nat {
    if messages == [] then 0 else Measured(measure, messages[..|messages| - 1]) + measure(messages[|messages| - 1])
  }

  ghost predicate TrueSizes(measure: Measure, entries: seq<Entry>) {
    forall i :: 0 <= i < |entries| ==> entries[i].size == measure(entries[i].message)
  }

  lemma {:induction false} MeasuredAppend(measure: Measure, a: seq<Message>, b: seq<Message>)
    ensures Measured(measure, a + b) == Measured(measure, a) + Measured(measure, b)
  {
    if b == [] {
      assert a + b == a;
    } else {
      assert (a + b)[..|a + b| - 1] == a + b[..|b| - 1];
      MeasuredAppend(measure, a, b[..|b| - 1]);
    }
  }

  lemma {:induction false} SizeTold(measure: Measure, turn: Turn)
    requires TrueSizes(measure, turn)
    ensures Size(turn) == Measured(measure, Told(turn))
  {
    if turn != [] {
      assert forall i :: 0 <= i < |turn[1..]| ==> turn[1..][i] == turn[i + 1];
      SizeTold(measure, turn[1..]);
      assert Told(turn) == [turn[0].message] + Told(turn[1..]);
      MeasuredAppend(measure, [turn[0].message], Told(turn[1..]));
      assert [turn[0].message][..0] == [];
    }
  }

  lemma {:induction false} SizeAllTold(measure: Measure, turns: seq<Turn>)
    requires TrueSizes(measure, AllEntries(turns))
    ensures SizeAll(turns) == Measured(measure, Told(AllEntries(turns)))
  {
    hide Size, Measured;
    if turns == [] {
      NothingMeasured(measure);
    } else {
      var first, rest := turns[0], AllEntries(turns[1..]);
      assert AllEntries(turns) == first + rest;
      assert forall i :: 0 <= i < |rest| ==> rest[i] == AllEntries(turns)[|first| + i];
      SizeAllTold(measure, turns[1..]);
      SizeTold(measure, first) by {
        assert forall i :: 0 <= i < |first| ==> first[i] == AllEntries(turns)[i];
      }
      ToldTwo(first, rest);
      MeasuredAppend(measure, Told(first), Told(rest));
    }
  }

  lemma NothingMeasured(measure: Measure)
    ensures Measured(measure, []) == 0
  {
  }

  lemma TrueParts(measure: Measure, a: seq<Entry>, b: seq<Entry>)
    ensures TrueSizes(measure, a + b) <==> TrueSizes(measure, a) && TrueSizes(measure, b)
  {
    assert forall i :: 0 <= i < |a| ==> (a + b)[i] == a[i];
    assert forall i :: 0 <= i < |b| ==> (a + b)[|a| + i] == b[i];
  }

  lemma {:induction false} MappedTrue(measure: Measure, image: Message -> Option<Message>, turns: seq<Turn>)
    ensures TrueSizes(measure, AllEntries(MappedAll(measure, image, turns)))
  {
    hide Mapped, TrueSizes;
    if turns == [] {
      NothingTrue(measure);
    } else {
      var mapped := MappedAll(measure, image, turns);
      assert mapped[1..] == MappedAll(measure, image, turns[1..]);
      MappedTrue(measure, image, turns[1..]);
      TurnTrue(measure, image, turns[0]);
      TrueParts(measure, mapped[0], AllEntries(mapped[1..]));
    }
  }

  lemma NothingTrue(measure: Measure)
    ensures TrueSizes(measure, [])
  {
  }

  lemma {:induction false} TurnTrue(measure: Measure, image: Message -> Option<Message>, turn: Turn)
    ensures TrueSizes(measure, Mapped(measure, image, turn))
  {
    if turn != [] {
      TurnTrue(measure, image, turn[1..]);
    }
  }

  ghost predicate Weighed(measure: Measure, chat: Chat) {
    TrueSizes(measure, AllEntries(chat.turns) + OpenTurn(chat))
  }

  lemma KeptWeighed(measure: Measure, chat: Chat, step: Step)
    requires Weighed(measure, chat)
    ensures Weighed(measure, Kept(measure, chat, step))
  {
    hide AllEntries, Mapped, TrueSizes;
    var all := AllEntries(chat.turns);
    NothingTrue(measure);
    TrueParts(measure, all, OpenTurn(chat));
    TrueParts(measure, all, []);
    match step
    case Begin(question) =>
      OneTrue(measure, question);
      TrueParts(measure, all, [NewEntry(measure, question)]);
    case Push(message) =>
      OneTrue(measure, message);
      TrueParts(measure, OpenTurn(chat), [NewEntry(measure, message)]);
      TrueParts(measure, all, OpenTurn(chat) + [NewEntry(measure, message)]);
    case Commit =>
      if chat.open.Some? {
        EntriesAppend(chat.turns, chat.open.value);
        TrueParts(measure, all + chat.open.value, []);
      }
    case Rollback =>
    case MapMessages(image) =>
      MappedTrue(measure, image, chat.turns);
      TrueParts(measure, AllEntries(MappedAll(measure, image, chat.turns)), []);
  }

  lemma OneTrue(measure: Measure, message: Message)
    ensures TrueSizes(measure, [NewEntry(measure, message)])
  {
  }

  lemma {:induction false} TrimmedWeighed(measure: Measure, budget: nat, chat: Chat)
    requires Weighed(measure, chat)
    ensures Weighed(measure, Trimmed(budget, chat))
    decreases |chat.turns|
  {
    hide TrueSizes, ChatSize;
    if ChatSize(chat) > budget && chat.turns != [] {
      var fewer := chat.(turns := chat.turns[1..]);
      var low := AllEntries(fewer.turns) + OpenTurn(chat);
      assert AllEntries(chat.turns) + OpenTurn(chat) == chat.turns[0] + low;
      TrueParts(measure, chat.turns[0], low);
      TrimmedWeighed(measure, budget, fewer);
    }
  }

  /** In every run the size held against the budget is that of exactly the messages sent. */
  lemma {:induction false} SizeIsSent(measure: Measure, budget: nat, steps: seq<Step>)
    ensures var chat := Run(measure, budget, steps);
            Weighed(measure, chat) && ChatSize(chat) == Measured(measure, Messages(chat))
  {
    hide Measured, SizeAll, Size, AllEntries, Kept, Trimmed;
    var chat := Run(measure, budget, steps);
    if steps != [] {
      var before, step := steps[..|steps| - 1], steps[|steps| - 1];
      SizeIsSent(measure, budget, before);
      KeptWeighed(measure, Run(measure, budget, before), step);
      TrimmedWeighed(measure, budget, Kept(measure, Run(measure, budget, before), step));
    } else {
      NoEntries();
    }
    var all := AllEntries(chat.turns);
    TrueParts(measure, all, OpenTurn(chat));
    SizeAllTold(measure, chat.turns);
    SizeTold(measure, OpenTurn(chat));
    ToldTwo(all, OpenTurn(chat));
    MeasuredAppend(measure, Told(all), Told(OpenTurn(chat)));
  }

  lemma NoEntries()
    ensures AllEntries([]) == []
  {
  }

  // Tool calls and their results.

  /** Each result follows its call. */
  ghost predicate Asked(messages: seq<Message>) {
    forall i, id :: 0 <= i < |messages| && id in messages[i].results ==> CalledBefore(messages, i, id)
  }

  predicate CalledBefore(messages: seq<Message>, i: nat, id: string)
    requires i <= |messages|
  {
    exists j :: 0 <= j < i && id in messages[j].calls
  }

  /** Each call is followed by its result. */
  ghost predicate Answered(messages: seq<Message>) {
    forall i, id :: 0 <= i < |messages| && id in messages[i].calls ==> AnsweredAfter(messages, i, id)
  }

  predicate AnsweredAfter(messages: seq<Message>, i: nat, id: string)
    requires i < |messages|
  {
    exists j :: i < j < |messages| && id in messages[j].results
  }

  lemma AskedAppend(a: seq<Message>, b: seq<Message>)
    requires Asked(a) && Asked(b)
    ensures Asked(a + b)
  {
    var all := a + b;
    forall i, id | 0 <= i < |all| && id in all[i].results ensures CalledBefore(all, i, id) {
      if i < |a| {
        assert CalledBefore(a, i, id);
        var j :| 0 <= j < i && id in a[j].calls;
        assert all[j] == a[j];
      } else {
        assert CalledBefore(b, i - |a|, id);
        var j :| 0 <= j < i - |a| && id in b[j].calls;
        assert all[|a| + j] == b[j];
      }
    }
  }

  lemma AnsweredAppend(a: seq<Message>, b: seq<Message>)
    requires Answered(a) && Answered(b)
    ensures Answered(a + b)
  {
    var all := a + b;
    forall i, id | 0 <= i < |all| && id in all[i].calls ensures AnsweredAfter(all, i, id) {
      if i < |a| {
        assert AnsweredAfter(a, i, id);
        var j :| i < j < |a| && id in a[j].results;
        assert all[j] == a[j];
      } else {
        assert AnsweredAfter(b, i - |a|, id);
        var j :| i - |a| < j < |b| && id in b[j].results;
        assert all[|a| + j] == b[j];
      }
    }
  }

  lemma {:induction false} FlatAsked(turns: seq<Turn>)
    requires forall i :: 0 <= i < |turns| ==> Asked(Told(turns[i]))
    ensures Asked(Told(AllEntries(turns)))
  {
    assert turns == [] ==> Asked(Told(AllEntries(turns)));
    hide Asked;
    if turns != [] {
      assert forall i :: 0 <= i < |turns[1..]| ==> turns[1..][i] == turns[i + 1];
      FlatAsked(turns[1..]);
      AskedAppend(Told(turns[0]), Told(AllEntries(turns[1..])));
      assert Told(AllEntries(turns)) == Told(turns[0]) + Told(AllEntries(turns[1..]));
    }
  }

  lemma {:induction false} FlatAnswered(turns: seq<Turn>)
    requires forall i :: 0 <= i < |turns| ==> Answered(Told(turns[i]))
    ensures Answered(Told(AllEntries(turns)))
  {
    assert turns == [] ==> Answered(Told(AllEntries(turns)));
    hide Answered;
    if turns != [] {
      assert forall i :: 0 <= i < |turns[1..]| ==> turns[1..][i] == turns[i + 1];
      FlatAnswered(turns[1..]);
      AnsweredAppend(Told(turns[0]), Told(AllEntries(turns[1..])));
      assert Told(AllEntries(turns)) == Told(turns[0]) + Told(AllEntries(turns[1..]));
    }
  }

  /** When every turn asks for its own results, no message sent is a result nobody asked
      for; and when every committed turn has all its results, so has the chat between turns. */
  lemma NoOrphans(measure: Measure, budget: nat, steps: seq<Step>)
    requires var whole := Whole(measure, steps);
             Asked(Told(OpenTurn(whole))) && forall i :: 0 <= i < |whole.turns| ==> Asked(Told(whole.turns[i]))
    ensures Asked(Messages(Run(measure, budget, steps)))
    ensures var whole := Whole(measure, steps);
            whole.open.None? && (forall i :: 0 <= i < |whole.turns| ==> Answered(Told(whole.turns[i])))
            ==> Answered(Messages(Run(measure, budget, steps)))
  {
    hide Asked, Answered, Run, Whole;
    RunKeepsLast(measure, budget, steps);
    var chat, whole := Run(measure, budget, steps), Whole(measure, steps);
    assert forall i :: 0 <= i < |chat.turns| ==> chat.turns[i] == whole.turns[|whole.turns| - |chat.turns| + i];
    FlatAsked(chat.turns);
    AskedAppend(Told(AllEntries(chat.turns)), Told(OpenTurn(chat)));
    assert Messages(chat) == Told(AllEntries(chat.turns)) + Told(OpenTurn(chat));
    if whole.open.None? && forall i :: 0 <= i < |whole.turns| ==> Answered(Told(whole.turns[i])) {
      FlatAnswered(chat.turns);
      assert Messages(chat) == Told(AllEntries(chat.turns));
    }
  }

  /** The cache point is the last message of the user's side. */
  lemma {:induction false} CachePointExact(messages: seq<Message>)
    ensures match CachePoint(messages)
            case Some(at) =>
              at < |messages| && messages[at].user && forall i :: at < i < |messages| ==> !messages[i].user
            case None => forall i :: 0 <= i < |messages| ==> !messages[i].user
  {
    if messages != [] && !messages[|messages| - 1].user {
      CachePointExact(messages[..|messages| - 1]);
    }
  }

  /** A round that drops no turn sends again all that was sent before it, so everything up
      to the old cache point stays; the point moves only to a message of the user's side. */
  lemma RoundKeepsCache(measure: Measure, budget: nat, chat: Chat, message: Message)
    requires chat.open.Some? && After(measure, budget, chat, Push(message)).turns == chat.turns
    ensures var sent := Messages(After(measure, budget, chat, Push(message)));
            && sent == Messages(chat) + [message]
            && CachePoint(sent) == if message.user then Some(|Messages(chat)|) else CachePoint(Messages(chat))
  {
    hide Trimmed, AllEntries, Messages, CachePoint;
    var next := Kept(measure, chat, Push(message));
    TrimLongest(budget, next);
    assert After(measure, budget, chat, Push(message)) == next;
    SentAppend(chat, NewEntry(measure, message));
    CacheAppend(Messages(chat), message);
  }

  lemma CacheAppend(messages: seq<Message>, message: Message)
    ensures CachePoint(messages + [message])
            == if message.user then Some(|messages|) else CachePoint(messages)
  {
    assert (messages + [message])[..|messages|] == messages;
  }

  // The object the providers keep.

  class History {
    const measure: Measure
    const budget: nat
    var turns: seq<Turn>
    var open: Option<Turn>

    ghost function Contents(): Chat
      reads this
    {
      Chat(turns, open)
    }

    constructor (measure: Measure, budget: nat)
      ensures this.measure == measure && this.budget == budget && Contents() == EMPTY
    {
      this.measure, this.budget := measure, budget;
      turns, open := [], None;
    }

    method Begin(question: Message)
      modifies this
      ensures Contents() == After(measure, budget, old(Contents()), Step.Begin(question))
    {
      Rollback();
      open := Some([NewEntry(measure, question)]);
      TrimTurns();
    }

    method Push(message: Message)
      modifies this
      ensures Contents() == After(measure, budget, old(Contents()), Step.Push(message))
    {
      if open.None? {
        return;
      }
      open := Some(open.value + [NewEntry(measure, message)]);
      TrimTurns();
    }

    method Commit()
      modifies this
      ensures Contents() == After(measure, budget, old(Contents()), Step.Commit)
    {
      if open.Some? {
        turns := turns + [open.value];
        open := None;
      }
    }

    method Rollback()
      modifies this
      ensures Contents() == After(measure, budget, old(Contents()), Step.Rollback)
    {
      open := None;
    }

    method MapMessages(image: Message -> Option<Message>)
      modifies this
      ensures Contents() == After(measure, budget, old(Contents()), Step.MapMessages(image))
    {
      Rollback();
      var i := 0;
      while i < |turns|
        invariant 0 <= i <= |turns| == |old(turns)| && open == None
        invariant forall j :: 0 <= j < i ==> turns[j] == Mapped(measure, image, old(turns)[j])
        invariant forall j :: i <= j < |turns| ==> turns[j] == old(turns)[j]
      {
        turns := turns[i := Mapped(measure, image, turns[i])];
        i := i + 1;
      }
      assert turns == MappedAll(measure, image, old(turns));
      TrimTurns();
    }

    method TrimTurns()
      modifies this`turns
      ensures Contents() == Trimmed(budget, old(Contents()))
    {
      while ChatSize(Chat(turns, open)) > budget && turns != []
        invariant Trimmed(budget, Contents()) == Trimmed(budget, old(Contents()))
        decreases |turns|
      {
        turns := turns[1..];
      }
    }

    function Sent(): (messages: seq<Message>)
      reads this
      ensures messages == Messages(Contents())
    {
      Told(AllEntries(turns) + match open case Some(turn) => turn case None => [])
    }
  }
}
