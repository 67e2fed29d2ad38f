/** The signature of a styled message, found by its blocks and swapped in one splice
    (app/src/compose.rs, `rich_signature_change`; app/src/richtext.rs). `fromMarkdown`
    stands for the Markdown reader. */
module RichSignature {
  import opened Text
  import Signature
  import Splice

  datatype BlockKind = Paragraph | Heading(level: nat) | Bullet | Numbered | Quote | Code

  datatype Style = Style(bold: bool, italic: bool, strike: bool, code: bool)

  datatype Span = Span(text: string, style: Style, link: Option<string>, image: Option<string>)

  /** One line of the body. */
  datatype Block = Block(kind: BlockKind, spans: seq<Span>)

  const EMPTY := Block(Paragraph, [])

  function BlockText(spans: seq<Span>): string {
    if spans == [] then "" else spans[0].text + BlockText(spans[1..])
  }

  /** The text of a line is that of all its spans, one after the other. */
  lemma {:induction false} BlockTextAppend(a: seq<Span>, b: seq<Span>)
    ensures BlockText(a + b) == BlockText(a) + BlockText(b)
    ensures |a| == 1 ==> BlockText(a) == a[0].text
  {
    if a == [] {
      assert a + b == b;
    } else {
      assert (a + b)[1..] == a[1..] + b;
      BlockTextAppend(a[1..], b);
      assert |a| == 1 ==> a[1..] == [];
    }
  }

  predicate IsBlank(block: Block) {
    forall i :: 0 <= i < |block.spans| ==> block.spans[i].image.None? && Blank(block.spans[i].text)
  }

  predicate IsAttribution(block: Block, tail: string) {
    EndsWith(TrimEnd(BlockText(block.spans)), tail)
  }

  /** Where the scan of the blocks stands: the one match it follows, the last whole match,
      the end before an attribution line, the end of what is visible, how many blocks it
      read, and whether it met the history. */
  datatype Scan = Scan(candidate: Option<nat>, matched: Option<(nat, nat)>, attribution: Option<nat>,
                       end: nat, count: nat, stopped: bool)

  const START := Scan(None, None, None, 0, 0, false)

  predicate Follows(s: Scan, block: Block, expected: seq<Block>) {
    s.candidate.Some? && 0 <= s.count - s.candidate.value < |expected|
    && expected[s.count - s.candidate.value] == block
  }

  function Step(s: Scan, block: Block, expected: seq<Block>, tail: string): Scan {
    if s.stopped then s
    else
      var index := s.count;
      var candidate :=
        if Follows(s, block, expected) then s.candidate
        else if expected != [] && expected[0] == block then Some(index)
        else None;
      if block.kind == Quote && candidate.None? then
        Scan(candidate, s.matched, s.attribution,
             if s.attribution.Some? then s.attribution.value else s.end, index + 1, true)
      else
        var visible := candidate.Some? || !IsBlank(block);
        var attribution :=
          if !visible then s.attribution
          else if candidate.None? && IsAttribution(block, tail) then Some(s.end)
          else None;
        var whole := candidate.Some? && index + 1 - candidate.value == |expected|;
        Scan(if whole then None else candidate, if whole then Some((candidate.value, index + 1)) else s.matched,
             attribution, if visible then index + 1 else s.end, index + 1, false)
  }

  function After(s: Scan, blocks: seq<Block>, expected: seq<Block>, tail: string): Scan
    decreases |blocks|
  {
    if blocks == [] then s else After(Step(s, blocks[0], expected, tail), blocks[1..], expected, tail)
  }

  method ScanBlocks(blocks: seq<Block>, expected: seq<Block>, tail: string)
    returns (matched: Option<(nat, nat)>, end: nat, count: nat)
    ensures var s := After(START, blocks, expected, tail);
            matched == s.matched && end == s.end && count == s.count
  {
    hide BlockText, TrimEnd, IsBlank;
    var candidate: Option<nat>, attribution: Option<nat> := None, None;
    matched, end, count := None, 0, 0;
    for index := 0 to |blocks|
      invariant count == index
      invariant After(START, blocks, expected, tail)
             == After(Scan(candidate, matched, attribution, end, index, false), blocks[index..], expected, tail)
    {
      assert blocks[index..][1..] == blocks[index + 1..];
      ghost var before := Scan(candidate, matched, attribution, end, index, false);
      var block := blocks[index];
      count := index + 1;
      if candidate.Some? && !(0 <= index - candidate.value < |expected| && expected[index - candidate.value] == block) {
        candidate := None;
      }
      if candidate.None? && expected != [] && expected[0] == block {
        candidate := Some(index);
      }
      var inSignature := candidate.Some?;
      if block.kind == Quote && !inSignature {
        end := if attribution.Some? then attribution.value else end;
        Stopped(Step(before, block, expected, tail), blocks[index + 1..], expected, tail);
        return;
      }
      if inSignature || !IsBlank(block) {
        attribution := if !inSignature && IsAttribution(block, tail) then Some(end) else None;
        end := index + 1;
      }
      if candidate.Some? && index + 1 - candidate.value == |expected| {
        matched := Some((candidate.value, index + 1));
        candidate := None;
      }
    }
  }

  lemma {:induction false} Stopped(s: Scan, blocks: seq<Block>, expected: seq<Block>, tail: string)
    requires s.stopped
    ensures After(s, blocks, expected, tail) == s
    decreases |blocks|
  {
    if blocks != [] {
      Stopped(s, blocks[1..], expected, tail);
    }
  }

  function Expected(signature: string, fromMarkdown: string -> seq<Block>): seq<Block> {
    if Blank(signature) then [] else fromMarkdown(Signature.SignatureBlock(signature))
  }

  /** Blocks to put in place of others. */
  datatype BlockChange = BlockChange(first: nat, removed: nat, blocks: seq<Block>)

  ghost predicate Ordered(s: Scan) {
    && (s.candidate.Some? ==> s.candidate.value <= s.count)
    && (s.matched.Some? ==> s.matched.value.0 <= s.matched.value.1)
  }

  lemma {:induction false} ScanOrdered(s: Scan, blocks: seq<Block>, expected: seq<Block>, tail: string)
    requires Ordered(s)
    ensures Ordered(After(s, blocks, expected, tail))
    decreases |blocks|
  {
    hide IsBlank, IsAttribution;
    if blocks != [] {
      ScanOrdered(Step(s, blocks[0], expected, tail), blocks[1..], expected, tail);
    }
  }

  /** What the scan's end makes of a swap. */
  function Outcome(s: Scan, was: string, replacement: seq<Block>): Option<BlockChange>
    requires Ordered(s)
  {
    if Blank(was) then
      if replacement == [] then None
      else
        var above := if s.end == 0 then [] else if s.end == s.count then [EMPTY, EMPTY] else [EMPTY];
        Some(BlockChange(s.end, 0, above + replacement))
    else if s.matched.None? || s.matched.value.1 != s.end then None
    else if s.matched.value.0 == s.end && replacement == [] then None
    else Some(BlockChange(s.matched.value.0, s.end - s.matched.value.0, replacement))
  }

  function Change(blocks: seq<Block>, was: string, wanted: string, tail: string,
                  fromMarkdown: string -> seq<Block>): Option<BlockChange>
  {
    ScanOrdered(START, blocks, Expected(was, fromMarkdown), tail);
    Outcome(After(START, blocks, Expected(was, fromMarkdown), tail), was, Expected(wanted, fromMarkdown))
  }

  // ---- Scanning what a message is made of

  lemma {:induction false} AfterAppend(s: Scan, a: seq<Block>, b: seq<Block>, expected: seq<Block>, tail: string)
    ensures After(s, a + b, expected, tail) == After(After(s, a, expected, tail), b, expected, tail)
    decreases |a|
  {
    if a == [] {
      assert a + b == b;
    } else {
      assert (a + b)[1..] == a[1..] + b;
      AfterAppend(Step(s, a[0], expected, tail), a[1..], b, expected, tail);
    }
  }

  /** A match under way starts before the block at hand and is not over. */
  ghost predicate Fits(s: Scan, expected: seq<Block>) {
    && !s.stopped && s.end <= s.count
    && (s.candidate.Some? ==> 0 < s.count - s.candidate.value < |expected|)
    && (s.attribution.Some? ==> s.attribution.value < s.end)
  }

  ghost predicate NoQuote(blocks: seq<Block>) {
    forall i :: 0 <= i < |blocks| ==> blocks[i].kind != Quote
  }

  /** Blocks that do not stop the scan are all counted, and leave it with nothing whole. */
  lemma {:induction false} ScanTyped(s: Scan, blocks: seq<Block>, expected: seq<Block>, tail: string)
    requires Fits(s, expected) && !After(s, blocks, expected, tail).stopped
    ensures var r := After(s, blocks, expected, tail);
            && Fits(r, expected) && r.count == s.count + |blocks|
            && (s.candidate.None? && (expected != [] ==> expected[0] !in blocks) ==> r.candidate.None?)
    decreases |blocks|
  {
    hide IsBlank, IsAttribution;
    if blocks != [] {
      var next := Step(s, blocks[0], expected, tail);
      if next.stopped {
        Stopped(next, blocks[1..], expected, tail);
      } else {
        ScanTyped(next, blocks[1..], expected, tail);
        assert blocks == [blocks[0]] + blocks[1..];
      }
    }
  }

  lemma {:induction false} ScanUnquoted(s: Scan, blocks: seq<Block>, expected: seq<Block>, tail: string)
    requires !s.stopped && NoQuote(blocks)
    ensures !After(s, blocks, expected, tail).stopped
    decreases |blocks|
  {
    hide IsBlank, IsAttribution;
    if blocks != [] {
      assert NoQuote(blocks[1..]) by {
        assert forall i :: 0 <= i < |blocks[1..]| ==> blocks[1..][i] == blocks[i + 1];
      }
      ScanUnquoted(Step(s, blocks[0], expected, tail), blocks[1..], expected, tail);
    }
  }

  /** Once its first block is followed, a signature is matched whole, quotes and all. */
  lemma {:induction false} ScanSignature(s: Scan, expected: seq<Block>, tail: string, k: nat)
    requires Fits(s, expected) && s.candidate.Some? && s.count - s.candidate.value == k < |expected|
    ensures var r := After(s, expected[k..], expected, tail);
            && r.count == s.candidate.value + |expected| && r.end == r.count
            && r.matched == Some((s.candidate.value, r.count)) && Fits(r, expected) && r.candidate.None?
            && r.attribution.None?
    decreases |expected| - k
  {
    hide IsBlank, IsAttribution;
    var next := Step(s, expected[k], expected, tail);
    assert expected[k..][1..] == expected[k + 1..];
    if k + 1 < |expected| {
      ScanSignature(next, expected, tail, k + 1);
    } else {
      assert expected[k + 1..] == [];
    }
  }

  lemma ScanFirst(s: Scan, expected: seq<Block>, tail: string)
    requires Fits(s, expected) && expected != [] && (expected[0] !in expected[1..] || s.candidate.None?)
    ensures var r := After(s, expected, expected, tail);
            && r.count == s.count + |expected| && r.end == r.count
            && r.matched == Some((s.count, r.count)) && Fits(r, expected) && r.candidate.None?
            && r.attribution.None?
  {
    hide IsBlank, IsAttribution;
    assert s.candidate.Some? ==> forall i :: 0 < i < |expected| ==> expected[i] == expected[1..][i - 1];
    assert !Follows(s, expected[0], expected);
    var next := Step(s, expected[0], expected, tail);
    if |expected| > 1 {
      ScanSignature(next, expected, tail, 1);
    } else {
      assert expected[1..] == [];
    }
  }

  // ---- The history under a signature

  /** The first block that is a quote or visible. */
  function FirstSeen(blocks: seq<Block>): (k: nat)
    ensures k <= |blocks|
  {
    if blocks == [] || blocks[0].kind == Quote || !IsBlank(blocks[0]) then 0 else 1 + FirstSeen(blocks[1..])
  }

  /** Whether the next block to be seen is a quote. */
  predicate QuoteNext(blocks: seq<Block>) {
    var k := FirstSeen(blocks);
    k < |blocks| && blocks[k].kind == Quote
  }

  /** Nothing of the writer's own: blank lines, or a quote with at most its attribution
      line above it and whatever follows. */
  predicate OnlyHistory(blocks: seq<Block>, tail: string) {
    var k := FirstSeen(blocks);
    k == |blocks| || blocks[k].kind == Quote
    || (IsAttribution(blocks[k], tail) && QuoteNext(blocks[k + 1..]))
  }

  lemma {:induction false} ScanAfterAttribution(s: Scan, blocks: seq<Block>, expected: seq<Block>, tail: string)
    requires Fits(s, expected) && s.candidate.None? && s.attribution.Some?
    requires expected != [] ==> expected[0] !in blocks
    ensures var r := After(s, blocks, expected, tail);
            r.matched == s.matched && r.end >= s.attribution.value
            && (r.end == s.attribution.value <==> QuoteNext(blocks))
    decreases |blocks|
  {
    hide IsBlank, IsAttribution;
    if blocks != [] {
      var next := Step(s, blocks[0], expected, tail);
      assert expected != [] ==> expected[0] != blocks[0];
      if blocks[0].kind == Quote {
        Stopped(next, blocks[1..], expected, tail);
      } else if IsBlank(blocks[0]) {
        ScanAfterAttribution(next, blocks[1..], expected, tail);
      } else if next.attribution.Some? {
        ScanAfterAttribution(next, blocks[1..], expected, tail);
      } else {
        ScanHistory(next, blocks[1..], expected, tail);
      }
    }
  }

  lemma OnlyHistoryFirst(blocks: seq<Block>, tail: string)
    requires blocks != []
    ensures OnlyHistory(blocks, tail)
         == if blocks[0].kind == Quote then true
            else if IsBlank(blocks[0]) then OnlyHistory(blocks[1..], tail)
            else IsAttribution(blocks[0], tail) && QuoteNext(blocks[1..])
  {
    hide IsBlank, IsAttribution;
  }

  /** Under a matched signature the visible end stays where it is exactly when nothing of
      the writer's own follows. */
  lemma {:induction false} ScanHistory(s: Scan, blocks: seq<Block>, expected: seq<Block>, tail: string)
    requires Fits(s, expected) && s.candidate.None? && s.attribution.None?
    requires expected != [] ==> expected[0] !in blocks
    ensures var r := After(s, blocks, expected, tail);
            r.matched == s.matched && r.end >= s.end && (r.end == s.end <==> OnlyHistory(blocks, tail))
    decreases |blocks|
  {
    if blocks != [] {
      OnlyHistoryFirst(blocks, tail);
      hide IsBlank, IsAttribution, OnlyHistory, QuoteNext;
      var next := Step(s, blocks[0], expected, tail);
      assert expected != [] ==> expected[0] != blocks[0];
      if blocks[0].kind == Quote {
        Stopped(next, blocks[1..], expected, tail);
      } else if next.attribution.Some? {
        ScanAfterAttribution(next, blocks[1..], expected, tail);
      } else {
        ScanHistory(next, blocks[1..], expected, tail);
      }
    }
  }

  // ---- The laws

  /** A signature the scan can tell from what surrounds it: its first block is not in the
      history, nor both among the words and again in the signature. */
  ghost predicate Recognizable(expected: seq<Block>, typed: seq<Block>, history: seq<Block>) {
    && expected != [] && expected[0] !in history
    && (expected[0] !in expected[1..] || expected[0] !in typed)
  }

  lemma Replaced<T>(typed: seq<T>, before: seq<T>, after: seq<T>, history: seq<T>)
    ensures Splice.Replace(typed + before + history, |typed|, |before|, after) == typed + after + history
  {
  }

  /** The blocks of a signature are those of its block as text. */
  lemma ExpectedExact(signature: string, fromMarkdown: string -> seq<Block>)
    ensures Expected(signature, fromMarkdown)
         == if Blank(signature) then [] else fromMarkdown("\n\n-- \n" + TrimEnd(signature))
  {
  }

  lemma SwapBlocks(typed: seq<Block>, history: seq<Block>, was: string, wanted: string, tail: string,
                   fromMarkdown: string -> seq<Block>)
    requires Recognizable(Expected(was, fromMarkdown), typed, history)
    ensures var before, after := Expected(was, fromMarkdown), Expected(wanted, fromMarkdown);
            Change(typed + before + history, was, wanted, tail, fromMarkdown)
            == if After(START, typed, before, tail).stopped then Change(typed, was, wanted, tail, fromMarkdown)
               else if OnlyHistory(history, tail) then Some(BlockChange(|typed|, |before|, after))
               else None
  {
    hide After, OnlyHistory, IsBlank;
    var expected := Expected(was, fromMarkdown);
    var words := After(START, typed, expected, tail);
    assert typed + expected + history == typed + (expected + history);
    if words.stopped {
      ReadToTheHistory(typed, expected + history, was, wanted, tail, fromMarkdown);
    } else {
      hide Expected;
      ScanTyped(START, typed, expected, tail);
      AfterAppend(START, typed, expected, expected, tail);
      ScanFirst(words, expected, tail);
      var signed := After(words, expected, expected, tail);
      AfterAppend(START, typed + expected, history, expected, tail);
      ScanHistory(signed, history, expected, tail);
    }
  }

  /** An untouched signature is swapped in one splice, exactly when nothing of the writer's
      own stands between it and the end of the message, unless the scan takes a block of the
      words for the history: then only the words count, and the signature stays. */
  lemma SwapExact(typed: seq<Block>, history: seq<Block>, was: string, wanted: string, tail: string,
                  fromMarkdown: string -> seq<Block>)
    requires !Blank(was) && Recognizable(Expected(was, fromMarkdown), typed, history)
    ensures var before := fromMarkdown("\n\n-- \n" + TrimEnd(was));
            var after := if Blank(wanted) then [] else fromMarkdown("\n\n-- \n" + TrimEnd(wanted));
            && Change(typed + before + history, was, wanted, tail, fromMarkdown)
               == (if After(START, typed, before, tail).stopped then Change(typed, was, wanted, tail, fromMarkdown)
                   else if OnlyHistory(history, tail) then Some(BlockChange(|typed|, |before|, after))
                   else None)
            && Splice.Replace(typed + before + history, |typed|, |before|, after) == typed + after + history
  {
    hide After, OnlyHistory, Change, Expected, Recognizable, Blank, Splice.Replace;
    ExpectedExact(was, fromMarkdown);
    ExpectedExact(wanted, fromMarkdown);
    SwapBlocks(typed, history, was, wanted, tail, fromMarkdown);
    Replaced(typed, Expected(was, fromMarkdown), Expected(wanted, fromMarkdown), history);
  }

  /** Blocks below the one the scan stopped at are never looked at. */
  lemma ReadToTheHistory(read: seq<Block>, below: seq<Block>, was: string, wanted: string, tail: string,
                         fromMarkdown: string -> seq<Block>)
    requires After(START, read, Expected(was, fromMarkdown), tail).stopped
    ensures Change(read + below, was, wanted, tail, fromMarkdown) == Change(read, was, wanted, tail, fromMarkdown)
  {
    var expected := Expected(was, fromMarkdown);
    AfterAppend(START, read, below, expected, tail);
    Stopped(After(START, read, expected, tail), below, expected, tail);
  }

  /** The scan stops at the first quote after the signature. */
  lemma StopsAtHistory(s: Scan, history: seq<Block>, quote: Block, expected: seq<Block>, tail: string)
    requires Fits(s, expected) && s.candidate.None? && NoQuote(history) && quote.kind == Quote
    requires expected != [] ==> expected[0] !in history && expected[0] != quote
    ensures After(s, history + [quote], expected, tail).stopped
  {
    AfterAppend(s, history, [quote], expected, tail);
    ScanUnquoted(s, history, expected, tail);
    ScanTyped(s, history, expected, tail);
  }

  function Apply(blocks: seq<Block>, change: Option<BlockChange>): seq<Block>
    requires change.Some? ==> change.value.first + change.value.removed <= |blocks|
  {
    if change.None? then blocks
    else Splice.Replace(blocks, change.value.first, change.value.removed, change.value.blocks)
  }

  /** Words that end on something visible, under which only history stands. */
  ghost predicate Ended(words: seq<Block>, history: seq<Block>, tail: string) {
    NoQuote(words) && OnlyHistory(history, tail) && (words != [] ==> !IsBlank(words[|words| - 1]))
  }

  /** The last of the words reads as the attribution of the quote under it. */
  predicate Introduces(words: seq<Block>, history: seq<Block>, tail: string) {
    words != [] && IsAttribution(words[|words| - 1], tail) && QuoteNext(history)
  }

  /** The blank lines a new signature gets above it. */
  function Above(words: seq<Block>, history: seq<Block>): seq<Block> {
    if words == [] then [] else if history == [] then [EMPTY, EMPTY] else [EMPTY]
  }

  /** A message without a signature gets one right under its words, exactly when there is one
      to get and the last of the words does not read as the attribution of the quote under it. */
  lemma InsertExact(words: seq<Block>, history: seq<Block>, was: string, wanted: string, tail: string,
                    fromMarkdown: string -> seq<Block>)
    requires Blank(was) && Ended(words, history, tail)
    ensures var blocks := Expected(wanted, fromMarkdown);
            if blocks == [] then Change(words + history, was, wanted, tail, fromMarkdown) == None
            else Change(words + history, was, wanted, tail, fromMarkdown)
                 == Some(BlockChange(|words|, 0, Above(words, history) + blocks))
                 <==> !Introduces(words, history, tail)
  {
    hide OnlyHistory, After, IsBlank, IsAttribution, QuoteNext;
    ScanUnquoted(START, words, [], tail);
    ScanTyped(START, words, [], tail);
    ScanWords(words, tail);
    var s := After(START, words, [], tail);
    AfterAppend(START, words, history, [], tail);
    if s.attribution.Some? {
      ScanUnder(s, history, tail);
    } else {
      ScanHistory(s, history, [], tail);
    }
    ScanCounts(s, history, [], tail);
  }

  lemma ScanWords(words: seq<Block>, tail: string)
    requires NoQuote(words) && (words != [] ==> !IsBlank(words[|words| - 1]))
    ensures var s := After(START, words, [], tail);
            && s.end == |words| == s.count && s.candidate.None?
            && (s.attribution.Some? <==> words != [] && IsAttribution(words[|words| - 1], tail))
  {
    hide IsBlank, IsAttribution;
    if words != [] {
      var above, last := words[..|words| - 1], words[|words| - 1];
      assert words == above + [last];
      ScanUnquoted(START, above, [], tail);
      ScanTyped(START, above, [], tail);
      AfterAppend(START, above, [last], [], tail);
      var s := After(START, above, [], tail);
      assert After(s, [last], [], tail) == Step(s, last, [], tail);
    }
  }

  /** Under a line that reads as an attribution a quote is taken with that line. */
  lemma {:induction false} ScanUnder(s: Scan, blocks: seq<Block>, tail: string)
    requires Fits(s, []) && s.candidate.None? && s.attribution.Some? && OnlyHistory(blocks, tail)
    ensures After(s, blocks, [], tail).end == if QuoteNext(blocks) then s.attribution.value else s.end
    decreases |blocks|
  {
    hide IsBlank, IsAttribution;
    if blocks != [] {
      var next := Step(s, blocks[0], [], tail);
      if blocks[0].kind == Quote {
        Stopped(next, blocks[1..], [], tail);
      } else if IsBlank(blocks[0]) {
        ScanUnder(next, blocks[1..], tail);
      } else {
        ScanAfterAttribution(next, blocks[1..], [], tail);
      }
    }
  }

  lemma {:induction false} ScanCounts(s: Scan, blocks: seq<Block>, expected: seq<Block>, tail: string)
    requires !s.stopped
    ensures var r := After(s, blocks, expected, tail);
            r.count >= s.count && (blocks == [] ==> r.count == s.count) && (blocks != [] ==> r.count > s.count)
    decreases |blocks|
  {
    hide IsBlank, IsAttribution;
    if blocks != [] {
      var next := Step(s, blocks[0], expected, tail);
      if next.stopped {
        Stopped(next, blocks[1..], expected, tail);
      } else {
        ScanCounts(next, blocks[1..], expected, tail);
      }
    }
  }

  /** Putting one signature in and swapping it is putting the other in. */
  lemma InsertThenSwap(words: seq<Block>, history: seq<Block>, one: string, other: string, tail: string,
                       fromMarkdown: string -> seq<Block>)
    requires !Blank(one) && Ended(words, history, tail) && !Introduces(words, history, tail)
    requires Recognizable(Expected(one, fromMarkdown), words + Above(words, history), history)
    requires Expected(other, fromMarkdown) != []
    ensures var insert := Change(words + history, "", one, tail, fromMarkdown);
            insert.Some? && insert.value.first + insert.value.removed <= |words + history|
    ensures var signed := Apply(words + history, Change(words + history, "", one, tail, fromMarkdown));
            var swap := Change(signed, one, other, tail, fromMarkdown);
            var direct := Change(words + history, "", other, tail, fromMarkdown);
            && swap.Some? && swap.value.first + swap.value.removed <= |signed|
            && direct.Some? && direct.value.first + direct.value.removed <= |words + history|
            && Apply(signed, swap) == Apply(words + history, direct)
  {
    hide After, Outcome, OnlyHistory, Expected, Change, IsBlank, Introduces, Splice.Replace;
    ExpectedExact(one, fromMarkdown);
    ExpectedExact(other, fromMarkdown);
    InsertExact(words, history, "", one, tail, fromMarkdown);
    InsertExact(words, history, "", other, tail, fromMarkdown);
    var above := Above(words, history);
    Inserted(words, above, Expected(one, fromMarkdown), history);
    Inserted(words, above, Expected(other, fromMarkdown), history);
    assert NoQuote(words + above);
    ScanUnquoted(START, words + above, Expected(one, fromMarkdown), tail);
    SwapExact(words + above, history, one, other, tail, fromMarkdown);
  }

  lemma Inserted<T>(words: seq<T>, above: seq<T>, signature: seq<T>, history: seq<T>)
    ensures Splice.Replace(words + history, |words|, 0, above + signature) == words + above + signature + history
  {
  }

  function Line(text: string): Block {
    Block(Paragraph, [Span(text, Style(false, false, false, false), None, None)])
  }

  lemma LineText(text: string)
    ensures BlockText(Line(text).spans) == text && (IsBlank(Line(text)) <==> Blank(text))
  {
    var spans := Line(text).spans;
    assert spans[1..] == [] && BlockText(spans) == text + "";
    assert spans[0].text == text;
  }

  /** A visible line the writer leaves under the signature keeps it from being swapped. */
  lemma PostscriptKeeps(typed: seq<Block>, was: string, wanted: string, tail: string,
                        fromMarkdown: string -> seq<Block>)
    requires !Blank(was) && NoQuote(typed) && Recognizable(Expected(was, fromMarkdown), typed, [Line("PS")])
    ensures Change(typed + Expected(was, fromMarkdown) + [Line("PS")], was, wanted, tail, fromMarkdown) == None
  {
    hide IsBlank, Change, BlockText;
    LineText("PS");
    assert "PS"[0] == 'P' && !Blank("PS");
    assert [Line("PS")][1..] == [] && !QuoteNext([]);
    OnlyHistoryFirst([Line("PS")], tail);
    ScanUnquoted(START, typed, Expected(was, fromMarkdown), tail);
    SwapExact(typed, [Line("PS")], was, wanted, tail, fromMarkdown);
  }

  /** So does one over a quote, when it does not end as an attribution does. */
  lemma PostscriptOverQuote(typed: seq<Block>, was: string, wanted: string, fromMarkdown: string -> seq<Block>)
    requires !Blank(was) && NoQuote(typed)
    requires Recognizable(Expected(was, fromMarkdown), typed, [Line("PS"), Block(Quote, [])])
    ensures Change(typed + Expected(was, fromMarkdown) + [Line("PS"), Block(Quote, [])], was, wanted, "wrote:",
                   fromMarkdown) == None
  {
    hide IsBlank, Change, BlockText;
    LineText("PS");
    assert "PS"[0] == 'P' && "PS"[1] == 'S' && !Blank("PS");
    TrimEndUnique("PS", "PS");
    var history := [Line("PS"), Block(Quote, [])];
    OnlyHistoryFirst(history, "wrote:");
    ScanUnquoted(START, typed, Expected(was, fromMarkdown), "wrote:");
    SwapExact(typed, history, was, wanted, "wrote:", fromMarkdown);
  }

  /** A quote the writer put above the signature keeps it from being swapped too. */
  lemma QuotedWordsKeep(was: string, wanted: string, tail: string, fromMarkdown: string -> seq<Block>)
    requires !Blank(was) && Recognizable(Expected(was, fromMarkdown), [Block(Quote, [])], [])
    requires Expected(was, fromMarkdown)[0].kind != Quote
    ensures Change([Block(Quote, [])] + Expected(was, fromMarkdown), was, wanted, tail, fromMarkdown) == None
  {
    hide Expected, IsBlank;
    var quote, expected := [Block(Quote, [])], Expected(was, fromMarkdown);
    ExpectedExact(was, fromMarkdown);
    assert quote[1..] == [] && quote + expected + [] == quote + expected;
    assert After(START, quote, expected, tail) == Step(START, quote[0], expected, tail);
    SwapExact(quote, [], was, wanted, tail, fromMarkdown);
  }

  /** Words that end like an attribution over a quote: the signature goes above their last line. */
  lemma AttributionTaken(wanted: string, fromMarkdown: string -> seq<Block>)
    requires Expected(wanted, fromMarkdown) != []
    ensures var blocks := [Line("Hi"), Line("She wrote:"), Block(Quote, [])];
            && Ended(blocks[..2], blocks[2..], "wrote:")
            && Change(blocks, "", wanted, "wrote:", fromMarkdown)
               == Some(BlockChange(1, 0, [EMPTY] + Expected(wanted, fromMarkdown)))
  {
    hide BlockText, IsBlank, Expected, TrimEnd;
    var blocks := [Line("Hi"), Line("She wrote:"), Block(Quote, [])];
    LineText("Hi");
    LineText("She wrote:");
    assert "Hi"[0] == 'H' && "She wrote:"[0] == 'S';
    TrimEndUnique("Hi", "Hi");
    TrimEndUnique("She wrote:", "She wrote:");
    assert blocks[1..][1..] == [blocks[2]];
    var s1 := Step(START, blocks[0], [], "wrote:");
    var s2 := Step(s1, blocks[1], [], "wrote:");
    var s3 := Step(s2, blocks[2], [], "wrote:");
    AfterThree(START, blocks, [], "wrote:");
    assert s3.end == 1 && s3.count == 3;
    assert Expected("", fromMarkdown) == [] by { ExpectedNone(fromMarkdown); }
  }

  lemma ExpectedNone(fromMarkdown: string -> seq<Block>)
    ensures Expected("", fromMarkdown) == []
  {
  }

  lemma AfterThree(s: Scan, blocks: seq<Block>, expected: seq<Block>, tail: string)
    requires |blocks| == 3
    ensures After(s, blocks, expected, tail)
         == Step(Step(Step(s, blocks[0], expected, tail), blocks[1], expected, tail), blocks[2], expected, tail)
  {
    hide IsBlank, IsAttribution;
    assert blocks[1..][1..] == [blocks[2]] && [blocks[2]][1..] == [];
    var two := Step(Step(s, blocks[0], expected, tail), blocks[1], expected, tail);
    assert After(two, [blocks[2]], expected, tail) == Step(two, blocks[2], expected, tail);
  }
}
