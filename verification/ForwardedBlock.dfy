/** Finding the forwarded message in a saved draft's HTML, byte for byte
    (app/src/compose.rs, `split_forwarded_html`). `marked` says whether the one tag it is
    given has the forward mark among its classes. */
module ForwardedBlock {
  import opened Text

  predicate Letter(c: char) {
    'a' <= c <= 'z' || 'A' <= c <= 'Z'
  }

  predicate StartsTag(html: string) {
    |html| >= 2 && html[0] == '<' && Letter(html[1])
  }

  /** How far it is to the `>` that closes a tag outside any quotes, that one counted. */
  function TagEnd(s: string, quote: Option<char>): (n: nat)
    ensures n <= |s| && (s != "" ==> n > 0)
  {
    if s == "" then 0
    else if quote.Some? then 1 + TagEnd(s[1..], if s[0] == quote.value then None else quote)
    else if s[0] == '"' || s[0] == '\'' then 1 + TagEnd(s[1..], Some(s[0]))
    else if s[0] == '>' then 1
    else 1 + TagEnd(s[1..], None)
  }

  /** Whether that `>` is there at all. */
  predicate Closes(s: string, quote: Option<char>) {
    s != "" &&
    if quote.Some? then Closes(s[1..], if s[0] == quote.value then None else quote)
    else if s[0] == '"' || s[0] == '\'' then Closes(s[1..], Some(s[0]))
    else s[0] == '>' || Closes(s[1..], None)
  }

  function TagLength(rest: string): (n: nat)
    requires rest != ""
    ensures 0 < n <= |rest|
  {
    1 + TagEnd(rest[1..], None)
  }

  method MeasureTag(rest: string) returns (n: nat)
    requires rest != ""
    ensures n == TagLength(rest)
  {
    var quote: Option<char> := None;
    for index := 1 to |rest|
      invariant TagLength(rest) == index + TagEnd(rest[index..], quote)
    {
      var character := rest[index];
      assert rest[index..][1..] == rest[index + 1..];
      if quote.Some? {
        if quote.value == character {
          quote := None;
        }
      } else if character == '"' || character == '\'' {
        quote := Some(character);
      } else if character == '>' {
        return index + 1;
      }
    }
    return |rest|;
  }

  function Alphanumerics(s: string): (n: nat)
    ensures n <= |s|
  {
    if s != "" && (Letter(s[0]) || '0' <= s[0] <= '9') then 1 + Alphanumerics(s[1..]) else 0
  }

  /** The name of the tag `tag` is, in lower case. */
  function TagName(tag: string): string
    requires tag != ""
  {
    Lower(tag[1..1 + Alphanumerics(tag[1..])])
  }

  /** Whether an element's text is not markup. */
  predicate RawText(tag: string)
    requires tag != ""
  {
    TagName(tag) == "script" || TagName(tag) == "style"
  }

  /** The start of the tag that closes the raw element `tag` opens. */
  function Closing(tag: string): string
    requires tag != ""
  {
    "</" + TagName(tag)
  }

  /** How much of `rest` is the text of the raw element that `tag` opens. */
  function RawLength(tag: string, rest: string): (n: nat)
    requires tag != ""
    ensures n <= |rest|
  {
    var end := Find(Lower(rest), Closing(tag));
    FindIs(Lower(rest), Closing(tag));
    if end.Some? then end.value else |rest|
  }

  function ToLt(html: string): (n: nat)
    ensures n <= |html| && (n < |html| ==> html[n] == '<')
  {
    if html == "" || html[0] == '<' then 0 else 1 + ToLt(html[1..])
  }

  const OPEN := "<!--"
  const CLOSE := "-->"

  /** How long the comment at the start of `rest` is. */
  function PastComment(rest: string): (n: nat)
    requires StartsWith(rest, OPEN)
    ensures 0 < n <= |rest|
  {
    var end := Find(rest[4..], CLOSE);
    FindIs(rest[4..], CLOSE);
    if end.Some? then 4 + end.value + 3 else |rest|
  }

  /** The length of the first token of `html`: text up to a `<`, a comment, a `<` that
      opens nothing, or a start tag with the text of its script or style. */
  function TokenLength(html: string): (n: nat)
    requires html != ""
    ensures 0 < n <= |html|
  {
    if html[0] != '<' then ToLt(html)
    else if StartsWith(html, OPEN) then PastComment(html)
    else if !StartsTag(html) then 1
    else
      var n := TagLength(html);
      n + if RawText(html[..n]) then RawLength(html[..n], html[n..]) else 0
  }

  predicate MarkedTag(rest: string, marked: string -> bool) {
    StartsTag(rest) && marked(rest[..TagLength(rest)])
  }

  /** Where the first start tag that `marked` accepts starts, from the token at `at` on. */
  function ForwardFrom(html: string, at: nat, marked: string -> bool): (found: Option<nat>)
    requires at <= |html|
    ensures found.Some? ==> at <= found.value < |html|
    decreases |html| - at
  {
    if at == |html| then None
    else if MarkedTag(html[at..], marked) then Some(at)
    else ForwardFrom(html, at + TokenLength(html[at..]), marked)
  }

  function ForwardAt(html: string, marked: string -> bool): Option<nat> {
    ForwardFrom(html, 0, marked)
  }

  /** Steps over the token a `<` opens, unless it is a marked tag. */
  method StepOver(rest: string, marked: string -> bool) returns (n: nat, hit: bool)
    requires rest != "" && rest[0] == '<'
    ensures hit == MarkedTag(rest, marked)
    ensures !hit ==> n == TokenLength(rest)
  {
    hit := false;
    if StartsWith(rest, OPEN) {
      n := PastComment(rest);
    } else if !StartsTag(rest) {
      n := 1;
    } else {
      n := MeasureTag(rest);
      if marked(rest[..n]) {
        hit := true;
      } else if RawText(rest[..n]) {
        n := n + RawLength(rest[..n], rest[n..]);
      }
    }
  }

  /** Text before a `<` is one token. */
  lemma SkipText(html: string, at: nat, marked: string -> bool)
    requires at <= |html|
    ensures ForwardFrom(html, at, marked) == ForwardFrom(html, at + ToLt(html[at..]), marked)
  {
    hide TagEnd, Alphanumerics, RawText;
  }

  method ForwardStartsAt(html: string, marked: string -> bool) returns (found: Option<nat>)
    ensures found == ForwardAt(html, marked)
  {
    hide TokenLength, MarkedTag;
    var at: nat := 0;
    while true
      invariant at <= |html| && ForwardAt(html, marked) == ForwardFrom(html, at, marked)
      decreases |html| - at
    {
      SkipText(html, at, marked);
      var start := at + ToLt(html[at..]);
      if start == |html| {
        return None;
      }
      var n, hit := StepOver(html[start..], marked);
      if hit {
        return Some(start);
      }
      at := start + n;
    }
  }

  function SplitForwarded(html: string, marked: string -> bool): (string, Option<string>) {
    match ForwardAt(html, marked)
    case Some(at) => (html[..at], Some(html[at..]))
    case None => (html, None)
  }

  // ---- Tokens

  /** The HTML cut into its tokens. */
  function Tokens(html: string): seq<string>
    decreases |html|
  {
    if html == "" then []
    else [html[..TokenLength(html)]] + Tokens(html[TokenLength(html)..])
  }

  /** Whether a token closes what it opens, so that what follows the HTML cannot join it. */
  predicate ClosesFirst(html: string)
    requires html != ""
  {
    if html[0] != '<' then true
    else if StartsWith(html, OPEN) then Find(html[4..], CLOSE).Some?
    else if !StartsTag(html) then true
    else
      var tag := html[..TagLength(html)];
      Closes(html[1..], None)
      && (RawText(tag) ==> Find(Lower(html[|tag|..]), Closing(tag)).Some?)
  }

  /** HTML whose comments, tags, quotes, scripts and styles are all closed. */
  predicate Complete(html: string)
    decreases |html|
  {
    html == "" || (ClosesFirst(html) && Complete(html[TokenLength(html)..]))
  }

  lemma {:induction false} TagEndMore(s: string, more: string, quote: Option<char>)
    requires Closes(s, quote)
    ensures TagEnd(s + more, quote) == TagEnd(s, quote)
  {
    assert (s + more)[1..] == s[1..] + more;
    if quote.Some? {
      TagEndMore(s[1..], more, if s[0] == quote.value then None else quote);
    } else if s[0] == '"' || s[0] == '\'' {
      TagEndMore(s[1..], more, Some(s[0]));
    } else if s[0] != '>' {
      TagEndMore(s[1..], more, None);
    }
  }

  lemma {:induction false} ToLtMore(html: string, more: string)
    requires more != "" && more[0] == '<'
    ensures ToLt(html + more) == ToLt(html)
  {
    if html == "" {
      assert html + more == more;
    } else if html[0] != '<' {
      assert (html + more)[1..] == html[1..] + more;
      ToLtMore(html[1..], more);
    }
  }

  /** A `<` that opens no comment opens none when a tag follows the HTML. */
  lemma NoComment(html: string, more: string)
    requires html != "" && !StartsWith(html, OPEN) && StartsTag(more)
    ensures !StartsWith(html + more, OPEN)
  {
    var all := html + more;
    assert |html| < 4 ==> all[|html|] == '<';
    assert |html| >= 4 ==> all[..4] == html[..4];
  }

  lemma CommentMore(html: string, more: string)
    requires StartsWith(html, OPEN) && Find(html[4..], CLOSE).Some?
    ensures StartsWith(html + more, OPEN) && PastComment(html + more) == PastComment(html)
  {
    assert (html + more)[..4] == html[..4];
    assert (html + more)[4..] == html[4..] + more;
    FindMore(html[4..], more, CLOSE);
  }

  lemma RawMore(tag: string, rest: string, more: string)
    requires tag != "" && Find(Lower(rest), Closing(tag)).Some?
    ensures RawLength(tag, rest + more) == RawLength(tag, rest)
  {
    LowerAppend(rest, more);
    FindMore(Lower(rest), Lower(more), Closing(tag));
  }

  /** What follows changes nothing in a token that is closed. */
  lemma TokenMore(html: string, more: string, marked: string -> bool)
    requires html != "" && ClosesFirst(html) && StartsTag(more)
    ensures TokenLength(html + more) == TokenLength(html)
    ensures MarkedTag(html + more, marked) == MarkedTag(html, marked)
  {
    hide TagEnd, Closes, Find, Lower, RawText, RawLength, PastComment, Letter;
    var all := html + more;
    if html[0] != '<' {
      ToLtMore(html, more);
    } else if StartsWith(html, OPEN) {
      CommentMore(html, more);
      assert html[1] == OPEN[1] && all[1] == html[1];
      OpenIsNoTag();
    } else {
      NoComment(html, more);
      assert |html| > 1 ==> all[1] == html[1];
      assert |html| == 1 ==> all[1] == more[0];
      LtIsNoLetter();
      if StartsTag(html) {
        var n := TagLength(html);
        assert all[1..] == html[1..] + more;
        TagEndMore(html[1..], more, None);
        assert all[..n] == html[..n] && all[n..] == html[n..] + more;
        if RawText(html[..n]) {
          RawMore(html[..n], html[n..], more);
        }
      }
    }
  }

  lemma LtIsNoLetter()
    ensures !Letter('<')
  {
  }

  lemma OpenIsNoTag()
    ensures !Letter(OPEN[1])
  {
  }

  /** Complete HTML is cut as it was whatever tag follows, and its marked tags come first. */
  lemma {:induction false} ForwardMore(html: string, at: nat, more: string, marked: string -> bool)
    requires at <= |html| && Complete(html[at..]) && StartsTag(more)
    ensures ForwardFrom(html + more, at, marked)
         == var own := ForwardFrom(html, at, marked);
            if own.Some? then own else ForwardFrom(html + more, |html|, marked)
    decreases |html| - at
  {
    hide TokenLength, MarkedTag, ClosesFirst, StartsTag;
    if at < |html| {
      var rest := html[at..];
      assert (html + more)[at..] == rest + more;
      TokenMore(rest, more, marked);
      var next := at + TokenLength(rest);
      assert rest[TokenLength(rest)..] == html[next..];
      ForwardMore(html, next, more, marked);
    }
  }

  /** The forwarded block comes back byte for byte: what the writer wrote above it, if
      complete and without a marked tag of its own, cannot move the cut. */
  lemma SplitExact(written: string, forwarded: string, marked: string -> bool)
    requires Complete(written) && ForwardAt(written, marked).None?
    requires MarkedTag(forwarded, marked)
    ensures SplitForwarded(written + forwarded, marked) == (written, Some(forwarded))
  {
    hide TokenLength, Complete;
    var html := written + forwarded;
    assert written[0..] == written;
    ForwardMore(written, 0, forwarded, marked);
    assert html[|written|..] == forwarded && html[..|written|] == written;
  }

  /** The tokens lose nothing. */
  lemma {:induction false} TokensWhole(html: string)
    ensures Flat(Tokens(html)) == html
    decreases |html|
  {
    hide TokenLength;
    if html != "" {
      TokensWhole(html[TokenLength(html)..]);
      assert html == html[..TokenLength(html)] + html[TokenLength(html)..];
    }
  }

  /** The tag found is the first of the start tags that is marked, and none is found
      only when none is marked. */
  lemma {:induction false} FirstMarked(html: string, at: nat, marked: string -> bool)
    returns (k: nat)
    requires at <= |html|
    ensures k <= |Tokens(html[at..])| && Flat(Tokens(html[at..])) == html[at..]
    ensures var found := ForwardFrom(html, at, marked);
            if found.None? then k == |Tokens(html[at..])|
            else k < |Tokens(html[at..])| && found.value == at + |Flat(Tokens(html[at..])[..k])|
                 && MarkedTag(html[found.value..], marked)
    ensures forall i :: 0 <= i < k ==>
              var start := at + |Flat(Tokens(html[at..])[..i])|;
              start < |html| && !MarkedTag(html[start..], marked)
    decreases |html| - at
  {
    hide TokenLength, MarkedTag;
    TokensWhole(html[at..]);
    if at == |html| || MarkedTag(html[at..], marked) {
      k := 0;
    } else {
      var n := TokenLength(html[at..]);
      assert html[at..][n..] == html[at + n..];
      var below := FirstMarked(html, at + n, marked);
      k := below + 1;
      var tokens, rest := Tokens(html[at..]), Tokens(html[at + n..]);
      assert tokens == [html[at..][..n]] + rest;
      forall i | 0 < i <= |tokens|
        ensures |Flat(tokens[..i])| == n + |Flat(rest[..i - 1])|
      {
        assert tokens[..i][1..] == rest[..i - 1];
      }
      assert tokens[..0] == [];
    }
  }
}
