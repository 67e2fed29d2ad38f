/** HTML written out piece by piece, and what the scanner for the forwarded message makes of it
    (app/src/compose.rs, `forward_starts_at`). */
module Markup {
  import opened Text
  import opened ForwardedBlock

  /** A quoted value of a tag, and what stands before it. */
  datatype Attribute = Attribute(before: string, quote: char, value: string)

  datatype Opening = Opening(name: string, attributes: seq<Attribute>, after: string)

  /** Text, a `<` that opens no tag, a comment, a start tag, or a script or style with its text
      and the tag that closes it. */
  datatype Piece =
    | Words(text: string)
    | Other(text: string)
    | Comment(text: string)
    | Tag(opening: Opening)
    | Raw(opening: Opening, text: string, closing: string)

  function Values(attributes: seq<Attribute>): string {
    if attributes == [] then ""
    else
      var a := attributes[0];
      a.before + [a.quote] + a.value + [a.quote] + Values(attributes[1..])
  }

  function TagText(o: Opening): string {
    "<" + o.name + Values(o.attributes) + o.after + ">"
  }

  function Spell(piece: Piece): string {
    match piece
    case Words(text) => text
    case Other(text) => "<" + text
    case Comment(text) => "<!--" + text + "-->"
    case Tag(opening) => TagText(opening)
    case Raw(opening, text, closing) => TagText(opening) + text + "</" + closing + ">"
  }

  function SpellAll(pieces: seq<Piece>): string {
    if pieces == [] then "" else Spell(pieces[0]) + SpellAll(pieces[1..])
  }

  predicate Bare(s: string) {
    '"' !in s && '\'' !in s && '>' !in s
  }

  predicate NameChar(c: char) {
    'a' <= c <= 'z' || 'A' <= c <= 'Z' || '0' <= c <= '9'
  }

  predicate ProperName(name: string) {
    && name != "" && ('a' <= name[0] <= 'z' || 'A' <= name[0] <= 'Z')
    && forall i :: 0 <= i < |name| ==> NameChar(name[i])
  }

  /** Outside its quoted values a tag has no quote and no `>`; the values may hold them. */
  predicate ProperValues(attributes: seq<Attribute>) {
    forall i :: 0 <= i < |attributes| ==>
      && Bare(attributes[i].before) && (attributes[i].quote == '"' || attributes[i].quote == '\'')
      && attributes[i].quote !in attributes[i].value
  }

  predicate ProperOpening(o: Opening) {
    && ProperName(o.name) && ProperValues(o.attributes) && Bare(o.after)
    && !NameChar((Values(o.attributes) + o.after + ">")[0])
  }

  ghost predicate Absent(s: string, needle: string) {
    forall k: nat :: !Occurs(s, needle, k)
  }

  ghost predicate Proper(piece: Piece) {
    match piece
    case Words(text) => '<' !in text
    case Other(text) =>
      && '<' !in text && text != "" && !Letter(text[0])
      && (text[0] == '!' ==> |text| >= 3 && !StartsWith(text, "!--"))
    case Comment(text) => Absent(text, "-->")
    case Tag(opening) => ProperOpening(opening) && Lower(opening.name) != "script" && Lower(opening.name) != "style"
    case Raw(opening, text, closing) =>
      && ProperOpening(opening) && (Lower(opening.name) == "script" || Lower(opening.name) == "style")
      && Absent(Lower(text), "</" + Lower(opening.name)) && Lower(closing) == Lower(opening.name)
  }

  /** Whether the piece opens with a tag that carries the mark. */
  predicate Carries(piece: Piece, marked: string -> bool) {
    match piece
    case Tag(opening) => marked(TagText(opening))
    case Raw(opening, _, _) => marked(TagText(opening))
    case _ => false
  }

  function Shifted(found: Option<nat>, n: nat): Option<nat> {
    match found case Some(at) => Some(at + n) case None => None
  }

  // ---- What stands above makes no difference

  lemma {:induction false} ForwardShift(a: string, b: string, at: nat, marked: string -> bool)
    requires at <= |b|
    ensures ForwardFrom(a + b, |a| + at, marked) == Shifted(ForwardFrom(b, at, marked), |a|)
    decreases |b| - at
  {
    hide TokenLength, MarkedTag;
    assert (a + b)[|a| + at..] == b[at..];
    if at < |b| && !MarkedTag(b[at..], marked) {
      ForwardShift(a, b, at + TokenLength(b[at..]), marked);
    }
  }

  /** A first token that is no marked tag is passed. */
  lemma PassToken(html: string, n: nat, marked: string -> bool)
    requires html != "" && !MarkedTag(html, marked) && TokenLength(html) == n
    ensures ForwardAt(html, marked) == Shifted(ForwardAt(html[n..], marked), n)
  {
    hide TokenLength, MarkedTag;
    assert html[0..] == html && html == html[..n] + html[n..];
    ForwardShift(html[..n], html[n..], 0, marked);
  }

  lemma {:induction false} ToLtOver(text: string, rest: string)
    requires '<' !in text
    ensures ToLt(text + rest) == |text| + ToLt(rest)
  {
    if text == "" {
      assert text + rest == rest;
    } else {
      assert (text + rest)[1..] == text[1..] + rest;
      ToLtOver(text[1..], rest);
    }
  }

  lemma PassWords(text: string, rest: string, marked: string -> bool)
    requires '<' !in text
    ensures ForwardAt(text + rest, marked) == Shifted(ForwardAt(rest, marked), |text|)
  {
    hide TokenLength, MarkedTag, ToLt;
    var html := text + rest;
    ToLtOver(text, rest);
    SkipText(html, 0, marked);
    SkipText(rest, 0, marked);
    assert html[0..] == html && rest[0..] == rest;
    ForwardShift(text, rest, ToLt(rest), marked);
  }

  lemma PassOther(text: string, rest: string, marked: string -> bool)
    requires Proper(Other(text))
    ensures ForwardAt("<" + text + rest, marked) == Shifted(ForwardAt(rest, marked), 1 + |text|)
  {
    var html := "<" + text + rest;
    assert html[0] == '<' && html[1..] == text + rest && html[1] == text[0];
    OtherOpens(text, rest);
    assert !StartsTag(html) && TokenLength(html) == 1;
    hide TokenLength, MarkedTag;
    NoTag(html, marked);
    PassToken(html, 1, marked);
    PassWords(text, rest, marked);
  }

  lemma NoTag(html: string, marked: string -> bool)
    requires !StartsTag(html)
    ensures !MarkedTag(html, marked)
  {
  }

  lemma OtherOpens(text: string, rest: string)
    requires Proper(Other(text))
    ensures !StartsWith("<" + text + rest, OPEN)
  {
    var html := "<" + text + rest;
    assert html[1] == text[0] && (|text| >= 3 ==> html[1..4] == text[..3]);
    if StartsWith(html, OPEN) {
      CommentOpens(html);
    }
  }

  lemma CommentOpens(html: string)
    requires StartsWith(html, OPEN)
    ensures |html| >= 4 && html[1] == '!' && html[1..4] == "!--"
  {
    assert html[..4] == OPEN;
  }

  // ---- Comments

  lemma CloseInside(text: string, rest: string, at: nat)
    requires at < |text| && Occurs(text + "-->" + rest, "-->", at)
    ensures Occurs(text, "-->", at)
  {
    var all := text + "-->" + rest;
    assert all[at + 2] == all[at..at + 3][2] == '>';
    assert all[|text|] == '-' && all[|text| + 1] == '-';
    assert text[at..at + 3] == all[at..at + 3];
  }

  /** A text without the closing mark is followed by it where it ends. */
  lemma CommentEnds(text: string, rest: string)
    requires Absent(text, "-->")
    ensures Find(text + "-->" + rest, "-->") == Some(|text|)
  {
    hide Find;
    var all := text + "-->" + rest;
    FindIs(all, "-->");
    assert all[|text|..|text| + 3] == "-->";
    assert Occurs(all, "-->", |text|);
    var at := Find(all, "-->").value;
    if at < |text| {
      CloseInside(text, rest, at);
    }
  }

  lemma PassComment(text: string, rest: string, marked: string -> bool)
    requires Absent(text, "-->")
    ensures ForwardAt("<!--" + text + "-->" + rest, marked) == Shifted(ForwardAt(rest, marked), |text| + 7)
  {
    var html := "<!--" + text + "-->" + rest;
    assert html[..4] == OPEN && html[4..] == text + "-->" + rest;
    assert html[0] == '<' && html[1] == '!';
    CommentEnds(text, rest);
    assert TokenLength(html) == |text| + 7;
    assert html[|text| + 7..] == rest;
    hide TokenLength, MarkedTag, Find;
    NoTag(html, marked);
    PassToken(html, |text| + 7, marked);
  }

  // ---- Tags

  lemma {:induction false} BareOver(text: string, rest: string)
    requires Bare(text)
    ensures TagEnd(text + rest, None) == |text| + TagEnd(rest, None)
    ensures Closes(text + rest, None) <==> Closes(rest, None)
  {
    if text == "" {
      assert text + rest == rest;
    } else {
      assert (text + rest)[1..] == text[1..] + rest;
      assert Bare(text[1..]);
      BareOver(text[1..], rest);
    }
  }

  lemma {:induction false} ValueOver(quote: char, value: string, rest: string)
    requires quote !in value
    ensures TagEnd(value + [quote] + rest, Some(quote)) == |value| + 1 + TagEnd(rest, None)
    ensures Closes(value + [quote] + rest, Some(quote)) <==> Closes(rest, None)
  {
    var all := value + [quote] + rest;
    if value == "" {
      assert all[1..] == rest;
    } else {
      assert all[1..] == value[1..] + [quote] + rest;
      ValueOver(quote, value[1..], rest);
    }
  }

  lemma {:induction false} ValuesOver(attributes: seq<Attribute>, rest: string)
    requires ProperValues(attributes)
    ensures TagEnd(Values(attributes) + rest, None) == |Values(attributes)| + TagEnd(rest, None)
    ensures Closes(Values(attributes) + rest, None) <==> Closes(rest, None)
  {
    if attributes == [] {
      assert Values(attributes) + rest == rest;
    } else {
      var a, more := attributes[0], Values(attributes[1..]);
      assert forall i :: 0 <= i < |attributes[1..]| ==> attributes[1..][i] == attributes[i + 1];
      ValuesOver(attributes[1..], rest);
      OneOver(a, more + rest);
      assert Values(attributes) + rest == a.before + ([a.quote] + (a.value + [a.quote] + (more + rest)));
    }
  }

  lemma OneOver(a: Attribute, rest: string)
    requires Bare(a.before) && (a.quote == '"' || a.quote == '\'') && a.quote !in a.value
    ensures TagEnd(a.before + ([a.quote] + (a.value + [a.quote] + rest)), None)
         == |a.before| + 2 + |a.value| + TagEnd(rest, None)
    ensures Closes(a.before + ([a.quote] + (a.value + [a.quote] + rest)), None) <==> Closes(rest, None)
  {
    var low := a.value + [a.quote] + rest;
    BareOver(a.before, [a.quote] + low);
    ValueOver(a.quote, a.value, rest);
    assert ([a.quote] + low)[1..] == low;
  }

  lemma NameBare(name: string)
    requires ProperName(name)
    ensures Bare(name) && Letter(name[0])
  {
  }

  /** A tag ends where it is written to end. */
  lemma TagEnds(o: Opening, rest: string)
    requires ProperOpening(o)
    ensures TagLength(TagText(o) + rest) == |TagText(o)| && (TagText(o) + rest)[..|TagText(o)|] == TagText(o)
    ensures StartsTag(TagText(o) + rest) && !StartsWith(TagText(o) + rest, OPEN)
    ensures Closes((TagText(o) + rest)[1..], None)
  {
    var html, values := TagText(o) + rest, Values(o.attributes);
    NameBare(o.name);
    hide TagEnd, Closes, ProperName, ProperValues, Values;
    assert html == "<" + (o.name + (values + (o.after + (">" + rest))));
    assert html[1..] == o.name + (values + (o.after + (">" + rest)));
    BareOver(o.name, values + (o.after + (">" + rest)));
    ValuesOver(o.attributes, o.after + (">" + rest));
    BareOver(o.after, ">" + rest);
    EndsHere(rest);
    assert html[0] == '<' && html[1] == o.name[0];
    if StartsWith(html, OPEN) {
      CommentOpens(html);
    }
  }

  lemma EndsHere(rest: string)
    ensures TagEnd(">" + rest, None) == 1 && Closes(">" + rest, None)
  {
  }

  lemma {:induction false} NameOver(name: string, rest: string)
    requires (forall i :: 0 <= i < |name| ==> NameChar(name[i])) && rest != "" && !NameChar(rest[0])
    ensures Alphanumerics(name + rest) == |name|
  {
    if name == "" {
      assert name + rest == rest;
    } else {
      assert (name + rest)[1..] == name[1..] + rest;
      NameOver(name[1..], rest);
    }
  }

  lemma TagNamed(o: Opening)
    requires ProperOpening(o)
    ensures TagName(TagText(o)) == Lower(o.name)
  {
    var low := Values(o.attributes) + o.after + ">";
    assert TagText(o) == "<" + (o.name + low);
    assert TagText(o)[1..] == o.name + low;
    hide Alphanumerics, ProperValues, Values, Lower;
    NameOver(o.name, low);
    assert TagText(o)[1..1 + |o.name|] == o.name;
  }

  lemma PassTag(o: Opening, rest: string, marked: string -> bool)
    requires Proper(Tag(o)) && !marked(TagText(o))
    ensures ForwardAt(TagText(o) + rest, marked) == Shifted(ForwardAt(rest, marked), |TagText(o)|)
  {
    hide TagLength, TagText, TagName, ProperOpening;
    var tag := TagText(o);
    var html := tag + rest;
    TagSome(o);
    TagEnds(o, rest);
    TagNamed(o);
    assert html[0] == '<' && html[|tag|..] == rest;
    assert TokenLength(html) == |tag|;
    PassToken(html, |tag|, marked);
  }

  lemma TagSome(o: Opening)
    ensures TagText(o) != "" && TagText(o)[0] == '<'
  {
  }

  // ---- Scripts and styles

  lemma OccursChar(s: string, needle: string, at: nat, x: nat)
    requires Occurs(s, needle, at) && at <= x < at + |needle|
    ensures s[x] == needle[x - at]
  {
    assert s[at..at + |needle|][x - at] == s[x];
  }

  lemma NameInside(text: string, name: string, rest: string, at: nat)
    requires at < |text| && '<' !in name && Occurs(text + ("</" + name) + rest, "</" + name, at)
    ensures Occurs(text, "</" + name, at)
  {
    var close := "</" + name;
    var all := text + close + rest;
    assert forall i :: 0 < i < |close| ==> close[i] != '<';
    assert all[|text|] == '<';
    if at + |close| > |text| {
      OccursChar(all, close, at, |text|);
    }
    assert at + |close| <= |text|;
    assert text[at..at + |close|] == all[at..at + |close|];
  }

  lemma RawEnds(text: string, name: string, rest: string)
    requires Absent(text, "</" + name) && '<' !in name
    ensures Find(text + ("</" + name) + rest, "</" + name) == Some(|text|)
  {
    hide Find;
    var close := "</" + name;
    var all := text + close + rest;
    FindIs(all, close);
    assert all[|text|..|text| + |close|] == close;
    assert Occurs(all, close, |text|);
    var at := Find(all, close).value;
    if at < |text| {
      NameInside(text, name, rest, at);
    }
  }

  lemma {:induction false} LowerLt(s: string)
    ensures '<' in Lower(s) <==> '<' in s
  {
    if s != "" {
      LowerLt(s[1..]);
      assert s == [s[0]] + s[1..];
    }
  }

  lemma RawFound(o: Opening, text: string, closing: string, rest: string)
    requires Proper(Raw(o, text, closing))
    ensures Find(Lower(text + ("</" + closing + ">" + rest)), "</" + Lower(o.name)) == Some(|text|)
  {
    hide Lower, Find, TagText, ProperOpening;
    var name, low := Lower(o.name), ">" + rest;
    assert ProperName(o.name) by {
      OpeningName(o);
    }
    NameBare(o.name);
    assert '<' !in o.name;
    LowerLt(o.name);
    var tail := "</" + closing + ">" + rest;
    assert text + tail == text + ("</" + closing) + low;
    LowerAppend(text + ("</" + closing), low);
    LowerAppend(text, "</" + closing);
    LowerAppend("</", closing);
    LowerSlash();
    RawEnds(Lower(text), name, Lower(low));
  }

  lemma RawSpans(o: Opening, text: string, closing: string, rest: string)
    requires Proper(Raw(o, text, closing))
    ensures TagText(o) != "" && Find(Lower(text + ("</" + closing + ">" + rest)), Closing(TagText(o))).Some?
    ensures RawLength(TagText(o), text + ("</" + closing + ">" + rest)) == |text|
  {
    hide Lower, Find, TagText, TagName, ProperOpening, Absent;
    TagSome(o);
    TagNamed(o);
    RawFound(o, text, closing, rest);
  }

  lemma OpeningName(o: Opening)
    requires ProperOpening(o)
    ensures ProperName(o.name)
  {
  }

  lemma LowerSlash()
    ensures Lower("</") == "</"
  {
    assert "</"[1..] == "/" && "/"[1..] == "";
  }

  lemma RawLengthIs(o: Opening, text: string, closing: string, rest: string)
    requires Proper(Raw(o, text, closing))
    ensures var html := TagText(o) + (text + ("</" + closing + ">" + rest));
            html != "" && TokenLength(html) == |TagText(o)| + |text| && ClosesFirst(html)
  {
    hide Find, Closes, TagLength, TagText, TagName, ProperOpening, RawLength, Lower, Absent;
    var low := text + ("</" + closing + ">" + rest);
    TagSome(o);
    TagEnds(o, low);
    TagNamed(o);
    RawSpans(o, text, closing, rest);
    Under(TagText(o), low);
  }

  lemma Under(above: string, low: string)
    ensures (above + low)[|above|..] == low && (above != "" ==> (above + low)[0] == above[0])
  {
  }

  lemma PassRaw(o: Opening, text: string, closing: string, rest: string, marked: string -> bool)
    requires Proper(Raw(o, text, closing)) && !marked(TagText(o))
    ensures var html := Spell(Raw(o, text, closing)) + rest;
            ForwardAt(html, marked) == Shifted(ForwardAt(rest, marked), |Spell(Raw(o, text, closing))|)
  {
    hide TagText, TagName, ProperOpening, Absent, TokenLength, MarkedTag;
    var tag, close := TagText(o), "/" + closing + ">";
    var low := text + ("</" + closing + ">" + rest);
    RawLengthIs(o, text, closing, rest);
    RawUnmarked(o, low, marked);
    PassToken(tag + low, |tag| + |text|, marked);
    RawCut(tag, text, close, rest);
    assert "</" + closing + ">" == "<" + close;
    assert tag + text + "</" + closing + ">" == tag + text + ("</" + closing + ">");
    assert tag + text + ("<" + close) == tag + text + "<" + close;
    ClosingBare(o, text, closing);
    CloseIsOther(closing);
    PassOther(close, rest, marked);
  }

  lemma RawCut(tag: string, text: string, close: string, rest: string)
    ensures tag + text + "<" + close + rest == tag + (text + ("<" + close + rest))
    ensures (tag + (text + ("<" + close + rest)))[|tag| + |text|..] == "<" + close + rest
  {
  }

  lemma ClosingBare(o: Opening, text: string, closing: string)
    requires Proper(Raw(o, text, closing))
    ensures '<' !in closing
  {
    OpeningName(o);
    NameBare(o.name);
    LowerLt(o.name);
    LowerLt(closing);
  }

  lemma RawUnmarked(o: Opening, low: string, marked: string -> bool)
    requires ProperOpening(o) && !marked(TagText(o))
    ensures !MarkedTag(TagText(o) + low, marked)
  {
    hide TagLength, TagText, ProperOpening;
    TagEnds(o, low);
  }

  lemma CloseIsOther(closing: string)
    requires '<' !in closing
    ensures Proper(Other("/" + closing + ">"))
  {
  }

  // ---- The laws

  /** A well-formed piece that does not carry the mark is passed whole, whatever follows. */
  lemma PassPiece(piece: Piece, rest: string, marked: string -> bool)
    requires Proper(piece) && !Carries(piece, marked)
    ensures ForwardAt(Spell(piece) + rest, marked) == Shifted(ForwardAt(rest, marked), |Spell(piece)|)
  {
    hide TokenLength, MarkedTag, TagText;
    match piece
    case Words(text) => PassWords(text, rest, marked);
    case Other(text) => PassOther(text, rest, marked);
    case Comment(text) => PassComment(text, rest, marked);
    case Tag(opening) => PassTag(opening, rest, marked);
    case Raw(opening, text, closing) => PassRaw(opening, text, closing, rest, marked);
  }

  /** Well-formed markup in which no tag carries the mark is passed whole: the marked tag is
      found where it would be in what follows. */
  lemma {:induction false} MarkupPassed(pieces: seq<Piece>, rest: string, marked: string -> bool)
    requires forall i :: 0 <= i < |pieces| ==> Proper(pieces[i]) && !Carries(pieces[i], marked)
    ensures ForwardAt(SpellAll(pieces) + rest, marked) == Shifted(ForwardAt(rest, marked), |SpellAll(pieces)|)
  {
    hide Spell, Proper, Carries, ForwardFrom;
    if pieces == [] {
      assert SpellAll(pieces) + rest == rest;
    } else {
      var first, low := Spell(pieces[0]), SpellAll(pieces[1..]);
      assert forall i :: 0 <= i < |pieces[1..]| ==> pieces[1..][i] == pieces[i + 1];
      MarkupPassed(pieces[1..], rest, marked);
      PassPiece(pieces[0], low + rest, marked);
      assert first + low + rest == first + (low + rest);
    }
  }

  /** HTML whose first token closes what it opens is complete when the rest of it is. */
  lemma CompleteToken(html: string, n: nat)
    requires html != "" && ClosesFirst(html) && TokenLength(html) == n && Complete(html[n..])
    ensures Complete(html)
  {
  }

  lemma CompleteWords(text: string, rest: string)
    requires '<' !in text && Complete(rest)
    ensures Complete(text + rest)
  {
    hide ClosesFirst;
    if text == "" {
      assert text + rest == rest;
    } else {
      var html := text + rest;
      ToLtOver(text, rest);
      assert html[0] == text[0] && TokenLength(html) == |text| + ToLt(rest);
      assert html[|text| + ToLt(rest)..] == rest[ToLt(rest)..];
      TextCloses(html);
      assert rest != "" && rest[0] != '<' ==> TokenLength(rest) == ToLt(rest);
      assert rest == "" || rest[0] == '<' ==> rest[ToLt(rest)..] == rest;
      CompleteToken(html, |text| + ToLt(rest));
    }
  }

  lemma TextCloses(html: string)
    requires html != "" && html[0] != '<'
    ensures ClosesFirst(html)
  {
  }

  lemma CompleteOther(text: string, rest: string)
    requires Proper(Other(text)) && Complete(rest)
    ensures Complete("<" + text + rest)
  {
    var html := "<" + text + rest;
    assert html[0] == '<' && html[1..] == text + rest && html[1] == text[0];
    OtherOpens(text, rest);
    assert !StartsTag(html) && TokenLength(html) == 1 && ClosesFirst(html);
    CompleteWords(text, rest);
  }

  lemma CompletePiece(piece: Piece, rest: string)
    requires Proper(piece) && Complete(rest)
    ensures Complete(Spell(piece) + rest)
  {
    hide Complete, TokenLength, ClosesFirst, TagText, TagLength, ProperOpening;
    match piece
    case Words(text) => CompleteWords(text, rest);
    case Other(text) => CompleteOther(text, rest);
    case Comment(text) => CompleteComment(text, rest);
    case Tag(opening) => CompleteTag(opening, rest);
    case Raw(opening, text, closing) => CompleteRaw(opening, text, closing, rest);
  }

  lemma CompleteComment(text: string, rest: string)
    requires Absent(text, "-->") && Complete(rest)
    ensures Complete("<!--" + text + "-->" + rest)
  {
    hide Complete, Find;
    var html := "<!--" + text + "-->" + rest;
    assert html[..4] == OPEN && html[4..] == text + "-->" + rest;
    CommentEnds(text, rest);
    assert html[|text| + 7..] == rest;
    CompleteToken(html, |text| + 7);
  }

  lemma CompleteTag(o: Opening, rest: string)
    requires Proper(Tag(o)) && Complete(rest)
    ensures Complete(TagText(o) + rest)
  {
    hide Complete, Closes, TagLength, TagText, TagName, ProperOpening;
    var tag := TagText(o);
    var html := tag + rest;
    TagSome(o);
    TagEnds(o, rest);
    TagNamed(o);
    assert html[0] == '<' && html[|tag|..] == rest;
    CompleteToken(html, |tag|);
  }

  lemma CompleteRaw(o: Opening, text: string, closing: string, rest: string)
    requires Proper(Raw(o, text, closing)) && Complete(rest)
    ensures Complete(Spell(Raw(o, text, closing)) + rest)
  {
    hide TagText, ProperOpening, Absent, TokenLength, ClosesFirst, Complete;
    var tag, close := TagText(o), "/" + closing + ">";
    RawLengthIs(o, text, closing, rest);
    RawCut(tag, text, close, rest);
    assert "</" + closing + ">" == "<" + close;
    assert tag + text + "</" + closing + ">" == tag + text + ("</" + closing + ">");
    assert tag + text + ("<" + close) == tag + text + "<" + close;
    ClosingBare(o, text, closing);
    CloseIsOther(closing);
    CompleteOther(close, rest);
    CompleteToken(tag + (text + ("<" + close + rest)), |tag| + |text|);
  }

  /** Markup written out of such pieces is complete. */
  lemma {:induction false} MarkupComplete(pieces: seq<Piece>)
    requires forall i :: 0 <= i < |pieces| ==> Proper(pieces[i])
    ensures Complete(SpellAll(pieces))
  {
    hide Spell, Proper;
    if pieces != [] {
      assert forall i :: 0 <= i < |pieces[1..]| ==> pieces[1..][i] == pieces[i + 1];
      MarkupComplete(pieces[1..]);
      CompletePiece(pieces[0], SpellAll(pieces[1..]));
    }
  }

  lemma MarkedHere(piece: Piece, rest: string, marked: string -> bool)
    requires Proper(piece) && Carries(piece, marked)
    ensures ForwardAt(Spell(piece) + rest, marked) == Some(0)
  {
    hide TokenLength, TagText, TagLength, ProperOpening;
    var opening := piece.opening;
    var low := Spell(piece)[|TagText(opening)|..] + rest;
    var html := Spell(piece) + rest;
    TagSome(opening);
    assert html == TagText(opening) + low by {
      SpellOpens(piece);
      assert Spell(piece) == TagText(opening) + Spell(piece)[|TagText(opening)|..];
    }
    TagEnds(opening, low);
    assert html[0..] == html;
  }

  lemma SpellOpens(piece: Piece)
    requires piece.Tag? || piece.Raw?
    ensures TagText(piece.opening) <= Spell(piece)
  {
  }

  /** Whatever well-formed markup the writer's words are, comments, quoted values, scripts and
      styles with `<`, `>` and the mark itself in them included, the forwarded block that
      follows is cut off just where it starts; and without one nothing is. */
  lemma WrittenSplit(written: seq<Piece>, block: Piece, rest: string, marked: string -> bool)
    requires forall i :: 0 <= i < |written| ==> Proper(written[i]) && !Carries(written[i], marked)
    requires Proper(block) && Carries(block, marked)
    ensures SplitForwarded(SpellAll(written) + (Spell(block) + rest), marked)
         == (SpellAll(written), Some(Spell(block) + rest))
    ensures SplitForwarded(SpellAll(written), marked) == (SpellAll(written), None)
  {
    hide Spell, Proper, Carries, ForwardFrom;
    MarkupPassed(written, Spell(block) + rest, marked);
    MarkedHere(block, rest, marked);
    var html := SpellAll(written) + (Spell(block) + rest);
    assert html[..|SpellAll(written)|] == SpellAll(written) && html[|SpellAll(written)|..] == Spell(block) + rest;
    MarkupPassed(written, "", marked);
    assert SpellAll(written) + "" == SpellAll(written);
    NothingFound(marked);
  }

  lemma NothingFound(marked: string -> bool)
    ensures ForwardAt("", marked) == None
  {
  }
}
