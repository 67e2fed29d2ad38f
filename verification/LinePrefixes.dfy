/** Marking whole lines as a list or a quote, and taking the marks off again. */
module LinePrefixes {
  import opened Text
  import SignatureChange

  datatype Prefix = Bullet | Numbered | Quote

  predicate Digit(c: char) {
    '0' <= c <= '9'
  }

  /** How many digits a line opens with. */
  function Digits(line: string): (n: nat)
    ensures n <= |line|
  {
    if line != "" && Digit(line[0]) then 1 + Digits(line[1..]) else 0
  }

  function StripPrefix(line: string, head: string): Option<string> {
    if StartsWith(line, head) then Some(line[|head|..]) else None
  }

  function OrElse(a: Option<string>, b: Option<string>): Option<string> {
    if a.Some? then a else b
  }

  function Strip(prefix: Prefix, line: string): Option<string> {
    match prefix
    case Bullet => OrElse(StripPrefix(line, "- "), StripPrefix(line, "* "))
    case Quote => OrElse(StripPrefix(line, "> "), StripPrefix(line, ">"))
    case Numbered => if Digits(line) > 0 then StripPrefix(line[Digits(line)..], ". ") else None
  }

  function Decimal(n: nat): string {
    (if n < 10 then "" else Decimal(n / 10)) + [('0' as int + n % 10) as char]
  }

  /** A line without the mark of a list, which a quote leaves alone. */
  function Bare(prefix: Prefix, line: string): string {
    var stripped := OrElse(Strip(Bullet, line), Strip(Numbered, line));
    if prefix != Quote && stripped.Some? then stripped.value else line
  }

  function Mark(prefix: Prefix, number: nat): string {
    match prefix case Bullet => "- " case Numbered => Decimal(number) + ". " case Quote => "> "
  }

  function Marked(prefix: Prefix, lines: seq<string>, number: nat): (marked: seq<string>)
    ensures |marked| == |lines|
  {
    if lines == [] then []
    else if Blank(lines[0]) then [lines[0]] + Marked(prefix, lines[1..], number)
    else [Mark(prefix, number + 1) + Bare(prefix, lines[0])] + Marked(prefix, lines[1..], number + 1)
  }

  function Unmarked(prefix: Prefix, lines: seq<string>): (unmarked: seq<string>)
    ensures |unmarked| == |lines|
  {
    seq(|lines|, i requires 0 <= i < |lines| =>
      if Blank(lines[i]) || Strip(prefix, lines[i]).None? then lines[i] else Strip(prefix, lines[i]).value)
  }

  predicate AllHave(prefix: Prefix, lines: seq<string>) {
    && (exists i :: 0 <= i < |lines| && !Blank(lines[i]))
    && (forall i :: 0 <= i < |lines| ==> Blank(lines[i]) || Strip(prefix, lines[i]).Some?)
  }

  function Toggled(prefix: Prefix, lines: seq<string>): seq<string> {
    if AllHave(prefix, lines) then Unmarked(prefix, lines) else Marked(prefix, lines, 0)
  }

  function Toggle(text: string, prefix: Prefix): string {
    Join(Toggled(prefix, Split(text)), "\n")
  }

  lemma {:induction false} DecimalDigits(n: nat)
    ensures var s := Decimal(n); s != "" && forall i :: 0 <= i < |s| ==> Digit(s[i])
  {
    if n >= 10 {
      DecimalDigits(n / 10);
    }
  }

  lemma {:induction false} DigitsIs(digits: string, rest: string)
    requires forall i :: 0 <= i < |digits| ==> Digit(digits[i])
    requires rest == "" || !Digit(rest[0])
    ensures Digits(digits + rest) == |digits|
  {
    if digits == "" {
      assert digits + rest == rest;
    } else {
      assert (digits + rest)[1..] == digits[1..] + rest;
      DigitsIs(digits[1..], rest);
    }
  }

  /** The number a row of digits spells. */
  function Value(digits: string): nat
    requires forall i :: 0 <= i < |digits| ==> Digit(digits[i])
  {
    if digits == "" then 0
    else
      assert Digit(digits[|digits| - 1]);
      Value(digits[..|digits| - 1]) * 10 + (digits[|digits| - 1] as int - '0' as int)
  }

  /** A number is printed as its digits, without zeros in front. */
  lemma {:induction false} DecimalExact(n: nat)
    ensures var s := Decimal(n);
            && (forall i :: 0 <= i < |s| ==> Digit(s[i]))
            && Value(s) == n && s != "" && (|s| > 1 ==> s[0] != '0')
  {
    var s, last := Decimal(n), ('0' as int + n % 10) as char;
    DecimalDigits(n);
    if n >= 10 {
      DecimalExact(n / 10);
      assert s == Decimal(n / 10) + [last] && s[..|s| - 1] == Decimal(n / 10);
      if |Decimal(n / 10)| == 1 {
        assert Value(Decimal(n / 10)) == n / 10 > 0;
        assert Decimal(n / 10)[..0] == "";
      }
    } else {
      assert s == [last] && s[..0] == "";
    }
  }

  /** A line carries a bullet, a number or a quote mark exactly when it is one of these marks
      and what is left without it; a quote's mark takes a space with it where there is one. */
  lemma StripExact(line: string, rest: string)
    ensures Strip(Bullet, line) == Some(rest) <==> line == "- " + rest || line == "* " + rest
    ensures Strip(Quote, line) == Some(rest)
            <==> line == "> " + rest || (line == ">" + rest && (rest == "" || rest[0] != ' '))
    ensures Strip(Numbered, line) == Some(rest)
            <==> exists digits: string :: digits != "" && (forall i :: 0 <= i < |digits| ==> Digit(digits[i]))
                                          && line == digits + ". " + rest
  {
    StripHead(line, "- ", rest);
    StripHead(line, "* ", rest);
    StripHead(line, "> ", rest);
    StripHead(line, ">", rest);
    QuoteHead(line, rest);
    assert "- "[0] == '-' && "* "[0] == '*';
    NumberExact(line, rest);
  }

  lemma StripHead(line: string, head: string, rest: string)
    ensures StripPrefix(line, head) == Some(rest) <==> line == head + rest
  {
  }

  lemma QuoteHead(line: string, rest: string)
    ensures StartsWith(line, "> ") <==> |line| >= 2 && line[0] == '>' && line[1] == ' '
    ensures line == ">" + rest ==> (StartsWith(line, "> ") <==> rest != "" && rest[0] == ' ')
  {
    assert "> "[0] == '>' && "> "[1] == ' ';
    if |line| >= 2 && line[0] == '>' && line[1] == ' ' {
      assert line[..2] == "> ";
    }
  }

  lemma NumberExact(line: string, rest: string)
    ensures Strip(Numbered, line) == Some(rest)
            <==> exists digits: string :: digits != "" && (forall i :: 0 <= i < |digits| ==> Digit(digits[i]))
                                          && line == digits + ". " + rest
  {
    var n := Digits(line);
    DigitsFirst(line);
    if Strip(Numbered, line) == Some(rest) {
      assert line == line[..n] + ". " + rest;
    }
    if digits: string :| digits != "" && (forall i :: 0 <= i < |digits| ==> Digit(digits[i]))
                         && line == digits + ". " + rest {
      DigitsIs(digits, ". " + rest);
      assert line == digits + (". " + rest) && line[|digits|..] == ". " + rest;
    }
  }

  lemma {:induction false} DigitsFirst(line: string)
    ensures forall i :: 0 <= i < Digits(line) ==> Digit(line[i])
  {
    if line != "" && Digit(line[0]) {
      DigitsFirst(line[1..]);
      assert forall i :: 0 < i < Digits(line) ==> line[i] == line[1..][i - 1];
    }
  }

  lemma StripNumber(number: nat, bare: string)
    ensures Strip(Numbered, Mark(Numbered, number) + bare) == Some(bare)
    ensures !Blank(Mark(Numbered, number) + bare)
  {
    hide Decimal, Digits;
    DecimalDigits(number);
    var digits, rest := Decimal(number), ". " + bare;
    var line := Mark(Numbered, number) + bare;
    assert line == digits + rest;
    DigitsIs(digits, rest);
    assert line[|digits|..] == rest && rest[2..] == bare;
    assert line[0] == digits[0] && Digit(digits[0]);
  }

  /** A mark put on is what is taken off. */
  lemma StripMark(prefix: Prefix, number: nat, bare: string)
    ensures Strip(prefix, Mark(prefix, number) + bare) == Some(bare)
    ensures !Blank(Mark(prefix, number) + bare)
  {
    hide Decimal, Digits;
    var line := Mark(prefix, number) + bare;
    match prefix
    case Bullet => assert line[0] == '-' && line[2..] == bare;
    case Quote => assert line[0] == '>' && line[2..] == bare;
    case Numbered => StripNumber(number, bare);
  }

  /** How many of the lines hold text. */
  function Filled(lines: seq<string>): nat {
    if lines == [] then 0 else Filled(lines[..|lines| - 1]) + (if Blank(lines[|lines| - 1]) then 0 else 1)
  }

  lemma {:induction false} FilledFirst(lines: seq<string>)
    requires lines != []
    ensures Filled(lines) == (if Blank(lines[0]) then 0 else 1) + Filled(lines[1..])
  {
    hide Blank;
    if |lines| > 1 {
      var shorter := lines[..|lines| - 1];
      FilledFirst(shorter);
      assert lines[1..][..|lines| - 2] == shorter[1..];
    } else {
      assert lines[..0] == [] && lines[1..] == [];
    }
  }

  lemma {:induction false} MarkedIs(prefix: Prefix, lines: seq<string>, number: nat, i: nat)
    requires i < |lines|
    ensures Marked(prefix, lines, number)[i]
         == if Blank(lines[i]) then lines[i]
            else Mark(prefix, number + Filled(lines[..i + 1])) + Bare(prefix, lines[i])
  {
    hide Mark, Bare, Blank;
    FilledFirst(lines[..i + 1]);
    assert lines[..i + 1][1..] == lines[1..][..i];
    if i > 0 {
      MarkedIs(prefix, lines[1..], if Blank(lines[0]) then number else number + 1, i - 1);
    }
  }

  /** Toggling leaves blank lines alone. When some line holds text and all that do have the mark
      it is taken off them; else each of them gets it, a list's mark it had taken off first but
      for a quote, numbers counting those lines from one. */
  lemma ToggledExact(prefix: Prefix, lines: seq<string>, i: nat)
    requires i < |lines|
    ensures var toggled, line := Toggled(prefix, lines), lines[i];
            && |toggled| == |lines|
            && toggled[i]
               == if Blank(line) then line
                  else if forall j :: 0 <= j < |lines| && !Blank(lines[j]) ==> Strip(prefix, lines[j]).Some?
                  then Strip(prefix, line).value
                  else (match prefix
                        case Bullet => "- "
                        case Numbered => Decimal(Filled(lines[..i + 1])) + ". "
                        case Quote => "> ")
                       + (if prefix == Quote then line
                          else if Strip(Bullet, line).Some? then Strip(Bullet, line).value
                          else if Strip(Numbered, line).Some? then Strip(Numbered, line).value
                          else line)
  {
    hide Strip, Blank, Marked, Decimal;
    MarkedIs(prefix, lines, 0, i);
  }

  /** A text's lines without their list marks. */
  function Bares(prefix: Prefix, lines: seq<string>): (bares: seq<string>)
    ensures |bares| == |lines|
  {
    seq(|lines|, i requires 0 <= i < |lines| => if Blank(lines[i]) then lines[i] else Bare(prefix, lines[i]))
  }

  /** A line and the same line marked. */
  predicate Holds(prefix: Prefix, line: string, marked: string) {
    && (Blank(line) ==> marked == line)
    && (!Blank(line) ==> !Blank(marked) && Strip(prefix, marked) == Some(Bare(prefix, line)))
  }

  lemma {:induction false} MarkedAt(prefix: Prefix, lines: seq<string>, number: nat, i: nat)
    requires i < |lines|
    ensures Holds(prefix, lines[i], Marked(prefix, lines, number)[i])
  {
    hide Strip, Bare, Mark, Blank;
    if i > 0 {
      var next := if Blank(lines[0]) then number else number + 1;
      MarkedAt(prefix, lines[1..], next, i - 1);
    } else if !Blank(lines[0]) {
      StripMark(prefix, number + 1, Bare(prefix, lines[0]));
    }
  }

  lemma MarkedOff(prefix: Prefix, lines: seq<string>, number: nat)
    ensures var marked := Marked(prefix, lines, number);
            && (forall i :: 0 <= i < |lines| ==> Holds(prefix, lines[i], marked[i]))
            && Unmarked(prefix, marked) == Bares(prefix, lines)
  {
    hide Strip, Bare, Blank, Marked, Holds;
    var marked := Marked(prefix, lines, number);
    forall i | 0 <= i < |lines|
      ensures Holds(prefix, lines[i], marked[i]) && Unmarked(prefix, marked)[i] == Bares(prefix, lines)[i] {
      MarkedAt(prefix, lines, number, i);
      UnmarkOne(prefix, lines[i], marked[i]);
    }
  }

  /** A marked line unmarked, and a blank one left alone. */
  lemma UnmarkOne(prefix: Prefix, line: string, marked: string)
    requires Holds(prefix, line, marked)
    ensures (if Blank(marked) || Strip(prefix, marked).None? then marked else Strip(prefix, marked).value)
            == if Blank(line) then line else Bare(prefix, line)
  {
    hide Strip, Bare, Blank;
  }

  /** Marking the lines of a text that is not marked and then toggling again gives its lines
      without list marks: the text itself exactly when the mark was a quote's or no line
      with text had a list's. */
  lemma MarkedTwice(prefix: Prefix, lines: seq<string>)
    requires !AllHave(prefix, lines) && exists i :: 0 <= i < |lines| && !Blank(lines[i])
    ensures Toggled(prefix, Toggled(prefix, lines)) == Bares(prefix, lines)
    ensures Toggled(prefix, Toggled(prefix, lines)) == lines
            <==> prefix == Quote || forall i :: 0 <= i < |lines| && !Blank(lines[i])
                                                ==> Strip(Bullet, lines[i]).None? && Strip(Numbered, lines[i]).None?
  {
    hide Strip, Mark, Marked, Unmarked, Blank, Bare;
    MarkedOff(prefix, lines, 0);
    var marked := Marked(prefix, lines, 0);
    var i :| 0 <= i < |lines| && !Blank(lines[i]);
    assert !Blank(marked[i]);
    assert AllHave(prefix, marked);
    forall j | 0 <= j < |lines| && !Blank(lines[j])
      ensures Bare(prefix, lines[j]) == lines[j]
              <==> prefix == Quote || (Strip(Bullet, lines[j]).None? && Strip(Numbered, lines[j]).None?) {
      BareSame(prefix, lines[j]);
    }
  }

  lemma BareSame(prefix: Prefix, line: string)
    ensures Bare(prefix, line) == line
            <==> prefix == Quote || (Strip(Bullet, line).None? && Strip(Numbered, line).None?)
  {
    StripShorter(Bullet, line);
    StripShorter(Numbered, line);
  }

  lemma StripShorter(prefix: Prefix, line: string)
    ensures Strip(prefix, line).Some? ==> |Strip(prefix, line).value| < |line|
  {
  }

  lemma {:induction false} MarkedLines(prefix: Prefix, lines: seq<string>, number: nat)
    requires forall i :: 0 <= i < |lines| ==> '\n' !in lines[i]
    ensures forall i :: 0 <= i < |Marked(prefix, lines, number)| ==> '\n' !in Marked(prefix, lines, number)[i]
  {
    hide Blank, Strip;
    if lines != [] {
      var next := if Blank(lines[0]) then number else number + 1;
      assert forall i :: 0 <= i < |lines[1..]| ==> lines[1..][i] == lines[i + 1];
      MarkedLines(prefix, lines[1..], next);
      MarkLine(prefix, number + 1, lines[0]);
    }
  }

  lemma MarkLine(prefix: Prefix, number: nat, line: string)
    requires '\n' !in line
    ensures '\n' !in Mark(prefix, number) + Bare(prefix, line)
  {
    DecimalDigits(number);
    assert '\n' !in Decimal(number) by {
      assert !Digit('\n');
    }
  }

  /** The same for a whole text. */
  lemma ToggledTwice(text: string, prefix: Prefix)
    requires var lines := Split(text); !AllHave(prefix, lines) && exists i :: 0 <= i < |lines| && !Blank(lines[i])
    ensures Split(Toggle(Toggle(text, prefix), prefix)) == Bares(prefix, Split(text))
    ensures Toggle(Toggle(text, prefix), prefix) == text
            <==> prefix == Quote || forall i :: 0 <= i < |Split(text)| && !Blank(Split(text)[i])
                                     ==> Strip(Bullet, Split(text)[i]).None? && Strip(Numbered, Split(text)[i]).None?
  {
    hide Strip, Blank, Bare, Marked, Unmarked, AllHave;
    var lines := Split(text);
    SplitLines(text);
    MarkedLines(prefix, lines, 0);
    var marked := Marked(prefix, lines, 0);
    SignatureChange.SplitJoin(marked);
    MarkedTwice(prefix, lines);
    var bares := Bares(prefix, lines);
    forall i | 0 <= i < |bares| ensures '\n' !in bares[i] {
      BareLine(prefix, lines[i]);
    }
    SignatureChange.SplitJoin(bares);
    assert Toggle(Toggle(text, prefix), prefix) == Join(bares, "\n");
    assert Join(lines, "\n") == text;
  }

  lemma BareLine(prefix: Prefix, line: string)
    requires '\n' !in line
    ensures '\n' !in Bare(prefix, line)
  {
  }
}
