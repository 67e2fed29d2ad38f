/** A path as one argument of a desktop entry's Exec line, and read back. */
module Autostart {
  import opened Text

  /** What a backslash stands before inside quotes. */
  predicate Special(c: char) {
    c == '"' || c == '`' || c == '$' || c == '\\'
  }

  /** How one character of a path is printed. */
  function Escaped(c: char): string {
    if c == '\\' then "\\\\\\\\"
    else if Special(c) then "\\\\" + [c]
    else if c == '%' then "%%"
    else if c == '\n' then "\\n"
    else if c == '\t' then "\\t"
    else [c]
  }

  function EscapedAll(path: string): string {
    if path == "" then "" else Escaped(path[0]) + EscapedAll(path[1..])
  }

  function Printed(path: string): string {
    "\"" + EscapedAll(path) + "\""
  }

  method ExecArgument(path: string) returns (quoted: string)
    ensures quoted == Printed(path)
  {
    hide EscapedAll, Escaped;
    quoted := "\"";
    var i := 0;
    assert path[0..] == path;
    while i < |path|
      invariant 0 <= i <= |path| && quoted + EscapedAll(path[i..]) == "\"" + EscapedAll(path)
    {
      quoted := PushEscaped(quoted, path[i]);
      EscapedNext(path, i);
      i := i + 1;
    }
    EscapedEnd(path, i);
    quoted := quoted + "\"";
  }

  method PushEscaped(quoted: string, c: char) returns (longer: string)
    ensures longer == quoted + Escaped(c)
  {
    longer := quoted;
    if c == '"' || c == '`' || c == '$' || c == '\\' {
      longer := longer + "\\\\";
      if c == '\\' {
        longer := longer + "\\\\";
      } else {
        longer := longer + [c];
      }
    } else if c == '%' {
      longer := longer + "%%";
    } else if c == '\n' {
      longer := longer + "\\n";
    } else if c == '\t' {
      longer := longer + "\\t";
    } else {
      longer := longer + [c];
    }
  }

  lemma EscapedNext(path: string, i: nat)
    requires i < |path|
    ensures EscapedAll(path[i..]) == Escaped(path[i]) + EscapedAll(path[i + 1..])
  {
    assert path[i..][1..] == path[i + 1..];
  }

  lemma EscapedEnd(path: string, i: nat)
    requires i == |path|
    ensures EscapedAll(path[i..]) == ""
  {
  }

  // How a desktop reads it: section "Possible value types" of the Desktop Entry
  // Specification, then its section "The Exec key".

  /** The string rule: `\s`, `\n`, `\t`, `\r` and `\\`, and no other escape. */
  function Unescape(s: string): Option<string> {
    if s == "" then Some("")
    else if s[0] != '\\' then Then([s[0]], Unescape(s[1..]))
    else if |s| == 1 then None
    else if s[1] == 's' then Then(" ", Unescape(s[2..]))
    else if s[1] == 'n' then Then("\n", Unescape(s[2..]))
    else if s[1] == 't' then Then("\t", Unescape(s[2..]))
    else if s[1] == 'r' then Then("\r", Unescape(s[2..]))
    else if s[1] == '\\' then Then("\\", Unescape(s[2..]))
    else None
  }

  function Then(first: string, rest: Option<string>): Option<string> {
    match rest case Some(more) => Some(first + more) case None => None
  }

  /** What stands inside quotes, up to the one closing quote, which ends the text: `"`, `` ` ``,
      `$` and `\` only behind a backslash. */
  function Quoted(s: string): Option<string> {
    if s == "" then None
    else if s[0] == '"' then (if |s| == 1 then Some("") else None)
    else if s[0] == '\\' then
      (if |s| > 1 && Special(s[1]) then Then([s[1]], Quoted(s[2..])) else None)
    else if s[0] in "`$" then None
    else Then([s[0]], Quoted(s[1..]))
  }

  function Unquote(s: string): Option<string> {
    if s != "" && s[0] == '"' then Quoted(s[1..]) else None
  }

  /** A field code but `%%` is no part of a path. */
  function Percents(s: string): Option<string> {
    if s == "" then Some("")
    else if s[0] != '%' then Then([s[0]], Percents(s[1..]))
    else if |s| > 1 && s[1] == '%' then Then("%", Percents(s[2..]))
    else None
  }

  /** The one argument an Exec line names, if it is one quoted argument. */
  function Read(s: string): Option<string> {
    match Unescape(s)
    case None => None
    case Some(value) =>
      match Unquote(value)
      case None => None
      case Some(argument) => Percents(argument)
  }

  // What each reading leaves.

  /** A character behind the quotes, once the string rule is undone. */
  function Quoting(c: char): string {
    if Special(c) then ['\\', c] else if c == '%' then "%%" else [c]
  }

  function QuotingAll(path: string): string {
    if path == "" then "" else Quoting(path[0]) + QuotingAll(path[1..])
  }

  /** A character of the argument, once it is unquoted. */
  function Doubling(c: char): string {
    if c == '%' then "%%" else [c]
  }

  function DoublingAll(path: string): string {
    if path == "" then "" else Doubling(path[0]) + DoublingAll(path[1..])
  }

  lemma ThenThen(a: string, b: string, rest: Option<string>)
    ensures Then(a, Then(b, rest)) == Then(a + b, rest)
  {
    if rest.Some? {
      assert a + (b + rest.value) == (a + b) + rest.value;
    }
  }

  lemma UnescapeOne(c: char, rest: string)
    ensures Unescape(Escaped(c) + rest) == Then(Quoting(c), Unescape(rest))
  {
    var s := Escaped(c) + rest;
    if c == '\\' {
      assert s[2..] == "\\\\" + rest && s[2..][2..] == rest;
      ThenThen("\\", "\\", Unescape(rest));
      assert "\\" + "\\" == "\\\\";
    } else if Special(c) {
      assert s[2..] == [c] + rest && s[2..][1..] == rest;
      ThenThen("\\", [c], Unescape(rest));
      assert "\\" + [c] == ['\\', c];
    } else if c == '%' {
      assert s[1..] == "%" + rest && s[1..][1..] == rest;
      ThenThen("%", "%", Unescape(rest));
      assert "%" + "%" == "%%";
    } else if c == '\n' || c == '\t' {
      assert s[2..] == rest;
    } else {
      assert s[1..] == rest;
    }
  }

  lemma {:induction false} UnescapeAll(path: string, tail: string)
    requires Unescape(tail) == Some(tail)
    ensures Unescape(EscapedAll(path) + tail) == Some(QuotingAll(path) + tail)
  {
    hide Unescape, Escaped, Quoting;
    if path == "" {
      assert EscapedAll(path) + tail == tail && QuotingAll(path) + tail == tail;
    } else {
      var rest := EscapedAll(path[1..]) + tail;
      assert EscapedAll(path) + tail == Escaped(path[0]) + rest;
      UnescapeOne(path[0], rest);
      UnescapeAll(path[1..], tail);
      assert QuotingAll(path) + tail == Quoting(path[0]) + (QuotingAll(path[1..]) + tail);
    }
  }

  lemma UnquoteOne(c: char, rest: string)
    ensures Quoted(Quoting(c) + rest) == Then(Doubling(c), Quoted(rest))
  {
    var s := Quoting(c) + rest;
    if Special(c) {
      assert s[2..] == rest;
    } else if c == '%' {
      assert s[1..] == "%" + rest && s[1..][1..] == rest;
      ThenThen("%", "%", Quoted(rest));
      assert "%" + "%" == "%%";
    } else {
      assert s[1..] == rest;
    }
  }

  lemma {:induction false} UnquoteAll(path: string)
    ensures Quoted(QuotingAll(path) + "\"") == Some(DoublingAll(path))
  {
    hide Quoting, Doubling;
    if path == "" {
      assert QuotingAll(path) + "\"" == "\"";
    } else {
      hide Quoted;
      var rest := QuotingAll(path[1..]) + "\"";
      assert QuotingAll(path) + "\"" == Quoting(path[0]) + rest;
      UnquoteOne(path[0], rest);
      UnquoteAll(path[1..]);
    }
  }

  lemma {:induction false} HalveAll(path: string)
    ensures Percents(DoublingAll(path)) == Some(path)
  {
    if path != "" {
      HalveAll(path[1..]);
      var rest, s := DoublingAll(path[1..]), DoublingAll(path);
      assert path == [path[0]] + path[1..];
      if path[0] == '%' {
        assert s[2..] == rest;
      } else {
        assert s[1..] == rest;
      }
    }
  }

  /** Every path printed is read back as itself: one argument, its only quotes that are not
      escaped the outer pair. */
  lemma ReadsBack(path: string)
    ensures Read(Printed(path)) == Some(path)
  {
    hide EscapedAll, QuotingAll, Quoted, Percents, DoublingAll;
    var inside := EscapedAll(path) + "\"";
    assert Printed(path) == "\"" + inside && Printed(path)[1..] == inside;
    assert "\""[1..] == "" && Unescape("") == Some("");
    assert "\"" + "" == "\"";
    UnescapeAll(path, "\"");
    var value := "\"" + (QuotingAll(path) + "\"");
    assert Unescape(Printed(path)) == Some(value);
    assert value[1..] == QuotingAll(path) + "\"";
    UnquoteAll(path);
    HalveAll(path);
  }

  /** So no two paths are printed alike. */
  lemma PrintedApart(a: string, b: string)
    requires Printed(a) == Printed(b)
    ensures a == b
  {
    hide Printed, Read;
    ReadsBack(a);
    ReadsBack(b);
  }

  /** What is printed is one line, with no tab in it. */
  lemma OneLinePrinted(path: string)
    ensures '\n' !in Printed(path) && '\t' !in Printed(path)
  {
    hide EscapedAll;
    NoBreaks(path);
  }

  lemma {:induction false} NoBreaks(path: string)
    ensures '\n' !in EscapedAll(path) && '\t' !in EscapedAll(path)
  {
    if path != "" {
      NoBreaks(path[1..]);
    }
  }
}
