/** Printing a document so that it reads back as itself, and when that works. */
module IniDocument {
  import opened Wrappers
  import opened IniText
  import opened IniEscape
  import opened IniTokenizer
  import opened IniStatement
  import opened WrittenForm
  import opened WrittenRows
  import opened WrittenErrors
  import opened IniScript
  import opened IniParser

  /** A section line, or a key with its value. */
  datatype Item = Head(name: string) | Field(key: string, value: string)

  function LineOf(item: Item): string {
    match item
    case Head(name) => "[" + Quoted(name) + "]"
    case Field(key, value) => Quoted(key) + " = " + Quoted(value)
  }

  function Print(items: seq<Item>): string {
    if items == [] then "" else LineOf(items[0]) + "\n" + Print(items[1..])
  }

  /** The pairs a document stands for, with the section in force in front of each key. */
  function Meaning(items: seq<Item>, prefix: string): seq<Pair> {
    if items == [] then []
    else
      match items[0]
      case Head(name) => Meaning(items[1..], WithDot(name))
      case Field(key, value) => [Pair(prefix + key, value)] + Meaning(items[1..], prefix)
  }

  predicate Printable(item: Item) {
    match item
    case Head(name) => !Blank(name) && ']' !in name && '\n' !in name
    case Field(key, value) => !Blank(key) && '\n' !in key && '\n' !in value
  }

  // ---- escaping and searching ----

  lemma EscapeCons(c: char, s: string)
    ensures Escape([c] + s) == (if IsEscapee(c) then ['\\', c] else [c]) + Escape(s)
  {
    assert ([c] + s)[1..] == s;
  }

  lemma {:induction false} EscapeAppend(a: string, b: string)
    ensures Escape(a + b) == Escape(a) + Escape(b)
    decreases |a|
  {
    if a == "" {
      assert a + b == b;
    } else {
      hide Escape;
      var c, rest := a[0], a[1..];
      EscapeAppend(rest, b);
      EscapeCons(c, rest);
      EscapeCons(c, rest + b);
      assert a == [c] + rest;
      Reassociate([c], rest, b);
      Reassociate(if IsEscapee(c) then ['\\', c] else [c], Escape(rest), Escape(b));
    }
  }

  lemma {:induction false} EscapeAddsBackslashesOnly(s: string, c: char)
    requires c != '\\' && c !in s
    ensures c !in Escape(s)
    decreases |s|
  {
    if s != "" {
      EscapeAddsBackslashesOnly(s[1..], c);
      assert s[0] in s;
    }
  }

  lemma CutAt(s: string, c: char) returns (a: string, b: string)
    requires c in s
    ensures s == a + ([c] + b) && c !in a
  {
    var i := FindChar(s, 0, c);
    a, b := s[..i], s[i + 1..];
  }

  /** A character that is not escaped cuts the escaped text where it cuts the text. */
  lemma CutEscaped(s: string, c: char) returns (a: string, b: string)
    requires c in s && !IsEscapee(c)
    ensures c !in a && c !in Escape(a) && Escape(s) == Escape(a) + [c] + Escape(b)
  {
    a, b := CutAt(s, c);
    hide Escape;
    EscapeAppend(a, [c] + b);
    EscapeCons(c, b);
    EscapeAddsBackslashesOnly(a, c);
    Reassociate(Escape(a), [c], Escape(b));
  }

  // ---- entry lines ----

  /** A printed entry reads back as itself, unless its key is blank. */
  lemma EntryLine(key: string, value: string)
    ensures StatementOf(LineOf(Field(key, value))) == if Blank(key) then Reject(EmptyKey) else Entry(key, value)
  {
    hide StatementOf, Quoted, Blank;
    var line := LineOf(Field(key, value));
    var form := Setting(InQuotes(key), " ", " ", InQuotes(value));
    assert Body(form) == line;
    OneSpaceIsBlank();
    if Blank(key) {
      BlankKeyRow(line, key, value);
      EntryRejects(line, "", InQuotes(key), [Equals(" "), Behind(" ", InQuotes(value))], "", "");
    } else {
      BodyIsRead(form);
    }
  }

  lemma OneSpaceIsBlank()
    ensures Blank("") && Blank(" ")
  {
  }

  lemma BlankKeyRow(line: string, key: string, value: string)
    requires line == Quoted(key) + " = " + Quoted(value)
    ensures IsRow(line, "", Quoted(key), [Equals(" "), Behind(" ", InQuotes(value))], "", "")
  {
    hide Quoted;
    var x, y := Equals(" "), Behind(" ", InQuotes(value));
    TwoPieces(x, y);
    assert PieceText(x) == " =";
    assert line == "" + Quoted(key) + (" =" + (" " + Quoted(value))) + "" + "";
    OneSpaceIsBlank();
  }

  /** A line that breaks off inside the value is rejected. */
  lemma BrokenValueLine(key: string, a: string)
    ensures StatementOf(Quoted(key) + " = " + ("\"" + Escape(a))).Reject?
  {
    var line := Quoted(key) + " = " + ("\"" + Escape(a));
    EscapedHasNoQuote(a);
    OneSpaceIsBlank();
    hide Quoted, Escape, StatementOf, Blank;
    OnePiece(Equals(" "));
    assert PieceText(Equals(" ")) == " =";
    assert line == "" + Quoted(key) + " =" + " " + ("\"" + Escape(a));
    BadQuoteBehindKey(line, "", InQuotes(key), [Equals(" ")], " ", Escape(a));
  }

  lemma EscapedHasNoQuote(a: string)
    ensures FindQuoteFrom(Escape(a), 0) == NoQuote
  {
    NoQuoteInEscaped("", a);
    assert "" + Escape(a) == Escape(a);
  }

  // ---- section lines ----

  /** A printed section reads back as itself when it is not blank and has no bracket in it. */
  lemma SectionLine(name: string)
    requires ']' !in name
    ensures StatementOf(LineOf(Head(name))) == if Blank(name) then Reject(EmptySection) else Section(WithDot(name))
  {
    EscapeAddsBackslashesOnly(name, ']');
    QuotedHasNoBracket(name);
    hide StatementOf, Quoted, Blank;
    if Blank(name) {
      BlankSectionLine(name);
    } else {
      OneSpaceIsBlank();
      TitleBody(InQuotes(name));
      hide Body;
      BodyIsRead(Title("", InQuotes(name), ""));
    }
  }

  lemma BlankSectionLine(name: string)
    requires Blank(name) && ']' !in Quoted(name)
    ensures StatementOf("[" + Quoted(name) + "]") == Reject(EmptySection)
  {
    QuotedNameChecks(name);
    OneSpaceIsBlank();
    hide StatementOf, Quoted, Blank, Trim;
    var line, inner := "[" + Quoted(name) + "]", Quoted(name);
    assert line == "" + ("[" + inner + "]") + RowText([]) + "" + "";
    SectionNameRejects(line, "", inner, name, "", "", "");
  }

  lemma QuotedHasNoBracket(name: string)
    requires ']' !in Escape(name)
    ensures ']' !in Quoted(name)
  {
  }

  /** The beginning of escaped text has no closing quote in it. */
  lemma NoQuoteInBeginning(x: string, rest: string, a: string)
    requires x + rest == Escape(a)
    ensures !FindQuoteFrom(x, 0).At?
  {
    NoQuoteInEscaped("", a);
    assert "" + Escape(a) == Escape(a);
    if FindQuoteFrom(x, 0).At? {
      FindQuoteAppend(x, 0, rest);
    }
  }

  /** Trimming text that opens a quote takes something off its end only. */
  lemma OpenNameLayout(text: string) returns (rest: string)
    requires text != "" && text[0] == '"'
    ensures var name := Trim(text); name != "" && name[0] == '"' && name[1..] + rest == text[1..]
  {
    var last := SkipSpaceBack(text, |text|);
    assert SkipSpace(text, 0) == 0;
    rest := text[last..];
    assert Trim(text) == text[..last];
  }

  /** A name that opens a quote and never closes it fails the quote check, with or without spaces behind it. */
  lemma OpenNameHasNoEnd(a: string)
    ensures var name := Trim("\"" + Escape(a));
            name != "" && name[0] == '"' && !FindQuoteFrom(name[1..], 0).At?
  {
    var text := "\"" + Escape(a);
    assert text[1..] == Escape(a);
    var rest := OpenNameLayout(text);
    NoQuoteInBeginning(Trim(text)[1..], rest, a);
  }

  /** So no section comes of it, whatever tokens follow. */
  lemma OpenNameRejected(ts: seq<Token>, a: string)
    requires ts != [] && ts[0].kind == '[' && ts[0].text == "\"" + Escape(a)
    requires Unescapable(ts)
    ensures Interpret(ts).Reject?
  {
    OpenNameHasNoEnd(a);
    hide Escape;
  }

  /** A section whose name is cut off by a bracket is rejected, whatever follows. */
  lemma CutSectionLine(a: string, after: string)
    requires ']' !in Escape(a)
    ensures StatementOf("[\"" + Escape(a) + "]" + after).Reject?
  {
    var text := "\"" + Escape(a);
    var line := "[\"" + Escape(a) + "]" + after;
    TitleHere(line, text, after);
    hide Visible, Escape, StatementOf, Interpret;
    TitleToken(line, 0, text);
    VisibleMeans(line);
    var r := Visible(line, 0, true);
    if r.Ok? {
      OpenNameRejected(r.value, a);
    }
  }

  lemma TitleHere(line: string, text: string, after: string)
    requires line == "[" + text + "]" + after
    ensures SpacesIn(line, 0, 0) && 0 < |line| && line[0] == '[' && Reads(line, 1, text)
    ensures 1 + |text| < |line| && line[1 + |text|] == ']'
  {
  }

  /** A section line that breaks off before any bracket is rejected. */
  lemma BrokenSectionLine(a: string)
    requires ']' !in Escape(a)
    ensures StatementOf("[\"" + Escape(a)).Reject?
  {
    var line := "[\"" + Escape(a);
    hide Escape;
    assert line == "" + "[" + ("\"" + Escape(a));
    OpenBracket(line, "", "\"" + Escape(a));
  }

  // ---- whole documents ----

  /** The first line of a text, and the rest. */
  lemma LinesCons(line: string, rest: string)
    requires '\n' !in line
    ensures Lines(line + "\n" + rest) == [line] + Lines(rest)
  {
    var text := line + "\n" + rest;
    assert forall j :: 0 <= j < |line| ==> text[j] == line[j];
    assert text[|line|] == '\n';
    assert LineEnd(text, 0) == |line|;
    assert text[..|line|] == line && text[|line| + 1..] == rest;
  }

  /** A last line without a line break behind it is a line too. */
  lemma LastLine(line: string)
    requires line != "" && '\n' !in line
    ensures Lines(line) == [line]
  {
    assert LineEnd(line, 0) == |line|;
    assert line[..|line|] == line;
  }

  /** So a final line break makes no difference. */
  lemma {:induction false} FinalBreakIsOptional(text: string)
    requires text != "" && text[|text| - 1] != '\n'
    ensures Lines(text + "\n") == Lines(text)
    decreases |text|
  {
    var end := LineEnd(text, 0);
    if end == |text| {
      LinesCons(text, "");
      LastLine(text);
      assert text + "\n" + "" == text + "\n";
    } else {
      var line, rest := text[..end], text[end + 1..];
      BreakParts(text, line, rest, end);
      FinalBreakIsOptional(rest);
      hide Lines;
      LinesCons(line, rest);
      LinesCons(line, rest + "\n");
    }
  }

  lemma BreakParts(text: string, line: string, rest: string, end: nat)
    requires end < |text| && text[end] == '\n' && text[|text| - 1] != '\n' && line == text[..end] && rest == text[end + 1..]
    requires forall j :: 0 <= j < end ==> text[j] != '\n'
    ensures text == line + "\n" + rest && text + "\n" == line + "\n" + (rest + "\n")
    ensures '\n' !in line && rest != "" && rest[|rest| - 1] != '\n'
  {
  }

  lemma ScriptCons(line: string, rest: string, s: Statement)
    requires '\n' !in line && StatementOf(line) == s
    ensures Script(line + "\n" + rest) == [s] + Script(rest)
  {
    LinesCons(line, rest);
    assert ([line] + Lines(rest))[1..] == Lines(rest);
  }

  function StatementFor(item: Item): Statement {
    match item
    case Head(name) => Section(WithDot(name))
    case Field(key, value) => Entry(key, value)
  }

  lemma LineHasNoBreak(item: Item)
    requires match item case Head(name) => '\n' !in name case Field(key, value) => '\n' !in key && '\n' !in value
    ensures '\n' !in LineOf(item)
  {
    match item
    case Head(name) => EscapeAddsBackslashesOnly(name, '\n');
    case Field(key, value) =>
      EscapeAddsBackslashesOnly(key, '\n');
      EscapeAddsBackslashesOnly(value, '\n');
  }

  lemma PrintableLine(item: Item, rest: string)
    requires Printable(item)
    ensures Script(LineOf(item) + "\n" + rest) == [StatementFor(item)] + Script(rest)
  {
    LineHasNoBreak(item);
    PrintableStatement(item);
    ScriptCons(LineOf(item), rest, StatementFor(item));
  }

  lemma PrintableStatement(item: Item)
    requires Printable(item)
    ensures StatementOf(LineOf(item)) == StatementFor(item)
  {
    if item.Head? {
      SectionLine(item.name);
    } else {
      EntryLine(item.key, item.value);
    }
  }

  predicate StartsRejected(script: seq<Statement>) {
    script != [] && script[0].Reject?
  }

  lemma RejectedLine(line: string, rest: string)
    requires '\n' !in line && StatementOf(line).Reject?
    ensures StartsRejected(Script(line + "\n" + rest))
  {
    ScriptCons(line, rest, StatementOf(line));
  }

  /** A break in the key: its first line is an open quote. */
  lemma BreakInKey(key: string, after: string)
    requires '\n' in key
    ensures StartsRejected(Script("\"" + Escape(key) + after))
  {
    var a, b := CutEscaped(key, '\n');
    var first := "\"" + Escape(a);
    assert "\"" + Escape(key) + after == first + "\n" + (Escape(b) + after);
    OpenQuoteRejected(a);
    RejectedLine(first, Escape(b) + after);
  }

  lemma OpenQuoteRejected(a: string)
    ensures StatementOf("\"" + Escape(a)).Reject?
  {
    EscapedHasNoQuote(a);
    hide Escape, FindQuoteFrom;
    BadQuoteFirst("\"" + Escape(a), "", Escape(a));
  }

  lemma CutConcat(x: string, a: string, c: char, b: string, after: string)
    ensures x + (a + [c] + b) + after == (x + a) + [c] + (b + after)
  {
  }

  lemma OpenValue(key: string, tail: string)
    ensures Quoted(key) + " = \"" + tail == Quoted(key) + " = " + ("\"" + tail)
  {
  }

  lemma BreakInValue(key: string, value: string, after: string)
    requires '\n' !in key && '\n' in value
    ensures StartsRejected(Script(Quoted(key) + " = \"" + Escape(value) + after))
  {
    var a, b := CutEscaped(value, '\n');
    EscapeAddsBackslashesOnly(key, '\n');
    var first := Quoted(key) + " = " + ("\"" + Escape(a));
    OpenValue(key, Escape(value));
    CutConcat(Quoted(key) + " = \"", Escape(a), '\n', Escape(b), after);
    OpenValue(key, Escape(a));
    BrokenValueLine(key, a);
    RejectedLine(first, Escape(b) + after);
  }

  lemma UnprintableField(key: string, value: string, rest: string)
    requires !Printable(Field(key, value))
    ensures StartsRejected(Script(LineOf(Field(key, value)) + "\n" + rest))
  {
    var line := LineOf(Field(key, value));
    if '\n' in key {
      var after := "\" = " + Quoted(value) + "\n" + rest;
      assert line + "\n" + rest == "\"" + Escape(key) + after;
      BreakInKey(key, after);
    } else if '\n' in value {
      assert line + "\n" + rest == Quoted(key) + " = \"" + Escape(value) + ("\"\n" + rest);
      BreakInValue(key, value, "\"\n" + rest);
    } else {
      LineHasNoBreak(Field(key, value));
      EntryLine(key, value);
      RejectedLine(line, rest);
    }
  }

  /** An opened section name that is broken off, or has a bracket in it, is rejected. */
  lemma BracketLine(name: string, after: string)
    requires after == "" || ']' in name
    ensures StatementOf("[\"" + Escape(name) + after).Reject?
  {
    if ']' in name {
      var a, b := CutEscaped(name, ']');
      assert "[\"" + Escape(name) + after == "[\"" + Escape(a) + "]" + (Escape(b) + after);
      CutSectionLine(a, Escape(b) + after);
    } else {
      EscapeAddsBackslashesOnly(name, ']');
      BrokenSectionLine(name);
      assert "[\"" + Escape(name) + after == "[\"" + Escape(name);
    }
  }

  lemma BreakInName(name: string, after: string)
    requires '\n' in name
    ensures StartsRejected(Script("[\"" + Escape(name) + after))
  {
    var a, b := CutEscaped(name, '\n');
    var first := "[\"" + Escape(a) + "";
    assert "[\"" + Escape(name) + after == first + "\n" + (Escape(b) + after);
    BracketLine(a, "");
    RejectedLine(first, Escape(b) + after);
  }

  lemma UnprintableHead(name: string, rest: string)
    requires !Printable(Head(name))
    ensures StartsRejected(Script(LineOf(Head(name)) + "\n" + rest))
  {
    var line := LineOf(Head(name));
    if '\n' in name {
      assert line + "\n" + rest == "[\"" + Escape(name) + ("\"]\n" + rest);
      BreakInName(name, "\"]\n" + rest);
    } else {
      LineHasNoBreak(Head(name));
      if ']' in name {
        assert line == "[\"" + Escape(name) + "\"]";
        BracketLine(name, "\"]");
      } else {
        SectionLine(name);
      }
      RejectedLine(line, rest);
    }
  }

  ghost predicate AllPrintable(items: seq<Item>) {
    forall i :: 0 <= i < |items| ==> Printable(items[i])
  }

  lemma AllPrintableCons(items: seq<Item>)
    requires items != []
    ensures AllPrintable(items) <==> Printable(items[0]) && AllPrintable(items[1..])
  {
    assert forall i :: 1 <= i < |items| ==> items[i] == items[1..][i - 1];
    if AllPrintable(items[1..]) && Printable(items[0]) {
      forall i | 0 <= i < |items|
        ensures Printable(items[i])
      {
        assert i > 0 ==> Printable(items[1..][i - 1]);
      }
    }
  }

  /** What expanding a script that starts with the statement of an item comes to. */
  lemma ExpandItem(lib: Library, stack: seq<Path>, item: Item, rest: seq<Statement>, prefix: string, n: nat)
    requires stack != []
    ensures Expand(lib, stack, prefix, [StatementFor(item)] + rest, n)
         == match item
            case Head(name) => Expand(lib, stack, WithDot(name), rest, n + 1)
            case Field(key, value) => After([Pair(prefix + key, value)], Expand(lib, stack, prefix, rest, n + 1))
  {
    var script := [StatementFor(item)] + rest;
    assert script[1..] == rest;
    if item.Head? {
      var e := Expand(lib, stack, WithDot(item.name), rest, n + 1);
      assert [] + e.pairs == e.pairs;
    }
  }

  lemma {:induction false} ExpandPrinted(lib: Library, stack: seq<Path>, items: seq<Item>, prefix: string, n: nat)
    requires stack != []
    ensures var e := Expand(lib, stack, prefix, Script(Print(items)), n);
            if AllPrintable(items) then e == Expansion(Meaning(items, prefix), None) else e.failure.Some?
    decreases |items|
  {
    if items == [] {
      assert Script("") == [];
    } else {
      var item, rest := items[0], items[1..];
      AllPrintableCons(items);
      if Printable(item) {
        PrintableLine(item, Print(rest));
        ExpandItem(lib, stack, item, Script(Print(rest)), prefix, n);
        ExpandPrinted(lib, stack, rest, if item.Head? then WithDot(item.name) else prefix, n + 1);
      } else if item.Head? {
        UnprintableHead(item.name, Print(rest));
      } else {
        UnprintableField(item.key, item.value, Print(rest));
      }
    }
  }

  /**
   A printed document reads back as exactly the pairs it stands for, in order, if and only if no key and no
   section name is blank, no section name contains a closing bracket, and nothing contains a line break.
   */
  lemma {:induction false} DocumentRoundTrip(lib: Library, path: Path, items: seq<Item>)
    ensures Read(lib, path, Script(Print(items))) == Ok(Meaning(items, "")) <==> AllPrintable(items)
  {
    ExpandPrinted(lib, [path], items, "", 1);
  }

  /** The same without the last line break. */
  lemma {:induction false} DocumentWithoutFinalBreak(lib: Library, path: Path, items: seq<Item>, text: string)
    requires Print(items) == text + "\n"
    ensures Read(lib, path, Script(text)) == Ok(Meaning(items, "")) <==> AllPrintable(items)
  {
    LastCharacter(items);
    FinalBreakIsOptional(text);
    DocumentRoundTrip(lib, path, items);
  }

  lemma {:induction false} LastCharacter(items: seq<Item>)
    requires items != []
    ensures |Print(items)| >= 2 && Print(items)[|Print(items)| - 2] != '\n'
    decreases |items|
  {
    var line, rest := LineOf(items[0]), Print(items[1..]);
    assert line != "" && (line[|line| - 1] == ']' || line[|line| - 1] == '"');
    hide LineOf;
    if |items| == 1 {
      assert rest == "";
    } else {
      LastCharacter(items[1..]);
    }
    assert Print(items) == line + "\n" + rest;
  }
}
