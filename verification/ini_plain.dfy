/** Lines as they are usually written, as instances of the forms, in literal characters. */
module IniPlain {
  import opened Wrappers
  import opened IniText
  import opened IniTokenizer
  import opened IniStatement
  import opened WrittenForm
  import opened WrittenRows
  import opened WrittenErrors
  import opened WrittenLines

  /** What may stand behind the equals sign without quotes, spaces included. */
  predicate PlainValue(rest: string) {
    NoComment(rest) && (Trim(rest) != "" ==> Trim(rest)[0] != '"' && Trim(rest)[0] != '=')
  }

  /** Unquoted text is a word with spaces around it, or nothing but spaces. */
  lemma PlainParts(rest: string) returns (before: string, word: string, after: string)
    requires PlainValue(rest)
    ensures rest == before + word + after && Blank(before) && Blank(after) && word == Trim(rest) && FreeText(word)
  {
    if Trim(rest) == "" {
      before, word, after := "", "", rest;
    } else {
      before, word, after := TrimParts(rest);
      hide Trim, Blank, Tight;
      NoCommentInside(rest, before, word, after);
    }
  }

  lemma NoCommentInside(rest: string, before: string, word: string, after: string)
    requires rest == before + word + after && NoComment(rest)
    ensures NoComment(word)
  {
    assert forall i :: 0 <= i < |word| ==> word[i] == rest[|before| + i];
  }

  // ---- entries ----

  /** An unquoted key, spaces, an equals sign and unquoted text: the key, and the text without the spaces around it. */
  lemma {:induction false} PlainEntry(indent: string, key: string, gap: string, rest: string)
    requires Blank(indent) && Blank(gap) && PlainKey(key) && PlainValue(rest)
    ensures StatementOf(indent + key + gap + "=" + rest) == Entry(key, Trim(rest))
  {
    var before, value, after := PlainParts(rest);
    hide StatementOf, Blank, Trim, PlainKey, FreeText, PlainValue;
    var form := Setting(Bare(key), gap, before, Bare(value));
    var line := indent + key + gap + "=" + rest;
    EntryText(indent, key, gap, before, value, after);
    assert Body(form) == key + gap + "=" + before + value;
    FormIsRead(line, indent, form, after, "");
  }

  lemma EntryText(indent: string, key: string, gap: string, before: string, value: string, after: string)
    ensures indent + key + gap + "=" + (before + value + after) == indent + (key + gap + "=" + before + value) + after + ""
  {
  }

  /** What may be quoted may be mixed: the four ways to write a key and a value. */
  lemma {:induction false} MixedEntries(indent: string, key: string, plain: string, value: string, free: string, after: string, comment: string)
    requires Blank(indent) && !Blank(key) && PlainKey(plain) && FreeText(free) && IsTail(after, comment)
    ensures StatementOf(indent + Quoted(key) + "=" + Quoted(value) + after + comment) == Entry(key, value)
    ensures StatementOf(indent + Quoted(key) + "=" + free + after + comment) == Entry(key, free)
    ensures StatementOf(indent + plain + "=" + Quoted(value) + after + comment) == Entry(plain, value)
    ensures StatementOf(indent + plain + "=" + free + after + comment) == Entry(plain, free)
  {
    hide StatementOf, Blank, PlainKey, FreeText, Quoted, IsTail;
    TightEntry(indent, InQuotes(key), InQuotes(value), after, comment);
    TightEntry(indent, InQuotes(key), Bare(free), after, comment);
    TightEntry(indent, Bare(plain), InQuotes(value), after, comment);
    TightEntry(indent, Bare(plain), Bare(free), after, comment);
  }

  lemma TightEntry(indent: string, key: Word, value: Word, after: string, comment: string)
    requires Blank(indent) && KeyOk(key) && ValueOk(value) && IsTail(after, comment)
    ensures StatementOf(indent + Written(key) + "=" + Written(value) + after + comment) == Entry(key.text, value.text)
  {
    var form := Setting(key, "", "", value);
    var line := indent + Written(key) + "=" + Written(value) + after + comment;
    assert WellFormed(form, comment) && Saying(form) == Entry(key.text, value.text);
    hide StatementOf, Blank, KeyOk, ValueOk, Written, IsTail, WellFormed, Saying;
    TightText(indent, Written(key), Written(value), after, comment);
    FormIsRead(line, indent, form, after, comment);
  }

  lemma TightText(indent: string, key: string, value: string, after: string, comment: string)
    ensures indent + key + "=" + value + after + comment == indent + (key + "" + "=" + "" + value) + after + comment
  {
    assert key + "" + "=" + "" + value == key + "=" + value;
  }

  // ---- sections ----

  /** An unquoted section: its name without the spaces around it, with a dot behind it. */
  lemma {:induction false} PlainSection(name: string)
    requires ']' !in name && Trim(name) != "" && Trim(name)[0] != '"'
    ensures StatementOf("[" + name + "]") == Section(WithDot(Trim(name)))
  {
    var before, word, behind := TrimParts(name);
    NotInMiddle(before, word, behind, ']');
    assert NameOk(Bare(word));
    hide StatementOf, Blank, Trim, NameOk;
    var form := Title(before, Bare(word), behind);
    SectionText(before, word, behind);
    assert Body(form) == "[" + before + word + behind + "]";
    BodyIsRead(form);
  }

  lemma SectionText(before: string, word: string, behind: string)
    ensures "[" + (before + word + behind) + "]" == "[" + before + word + behind + "]"
  {
  }

  lemma NotInMiddle(a: string, b: string, c: string, x: char)
    requires x !in a + b + c
    ensures x !in b
  {
    forall i | 0 <= i < |b|
      ensures b[i] != x
    {
      assert (a + b + c)[|a| + i] == b[i];
    }
  }

  /** A section prefix ends in exactly the dot that is added, or in the one the name already has. */
  lemma {:induction false} SectionGetsDot(name: string)
    requires name != "" && name[0] != ' ' && name[0] != '\t' && name[0] != '\r' && ']' !in name
    requires name[|name| - 1] != ' ' && name[|name| - 1] != '\t' && name[|name| - 1] != '\r'
    ensures name[0] != '"' && name[|name| - 1] != '.' ==> StatementOf("[" + name + "]") == Section(name + ".")
    ensures name[0] != '"' && name[|name| - 1] == '.' ==> StatementOf("[" + name + "]") == Section(name)
    ensures name[|name| - 1] != '.' ==> StatementOf("[" + Quoted(name) + "]") == Section(name + ".")
    ensures name[|name| - 1] == '.' ==> StatementOf("[" + Quoted(name) + "]") == Section(name)
  {
    assert Tight(name) && !Blank(name);
    if name[0] != '"' {
      TitleLine(Bare(name));
    }
    EscapedBracket(name);
    TitleLine(InQuotes(name));
  }

  lemma {:induction false} EscapedBracket(s: string)
    requires ']' !in s
    ensures ']' !in Quoted(s)
    decreases |s|
  {
    if s != "" {
      EscapedBracket(s[1..]);
      assert forall c :: c in Quoted(s[1..]) ==> c != ']';
      var e := Quoted(s[1..]);
      assert s[0] in s;
      assert Quoted(s)[1 + (if s[0] == '\\' || s[0] == '"' then 2 else 1)..] == e[1..];
    }
  }

  lemma TitleLine(name: Word)
    requires NameOk(name)
    ensures StatementOf("[" + Written(name) + "]") == Section(WithDot(name.text))
  {
    assert Blank("");
    TitleBody(name);
    hide StatementOf, Blank, NameOk, Written, Body;
    BodyIsRead(Title("", name, ""));
  }

  // ---- include directives ----

  /** An include directive with an unquoted name: the text to the end of the line without the spaces around it. */
  lemma {:induction false} PlainInclude(gap: string, rest: string)
    requires Blank(gap) && gap != "" && PlainValue(rest) && !Blank(rest)
    ensures StatementOf("#include" + gap + rest) == Include(Trim(rest))
  {
    var before, name, after := PlainParts(rest);
    assert name != "";
    hide StatementOf, Blank, Trim, FreeText, PlainValue;
    NamedInclude(gap, before, name, after);
  }

  lemma NamedInclude(gap: string, before: string, name: string, after: string)
    requires Blank(gap) && gap != "" && Blank(before) && FreeText(name) && name != "" && Blank(after)
    ensures StatementOf("#include" + gap + (before + name + after)) == Include(name)
  {
    TrimTight(name);
    assert Blank(gap + before) && Blank("");
    assert !Blank(name) by {
      assert !IsSpace(name[0]);
    }
    var form := Directive(gap + before, Bare(name));
    assert WellFormed(form, "") && IsTail(after, "") && Saying(form) == Include(name);
    assert Body(form) == "#include" + (gap + before) + name;
    hide StatementOf, Blank, Trim, FreeText, WellFormed, IsTail, Body, Saying;
    IncludeText(gap, before, name, after);
    FormIsRead("#include" + gap + (before + name + after), "", form, after, "");
  }

  lemma IncludeText(gap: string, before: string, name: string, after: string)
    ensures "#include" + gap + (before + name + after) == "" + ("#include" + (gap + before) + name) + after + ""
  {
  }

  /** An include directive with a quoted name: the name without the spaces around it. */
  lemma {:induction false} IncludeLine(name: string)
    ensures StatementOf("#include " + Quoted(name)) == if Blank(name) then Reject(FilenameMissing) else Include(Trim(name))
  {
    var line, x := "#include " + Quoted(name), Behind(" ", InQuotes(name));
    assert Blank("") && Blank(" ");
    hide StatementOf, Blank, Trim, Quoted;
    if Blank(name) {
      OnePiece(x);
      assert line == "" + "#include" + (" " + Quoted(name)) + "" + "";
      IncludeRejects(line, "", [x], "", "");
    } else {
      var form := Directive(" ", InQuotes(name));
      assert Body(form) == "#include" + " " + Quoted(name) == line;
      BodyIsRead(form);
    }
  }

  /** A name must not start with an equals sign, and nothing but a comment may follow the name. */
  lemma {:induction false} IncludeNotName(gap: string, name: string, more: string)
    requires Blank(gap) && gap != "" && PlainValue(more)
    ensures StatementOf("#include" + gap + "=" + more) == Reject(if Blank(more) then FilenameExpected else UnexpectedAfterFilename)
    ensures !Blank(more) ==> StatementOf("#include" + gap + Quoted(name) + more) == Reject(UnexpectedAfterFilename)
  {
    var before, word, after := PlainParts(more);
    var x, y := Equals(gap), Behind(gap, InQuotes(name));
    assert Blank(more) <==> word == "";
    assert PieceText(x) == gap + "=" && PieceText(y) == gap + Quoted(name);
    hide StatementOf, Trim, PlainValue, Quoted, IsRow;
    if Blank(more) {
      LoneRow(gap, "=", more, x);
      IncludeRejects("#include" + gap + "=" + more, "", [x], more, "");
    } else {
      var z := Behind(before, Bare(word));
      PairRow(gap, "=", before, word, after, x, z);
      PairRow(gap, Quoted(name), before, word, after, y, z);
      IncludeRejects("#include" + gap + "=" + more, "", [x, z], after, "");
      IncludeRejects("#include" + gap + Quoted(name) + more, "", [y, z], after, "");
    }
  }

  lemma LoneRow(gap: string, text: string, after: string, x: Piece)
    requires PieceText(x) == gap + text && PieceOk(x, true) && Blank(after)
    ensures IsRow("#include" + gap + text + after, "", "#include", [x], after, "")
  {
    OnePiece(x);
    assert RowOk([x]) && Blank("");
    hide RowText, PieceText, RowOk, PieceOk, Blank;
    assert "#include" + gap + text + after == "" + "#include" + (gap + text) + after + "";
  }

  lemma PairRow(gap: string, text: string, before: string, word: string, after: string, x: Piece, z: Piece)
    requires PieceText(x) == gap + text && PieceText(z) == before + word
    requires PieceOk(x, false) && PieceOk(z, true) && Blank(after)
    ensures IsRow("#include" + gap + text + (before + word + after), "", "#include", [x, z], after, "")
  {
    TwoPieces(x, z);
    assert RowOk([x, z]) && Blank("");
    hide RowText, PieceText, RowOk, PieceOk, Blank;
    PairText(gap + text, before + word, gap, text, before, word, after);
  }

  lemma PairText(xt: string, zt: string, gap: string, text: string, before: string, word: string, after: string)
    requires xt == gap + text && zt == before + word
    ensures "#include" + gap + text + (before + word + after) == "" + "#include" + (xt + zt) + after + ""
  {
  }

  // ---- blank lines and comments ----

  /** From `k` on the line is a comment, or there is nothing; in front of `k` there are spaces only. */
  predicate CommentFrom(line: string, k: nat) {
    && k <= |line|
    && (forall j :: 0 <= j < k ==> line[j] == ' ' || line[j] == '\t' || line[j] == '\r')
    && (k < |line| ==> line[k] == ';' || (line[k] == '#' && !IncludeWordAt(line[k + 1..])))
  }

  /** The word `include`, alone or with a space behind it. */
  predicate IncludeWordAt(rest: string) {
    |rest| >= 7 && rest[..7] == "include" && (|rest| == 7 || rest[7] == ' ' || rest[7] == '\t' || rest[7] == '\r')
  }

  lemma IncludeWordIs(comment: string)
    ensures IsInclude(comment, 0) <==> comment != "" && comment[0] == '#' && IncludeWordAt(comment[1..])
  {
    if |comment| >= 8 {
      assert comment[1..8] == comment[1..][..7];
    }
  }

  /** A line says nothing exactly when it is blank or a comment; `#include` as a word of its own is no comment. */
  lemma {:induction false} NothingIff(line: string)
    ensures StatementOf(line) == Nothing <==> exists k: nat :: CommentFrom(line, k)
  {
    hide StatementOf, CommentFrom;
    if StatementOf(line) == Nothing {
      var k := SilentLine(line);
    }
    if k: nat :| CommentFrom(line, k) {
      CommentLine(line, k);
    }
  }

  lemma SilentLine(line: string) returns (k: nat)
    requires StatementOf(line) == Nothing
    ensures CommentFrom(line, k)
  {
    hide StatementOf, IsInclude;
    var indent, form, after, comment := ReadHasForm(line);
    k := |indent| + |after|;
    assert line == indent + after + comment;
    assert comment == line[k..];
    IncludeWordIs(comment);
    hide IncludeWordAt;
    assert forall j :: 0 <= j < k ==> line[j] == if j < |indent| then indent[j] else after[j - |indent|];
  }

  lemma CommentLine(line: string, k: nat)
    requires CommentFrom(line, k)
    ensures StatementOf(line) == Nothing
  {
    hide StatementOf, IsInclude;
    var indent, comment := line[..k], line[k..];
    IncludeWordIs(comment);
    hide IncludeWordAt;
    assert line == indent + "" + "" + comment;
    assert Blank("");
    FormIsRead(line, indent, Silent, "", comment);
  }
}
