/** Reading a text and the files it includes. */
module IniParser {
  import opened Wrappers
  import opened IniText
  import opened IniEscape
  import opened IniTokenizer
  import opened IniStatement
  import opened IniScript

  /** Texts by canonical path, and where the names in include directives lead. */
  datatype FileSystem = FileSystem(files: map<Path, string>, resolve: (Path, string) -> Option<Path>)

  /** What `getline` delivers. */
  function Lines(text: string): seq<string>
    decreases |text|
  {
    if text == "" then []
    else
      var end := LineEnd(text, 0);
      [text[..end]] + if end < |text| then Lines(text[end + 1..]) else []
  }

  function LineEnd(text: string, p: nat): (i: nat)
    requires p <= |text|
    ensures p <= i <= |text|
    ensures forall j :: p <= j < i ==> text[j] != '\n'
    ensures i < |text| ==> text[i] == '\n'
    decreases |text| - p
  {
    if p == |text| || text[p] == '\n' then p else LineEnd(text, p + 1)
  }

  function Statements(lines: seq<string>): seq<Statement> {
    if lines == [] then [] else [StatementOf(lines[0])] + Statements(lines[1..])
  }

  function Script(text: string): seq<Statement> {
    Statements(Lines(text))
  }

  function LibraryOf(fs: FileSystem): Library {
    Library(map p | p in fs.files :: Script(fs.files[p]), fs.resolve)
  }

  /** `process_key`. */
  method ProcessKey(key: Token) returns (r: Result<string, Problem>)
    requires key.kind == '"' ==> NoDangling(key.text)
    ensures r == KeyOf(key)
  {
    if key.kind == 't' {
      return Ok(Trim(key.text));
    } else if key.kind == '"' {
      var res := ProcessQuotedValue(key.text);
      if res == "" || Trim(res) == "" {
        return Err(EmptyKey);
      }
      return Ok(res);
    }
    return Err(UnexpectedAtStart);
  }

  /** The switch on the number of tokens of an entry. */
  method ReadEntry(tokens: seq<Token>) returns (s: Statement)
    requires tokens != [] && Unescapable(tokens)
    ensures s == EntryStatement(tokens)
  {
    var key := ProcessKey(tokens[0]);
    if key.Err? {
      return Reject(key.error);
    }
    if |tokens| == 1 {
      return Reject(MissingValue);
    }
    if tokens[1].kind != '=' {
      return Reject(Unexpected);
    }
    if |tokens| == 2 {
      return Entry(key.value, "");
    }
    if tokens[2].kind == 't' {
      if |tokens| != 3 {
        return Reject(UnexpectedAfterText);
      }
      return Entry(key.value, Trim(tokens[2].text));
    } else if tokens[2].kind == '"' {
      if |tokens| != 3 {
        return Reject(UnexpectedAfterQuoted);
      }
      var value := ProcessQuotedValue(tokens[2].text);
      return Entry(key.value, value);
    }
    return Reject(UnexpectedAfterEquals);
  }

  /** The section case. */
  method ReadSection(tokens: seq<Token>) returns (s: Statement)
    requires tokens != []
    ensures s == SectionStatement(tokens)
  {
    var name := Trim(tokens[0].text);
    if |name| == 0 {
      return Reject(EmptySection);
    }
    if |tokens| > 1 {
      return Reject(UnexpectedAfterSection);
    }
    var prefix := name;
    if name[0] == '"' {
      var pos := FindQuote(name[1..]);
      if pos.DanglingEscape? || pos.InvalidEscape? {
        return Reject(QuoteProblem(pos));
      }
      if pos.NoQuote? || pos.pos != |name| - 2 {
        return Reject(InconsistentQuotes);
      }
      SectionNameUnescapable(name);
      prefix := ProcessQuotedValue(name[1..|name| - 1]);
      if Trim(prefix) == "" {
        return Reject(EmptySection);
      }
    }
    if prefix == "" || prefix[|prefix| - 1] != '.' {
      prefix := prefix + ".";
    }
    return Section(prefix);
  }

  /** `process_include`, up to the name of the file. */
  method ReadInclude(tokens: seq<Token>) returns (s: Statement)
    requires tokens != [] && Unescapable(tokens)
    ensures s == IncludeStatement(tokens)
  {
    if |tokens| == 1 {
      return Reject(FilenameMissing);
    }
    if |tokens| > 2 {
      return Reject(UnexpectedAfterFilename);
    }
    var filename;
    if tokens[1].kind == 't' {
      filename := Trim(tokens[1].text);
    } else if tokens[1].kind == '"' {
      var unquoted := ProcessQuotedValue(tokens[1].text);
      filename := Trim(unquoted);
    } else {
      return Reject(FilenameExpected);
    }
    if filename == "" {
      return Reject(FilenameMissing);
    }
    return Include(filename);
  }

  class Parser {
    const fs: FileSystem
    var values: seq<Pair>
    var includes: seq<Path>

    constructor (fs: FileSystem)
      ensures this.fs == fs && values == [] && includes == []
    {
      this.fs := fs;
      values := [];
      includes := [];
    }

    /**
     `operator()`: appends to the shared values exactly the expansion of the text, stops at its first failure,
     and leaves the include stack as it was, failure or not.
     */
    method Run(text: string, path: Path) returns (failure: Option<Failure>)
      modifies this
      ensures includes == old(includes)
      ensures Expansion(values, failure) == After(old(values), Expand(LibraryOf(fs), old(includes) + [path], "", Script(text), 1))
      decreases Room(LibraryOf(fs), includes + [path]), 2
    {
      includes := includes + [path];
      var prefix := "";
      var lines := Lines(text);
      ghost var all := Expand(LibraryOf(fs), includes, "", Statements(lines), 1);
      failure := None;
      var i := 0;
      while i < |lines|
        invariant i <= |lines|
        invariant includes == old(includes) + [path]
        invariant After(values, Expand(LibraryOf(fs), includes, prefix, Statements(lines[i..]), i + 1)) == After(old(values), all)
        invariant failure.None?
      {
        StatementsFrom(lines, i);
        ghost var was := values;
        ghost var s := StatementOf(lines[i]);
        ghost var first := ExpandStatement(LibraryOf(fs), includes, prefix, s, i + 1);
        ghost var rest := Expand(LibraryOf(fs), includes, PrefixAfter(prefix, s), Statements(lines[i + 1..]), i + 2);
        prefix, failure := Step(lines[i], prefix, i + 1);
        if failure.Some? {
          includes := includes[..|includes| - 1];
          return;
        }
        AfterAfter(was, first.pairs, rest);
        i := i + 1;
      }
      AfterNothing(values);
      includes := includes[..|includes| - 1];
    }

    /** The body of the line loop. */
    method Step(line: string, prefix: string, n: nat) returns (prefix': string, failure: Option<Failure>)
      requires includes != []
      modifies this
      ensures includes == old(includes)
      ensures prefix' == PrefixAfter(prefix, StatementOf(line))
      ensures Expansion(values, failure)
           == After(old(values), ExpandStatement(LibraryOf(fs), old(includes), prefix, StatementOf(line), n))
      decreases Room(LibraryOf(fs), includes), 1
    {
      prefix', failure := prefix, None;
      var statement := Line(line);
      AfterNothing(values);
      match statement {
        case Nothing =>
        case Section(p) =>
          prefix' := p;
        case Entry(key, value) =>
          values := values + [Pair(prefix + key, value)];
        case Reject(problem) =>
          failure := Some(Failure([n], problem));
        case Include(name) =>
          failure := ProcessInclude(name, n);
      }
    }

    /** The statement on a line: tokenize, drop comments, switch on the first token. */
    method Line(line: string) returns (s: Statement)
      ensures s == StatementOf(line)
    {
      var r := Tokenize(line);
      if r.Err? {
        return Reject(r.error);
      }
      ScanGrammar(line, 0, true);
      GrammarUnescapable(r.value);
      var tokens := StripComments(r.value);
      if tokens == [] {
        return Nothing;
      }
      if tokens[0].kind == 'i' {
        s := ReadInclude(tokens);
      } else if tokens[0].kind == '[' {
        s := ReadSection(tokens);
      } else {
        s := ReadEntry(tokens);
      }
    }

    /** `process_include`, from the name of the file on. */
    method ProcessInclude(name: string, n: nat) returns (failure: Option<Failure>)
      requires includes != []
      modifies this
      ensures includes == old(includes)
      ensures Expansion(values, failure) == After(old(values), ExpandInclude(LibraryOf(fs), old(includes), name, n))
      decreases Room(LibraryOf(fs), includes), 0
    {
      var found := fs.resolve(includes[|includes| - 1], name);
      if found.None? || found.value !in fs.files {
        return Some(Failure([n], CannotOpen(name)));
      }
      if found.value in includes {
        return Some(Failure([n], IncludeCycle(name)));
      }
      RoomShrinks(LibraryOf(fs), includes, found.value);
      failure := Run(fs.files[found.value], found.value);
      if failure.Some? {
        failure := Some(Failure([n] + failure.value.lines, failure.value.problem));
      }
    }
  }

  lemma StatementsFrom(lines: seq<string>, i: nat)
    requires i < |lines|
    ensures Statements(lines[i..]) == [StatementOf(lines[i])] + Statements(lines[i + 1..])
  {
    assert lines[i..][0] == lines[i] && lines[i..][1..] == lines[i + 1..];
  }

  lemma AfterAfter(a: seq<Pair>, b: seq<Pair>, rest: Expansion)
    ensures After(a, After(b, rest)) == After(a + b, rest)
  {
    assert a + (b + rest.pairs) == a + b + rest.pairs;
  }

  lemma AfterNothing(a: seq<Pair>)
    ensures a + [] == a
    ensures After(a, Expansion([], None)) == Expansion(a, None)
  {
  }

  /** `parse` of a stream that is said to come from `path`. */
  method Parse(fs: FileSystem, text: string, path: Path) returns (r: Result<seq<Pair>, Failure>)
    ensures r == Read(LibraryOf(fs), path, Script(text))
  {
    var parser := new Parser(fs);
    var failure := parser.Run(text, path);
    ghost var e := Expand(LibraryOf(fs), [path], "", Script(text), 1);
    assert [] + [path] == [path];
    assert [] + e.pairs == e.pairs;
    if failure.Some? {
      return Err(failure.value);
    }
    return Ok(parser.values);
  }
}
