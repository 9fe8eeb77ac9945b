/** Cutting a line into tokens. */
module IniTokenizer {
  import opened Wrappers
  import opened IniText
  import opened IniEscape

  /**
   What is wrong with a line. `UnexpectedAfterText` is the branch for tokens after an unquoted value, which no
   line ever takes.
   */
  datatype Problem =
    | UnmatchedQuote
    | LoneBackslash
    | InvalidEscaped(c: char)
    | UnmatchedBracket
    | EmptyKey
    | UnexpectedAtStart
    | MissingValue
    | Unexpected
    | UnexpectedAfterEquals
    | UnexpectedAfterText
    | UnexpectedAfterQuoted
    | EmptySection
    | UnexpectedAfterSection
    | InconsistentQuotes
    | FilenameMissing
    | FilenameExpected
    | UnexpectedAfterFilename
    | CannotOpen(name: string)
    | IncludeCycle(name: string)

  /** A slice of the line, `text` at offset `at`, and its kind: one of `" # ; = [ i t`. */
  datatype Token = Token(kind: char, at: nat, text: string)

  type Tokens = Result<seq<Token>, Problem>

  const INCLUDE := "include"

  function QuoteProblem(q: QuoteSearch): Problem {
    match q
    case DanglingEscape => LoneBackslash
    case InvalidEscape(c) => InvalidEscaped(c)
    case _ => UnmatchedQuote
  }

  /** The mark at `p` is `#include` and nothing longer. */
  predicate IsInclude(s: string, p: nat) {
    && p + 8 <= |s|
    && s[p] == '#' && s[p + 1..p + 8] == INCLUDE
    && (p + 8 == |s| || IsSpace(s[p + 8]))
  }

  function Cons(t: Token, rest: Tokens): Tokens {
    if rest.Ok? then Ok([t] + rest.value) else rest
  }

  /** What starts at a position: an error, the last token of the line, or a token and where to go on. */
  datatype Step = Fail(problem: Problem) | Last(token: Token) | More(token: Token, next: nat)

  /** The token that starts at `first`; `initial` says that there was none before. */
  function Next(s: string, first: nat, initial: bool): (step: Step)
    requires first < |s| && !IsSpace(s[first])
    ensures step.More? ==> first < step.next <= |s|
  {
    if s[first] == '"' then
      var q := FindQuoteFrom(s, first + 1);
      if q.At? then More(Token('"', first + 1, s[first + 1..q.pos]), q.pos + 1) else Fail(QuoteProblem(q))
    else if initial && IsInclude(s, first) then
      More(Token('i', first + 1, INCLUDE), first + 8)
    else if IsComment(s[first]) then
      Last(Token(s[first], first + 1, s[first + 1..]))
    else if s[first] == '=' then
      More(Token('=', first, "="), first + 1)
    else if s[first] == '[' && initial then
      var last := FindChar(s, first + 1, ']');
      if last == |s| then Fail(UnmatchedBracket)
      else More(Token('[', first + 1, s[first + 1..last]), last + 1)
    else
      var last := FindDelimiter(s, first + 1, initial);
      if last == |s| then Last(Token('t', first, s[first..]))
      else More(Token('t', first, s[first..last]), if IsSpace(s[last]) then last + 1 else last)
  }

  /** The tokens from position `p` on. */
  function Scan(s: string, p: nat, initial: bool): Tokens
    requires p <= |s|
    decreases |s| - p
  {
    var first := SkipSpace(s, p);
    if first == |s| then Ok([])
    else
      match Next(s, first, initial)
      case Fail(problem) => Err(problem)
      case Last(t) => Ok([t])
      case More(t, next) => Cons(t, Scan(s, next, false))
  }

  function Prepend(res: seq<Token>, rest: Tokens): Tokens {
    if rest.Ok? then Ok(res + rest.value) else rest
  }

  lemma PrependNothing(rest: Tokens)
    ensures Prepend([], rest) == rest
  {
    if rest.Ok? {
      assert [] + rest.value == rest.value;
    }
  }

  lemma PrependCons(res: seq<Token>, t: Token, rest: Tokens)
    ensures Prepend(res, Cons(t, rest)) == Prepend(res + [t], rest)
  {
    if rest.Ok? {
      assert res + ([t] + rest.value) == res + [t] + rest.value;
    }
  }

  /** What one round of the loop does to the tokens so far. */
  lemma TakeToken(res: seq<Token>, s: string, from: nat, initial: bool)
    requires from <= |s| && SkipSpace(s, from) < |s|
    ensures Prepend(res, Scan(s, from, initial)) ==
            match Next(s, SkipSpace(s, from), initial)
            case Fail(problem) => Err(problem)
            case Last(t) => Ok(res + [t])
            case More(t, next) => Prepend(res + [t], Scan(s, next, false))
  {
    match Next(s, SkipSpace(s, from), initial)
    case Fail(_) =>
    case Last(_) =>
    case More(t, next) => PrependCons(res, t, Scan(s, next, false));
  }

  lemma TakeEnd(res: seq<Token>, s: string, from: nat, initial: bool)
    requires from <= |s| && SkipSpace(s, from) == |s|
    ensures Prepend(res, Scan(s, from, initial)) == Ok(res)
  {
    assert res + [] == res;
  }

  /** `tokenize`: the loop. */
  method Tokenize(input: string) returns (r: Tokens)
    ensures r == Scan(input, 0, true)
  {
    var res: seq<Token> := [];
    var n := |input|;
    var last: nat := 0;
    var first := SkipSpace(input, 0);
    ghost var from := 0;
    PrependNothing(Scan(input, 0, true));
    while first < n
      invariant from <= n && first == SkipSpace(input, from)
      invariant from == if res == [] then 0 else last + 1
      invariant res == [] ==> last == 0
      invariant Prepend(res, Scan(input, from, res == [])) == Scan(input, 0, true)
      decreases n - from
    {
      TakeToken(res, input, from, res == []);
      var step := TokenAt(input, first, last, res == []);
      if step.Fail? {
        return Err(step.problem);
      }
      if step.Last? {
        return Ok(res + [step.token]);
      }
      last := step.next - 1;
      res := res + [step.token];
      from := last + 1;
      first := SkipSpace(input, last + 1);
    }
    TakeEnd(res, input, from, res == []);
    return Ok(res);
  }

  /** `tokenize`: the switch. `last` is where the token before ended; the result goes on after the new `last`. */
  method TokenAt(input: string, first: nat, last: nat, initial: bool) returns (step: Step)
    requires first < |input| && !IsSpace(input[first])
    requires if initial then last == 0 else last < first
    ensures step == Next(input, first, initial)
  {
    var n := |input|;
    var c := input[first];
    if c == '"' {
      FindQuoteInSuffix(input, first + 1, 0);
      var q := FindQuote(input[first + 1..]);
      if !q.At? {
        return Fail(QuoteProblem(q));
      }
      var end := first + 1 + q.pos;
      return More(Token('"', first + 1, input[first + 1..end]), end + 1);
    } else if initial && IncludeWord(input, first) && IncludeEnds(input, first + 7) {
      return More(Token('i', first + 1, input[first + 1..first + 8]), first + 8);
    } else if c == '#' || c == ';' {
      return Last(Token(c, first + 1, input[first + 1..]));
    } else if c == '=' {
      return More(Token('=', first, input[first..first + 1]), first + 1);
    } else if c == '[' && initial {
      if last + 1 == n {
        return Fail(UnmatchedBracket);
      }
      var end := FindChar(input, first + 1, ']');
      if end == n {
        return Fail(UnmatchedBracket);
      }
      return More(Token('[', first + 1, input[first + 1..end]), end + 1);
    } else {
      if last + 1 == n {
        return Last(Token('t', first, input[first..]));
      }
      var end := FindDelimiter(input, first + 1, initial);
      if end == n {
        return Last(Token('t', first, input[first..]));
      }
      return More(Token('t', first, input[first..end]), if IsSpace(input[end]) then end + 1 else end);
    }
  }

  /** `comment.starts_with("include")` after a `#` at `p`. */
  predicate IncludeWord(s: string, p: nat)
    requires p < |s|
  {
    s[p] == '#' && p + 8 <= |s| && s[p + 1..p + 8] == INCLUDE
  }

  /** The word `include` that ends at `last` is not part of a longer one. */
  predicate IncludeEnds(s: string, last: nat)
    requires last < |s|
  {
    last + 1 == |s| || IsSpace(s[last + 1])
  }

  // ---- what token sequences look like ----

  /** Token `i` of the line, the first being number 0 unless `initial` is false, may stand where it does. */
  predicate WellPlaced(ts: seq<Token>, i: nat, initial: bool)
    requires i < |ts|
  {
    var t := ts[i];
    match t.kind
    case '"' => NoDangling(t.text) && Escape(Unescape(t.text)) == t.text
    case '=' => t.text == "="
    case '#' => i == |ts| - 1
    case ';' => i == |ts| - 1
    case 'i' => i == 0 && initial && t.text == INCLUDE
    case '[' => i == 0 && initial && ']' !in t.text
    case 't' =>
      && t.text != "" && !IsSpace(t.text[0])
      && ((i == 0 && initial) || i == |ts| - 1 || (i == |ts| - 2 && IsComment(ts[|ts| - 1].kind)))
    case _ => false
  }

  ghost predicate Grammar(ts: seq<Token>, initial: bool) {
    forall i :: 0 <= i < |ts| ==> WellPlaced(ts, i, initial)
  }

  lemma GrammarCons(t: Token, rest: seq<Token>, initial: bool)
    requires Grammar(rest, false) && WellPlaced([t], 0, initial) && !IsComment(t.kind)
    requires t.kind == 't' && !initial ==> |rest| == 1 && IsComment(rest[0].kind)
    ensures Grammar([t] + rest, initial)
  {
    var ts := [t] + rest;
    forall i | 0 <= i < |ts|
      ensures WellPlaced(ts, i, initial)
    {
      if i > 0 {
        assert WellPlaced(rest, i - 1, false);
        assert ts[i] == rest[i - 1] && ts[|ts| - 1] == rest[|rest| - 1];
      }
    }
  }

  /** A single token as such may stand at the head of the line, or further on. */
  lemma NextWellPlaced(s: string, first: nat, initial: bool)
    requires first < |s| && !IsSpace(s[first]) && !Next(s, first, initial).Fail?
    ensures WellPlaced([Next(s, first, initial).token], 0, initial)
  {
    if s[first] == '"' {
      AcceptedIsEscaped(s, first + 1);
    }
  }

  /** After an unquoted token that is not the first comes a comment or nothing; a comment is the last token. */
  lemma AfterText(s: string, first: nat, initial: bool)
    requires first < |s| && !IsSpace(s[first]) && Next(s, first, initial).More?
    ensures var More(t, next) := Next(s, first, initial);
            && !IsComment(t.kind)
            && (t.kind == 't' && !initial ==>
                  Scan(s, next, false).Ok? && |Scan(s, next, false).value| == 1
                  && IsComment(Scan(s, next, false).value[0].kind))
  {
    var More(t, next) := Next(s, first, initial);
    if t.kind == 't' && !initial {
      assert IsComment(s[next]);
    }
  }

  /** Every line that is accepted has tokens in this order only. */
  lemma {:induction false} ScanGrammar(s: string, p: nat, initial: bool)
    requires p <= |s| && Scan(s, p, initial).Ok?
    ensures Grammar(Scan(s, p, initial).value, initial)
    decreases |s| - p
  {
    var first := SkipSpace(s, p);
    if first < |s| {
      NextWellPlaced(s, first, initial);
      match Next(s, first, initial)
      case Last(t) =>
      case More(t, next) =>
        ScanGrammar(s, next, false);
        AfterText(s, first, initial);
        GrammarCons(t, Scan(s, next, false).value, initial);
    }
  }

  // ---- nothing is lost ----

  /** Tokens lie in order at or after `p`, each a slice of the line. */
  predicate Slices(s: string, p: nat, ts: seq<Token>)
    decreases |ts|
  {
    ts == [] || (
      && p <= ts[0].at <= ts[0].at + |ts[0].text| <= |s|
      && s[ts[0].at..ts[0].at + |ts[0].text|] == ts[0].text
      && Slices(s, ts[0].at + |ts[0].text|, ts[1..]))
  }

  predicate Inside(t: Token, k: nat) {
    t.at <= k < t.at + |t.text|
  }

  /** Offset `k` is the mark that opens or closes the token: a quote, a bracket, or the start of a comment or include. */
  predicate IsMark(s: string, t: Token, k: nat)
    requires k < |s|
  {
    if k < t.at then
      k + 1 == t.at && t.kind != 't' && t.kind != '=' && s[k] == if t.kind == 'i' then '#' else t.kind
    else
      k == t.at + |t.text| && ((t.kind == '"' && s[k] == '"') || (t.kind == '[' && s[k] == ']'))
  }

  predicate Accounted(s: string, ts: seq<Token>, k: nat)
    requires k < |s|
  {
    IsSpace(s[k]) || exists i :: 0 <= i < |ts| && (Inside(ts[i], k) || IsMark(s, ts[i], k))
  }

  lemma AccountedCons(s: string, t: Token, rest: seq<Token>, p: nat, next: nat)
    requires p <= next <= |s|
    requires forall k :: p <= k < next ==> IsSpace(s[k]) || Inside(t, k) || IsMark(s, t, k)
    requires forall k :: next <= k < |s| ==> Accounted(s, rest, k)
    ensures forall k :: p <= k < |s| ==> Accounted(s, [t] + rest, k)
  {
    var ts := [t] + rest;
    forall k | p <= k < |s|
      ensures Accounted(s, ts, k)
    {
      if k < next {
        assert ts[0] == t;
      } else if !IsSpace(s[k]) {
        assert Accounted(s, rest, k);
        var i :| 0 <= i < |rest| && (Inside(rest[i], k) || IsMark(s, rest[i], k));
        assert ts[i + 1] == rest[i];
      }
    }
  }

  lemma SlicesWeaken(s: string, p: nat, next: nat, ts: seq<Token>)
    requires p <= next && Slices(s, next, ts)
    ensures Slices(s, p, ts)
  {
  }

  lemma SlicesCons(s: string, p: nat, t: Token, next: nat, rest: seq<Token>)
    requires p <= t.at <= t.at + |t.text| <= next <= |s|
    requires s[t.at..t.at + |t.text|] == t.text
    requires Slices(s, next, rest)
    ensures Slices(s, p, [t] + rest)
  {
    SlicesWeaken(s, t.at + |t.text|, next, rest);
    assert ([t] + rest)[1..] == rest;
  }

  function End(s: string, step: Step): nat {
    if step.More? then step.next else |s|
  }

  /** Token `t` is a slice of `s[p..next]` and everything there is a space, in the token, or a mark of it. */
  predicate Covered(s: string, p: nat, t: Token, next: nat) {
    && p <= t.at <= t.at + |t.text| <= next <= |s|
    && s[t.at..t.at + |t.text|] == t.text
    && forall k :: p <= k < next ==> IsSpace(s[k]) || Inside(t, k) || IsMark(s, t, k)
  }

  /** One token and its marks account for everything up to where the scan goes on. */
  lemma NextLosesNothing(s: string, first: nat, initial: bool)
    requires first < |s| && !IsSpace(s[first]) && !Next(s, first, initial).Fail?
    ensures Covered(s, first, Next(s, first, initial).token, End(s, Next(s, first, initial)))
  {
    if s[first] == '"' {
      QuotedLosesNothing(s, first);
    } else if initial && IsInclude(s, first) {
      IncludeLosesNothing(s, first);
    } else if s[first] == '[' && initial && !IsComment(s[first]) {
      BracketLosesNothing(s, first);
    } else if !IsComment(s[first]) && s[first] != '=' {
      TextLosesNothing(s, first, initial);
    }
  }

  lemma QuotedLosesNothing(s: string, first: nat)
    requires first < |s| && s[first] == '"' && FindQuoteFrom(s, first + 1).At?
    ensures var pos := FindQuoteFrom(s, first + 1).pos;
            Covered(s, first, Token('"', first + 1, s[first + 1..pos]), pos + 1)
  {
  }

  lemma IncludeLosesNothing(s: string, first: nat)
    requires IsInclude(s, first)
    ensures Covered(s, first, Token('i', first + 1, INCLUDE), first + 8)
  {
  }

  lemma BracketLosesNothing(s: string, first: nat)
    requires first < |s| && s[first] == '[' && FindChar(s, first + 1, ']') < |s|
    ensures var last := FindChar(s, first + 1, ']');
            Covered(s, first, Token('[', first + 1, s[first + 1..last]), last + 1)
  {
  }

  lemma TextLosesNothing(s: string, first: nat, initial: bool)
    requires first < |s|
    ensures var last := FindDelimiter(s, first + 1, initial);
            && Covered(s, first, Token('t', first, s[first..last]), last)
            && (last < |s| && IsSpace(s[last]) ==> Covered(s, first, Token('t', first, s[first..last]), last + 1))
            && (last == |s| ==> s[first..last] == s[first..])
  {
  }

  /** The tokens are slices of the line, in order and apart. */
  lemma {:induction false} ScanSlices(s: string, p: nat, initial: bool)
    requires p <= |s| && Scan(s, p, initial).Ok?
    ensures Slices(s, p, Scan(s, p, initial).value)
    decreases |s| - p
  {
    var first := SkipSpace(s, p);
    if first < |s| {
      NextLosesNothing(s, first, initial);
      match Next(s, first, initial)
      case Last(t) =>
        SlicesCons(s, p, t, |s|, []);
        assert [t] + [] == [t];
      case More(t, next) =>
        ScanSlices(s, next, false);
        SlicesCons(s, p, t, next, Scan(s, next, false).value);
    }
  }

  /** Every character outside the tokens is a space or a mark of one of them. */
  lemma {:induction false} ScanLosesNothing(s: string, p: nat, initial: bool)
    requires p <= |s| && Scan(s, p, initial).Ok?
    ensures forall k :: p <= k < |s| ==> Accounted(s, Scan(s, p, initial).value, k)
    decreases |s| - p
  {
    var first := SkipSpace(s, p);
    if first < |s| {
      NextLosesNothing(s, first, initial);
      match Next(s, first, initial)
      case Last(t) =>
        AccountedCons(s, t, [], p, |s|);
        assert [t] + [] == [t];
      case More(t, next) =>
        ScanLosesNothing(s, next, false);
        AccountedCons(s, t, Scan(s, next, false).value, p, next);
    }
  }
}
