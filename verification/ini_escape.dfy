/** Quoted text: `\\` and `\"` stand for a backslash and a quote, and nothing else may follow a backslash. */
module IniEscape {
  import opened IniText

  /** Where the closing quote is, or why there is none. */
  datatype QuoteSearch = At(pos: nat) | NoQuote | DanglingEscape | InvalidEscape(c: char)

  predicate IsEscapee(c: char) {
    c == '\\' || c == '"'
  }

  function Escape(s: string): (r: string)
    ensures |s| <= |r|
  {
    if s == "" then ""
    else (if IsEscapee(s[0]) then ['\\', s[0]] else [s[0]]) + Escape(s[1..])
  }

  function Unescape(s: string): string {
    if s == "" then ""
    else if s[0] == '\\' && |s| >= 2 then [s[1]] + Unescape(s[2..])
    else [s[0]] + Unescape(s[1..])
  }

  /** Every backslash is followed by a character: what the assert of `process_quoted_value` demands. */
  predicate NoDangling(s: string) {
    s == "" || (if s[0] == '\\' then |s| >= 2 && NoDangling(s[2..]) else NoDangling(s[1..]))
  }

  /** The search of `find_quote`, from position `i` on. */
  function FindQuoteFrom(s: string, i: nat): (r: QuoteSearch)
    requires i <= |s|
    ensures r.At? ==> i <= r.pos < |s| && s[r.pos] == '"'
    decreases |s| - i
  {
    if i == |s| then NoQuote
    else if s[i] == '"' then At(i)
    else if s[i] == '\\' then
      if i + 1 == |s| then DanglingEscape
      else if !IsEscapee(s[i + 1]) then InvalidEscape(s[i + 1])
      else FindQuoteFrom(s, i + 2)
    else FindQuoteFrom(s, i + 1)
  }

  /** `find_quote`. */
  method FindQuote(input: string) returns (r: QuoteSearch)
    ensures r == FindQuoteFrom(input, 0)
  {
    var n := |input|;
    var i := 0;
    while i < n
      invariant i <= n
      invariant FindQuoteFrom(input, i) == FindQuoteFrom(input, 0)
    {
      if input[i] == '"' {
        return At(i);
      } else if input[i] == '\\' {
        i := i + 1;
        if i == n {
          return DanglingEscape;
        }
        if !IsEscapee(input[i]) {
          return InvalidEscape(input[i]);
        }
      }
      i := i + 1;
    }
    return NoQuote;
  }

  /** The meaning of quoted text, with the assert of `process_quoted_value` as its precondition. */
  function Unquote(value: string): string
    requires NoDangling(value)
  {
    Unescape(value)
  }

  /** `process_quoted_value`. */
  method ProcessQuotedValue(value: string) returns (res: string)
    requires NoDangling(value)
    ensures res == Unquote(value)
  {
    res := "";
    var end := |value|;
    var first, i := 0, 0;
    assert value[0..] == value;
    while true
      invariant first <= i <= end
      invariant NoDangling(value[i..])
      invariant res + value[first..i] + Unescape(value[i..]) == Unescape(value)
      decreases end - i
    {
      var last := FindChar(value, i, '\\');
      UpToBackslash(value, first, i, last);
      Reassociate(res, value[first..i], Unescape(value[i..]));
      if last == end {
        res := res + value[first..last];
        break;
      }
      Reassociate(res, value[first..last], value[last + 1..last + 2] + Unescape(value[last + 2..]));
      Reassociate(res + value[first..last], value[last + 1..last + 2], Unescape(value[last + 2..]));
      res := res + value[first..last];
      last := last + 1;
      first := last;
      i := last + 1;
    }
  }

  lemma Reassociate(a: string, b: string, c: string)
    ensures a + b + c == a + (b + c)
  {
  }

  /** What one round of the unescaping loop takes over. */
  lemma UpToBackslash(s: string, first: nat, i: nat, last: nat)
    requires first <= i <= last <= |s| && NoDangling(s[i..])
    requires forall j :: i <= j < last ==> s[j] != '\\'
    requires last < |s| ==> s[last] == '\\'
    ensures last < |s| ==> last + 2 <= |s| && NoDangling(s[last + 2..])
    ensures s[first..i] + Unescape(s[i..])
         == if last == |s| then s[first..last] else s[first..last] + (s[last + 1..last + 2] + Unescape(s[last + 2..]))
  {
    SkipPlain(s, i, last);
    assert s[first..i] + s[i..last] == s[first..last];
    if last < |s| {
      assert s[last..][0] == '\\' && s[last..][2..] == s[last + 2..];
      assert s[last + 1..last + 2] == [s[last..][1]];
    } else {
      assert s[last..] == "";
    }
  }

  /** Text without backslashes stands for itself. */
  lemma {:induction false} SkipPlain(s: string, i: nat, last: nat)
    requires i <= last <= |s|
    requires forall j :: i <= j < last ==> s[j] != '\\'
    ensures Unescape(s[i..]) == s[i..last] + Unescape(s[last..])
    ensures NoDangling(s[i..]) <==> NoDangling(s[last..])
    decreases last - i
  {
    if i < last {
      SkipPlain(s, i + 1, last);
      assert s[i..][1..] == s[i + 1..];
      assert s[i..last] == [s[i]] + s[i + 1..last];
    } else {
      assert s[i..last] == "";
    }
  }

  // ---- escaping is a bijection onto what the search accepts ----

  /** Unescaping undoes escaping, and escaped text never ends in a lone backslash. */
  lemma {:induction false} UnescapeEscape(s: string)
    ensures Unescape(Escape(s)) == s && NoDangling(Escape(s))
    decreases |s|
  {
    if s == "" {
    } else {
      UnescapeEscape(s[1..]);
      var e := Escape(s);
      if IsEscapee(s[0]) {
        assert e[2..] == Escape(s[1..]);
      } else {
        assert e[1..] == Escape(s[1..]);
      }
      assert [s[0]] + s[1..] == s;
    }
  }

  /** The search runs over escaped text without stopping in it. */
  lemma {:induction false} SearchSkipsEscaped(before: string, s: string, after: string)
    ensures FindQuoteFrom(before + Escape(s) + after, |before|)
         == FindQuoteFrom(before + Escape(s) + after, |before| + |Escape(s)|)
    decreases |s|
  {
    var whole := before + Escape(s) + after;
    if s != "" {
      var head := if IsEscapee(s[0]) then ['\\', s[0]] else [s[0]];
      SearchSkipsEscaped(before + head, s[1..], after);
      assert before + head + Escape(s[1..]) + after == whole;
    }
  }

  /** The end of escaped text is found wherever it is followed by a quote. */
  lemma FindsEndOfEscaped(before: string, s: string, after: string)
    ensures FindQuoteFrom(before + Escape(s) + "\"" + after, |before|) == At(|before| + |Escape(s)|)
  {
    SearchSkipsEscaped(before, s, "\"" + after);
    assert before + Escape(s) + "\"" + after == before + Escape(s) + ("\"" + after);
  }

  /** Escaped text with nothing after it has no closing quote. */
  lemma {:induction false} NoQuoteInEscaped(before: string, s: string)
    ensures FindQuoteFrom(before + Escape(s), |before|) == NoQuote
    decreases |s|
  {
    var whole := before + Escape(s);
    if s != "" {
      var head := if IsEscapee(s[0]) then ['\\', s[0]] else [s[0]];
      NoQuoteInEscaped(before + head, s[1..]);
      assert before + head + Escape(s[1..]) == whole;
    }
  }

  /** Whatever the search accepts is the escaping of its own unescaping. */
  lemma {:induction false} AcceptedIsEscaped(s: string, i: nat)
    requires i <= |s| && FindQuoteFrom(s, i).At?
    ensures var body := s[i..FindQuoteFrom(s, i).pos]; body == Escape(Unescape(body)) && NoDangling(body)
    decreases |s| - i
  {
    var pos := FindQuoteFrom(s, i).pos;
    var body := s[i..pos];
    if i < pos {
      var step := if s[i] == '\\' then 2 else 1;
      AcceptedIsEscaped(s, i + step);
      assert body[step..] == s[i + step..pos];
      assert body == s[i..i + step] + body[step..];
      var rest := Unescape(body[step..]);
      var head := if step == 2 then s[i + 1] else s[i];
      assert Unescape(body) == [head] + rest;
      assert ([head] + rest)[1..] == rest;
    }
  }

  /** The search finds a closing quote at `k` exactly when what precedes it is the escaping of some text. */
  lemma {:induction false} SearchAcceptsExactlyEscaped(s: string, k: nat)
    ensures FindQuoteFrom(s, 0) == At(k) <==> k < |s| && s[k] == '"' && exists t :: s[..k] == Escape(t)
  {
    if FindQuoteFrom(s, 0) == At(k) {
      AcceptedIsEscaped(s, 0);
      assert s[0..k] == s[..k];
      assert s[..k] == Escape(Unescape(s[..k]));
    }
    if k < |s| && s[k] == '"' && exists t :: s[..k] == Escape(t) {
      var t :| s[..k] == Escape(t);
      FindsEndOfEscaped("", t, s[k + 1..]);
      assert s == "" + Escape(t) + "\"" + s[k + 1..];
    }
  }

  /** Wherever the search stops, it has passed the escaping of some text, and the rest says why it stopped. */
  lemma {:induction false} StoppedBehindEscaped(s: string, i: nat) returns (t: string, rest: string)
    requires i <= |s|
    ensures s[i..] == Escape(t) + rest
    ensures match FindQuoteFrom(s, i)
            case At(k) => k == i + |Escape(t)| && rest != "" && rest[0] == '"'
            case NoQuote => rest == ""
            case DanglingEscape => rest == "\\"
            case InvalidEscape(c) => |rest| >= 2 && rest[0] == '\\' && rest[1] == c && c != '\\' && c != '"'
    decreases |s| - i
  {
    if i == |s| || s[i] == '"' || (s[i] == '\\' && (i + 1 == |s| || !IsEscapee(s[i + 1]))) {
      t, rest := "", s[i..];
    } else {
      var n := if s[i] == '\\' then 2 else 1;
      t, rest := StoppedBehindEscaped(s, i + n);
      var c := s[i + n - 1];
      assert s[i..] == s[i..i + n] + s[i + n..];
      assert ([c] + t)[1..] == t;
      t := [c] + t;
    }
  }

  /** What stands behind escaped text decides how the search ends. */
  lemma SearchStops(t: string, rest: string)
    ensures var r := FindQuoteFrom(Escape(t) + rest, 0);
            && (rest == "" ==> r == NoQuote)
            && (rest == "\\" ==> r == DanglingEscape)
            && (|rest| >= 2 && rest[0] == '\\' && rest[1] != '\\' && rest[1] != '"' ==> r == InvalidEscape(rest[1]))
            && (rest != "" && rest[0] == '"' ==> r == At(|Escape(t)|))
  {
    SearchSkipsEscaped("", t, rest);
    var s := Escape(t) + rest;
    assert "" + Escape(t) + rest == s;
    assert s[|Escape(t)|..] == rest;
    assert rest != "" ==> s[|Escape(t)|] == rest[0];
    assert |rest| >= 2 ==> s[|Escape(t)| + 1] == rest[1];
  }

  /**
   The search fails exactly in three ways: the text is escaped to its end, or escaped up to a backslash that is
   the last character, or escaped up to a backslash in front of neither a backslash nor a quote.
   */
  lemma {:induction false} SearchFailsExactly(s: string, c: char)
    ensures FindQuoteFrom(s, 0) == NoQuote <==> exists t :: s == Escape(t)
    ensures FindQuoteFrom(s, 0) == DanglingEscape <==> exists t :: s == Escape(t) + "\\"
    ensures FindQuoteFrom(s, 0) == InvalidEscape(c)
            <==> c != '\\' && c != '"' && exists t, more :: s == Escape(t) + (['\\', c] + more)
  {
    var t0, rest := StoppedBehindEscaped(s, 0);
    assert s[0..] == s;
    if rest == "" {
      assert s == Escape(t0);
    }
    if |rest| >= 2 && rest[0] == '\\' {
      assert rest == ['\\', rest[1]] + rest[2..];
    }
    if t :| s == Escape(t) {
      SearchStops(t, "");
      assert Escape(t) + "" == s;
    }
    if t :| s == Escape(t) + "\\" {
      SearchStops(t, "\\");
    }
    if c != '\\' && c != '"' {
      if t, more :| s == Escape(t) + (['\\', c] + more) {
        SearchStops(t, ['\\', c] + more);
      }
    }
  }

  /** The search in a suffix is the search from a position. */
  lemma {:induction false} FindQuoteInSuffix(s: string, p: nat, i: nat)
    requires p + i <= |s|
    ensures var r := FindQuoteFrom(s, p + i);
            FindQuoteFrom(s[p..], i) == if r.At? then At(r.pos - p) else r
    decreases |s| - i
  {
    if p + i < |s| {
      if s[p + i] == '\\' {
        if p + i + 1 < |s| {
          FindQuoteInSuffix(s, p, i + 2);
        }
      } else {
        FindQuoteInSuffix(s, p, i + 1);
      }
    }
  }

  /** A closing quote stays where it is when text is appended. */
  lemma {:induction false} FindQuoteAppend(s: string, i: nat, more: string)
    requires i <= |s| && FindQuoteFrom(s, i).At?
    ensures FindQuoteFrom(s + more, i) == FindQuoteFrom(s, i)
    decreases |s| - i
  {
    if s[i] == '\\' {
      FindQuoteAppend(s, i + 2, more);
    } else if s[i] != '"' {
      FindQuoteAppend(s, i + 1, more);
    }
  }
}
