/** Which section rules a line of a file, found by looking back from the line. */
module IniSections {
  import opened Wrappers
  import opened IniStatement
  import opened IniScript
  import opened IniIncludes

  /** `prefix` is what the last section line before line `i` says, or `start` when there is none. */
  ghost predicate InForce(script: seq<Statement>, start: string, i: nat, prefix: string) {
    && i <= |script|
    && if exists j :: 0 <= j < i && script[j].Section?
       then exists j :: 0 <= j < i && script[j] == Section(prefix) && forall k :: j < k < i ==> !script[k].Section?
       else prefix == start
  }

  /** There is exactly one such prefix. */
  lemma {:induction false} InForceUnique(script: seq<Statement>, start: string, i: nat, p: string, q: string)
    requires InForce(script, start, i, p) && InForce(script, start, i, q)
    ensures p == q
  {
  }

  /** What line `i` adds to the pairs of a file. */
  ghost predicate Contributes(lib: Library, from: Path, script: seq<Statement>, start: string, i: nat, part: seq<Pair>)
    requires i < |script|
  {
    match script[i]
    case Entry(key, value) => exists prefix :: InForce(script, start, i, prefix) && part == [Pair(prefix + key, value)]
    case Include(name) => exists p :: lib.resolve(from, name) == Some(p) && p in lib.scripts && ReadFile(lib, p) == Ok(part)
    case _ => part == []
  }

  function Flatten(parts: seq<seq<Pair>>): seq<Pair> {
    if parts == [] then [] else parts[0] + Flatten(parts[1..])
  }

  lemma InForceLater(script: seq<Statement>, start: string, i: nat, prefix: string)
    requires script != [] && InForce(script[1..], PrefixAfter(start, script[0]), i, prefix)
    ensures InForce(script, start, i + 1, prefix)
  {
    var rest := script[1..];
    assert forall k :: 1 <= k < |script| ==> script[k] == rest[k - 1];
    if j :| 0 <= j < i && rest[j].Section? {
      assert script[j + 1].Section?;
      var l :| 0 <= l < i && rest[l] == Section(prefix) && forall k :: l < k < i ==> !rest[k].Section?;
      assert script[l + 1] == Section(prefix);
    } else if script[0].Section? {
      assert script[0] == Section(prefix);
    }
  }

  lemma ContributesLater(lib: Library, from: Path, script: seq<Statement>, start: string, i: nat, part: seq<Pair>)
    requires i + 1 < |script| && Contributes(lib, from, script[1..], PrefixAfter(start, script[0]), i, part)
    ensures Contributes(lib, from, script, start, i + 1, part)
  {
    var rest := script[1..];
    assert script[i + 1] == rest[i];
    if rest[i].Entry? {
      var prefix :| InForce(rest, PrefixAfter(start, script[0]), i, prefix) && part == [Pair(prefix + rest[i].key, rest[i].value)];
      InForceLater(script, start, i, prefix);
    }
  }

  lemma FirstContributes(lib: Library, stack: seq<Path>, prefix: string, script: seq<Statement>, n: nat)
    requires stack != [] && script != [] && Succeeds(ExpandStatement(lib, stack, prefix, script[0], n))
    ensures Contributes(lib, Top(stack), script, prefix, 0, ExpandStatement(lib, stack, prefix, script[0], n).pairs)
  {
    if script[0].Include? {
      IncludeIsItsFile(lib, stack, script[0].name, n);
      var p := lib.Open(Top(stack), script[0].name).value;
      assert lib.resolve(Top(stack), script[0].name) == Some(p) && p in lib.scripts;
    } else if script[0].Entry? {
      assert InForce(script, prefix, 0, prefix);
    }
  }

  lemma {:induction false} ExpandParts(lib: Library, stack: seq<Path>, prefix: string, script: seq<Statement>, n: nat) returns (parts: seq<seq<Pair>>)
    requires stack != [] && Succeeds(Expand(lib, stack, prefix, script, n))
    ensures |parts| == |script| && Expand(lib, stack, prefix, script, n).pairs == Flatten(parts)
    ensures forall i :: 0 <= i < |script| ==> Contributes(lib, Top(stack), script, prefix, i, parts[i])
    decreases |script|
  {
    if script == [] {
      parts := [];
    } else {
      var first := ExpandStatement(lib, stack, prefix, script[0], n);
      var after := PrefixAfter(prefix, script[0]);
      var rest := ExpandParts(lib, stack, after, script[1..], n + 1);
      parts := [first.pairs] + rest;
      assert parts[1..] == rest;
      FirstContributes(lib, stack, prefix, script, n);
      forall i | 0 <= i < |script|
        ensures Contributes(lib, Top(stack), script, prefix, i, parts[i])
      {
        if i > 0 {
          assert Contributes(lib, Top(stack), script[1..], after, i - 1, rest[i - 1]);
          ContributesLater(lib, Top(stack), script, prefix, i - 1, rest[i - 1]);
        }
      }
    }
  }

  /**
   The pairs of a file are what its lines contribute, in order. An entry contributes its key behind the prefix of
   the last section line before it in the same file, or the bare key when there is none; an include contributes
   what the file its name leads to, seen from this file, has on its own.
   */
  lemma {:induction false} LastSectionRules(lib: Library, path: Path, script: seq<Statement>) returns (parts: seq<seq<Pair>>)
    requires Read(lib, path, script).Ok?
    ensures |parts| == |script| && Read(lib, path, script).value == Flatten(parts)
    ensures forall i :: 0 <= i < |script| ==> Contributes(lib, path, script, "", i, parts[i])
  {
    parts := ExpandParts(lib, [path], "", script, 1);
  }

  // ---- lines that say nothing ----

  /** The same pairs, and a failure in the one exactly when there is one in the other. */
  predicate SameButLines(a: Expansion, b: Expansion) {
    a.pairs == b.pairs && (a.failure.None? <==> b.failure.None?)
    && (a.failure.Some? ==> a.failure.value.problem == b.failure.value.problem)
  }

  lemma LineNumberDoesNotShow(lib: Library, stack: seq<Path>, prefix: string, s: Statement, n: nat, m: nat)
    requires stack != []
    ensures SameButLines(ExpandStatement(lib, stack, prefix, s, n), ExpandStatement(lib, stack, prefix, s, m))
  {
    if s.Include? {
      assert SameButLines(ExpandInclude(lib, stack, s.name, n), ExpandInclude(lib, stack, s.name, m));
    }
  }

  /** Where the numbering starts shows in the line numbers of a failure only. */
  lemma {:induction false} NumberingDoesNotShow(lib: Library, stack: seq<Path>, prefix: string, script: seq<Statement>, n: nat, m: nat)
    requires stack != []
    ensures SameButLines(Expand(lib, stack, prefix, script, n), Expand(lib, stack, prefix, script, m))
    decreases |script|
  {
    if script != [] {
      LineNumberDoesNotShow(lib, stack, prefix, script[0], n, m);
      NumberingDoesNotShow(lib, stack, PrefixAfter(prefix, script[0]), script[1..], n + 1, m + 1);
    }
  }

  lemma {:induction false} ExpandInserted(lib: Library, stack: seq<Path>, prefix: string, a: seq<Statement>, b: seq<Statement>, n: nat)
    requires stack != []
    ensures SameButLines(Expand(lib, stack, prefix, a + [Nothing] + b, n), Expand(lib, stack, prefix, a + b, n))
    decreases |a|
  {
    if a == [] {
      var script := a + [Nothing] + b;
      assert script[1..] == b && a + b == b;
      NumberingDoesNotShow(lib, stack, prefix, b, n + 1, n);
      assert [] + Expand(lib, stack, prefix, b, n + 1).pairs == Expand(lib, stack, prefix, b, n + 1).pairs;
    } else {
      assert (a + [Nothing] + b)[1..] == a[1..] + [Nothing] + b && (a + b)[1..] == a[1..] + b;
      ExpandInserted(lib, stack, PrefixAfter(prefix, a[0]), a[1..], b, n + 1);
    }
  }

  /** A blank line or a comment anywhere in a file changes neither its pairs nor whether it is accepted. */
  lemma {:induction false} SilentLinesDoNotShow(lib: Library, path: Path, a: seq<Statement>, b: seq<Statement>)
    ensures var with, without := Read(lib, path, a + [Nothing] + b), Read(lib, path, a + b);
            if with.Ok? then with == without else without.Err? && with.error.problem == without.error.problem
  {
    ExpandInserted(lib, [path], "", a, b, 1);
  }
}
