/** Includes: what a successful parse means, and when parsing succeeds. */
module IniIncludes {
  import opened Wrappers
  import opened IniTokenizer
  import opened IniStatement
  import opened IniScript

  // ---- an included file contributes what it contributes on its own ----

  /**
   The files that led to an include do not show in what it contributes: a successful expansion is the same under
   any stack that forbids less.
   */
  lemma {:induction false} StackDoesNotShow(lib: Library, stack: seq<Path>, less: seq<Path>, prefix: string, script: seq<Statement>, n: nat)
    requires stack != [] && less != [] && Top(less) == Top(stack) && SetOf(less) <= SetOf(stack)
    requires Succeeds(Expand(lib, stack, prefix, script, n))
    ensures Expand(lib, less, prefix, script, n) == Expand(lib, stack, prefix, script, n)
    decreases Room(lib, stack), |script|, 1
  {
    if script != [] {
      StackDoesNotShow(lib, stack, less, PrefixAfter(prefix, script[0]), script[1..], n + 1);
      var s := script[0];
      assert Succeeds(ExpandStatement(lib, stack, prefix, s, n));
      if s.Include? {
        StackDoesNotShowInclude(lib, stack, less, s.name, n);
      }
    }
  }

  lemma {:induction false} StackDoesNotShowInclude(lib: Library, stack: seq<Path>, less: seq<Path>, name: string, n: nat)
    requires stack != [] && less != [] && Top(less) == Top(stack) && SetOf(less) <= SetOf(stack)
    requires Succeeds(ExpandInclude(lib, stack, name, n))
    ensures ExpandInclude(lib, less, name, n) == ExpandInclude(lib, stack, name, n)
    decreases Room(lib, stack), 0, 0
  {
    var p := lib.Open(Top(stack), name).value;
    assert p !in SetOf(stack) && p !in SetOf(less);
    RoomShrinks(lib, stack, p);
    assert SetOf(less + [p]) == SetOf(less) + {p} && SetOf(stack + [p]) == SetOf(stack) + {p};
    StackDoesNotShow(lib, stack + [p], less + [p], "", lib.scripts[p], 1);
  }

  /** `parse` of a file. */
  function ReadFile(lib: Library, p: Path): Result<seq<Pair>, Failure>
    requires p in lib.scripts
  {
    Read(lib, p, lib.scripts[p])
  }

  /** What one line contributes, an include standing for its file parsed on its own. */
  function LinePairs(lib: Library, from: Path, prefix: string, s: Statement): seq<Pair> {
    match s
    case Entry(key, value) => [Pair(prefix + key, value)]
    case Include(name) =>
      var p := lib.Open(from, name);
      if p.Some? && ReadFile(lib, p.value).Ok? then ReadFile(lib, p.value).value else []
    case _ => []
  }

  /** The pairs of the lines in order; a section line rules the lines after it in the same file, and no others. */
  function AllPairs(lib: Library, from: Path, prefix: string, script: seq<Statement>): seq<Pair>
    decreases |script|
  {
    if script == [] then []
    else LinePairs(lib, from, prefix, script[0]) + AllPairs(lib, from, PrefixAfter(prefix, script[0]), script[1..])
  }

  lemma {:induction false} ExpandIsAllPairs(lib: Library, stack: seq<Path>, prefix: string, script: seq<Statement>, n: nat)
    requires stack != [] && Succeeds(Expand(lib, stack, prefix, script, n))
    ensures Expand(lib, stack, prefix, script, n).pairs == AllPairs(lib, Top(stack), prefix, script)
    decreases |script|
  {
    if script != [] {
      ExpandIsAllPairs(lib, stack, PrefixAfter(prefix, script[0]), script[1..], n + 1);
      var s := script[0];
      assert Succeeds(ExpandStatement(lib, stack, prefix, s, n));
      if s.Include? {
        IncludeIsItsFile(lib, stack, s.name, n);
      }
    }
  }

  lemma IncludeIsItsFile(lib: Library, stack: seq<Path>, name: string, n: nat)
    requires stack != [] && Succeeds(ExpandInclude(lib, stack, name, n))
    ensures lib.Open(Top(stack), name).Some?
    ensures ReadFile(lib, lib.Open(Top(stack), name).value) == Ok(ExpandInclude(lib, stack, name, n).pairs)
  {
    var p := lib.Open(Top(stack), name).value;
    StackDoesNotShow(lib, stack + [p], [p], "", lib.scripts[p], 1);
  }

  /** A successful parse replaces each include, in place, by exactly the pairs its file has on its own. */
  lemma {:induction false} ReadIsReplacement(lib: Library, path: Path, script: seq<Statement>)
    requires Read(lib, path, script).Ok?
    ensures Read(lib, path, script).value == AllPairs(lib, path, "", script)
  {
    ExpandIsAllPairs(lib, [path], "", script, 1);
  }

  // ---- when parsing succeeds ----

  /** No line is malformed and every include can be opened. */
  ghost predicate LinesOk(lib: Library, from: Path, script: seq<Statement>) {
    forall i :: 0 <= i < |script| ==> LineOk(lib, from, script[i])
  }

  predicate LineOk(lib: Library, from: Path, s: Statement) {
    !s.Reject? && (s.Include? ==> lib.Open(from, s.name).Some?)
  }

  /** Some line of a text from file `from` includes the file `p`. */
  ghost predicate Includes(lib: Library, from: Path, script: seq<Statement>, p: Path) {
    exists i :: 0 <= i < |script| && LineIncludes(lib, from, script[i], p)
  }

  predicate LineIncludes(lib: Library, from: Path, s: Statement, p: Path) {
    s.Include? && lib.Open(from, s.name) == Some(p)
  }

  /** A way through the include graph: each file includes the next. */
  ghost predicate Chain(lib: Library, ps: seq<Path>) {
    && ps != []
    && (forall i :: 0 <= i < |ps| ==> ps[i] in lib.scripts)
    && forall i :: 0 <= i < |ps| - 1 ==> Includes(lib, ps[i], lib.scripts[ps[i]], ps[i + 1])
  }

  predicate Distinct(ps: seq<Path>) {
    forall i, j :: 0 <= i < j < |ps| ==> ps[i] != ps[j]
  }

  /** Every file reached from `p` is fine, and no way to it runs in a circle or back into the stack. */
  ghost predicate GoodFrom(lib: Library, stack: seq<Path>, p: Path) {
    forall ps :: Chain(lib, ps) && ps[0] == p ==>
      Distinct(stack + ps) && LinesOk(lib, Top(ps), lib.scripts[Top(ps)])
  }

  /** The lines are fine and so is everything they include. */
  ghost predicate GoodLines(lib: Library, stack: seq<Path>, script: seq<Statement>)
    requires stack != []
  {
    && LinesOk(lib, Top(stack), script)
    && forall p :: Includes(lib, Top(stack), script, p) ==> GoodFrom(lib, stack, p)
  }

  lemma ChainTail(lib: Library, ps: seq<Path>)
    requires Chain(lib, ps) && |ps| > 1
    ensures Chain(lib, ps[1..]) && Includes(lib, ps[0], lib.scripts[ps[0]], ps[1])
  {
    forall i | 0 <= i < |ps[1..]| - 1
      ensures Includes(lib, ps[1..][i], lib.scripts[ps[1..][i]], ps[1..][i + 1])
    {
      assert Includes(lib, ps[i + 1], lib.scripts[ps[i + 1]], ps[i + 2]);
    }
  }

  lemma ChainCons(lib: Library, p: Path, ps: seq<Path>)
    requires p in lib.scripts && Chain(lib, ps) && Includes(lib, p, lib.scripts[p], ps[0])
    ensures Chain(lib, [p] + ps)
  {
    var qs := [p] + ps;
    forall i | 0 <= i < |qs| - 1
      ensures Includes(lib, qs[i], lib.scripts[qs[i]], qs[i + 1])
    {
      if i > 0 {
        assert Includes(lib, ps[i - 1], lib.scripts[ps[i - 1]], ps[i]);
      }
    }
  }

  /** A file is good under a stack exactly when it is new there and its lines are good on top of it. */
  lemma {:induction false} GoodFromIffGoodLines(lib: Library, stack: seq<Path>, p: Path)
    requires p in lib.scripts && Distinct(stack)
    ensures GoodFrom(lib, stack, p) <==> p !in stack && GoodLines(lib, stack + [p], lib.scripts[p])
  {
    if GoodFrom(lib, stack, p) {
      GoodFromGivesLines(lib, stack, p);
    }
    if p !in stack && GoodLines(lib, stack + [p], lib.scripts[p]) {
      forall ps | Chain(lib, ps) && ps[0] == p
        ensures Distinct(stack + ps) && LinesOk(lib, Top(ps), lib.scripts[Top(ps)])
      {
        if |ps| == 1 {
          assert ps == [p];
        } else {
          ChainTail(lib, ps);
          assert GoodFrom(lib, stack + [p], ps[1]);
          assert stack + ps == stack + [p] + ps[1..];
          assert Top(ps[1..]) == Top(ps);
        }
      }
    }
  }

  lemma GoodFromGivesLines(lib: Library, stack: seq<Path>, p: Path)
    requires p in lib.scripts && GoodFrom(lib, stack, p)
    ensures p !in stack && GoodLines(lib, stack + [p], lib.scripts[p])
  {
    var script := lib.scripts[p];
    assert Chain(lib, [p]);
    assert forall i :: 0 <= i < |stack| ==> (stack + [p])[i] == stack[i] && (stack + [p])[|stack|] == p;
    forall q | Includes(lib, p, script, q)
      ensures GoodFrom(lib, stack + [p], q)
    {
      forall ps | Chain(lib, ps) && ps[0] == q
        ensures Distinct(stack + [p] + ps) && LinesOk(lib, Top(ps), lib.scripts[Top(ps)])
      {
        ChainCons(lib, p, ps);
        assert stack + ([p] + ps) == stack + [p] + ps;
        assert Top([p] + ps) == Top(ps);
      }
    }
  }

  /** Expanding lines succeeds exactly when they are good. */
  lemma {:induction false} ExpandSucceedsIff(lib: Library, stack: seq<Path>, prefix: string, script: seq<Statement>, n: nat)
    requires stack != [] && Distinct(stack)
    ensures Succeeds(Expand(lib, stack, prefix, script, n)) <==> GoodLines(lib, stack, script)
    decreases Room(lib, stack), |script|, 2
  {
    if script != [] {
      LineSucceedsIff(lib, stack, prefix, script[0], n);
      ExpandSucceedsIff(lib, stack, PrefixAfter(prefix, script[0]), script[1..], n + 1);
      GoodLinesCons(lib, stack, script);
    }
  }

  /** One line and what it includes. */
  ghost predicate GoodLine(lib: Library, stack: seq<Path>, s: Statement)
    requires stack != []
  {
    && LineOk(lib, Top(stack), s)
    && forall p :: LineIncludes(lib, Top(stack), s, p) ==> GoodFrom(lib, stack, p)
  }

  lemma GoodLinesCons(lib: Library, stack: seq<Path>, script: seq<Statement>)
    requires stack != [] && script != []
    ensures GoodLines(lib, stack, script) <==> GoodLine(lib, stack, script[0]) && GoodLines(lib, stack, script[1..])
  {
    var from := Top(stack);
    assert forall i :: 1 <= i < |script| ==> script[i] == script[1..][i - 1];
    forall p
      ensures Includes(lib, from, script, p) <==> LineIncludes(lib, from, script[0], p) || Includes(lib, from, script[1..], p)
    {
      if i :| 0 <= i < |script[1..]| && LineIncludes(lib, from, script[1..][i], p) {
        assert LineIncludes(lib, from, script[i + 1], p);
      }
      if i :| 0 <= i < |script| && LineIncludes(lib, from, script[i], p) {
        assert i > 0 ==> LineIncludes(lib, from, script[1..][i - 1], p);
      }
    }
    if LinesOk(lib, from, script) {
      forall i | 0 <= i < |script[1..]|
        ensures LineOk(lib, from, script[1..][i])
      {
        assert LineOk(lib, from, script[i + 1]);
      }
    }
  }

  lemma {:induction false} LineSucceedsIff(lib: Library, stack: seq<Path>, prefix: string, s: Statement, n: nat)
    requires stack != [] && Distinct(stack)
    ensures Succeeds(ExpandStatement(lib, stack, prefix, s, n)) <==> GoodLine(lib, stack, s)
    decreases Room(lib, stack), 0, 1
  {
    if s.Include? {
      var found := lib.Open(Top(stack), s.name);
      if found.Some? {
        var p := found.value;
        assert LineIncludes(lib, Top(stack), s, p);
        GoodFromIffGoodLines(lib, stack, p);
        if p !in stack {
          RoomShrinks(lib, stack, p);
          ExpandSucceedsIff(lib, stack + [p], "", lib.scripts[p], 1);
        }
      }
    }
  }

  /**
   Parsing a file succeeds exactly when no include chain from it meets a file twice and every file on those
   chains is well formed. A file reached in two ways is fine.
   */
  lemma {:induction false} ReadFileSucceedsIff(lib: Library, root: Path)
    requires root in lib.scripts
    ensures ReadFile(lib, root).Ok? <==>
            forall ps :: Chain(lib, ps) && ps[0] == root ==> Distinct(ps) && LinesOk(lib, Top(ps), lib.scripts[Top(ps)])
  {
    ExpandSucceedsIff(lib, [root], "", lib.scripts[root], 1);
    GoodFromIffGoodLines(lib, [], root);
    assert [] + [root] == [root];
    assert forall ps: seq<Path> :: [] + ps == ps;
  }

  /** For a stream the same holds of everything it includes; its own path counts as already open. */
  lemma {:induction false} ReadSucceedsIff(lib: Library, path: Path, script: seq<Statement>)
    ensures Read(lib, path, script).Ok? <==>
            LinesOk(lib, path, script)
            && forall ps :: Chain(lib, ps) && Includes(lib, path, script, ps[0]) ==>
                 Distinct([path] + ps) && LinesOk(lib, Top(ps), lib.scripts[Top(ps)])
  {
    ExpandSucceedsIff(lib, [path], "", script, 1);
  }

  // ---- what a failure points at ----

  /** The statement itself is what is wrong, not something in a file it includes. */
  predicate FailsHere(lib: Library, stack: seq<Path>, s: Statement, problem: Problem)
    requires stack != []
  {
    || s == Reject(problem)
    || (s.Include? && lib.Open(Top(stack), s.name).None? && problem == CannotOpen(s.name))
    || (s.Include? && lib.Open(Top(stack), s.name).Some? && lib.Open(Top(stack), s.name).value in stack
        && problem == IncludeCycle(s.name))
  }

  /**
   The line numbers, the first of them counted from `n`, lead through includes to the statement that is wrong,
   and in every file on the way all lines before the one named are good.
   */
  ghost predicate PointsAt(lib: Library, stack: seq<Path>, script: seq<Statement>, n: nat, f: Failure)
    requires stack != []
    decreases |f.lines|
  {
    && f.lines != [] && n <= f.lines[0] < n + |script|
    && (forall i :: 0 <= i < f.lines[0] - n ==> GoodLine(lib, stack, script[i]))
    && var s := script[f.lines[0] - n];
       if |f.lines| == 1 then FailsHere(lib, stack, s, f.problem)
       else
         && s.Include?
         && var p := lib.Open(Top(stack), s.name);
         && p.Some? && p.value !in stack
         && PointsAt(lib, stack + [p.value], lib.scripts[p.value], 1, Failure(f.lines[1..], f.problem))
  }

  lemma {:induction false} FailurePointsAtProblem(lib: Library, stack: seq<Path>, prefix: string, script: seq<Statement>, n: nat)
    requires stack != [] && Distinct(stack)
    requires !Succeeds(Expand(lib, stack, prefix, script, n))
    ensures PointsAt(lib, stack, script, n, Expand(lib, stack, prefix, script, n).failure.value)
    decreases Room(lib, stack), |script|, 1
  {
    var s := script[0];
    LineSucceedsIff(lib, stack, prefix, s, n);
    var first := ExpandStatement(lib, stack, prefix, s, n);
    if first.failure.Some? {
      if s.Include? {
        IncludeFailurePoints(lib, stack, script, n);
      }
    } else {
      var rest := Expand(lib, stack, PrefixAfter(prefix, s), script[1..], n + 1);
      FailurePointsAtProblem(lib, stack, PrefixAfter(prefix, s), script[1..], n + 1);
      PointsAtLater(lib, stack, script, n, rest.failure.value);
    }
  }

  lemma PointsAtLater(lib: Library, stack: seq<Path>, script: seq<Statement>, n: nat, f: Failure)
    requires stack != [] && script != [] && GoodLine(lib, stack, script[0])
    requires PointsAt(lib, stack, script[1..], n + 1, f)
    ensures PointsAt(lib, stack, script, n, f)
  {
    forall i | 0 <= i < f.lines[0] - n
      ensures GoodLine(lib, stack, script[i])
    {
      assert i > 0 ==> script[i] == script[1..][i - 1];
    }
  }

  lemma {:induction false} IncludeFailurePoints(lib: Library, stack: seq<Path>, script: seq<Statement>, n: nat)
    requires stack != [] && Distinct(stack) && script != [] && script[0].Include?
    requires !Succeeds(ExpandInclude(lib, stack, script[0].name, n))
    ensures PointsAt(lib, stack, script, n, ExpandInclude(lib, stack, script[0].name, n).failure.value)
    decreases Room(lib, stack), 0, 0
  {
    var found := lib.Open(Top(stack), script[0].name);
    if found.Some? && found.value !in stack {
      var p := found.value;
      RoomShrinks(lib, stack, p);
      FailurePointsAtProblem(lib, stack + [p], "", lib.scripts[p], 1);
      var inner := Expand(lib, stack + [p], "", lib.scripts[p], 1).failure.value;
      assert ([n] + inner.lines)[1..] == inner.lines;
    }
  }

  /** The failure of a parse names the first line that is wrong, and the line of each include that led there. */
  lemma {:induction false} ReadFailurePoints(lib: Library, path: Path, script: seq<Statement>)
    requires Read(lib, path, script).Err?
    ensures PointsAt(lib, [path], script, 1, Read(lib, path, script).error)
  {
    FailurePointsAtProblem(lib, [path], "", script, 1);
  }
}
