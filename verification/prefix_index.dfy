/** An ordered set of strings, and finding the members that are prefixes of a key by looking at neighbours only. */
module PrefixIndex {
  /** The order of `std::string`. */
  predicate Less(a: string, b: string) {
    b != "" && (a == "" || a[0] < b[0] || (a[0] == b[0] && Less(a[1..], b[1..])))
  }

  /** `std::set<std::string>` as the sequence of its elements in order. */
  predicate Sorted(s: seq<string>) {
    forall i, j :: 0 <= i < j < |s| ==> Less(s[i], s[j])
  }

  /** `lower_bound`: the position of the first element that is not less than `key`. */
  function LowerBound(s: seq<string>, key: string): (i: nat)
    ensures i <= |s|
    ensures forall j :: 0 <= j < i ==> Less(s[j], key)
    ensures i < |s| ==> !Less(s[i], key)
  {
    if s == [] || !Less(s[0], key) then 0 else 1 + LowerBound(s[1..], key)
  }

  function Insert(s: seq<string>, key: string): seq<string> {
    var i := LowerBound(s, key);
    if i < |s| && s[i] == key then s else s[..i] + [key] + s[i..]
  }

  /** One of two strings is a prefix of the other. */
  predicate Comparable(a: string, b: string) {
    a <= b || b <= a
  }

  predicate PrefixFree(s: seq<string>) {
    forall i, j :: 0 <= i < j < |s| ==> !Comparable(s[i], s[j])
  }

  // ---- the order ----

  lemma {:induction false} LessTransitive(a: string, b: string, c: string)
    requires Less(a, b) && Less(b, c)
    ensures Less(a, c)
    decreases |a|
  {
    if a != "" && a[0] == b[0] == c[0] {
      LessTransitive(a[1..], b[1..], c[1..]);
    }
  }

  lemma {:induction false} LessTotal(a: string, b: string)
    ensures Less(a, b) || Less(b, a) || a == b
    decreases |a|
  {
    if a != "" && b != "" && a[0] == b[0] {
      LessTotal(a[1..], b[1..]);
      assert a == [a[0]] + a[1..] && b == [b[0]] + b[1..];
    }
  }

  lemma {:induction false} LessIrreflexive(a: string)
    ensures !Less(a, a)
    decreases |a|
  {
    if a != "" {
      LessIrreflexive(a[1..]);
    }
  }

  lemma {:induction false} PrefixIsLess(a: string, b: string)
    requires a < b
    ensures Less(a, b)
    decreases |a|
  {
    if a != "" {
      PrefixIsLess(a[1..], b[1..]);
    }
  }

  /** Whatever lies in the order between a string and one of its extensions is an extension too. */
  lemma {:induction false} BetweenPrefixes(p: string, x: string, q: string)
    requires p <= q
    requires !Less(x, p) && !Less(q, x)
    ensures p <= x
    decreases |p|
  {
    if p != "" {
      assert q != "" && q[0] == p[0];
      if x != "" && x[0] == p[0] {
        BetweenPrefixes(p[1..], x[1..], q[1..]);
        assert x == [x[0]] + x[1..] && p == [p[0]] + p[1..];
      }
    }
  }

  // ---- neighbours ----

  /** The element before the lower bound, the one `--i` moves to. */
  predicate PredecessorIsPrefix(s: seq<string>, key: string) {
    var i := LowerBound(s, key);
    i > 0 && s[i - 1] <= key
  }

  predicate SuccessorExtends(s: seq<string>, key: string) {
    var i := LowerBound(s, key);
    i < |s| && key <= s[i]
  }

  /** Some element extends the key exactly when the lower bound does. */
  lemma {:induction false} SuccessorDecides(s: seq<string>, key: string)
    requires Sorted(s)
    ensures SuccessorExtends(s, key) <==> exists j :: 0 <= j < |s| && key <= s[j]
  {
    var i := LowerBound(s, key);
    if j :| 0 <= j < |s| && key <= s[j] {
      if key == s[j] {
        LessIrreflexive(key);
      } else {
        PrefixIsLess(key, s[j]);
        if j < i {
          LessTransitive(key, s[j], key);
          LessIrreflexive(key);
        }
      }
      if i < j {
        NotLess(s[j], s[i]);
      } else {
        LessIrreflexive(s[i]);
      }
      BetweenPrefixes(key, s[i], s[j]);
    }
  }

  lemma NotLess(a: string, b: string)
    requires Less(b, a)
    ensures !Less(a, b)
  {
    if Less(a, b) {
      LessTransitive(a, b, a);
      LessIrreflexive(a);
    }
  }

  lemma PrefixOrEqual(a: string, b: string)
    requires a <= b
    ensures a == b || a < b
  {
  }

  /** In a prefix-free set, some element is a proper prefix of the key exactly when the predecessor is. */
  lemma {:induction false} PredecessorDecides(s: seq<string>, key: string)
    requires Sorted(s) && PrefixFree(s)
    ensures PredecessorIsPrefix(s, key) <==> exists j :: 0 <= j < |s| && s[j] < key
  {
    var i := LowerBound(s, key);
    if PredecessorIsPrefix(s, key) {
      LessIrreflexive(key);
      PrefixOrEqual(s[i - 1], key);
    }
    if j :| 0 <= j < |s| && s[j] < key {
      PrefixIsLess(s[j], key);
      if i <= j {
        if i < j {
          LessTransitive(s[i], s[j], key);
        }
        assert false;
      }
      if j < i - 1 {
        NotLess(s[i - 1], s[j]);
        NotLess(key, s[i - 1]);
        BetweenPrefixes(s[j], s[i - 1], key);
      }
    }
  }

  /**
   The two neighbours of the place where a prefix would go decide whether it clashes with any element. This is
   where prefix-freeness is needed, and what it is kept for.
   */
  lemma {:induction false} NeighboursDecide(s: seq<string>, prefix: string)
    requires Sorted(s) && PrefixFree(s)
    ensures SuccessorExtends(s, prefix) || PredecessorIsPrefix(s, prefix)
            <==> exists j :: 0 <= j < |s| && Comparable(prefix, s[j])
  {
    SuccessorDecides(s, prefix);
    PredecessorDecides(s, prefix);
    if j :| 0 <= j < |s| && Comparable(prefix, s[j]) {
      assert prefix <= s[j] || s[j] < prefix;
    }
  }

  /** Inserting an element that clashes with none keeps the set sorted and prefix-free. */
  lemma {:induction false} InsertKeeps(s: seq<string>, prefix: string)
    requires Sorted(s) && PrefixFree(s)
    requires !SuccessorExtends(s, prefix) && !PredecessorIsPrefix(s, prefix)
    ensures Sorted(Insert(s, prefix)) && PrefixFree(Insert(s, prefix))
    ensures forall x :: x in Insert(s, prefix) <==> x == prefix || x in s
  {
    NeighboursDecide(s, prefix);
    var i := LowerBound(s, prefix);
    var r := Insert(s, prefix);
    assert r == s[..i] + [prefix] + s[i..];
    forall j | i <= j < |s|
      ensures Less(prefix, s[j])
    {
      LessTotal(s[i], prefix);
      if i < j {
        LessTransitive(prefix, s[i], s[j]);
      }
    }
    forall j, k | 0 <= j < k < |r|
      ensures Less(r[j], r[k]) && !Comparable(r[j], r[k])
    {
      assert r[j] == if j < i then s[j] else if j == i then prefix else s[j - 1];
      assert r[k] == if k < i then s[k] else if k == i then prefix else s[k - 1];
      assert j != i ==> !Comparable(prefix, r[j]);
    }
  }
}
