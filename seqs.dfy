/** Sequence helpers shared by the ledger and the listing pipeline. */
module Seqs {

  /**
   * Python's slice `s[-n:]` for a positive `n` (the program uses 300 and 2000):
   * the last `n` elements, all of `s` when it is shorter. Python's `s[-0:]` is
   * all of `s`, which this does not model.
   */
  function KeepLast<T>(s: seq<T>, n: nat): (r: seq<T>)
    ensures |r| == if |s| <= n then |s| else n
    ensures forall i :: 0 <= i < |r| ==> r[i] == s[|s| - |r| + i]
  {
    if |s| <= n then s else s[|s| - n..]
  }

  /** Capping twice is capping once over the concatenation: what is dropped early would be dropped later anyway. */
  lemma KeepLastAppend<T>(a: seq<T>, b: seq<T>, n: nat)
    ensures KeepLast(KeepLast(a, n) + b, n) == KeepLast(a + b, n)
  {
    var k := KeepLast(a, n);
    var kb, ab := k + b, a + b;
    var lhs, rhs := KeepLast(kb, n), KeepLast(ab, n);
    assert |lhs| == |rhs|;
    forall j | 0 <= j < |rhs| ensures lhs[j] == rhs[j] {
      var m := |kb| - |lhs| + j;
      assert lhs[j] == kb[m] && rhs[j] == ab[|a| - |k| + m];
      if m < |k| {
        assert kb[m] == k[m] == a[|a| - |k| + m];
      } else {
        assert kb[m] == b[m - |k|];
      }
    }
  }

  /** `a` is `b` with some elements left out, the rest in their original order. */
  predicate SubsequenceOf<T(==)>(a: seq<T>, b: seq<T>)
    decreases |b|
  {
    a == [] ||
    (b != [] &&
     ((a[|a| - 1] == b[|b| - 1] && SubsequenceOf(a[..|a| - 1], b[..|b| - 1])) ||
      SubsequenceOf(a, b[..|b| - 1])))
  }

  /** Appending to the longer sequence, and appending the same element to both, keep a subsequence one. */
  lemma SubsequenceExtend<T>(a: seq<T>, b: seq<T>, x: T)
    requires SubsequenceOf(a, b)
    ensures SubsequenceOf(a, b + [x]) && SubsequenceOf(a + [x], b + [x])
  {
    assert (a + [x])[..|a|] == a;
    assert (b + [x])[..|b|] == b;
  }

  // ---------------------------------------------------------------------
  // Python's ordering of `str`: lexicographic by code point, a proper
  // prefix before every extension of it.
  // ---------------------------------------------------------------------

  /** Strict lexicographic order on strings, as Python's `<` on `str`. */
  predicate Below(a: string, b: string)
    ensures Below(a, b) ==> a != b
  {
    if a == [] then b != []
    else b != [] && (a[0] < b[0] || (a[0] == b[0] && Below(a[1..], b[1..])))
  }

  /** A proper prefix sorts before every extension of it. */
  lemma {:induction false} BelowPrefix(a: string, b: string)
    requires |a| < |b| && a == b[..|a|]
    ensures Below(a, b)
    decreases |a|
  {
    if a != [] {
      assert a[0] == b[0];
      assert a[1..] == b[1..][..|a| - 1];
      BelowPrefix(a[1..], b[1..]);
    }
  }

  lemma {:induction false} BelowIrreflexive(a: string)
    ensures !Below(a, a)
  {
    if a != [] { BelowIrreflexive(a[1..]); }
  }

  lemma {:induction false} BelowTransitive(a: string, b: string, c: string)
    requires Below(a, b) && Below(b, c)
    ensures Below(a, c)
  {
    if a != [] && a[0] == b[0] && b[0] == c[0] {
      BelowTransitive(a[1..], b[1..], c[1..]);
    }
  }

  lemma {:induction false} BelowTotal(a: string, b: string)
    requires a != b
    ensures Below(a, b) || Below(b, a)
  {
    if a != [] && b != [] && a[0] == b[0] {
      assert a == [a[0]] + a[1..] && b == [b[0]] + b[1..];
      BelowTotal(a[1..], b[1..]);
    }
  }

  lemma BelowAsymmetric(a: string, b: string)
    requires Below(a, b)
    ensures !Below(b, a)
  {
    if Below(b, a) {
      BelowTransitive(a, b, a);
      BelowIrreflexive(a);
    }
  }

  /** Strictly increasing in Python's string order (so also free of duplicates). */
  predicate StrictlySorted(s: seq<string>)
  {
    forall i, j :: 0 <= i < j < |s| ==> Below(s[i], s[j])
  }

  /** The set of elements of a sequence (Python's `set(list)`). */
  function Elements<T>(s: seq<T>): set<T>
  {
    set x | x in s
  }

  /** A strictly sorted list holds each of its elements once. */
  lemma {:induction false} SortedCardinality(s: seq<string>)
    requires StrictlySorted(s)
    ensures |Elements(s)| == |s|
  {
    if s != [] {
      var t, last := s[..|s| - 1], s[|s| - 1];
      assert StrictlySorted(t);
      SortedCardinality(t);
      assert Elements(s) == Elements(t) + {last} by {
        assert s == t + [last];
      }
      forall i | 0 <= i < |t| ensures t[i] != last {
        assert Below(s[i], last);
        BelowIrreflexive(s[i]);
      }
      assert last !in Elements(t);
    }
  }

  /** Insert `x` into a strictly sorted list, keeping it strictly sorted. */
  function Insert(x: string, s: seq<string>): (r: seq<string>)
    requires StrictlySorted(s)
    ensures StrictlySorted(r)
    ensures Elements(r) == Elements(s) + {x}
  {
    if s == [] then [x]
    else if x == s[0] then s
    else if Below(x, s[0]) then
      assert forall j :: 0 < j < |s| ==> Below(x, s[j]) by {
        forall j | 0 < j < |s| ensures Below(x, s[j]) { BelowTransitive(x, s[0], s[j]); }
      }
      assert Elements([x] + s) == {x} + Elements(s);
      [x] + s
    else
      var rest := Insert(x, s[1..]);
      assert Elements(s) == {s[0]} + Elements(s[1..]);
      assert forall y :: y in Elements(rest) ==> Below(s[0], y) by {
        BelowTotal(x, s[0]);
        forall y | y in Elements(rest) ensures Below(s[0], y) {
          if y != x {
            var j :| 0 <= j < |s[1..]| && s[1..][j] == y;
            assert s[j + 1] == y;
          }
        }
      }
      assert forall j :: 0 <= j < |rest| ==> rest[j] in Elements(rest);
      assert Elements([s[0]] + rest) == {s[0]} + Elements(rest);
      [s[0]] + rest
  }

  /** Python's `sorted(list(seen))` for a set of strings. */
  method SortedList(s: set<string>) returns (r: seq<string>)
    ensures StrictlySorted(r)
    ensures Elements(r) == s
    ensures |r| == |s|
  {
    r := [];
    var rest := s;
    while rest != {}
      invariant StrictlySorted(r)
      invariant Elements(r) + rest == s
      invariant Elements(r) !! rest
      decreases rest
    {
      var x :| x in rest;
      r := Insert(x, r);
      rest := rest - {x};
    }
    SortedCardinality(r);
  }

  /** The strictly sorted list of the elements of `s`: the value `sorted(list(s))` denotes. */
  ghost function SortedOf(s: set<string>): (r: seq<string>)
    ensures StrictlySorted(r)
    ensures Elements(r) == s
    decreases s
  {
    if s == {} then []
    else
      var x :| x in s;
      Insert(x, SortedOf(s - {x}))
  }
}
