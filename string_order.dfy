/**
 * The default order of `Array.prototype.sort` on strings: lexicographic
 * character by character, a proper prefix before its extensions. The sort
 * itself is a library call; it is modelled by insertion sort, and
 * `SortedUnique` shows that any sort by this order gives the same answer.
 */
module StringOrder {
  import opened Collections

  predicate Less(a: string, b: string) {
    if a == [] then b != []
    else if b == [] then false
    else a[0] < b[0] || (a[0] == b[0] && Less(a[1..], b[1..]))
  }

  lemma {:induction false} LessIrreflexive(a: string)
    ensures !Less(a, a)
  {
    if a != [] { LessIrreflexive(a[1..]); }
  }

  lemma {:induction false} LessTransitive(a: string, b: string, c: string)
    requires Less(a, b) && Less(b, c)
    ensures Less(a, c)
  {
    if a != [] && b != [] && c != [] && a[0] == b[0] && b[0] == c[0] {
      LessTransitive(a[1..], b[1..], c[1..]);
    }
  }

  lemma {:induction false} LessTotal(a: string, b: string)
    ensures a == b || Less(a, b) || Less(b, a)
  {
    if a != [] && b != [] && a[0] == b[0] {
      LessTotal(a[1..], b[1..]);
      if a[1..] == b[1..] {
        assert a == [a[0]] + a[1..] && b == [b[0]] + b[1..];
      }
    }
  }

  lemma {:induction false} LessAsymmetric(a: string, b: string)
    requires Less(a, b)
    ensures !Less(b, a)
  {
    if a != [] && b != [] && a[0] == b[0] {
      LessAsymmetric(a[1..], b[1..]);
    }
  }

  /** Ascending, ties allowed. */
  predicate Sorted(s: seq<string>) {
    forall i, j :: 0 <= i < j < |s| ==> !Less(s[j], s[i])
  }

  /** Ascending without ties. */
  predicate StrictlySorted(s: seq<string>) {
    forall i, j :: 0 <= i < j < |s| ==> Less(s[i], s[j])
  }

  /** `x` placed in front of the first element not below it. */
  function Insert(x: string, t: seq<string>): seq<string> {
    if t == [] || !Less(t[0], x) then [x] + t else [t[0]] + Insert(x, t[1..])
  }

  lemma {:induction false} InsertMultiset(x: string, t: seq<string>)
    ensures multiset(Insert(x, t)) == multiset(t) + multiset{x}
  {
    if t != [] && Less(t[0], x) {
      InsertMultiset(x, t[1..]);
      assert t == [t[0]] + t[1..];
    }
  }

  lemma {:induction false} InsertSorted(x: string, t: seq<string>)
    requires Sorted(t)
    ensures Sorted(Insert(x, t))
  {
    if t == [] || !Less(t[0], x) {
      forall j | 0 < j < |[x] + t| ensures !Less(([x] + t)[j], x) {
        if Less(t[j - 1], x) {
          if j > 1 {
            LessTotal(t[0], t[j - 1]);
            if Less(t[0], t[j - 1]) { LessTransitive(t[0], t[j - 1], x); }
          }
        }
      }
    } else {
      var rest := Insert(x, t[1..]);
      InsertSorted(x, t[1..]);
      InsertMultiset(x, t[1..]);
      forall j | 0 <= j < |rest| ensures !Less(rest[j], t[0]) {
        assert rest[j] in multiset(rest);
        if rest[j] == x {
          LessAsymmetric(t[0], x);
        } else {
          assert rest[j] in multiset(t[1..]);
          var k :| 0 <= k < |t[1..]| && t[1..][k] == rest[j];
          assert t[k + 1] == rest[j];
        }
      }
      assert Insert(x, t) == [t[0]] + rest;
    }
  }

  lemma {:induction false} InsertDistinct(x: string, t: seq<string>)
    requires NoDuplicates(t) && x !in t
    ensures NoDuplicates(Insert(x, t))
  {
    if t == [] || !Less(t[0], x) {
      ConsDistinct(x, t);
    } else {
      ConsDistinct(t[0], t[1..]);
      InsertDistinct(x, t[1..]);
      InsertMultiset(x, t[1..]);
      var rest := Insert(x, t[1..]);
      assert t[0] !in multiset(t[1..]) + multiset{x};
      ConsDistinct(t[0], rest);
    }
  }

  /** Insertion sort. */
  function Sort(s: seq<string>): (r: seq<string>)
    ensures Sorted(r)
    ensures multiset(r) == multiset(s)
    ensures NoDuplicates(s) ==> NoDuplicates(r)
  {
    if s == [] then []
    else
      assert s == [s[0]] + s[1..];
      var rest := Sort(s[1..]);
      assert Sorted(Insert(s[0], rest)) by { InsertSorted(s[0], rest); }
      assert multiset(Insert(s[0], rest)) == multiset(s) by { InsertMultiset(s[0], rest); }
      assert NoDuplicates(s) ==> NoDuplicates(Insert(s[0], rest)) by {
        if NoDuplicates(s) {
          ConsDistinct(s[0], s[1..]);
          assert s[0] !in multiset(rest);
          InsertDistinct(s[0], rest);
        }
      }
      Insert(s[0], rest)
  }

  lemma SortedDistinctIsStrict(s: seq<string>)
    requires Sorted(s) && NoDuplicates(s)
    ensures StrictlySorted(s)
  {
    forall i, j | 0 <= i < j < |s| ensures Less(s[i], s[j]) {
      LessTotal(s[i], s[j]);
    }
  }

  lemma HeadIsLeast(a: seq<string>, y: string)
    requires Sorted(a) && y in a
    ensures !Less(y, a[0])
  {
    var j :| 0 <= j < |a| && a[j] == y;
    if j == 0 { LessIrreflexive(y); }
  }

  lemma TailSorted(a: seq<string>)
    requires Sorted(a) && a != []
    ensures Sorted(a[1..])
  {
    forall i, j | 0 <= i < j < |a[1..]| ensures !Less(a[1..][j], a[1..][i]) {
      assert a[1..][i] == a[i + 1] && a[1..][j] == a[j + 1];
    }
  }

  lemma SortedHeadsAgree(a: seq<string>, b: seq<string>)
    requires Sorted(a) && Sorted(b) && multiset(a) == multiset(b) && a != [] && b != []
    ensures a[0] == b[0]
  {
    assert a[0] in multiset(b) && b[0] in multiset(a);
    HeadIsLeast(b, a[0]);
    HeadIsLeast(a, b[0]);
    LessTotal(a[0], b[0]);
  }

  lemma TailMultiset(a: seq<string>)
    requires a != []
    ensures multiset(a[1..]) == multiset(a) - multiset{a[0]}
  {
    assert a == [a[0]] + a[1..];
  }

  /** A sorted arrangement of a multiset of strings is unique, so any
      correct sort by this order returns exactly `Sort(s)`. */
  lemma {:induction false} SortedUnique(a: seq<string>, b: seq<string>)
    requires Sorted(a) && Sorted(b) && multiset(a) == multiset(b)
    ensures a == b
  {
    assert |a| == |multiset(a)| == |multiset(b)| == |b|;
    if a != [] {
      SortedHeadsAgree(a, b);
      TailMultiset(a);
      TailMultiset(b);
      TailSorted(a);
      TailSorted(b);
      SortedUnique(a[1..], b[1..]);
      assert a == [a[0]] + a[1..] && b == [b[0]] + b[1..];
    }
  }

  /** Checking neighbours is enough for strictness. */
  lemma {:induction false} AdjacentStrict(s: seq<string>)
    requires forall i :: 0 <= i < |s| - 1 ==> Less(s[i], s[i + 1])
    ensures StrictlySorted(s)
  {
    if |s| > 1 {
      AdjacentStrict(s[1..]);
      forall j | 1 <= j < |s| ensures Less(s[0], s[j]) {
        if j > 1 {
          assert Less(s[1..][0], s[1..][j - 1]);
          LessTransitive(s[0], s[1], s[j]);
        }
      }
      forall i, j | 0 <= i < j < |s| ensures Less(s[i], s[j]) {
        if i > 0 { assert Less(s[1..][i - 1], s[1..][j - 1]); }
      }
    }
  }

  lemma StrictlySortedIsSorted(s: seq<string>)
    requires StrictlySorted(s)
    ensures Sorted(s) && NoDuplicates(s)
  {
    forall i, j | 0 <= i < j < |s| ensures !Less(s[j], s[i]) && s[i] != s[j] {
      LessAsymmetric(s[i], s[j]);
      LessIrreflexive(s[i]);
    }
  }
}
