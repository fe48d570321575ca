/** Sequence and string helpers: Python's set(), filtering, str.join and str.split. */
module Seqs {
  import opened Common

  /** No element occurs twice. */
  predicate Distinct<T(==)>(s: seq<T>) {
    forall i, j :: 0 <= i < j < |s| ==> s[i] != s[j]
  }

  /** The elements of s, as Python's set(s). */
  function Elems<T>(s: seq<T>): set<T> {
    set x | x in s
  }

  lemma DistinctCons<T>(x: T, t: seq<T>)
    ensures Distinct([x] + t) <==> x !in t && Distinct(t)
  {
    var s := [x] + t;
    if x in t {
      var k :| 0 <= k < |t| && t[k] == x;
      assert s[0] == s[k + 1];
    }
    if Distinct(s) {
      forall i, j | 0 <= i < j < |t| ensures t[i] != t[j] {
        assert s[i + 1] == t[i] && s[j + 1] == t[j];
      }
    }
    if x !in t && Distinct(t) {
      forall i, j | 0 <= i < j < |s| ensures s[i] != s[j] {
        if i == 0 {
          assert s[j] == t[j - 1];
        } else {
          assert s[i] == t[i - 1] && s[j] == t[j - 1];
        }
      }
    }
  }

  lemma {:induction false} ElemsBound<T>(s: seq<T>)
    ensures |Elems(s)| <= |s|
  {
    if s == [] {
      assert Elems(s) == {};
    } else {
      ElemsBound(s[1..]);
      assert Elems(s) == {s[0]} + Elems(s[1..]);
    }
  }

  /** A subset has no more elements than its superset. */
  lemma {:induction false} SubsetCard<T>(a: set<T>, b: set<T>)
    requires a <= b
    ensures |a| <= |b|
  {
    if a != {} {
      var x :| x in a;
      SubsetCard(a - {x}, b - {x});
    }
  }

  /** `len(set(s)) == len(s)` holds exactly when s has no repeated element. */
  lemma {:induction false} DistinctIffCardinality<T>(s: seq<T>)
    ensures Distinct(s) <==> |Elems(s)| == |s|
  {
    if s == [] {
      assert Elems(s) == {};
    } else {
      var t := s[1..];
      assert s == [s[0]] + t;
      DistinctCons(s[0], t);
      assert Elems(s) == {s[0]} + Elems(t);
      DistinctIffCardinality(t);
      if s[0] in t {
        ElemsBound(t);
        assert Elems(s) == Elems(t);
      }
    }
  }

  /** The elements of s that satisfy keep, in their original order. */
  function Filter<T(!new)>(s: seq<T>, keep: T -> bool): (r: seq<T>)
    ensures |r| <= |s|
    ensures forall x :: x in r <==> x in s && keep(x)
  {
    if s == [] then [] else (if keep(s[0]) then [s[0]] else []) + Filter(s[1..], keep)
  }

  lemma {:induction false} FilterDistinct<T(!new)>(s: seq<T>, keep: T -> bool)
    requires Distinct(s)
    ensures Distinct(Filter(s, keep))
  {
    if s != [] {
      assert s == [s[0]] + s[1..];
      DistinctCons(s[0], s[1..]);
      FilterDistinct(s[1..], keep);
      if keep(s[0]) {
        DistinctCons(s[0], Filter(s[1..], keep));
      } else {
        assert Filter(s, keep) == Filter(s[1..], keep);
      }
    }
  }

  /** Filtering only removes elements: the result is a sub-multiset of the input. */
  lemma {:induction false} FilterMultiset<T(!new)>(s: seq<T>, keep: T -> bool)
    ensures multiset(Filter(s, keep)) <= multiset(s)
  {
    if s != [] {
      assert s == [s[0]] + s[1..];
      FilterMultiset(s[1..], keep);
    }
  }

  /** Appending an element that is not yet present keeps the elements distinct. */
  lemma DistinctSnoc<T>(s: seq<T>, x: T)
    requires Distinct(s) && x !in s
    ensures Distinct(s + [x])
  {
    var t := s + [x];
    forall i, j | 0 <= i < j < |t| ensures t[i] != t[j] {
      if j == |s| {
        assert t[i] == s[i];
      } else {
        assert t[i] == s[i] && t[j] == s[j];
      }
    }
  }

  /** Filtering distributes over concatenation: relative order is kept. */
  lemma {:induction false} FilterConcat<T(!new)>(a: seq<T>, b: seq<T>, keep: T -> bool)
    ensures Filter(a + b, keep) == Filter(a, keep) + Filter(b, keep)
  {
    if a != [] {
      assert (a + b)[1..] == a[1..] + b;
      FilterConcat(a[1..], b, keep);
    } else {
      assert a + b == b;
    }
  }

  /** Filtering with two predicates that agree on every element gives the same result. */
  lemma {:induction false} FilterAgree<T(!new)>(s: seq<T>, keep1: T -> bool, keep2: T -> bool)
    requires forall x :: x in s ==> keep1(x) == keep2(x)
    ensures Filter(s, keep1) == Filter(s, keep2)
  {
    if s != [] {
      assert s[0] in s;
      FilterAgree(s[1..], keep1, keep2);
    }
  }

  /** Filtering with a predicate no element satisfies gives the empty sequence. */
  lemma {:induction false} FilterNone<T(!new)>(s: seq<T>, keep: T -> bool)
    requires forall x :: x in s ==> !keep(x)
    ensures Filter(s, keep) == []
  {
    if s != [] {
      assert s[0] in s;
      FilterNone(s[1..], keep);
    }
  }

  /** Filtering with a predicate every element satisfies changes nothing. */
  lemma {:induction false} FilterAll<T(!new)>(s: seq<T>, keep: T -> bool)
    requires forall x :: x in s ==> keep(x)
    ensures Filter(s, keep) == s
  {
    if s != [] {
      assert s[0] in s;
      FilterAll(s[1..], keep);
      assert s == [s[0]] + s[1..];
    }
  }

  /** Filtering by p and then by q is filtering once by any predicate that
      agrees with their conjunction. */
  lemma {:induction false} FilterFilter<T(!new)>(s: seq<T>, p: T -> bool, q: T -> bool, both: T -> bool)
    requires forall x :: x in s ==> both(x) == (p(x) && q(x))
    ensures Filter(Filter(s, p), q) == Filter(s, both)
  {
    if s != [] {
      assert s[0] in s;
      FilterFilter(s[1..], p, q, both);
      var rest := Filter(s[1..], p);
      if p(s[0]) {
        assert Filter(s, p) == [s[0]] + rest;
        assert ([s[0]] + rest)[1..] == rest;
      } else {
        assert Filter(s, p) == rest;
      }
    }
  }

  /** Two predicates that never both hold, and together hold where c does,
      split what Filter(s, c) keeps between them. */
  lemma {:induction false} FilterSplit<T(!new)>(s: seq<T>, a: T -> bool, b: T -> bool, c: T -> bool)
    requires forall x :: x in s ==> c(x) == (a(x) || b(x)) && !(a(x) && b(x))
    ensures multiset(Filter(s, a)) + multiset(Filter(s, b)) == multiset(Filter(s, c))
  {
    if s != [] {
      assert s[0] in s;
      FilterSplit(s[1..], a, b, c);
    }
  }

  /** No two elements share a key. */
  predicate DistinctBy<T, K(==)>(s: seq<T>, key: T -> K) {
    forall i, j :: 0 <= i < j < |s| ==> key(s[i]) != key(s[j])
  }

  lemma DistinctByCons<T, K>(x: T, t: seq<T>, key: T -> K)
    ensures DistinctBy([x] + t, key) <==> (forall y :: y in t ==> key(y) != key(x)) && DistinctBy(t, key)
  {
    var s := [x] + t;
    if DistinctBy(s, key) {
      forall y | y in t ensures key(y) != key(x) {
        var k :| 0 <= k < |t| && t[k] == y;
        assert s[0] == x && s[k + 1] == y;
      }
      forall i, j | 0 <= i < j < |t| ensures key(t[i]) != key(t[j]) {
        assert s[i + 1] == t[i] && s[j + 1] == t[j];
      }
    }
    if (forall y :: y in t ==> key(y) != key(x)) && DistinctBy(t, key) {
      forall i, j | 0 <= i < j < |s| ensures key(s[i]) != key(s[j]) {
        if i == 0 {
          assert s[j] == t[j - 1];
          assert s[j] in t;
        } else {
          assert s[i] == t[i - 1] && s[j] == t[j - 1];
        }
      }
    }
  }

  lemma {:induction false} FilterDistinctBy<T(!new), K>(s: seq<T>, keep: T -> bool, key: T -> K)
    requires DistinctBy(s, key)
    ensures DistinctBy(Filter(s, keep), key)
  {
    if s != [] {
      assert s == [s[0]] + s[1..];
      DistinctByCons(s[0], s[1..], key);
      FilterDistinctBy(s[1..], keep, key);
      if keep(s[0]) {
        DistinctByCons(s[0], Filter(s[1..], keep), key);
      } else {
        assert Filter(s, keep) == Filter(s[1..], keep);
      }
    }
  }

  lemma DistinctByAppend<T, K>(a: seq<T>, b: seq<T>, key: T -> K)
    requires DistinctBy(a, key) && DistinctBy(b, key)
    requires forall x, y :: x in a && y in b ==> key(x) != key(y)
    ensures DistinctBy(a + b, key)
  {
    var s := a + b;
    forall i, j | 0 <= i < j < |s| ensures key(s[i]) != key(s[j]) {
      if j < |a| {
        assert s[i] == a[i] && s[j] == a[j];
      } else if i >= |a| {
        assert s[i] == b[i - |a|] && s[j] == b[j - |a|];
      } else {
        assert s[i] == a[i] && s[j] == b[j - |a|];
        assert s[i] in a && s[j] in b;
      }
    }
  }

  /** Python's `sep.join(parts)`. */
  function Join(parts: seq<string>, sep: string): string {
    if |parts| == 0 then ""
    else if |parts| == 1 then parts[0]
    else parts[0] + sep + Join(parts[1..], sep)
  }

  /** Each part preceded by sep, all concatenated. */
  function Prefixed(parts: seq<string>, sep: string): string {
    if parts == [] then "" else sep + parts[0] + Prefixed(parts[1..], sep)
  }

  /** Joining a head with more parts is the head followed by each part
      preceded by the separator. */
  lemma {:induction false} JoinPrefixed(h: string, parts: seq<string>, sep: string)
    ensures Join([h] + parts, sep) == h + Prefixed(parts, sep)
    decreases |parts|
  {
    if parts == [] {
      assert [h] + parts == [h];
    } else {
      assert ([h] + parts)[1..] == [parts[0]] + parts[1..];
      JoinPrefixed(parts[0], parts[1..], sep);
    }
  }

  /** sep occurs in s starting at index k. */
  predicate OccursAt(s: string, sep: string, k: int) {
    0 <= k && k + |sep| <= |s| && s[k..k + |sep|] == sep
  }

  /** sep occurs nowhere in s. */
  predicate Free(s: string, sep: string) {
    forall k :: 0 <= k <= |s| ==> !OccursAt(s, sep, k)
  }

  /** Python's `sub in s`. */
  predicate Contains(s: string, sub: string) {
    exists k :: 0 <= k <= |s| && OccursAt(s, sub, k)
  }

  /** Python's `s.startswith(prefix)`. */
  predicate StartsWith(s: string, prefix: string) {
    |prefix| <= |s| && s[..|prefix|] == prefix
  }

  lemma StartsWithContains(s: string, prefix: string)
    requires StartsWith(s, prefix)
    ensures Contains(s, prefix)
  {
    assert OccursAt(s, prefix, 0);
  }

  lemma OccursShift(s: string, sep: string, k: int)
    requires |s| > 0 && k >= 0
    ensures OccursAt(s[1..], sep, k) <==> OccursAt(s, sep, k + 1)
  {
    if k + 1 + |sep| <= |s| {
      assert s[1..][k..k + |sep|] == s[k + 1..k + 1 + |sep|];
    }
  }

  /** The leftmost occurrence of sep in s, as Python's `s.find(sep)`. */
  function IndexOf(s: string, sep: string): (r: Option<nat>)
    requires |sep| > 0
    ensures r.Some? ==> r.value + |sep| <= |s|
    decreases |s|
  {
    if |s| < |sep| then None
    else if s[..|sep|] == sep then Some(0)
    else match IndexOf(s[1..], sep)
      case None => None
      case Some(i) => Some(i + 1)
  }

  /** IndexOf finds the leftmost occurrence, and finds none only when there is none. */
  lemma {:induction false} IndexOfSpec(s: string, sep: string)
    requires |sep| > 0
    ensures var r := IndexOf(s, sep);
      && (r.Some? ==> OccursAt(s, sep, r.value) && forall k :: 0 <= k < r.value ==> !OccursAt(s, sep, k))
      && (r.None? ==> Free(s, sep))
    decreases |s|
  {
    if |s| >= |sep| && s[..|sep|] != sep {
      IndexOfSpec(s[1..], sep);
      forall k | k >= 1 ensures OccursAt(s, sep, k) <==> OccursAt(s[1..], sep, k - 1) {
        OccursShift(s, sep, k - 1);
      }
    }
  }

  /** Python's `s.split(sep)` for a non-empty separator. */
  function Split(s: string, sep: string): (r: seq<string>)
    requires |sep| > 0
    ensures |r| >= 1
    decreases |s|
  {
    match IndexOf(s, sep)
    case None => [s]
    case Some(i) => [s[..i]] + Split(s[i + |sep|..], sep)
  }

  /** Joining the pieces of a split with the same separator gives back the input. */
  lemma {:induction false} JoinSplit(s: string, sep: string)
    requires |sep| > 0
    ensures Join(Split(s, sep), sep) == s
    decreases |s|
  {
    var r := IndexOf(s, sep);
    if r.Some? {
      var i := r.value;
      var rest := s[i + |sep|..];
      IndexOfSpec(s, sep);
      JoinSplit(rest, sep);
      var pieces := Split(rest, sep);
      assert Split(s, sep) == [s[..i]] + pieces;
      assert ([s[..i]] + pieces)[1..] == pieces;
      assert Join(Split(s, sep), sep) == s[..i] + sep + Join(pieces, sep);
      assert s == s[..i] + sep + rest;
    }
  }

  /** No piece of a split contains the separator. */
  lemma {:induction false} SplitPiecesFree(s: string, sep: string)
    requires |sep| > 0
    ensures forall p :: p in Split(s, sep) ==> Free(p, sep)
    decreases |s|
  {
    match IndexOf(s, sep)
    case Some(i) =>
      var rest := s[i + |sep|..];
      SplitPiecesFree(rest, sep);
      assert Split(s, sep) == [s[..i]] + Split(rest, sep);
      FreeBeforeFirst(s, sep, i);
    case None =>
      IndexOfSpec(s, sep);
      assert Split(s, sep) == [s];
  }

  /** The text before the leftmost occurrence holds no occurrence. */
  lemma FreeBeforeFirst(s: string, sep: string, i: nat)
    requires |sep| > 0 && IndexOf(s, sep) == Some(i)
    ensures Free(s[..i], sep)
  {
    IndexOfSpec(s, sep);
    forall k | 0 <= k <= i ensures !OccursAt(s[..i], sep, k) {
      if k + |sep| <= i {
        assert !OccursAt(s, sep, k);
        assert s[..i][k..k + |sep|] == s[k..k + |sep|];
      }
    }
  }

  /** An occurrence of sep at k gives s its characters from k on. */
  lemma CharsAt(s: string, sep: string, k: int)
    requires OccursAt(s, sep, k)
    ensures forall j :: 0 <= j < |sep| ==> s[k + j] == sep[j]
  {
    forall j | 0 <= j < |sep| ensures s[k + j] == sep[j] {
      assert s[k..k + |sep|][j] == s[k + j];
    }
  }

  /** A text in which the separator occurs splits into at least two pieces. */
  lemma SplitAtLeastTwo(s: string, sep: string, k: int)
    requires |sep| > 0 && OccursAt(s, sep, k)
    ensures |Split(s, sep)| >= 2
  {
    IndexOfSpec(s, sep);
    var i := IndexOf(s, sep).value;
    assert Split(s, sep) == [s[..i]] + Split(s[i + |sep|..], sep);
  }

  /** A text with two occurrences of the separator that do not overlap
      splits into at least three pieces. */
  lemma SplitAtLeastThree(s: string, sep: string, k1: int, k2: int)
    requires |sep| > 0 && OccursAt(s, sep, k1) && OccursAt(s, sep, k2) && k1 + |sep| <= k2
    ensures |Split(s, sep)| >= 3
  {
    IndexOfSpec(s, sep);
    var i := IndexOf(s, sep).value;
    assert i <= k1;
    var rest := s[i + |sep|..];
    assert rest[k2 - i - |sep|..k2 - i] == s[k2..k2 + |sep|];
    SplitAtLeastTwo(rest, sep, k2 - i - |sep|);
    assert Split(s, sep) == [s[..i]] + Split(rest, sep);
  }

  /** The last element of a non-empty sequence, as Python's `xs[-1]`. */
  function Last<T>(xs: seq<T>): T
    requires |xs| > 0
  {
    xs[|xs| - 1]
  }

  /** l is a suffix of s that is either all of s or follows an occurrence of sep. */
  predicate TailAfterSeparator(s: string, sep: string, l: string) {
    |l| <= |s| && s[|s| - |l|..] == l && (|l| == |s| || OccursAt(s, sep, |s| - |l| - |sep|))
  }

  /** The last piece of a split is a suffix of the input that follows the
      last occurrence of the separator (or is the whole input). */
  lemma {:induction false} LastPieceIsSuffix(s: string, sep: string)
    requires |sep| > 0
    ensures TailAfterSeparator(s, sep, Last(Split(s, sep)))
    decreases |s|
  {
    match IndexOf(s, sep)
    case Some(i) =>
      LastPieceIsSuffix(s[i + |sep|..], sep);
      LastPieceStep(s, sep, i);
    case None =>
      LastPieceWhole(s, sep);
  }

  lemma LastPieceWhole(s: string, sep: string)
    requires |sep| > 0 && IndexOf(s, sep).None?
    ensures TailAfterSeparator(s, sep, Last(Split(s, sep)))
  {
    assert Split(s, sep) == [s];
    assert s[|s| - |s|..] == s;
  }

  lemma LastPieceStep(s: string, sep: string, i: nat)
    requires |sep| > 0 && IndexOf(s, sep) == Some(i)
    requires TailAfterSeparator(s[i + |sep|..], sep, Last(Split(s[i + |sep|..], sep)))
    ensures TailAfterSeparator(s, sep, Last(Split(s, sep)))
  {
    IndexOfSpec(s, sep);
    var pieces := Split(s[i + |sep|..], sep);
    assert Split(s, sep) == [s[..i]] + pieces;
    assert Last(Split(s, sep)) == Last(pieces);
    TailOfRest(s, sep, i, Last(pieces));
  }

  lemma TailOfRest(s: string, sep: string, i: nat, l: string)
    requires OccursAt(s, sep, i)
    requires TailAfterSeparator(s[i + |sep|..], sep, l)
    ensures TailAfterSeparator(s, sep, l)
  {
    var rest := s[i + |sep|..];
    assert s[|s| - |l|..] == rest[|rest| - |l|..];
    if |l| < |rest| {
      assert rest[|rest| - |l| - |sep|..|rest| - |l|] == s[|s| - |l| - |sep|..|s| - |l|];
    }
  }

  /** When the separator's first character does not recur inside it, a text
      made of two separator-free parts splits back into exactly those parts. */
  lemma SplitTwo(h: string, p: string, sep: string)
    requires |sep| > 0 && forall j :: 0 < j < |sep| ==> sep[j] != sep[0]
    requires Free(h, sep) && Free(p, sep)
    ensures Split(h + sep + p, sep) == [h, p]
  {
    var s := h + sep + p;
    assert s[|h|..|h| + |sep|] == sep;
    assert OccursAt(s, sep, |h|);
    forall k | 0 <= k < |h| ensures !OccursAt(s, sep, k) {
      if k + |sep| <= |h| {
        assert s[k..k + |sep|] == h[k..k + |sep|];
        assert !OccursAt(h, sep, k);
      } else {
        assert s[|h|] == sep[0];
        assert s[k..k + |sep|][|h| - k] == s[|h|];
        assert sep[|h| - k] != sep[0];
      }
    }
    IndexOfSpec(s, sep);
    assert IndexOf(s, sep) == Some(|h|);
    assert s[..|h|] == h;
    assert s[|h| + |sep|..] == p;
    IndexOfSpec(p, sep);
    assert IndexOf(p, sep).None?;
    assert Split(p, sep) == [p];
  }
}
