/** Failure-compatible wrappers and the sequence helpers every query is built
    from: filtering in table order, first match, reversal, de-duplication,
    ASCII case mapping and decimal rendering of numbers. */
module Common {

  /** `undefined`/`null` versus a present value. */
  datatype Option<+T> = None | Some(value: T) {

    /** The value, or `default` when absent (JavaScript's `x ?? default`). */
    function GetOr(default: T): T {
      match this
      case Some(v) => v
      case None => default
    }
  }

  /** A value, or the error a Convex handler throws. */
  datatype Result<+T, +E> = Success(value: T) | Failure(error: E)

  /** JavaScript truthiness of an optional string: present and non-empty. */
  predicate Truthy(s: Option<string>) {
    s.Some? && s.value != ""
  }

  /** JavaScript truthiness of an optional number: present and not 0. */
  predicate TruthyNumber(n: Option<int>) {
    n.Some? && n.value != 0
  }

  function Min(a: int, b: int): int {
    if a <= b then a else b
  }

  // ---------------------------------------------------------------------
  // Filtering (JavaScript's Array.filter, Convex's index range scans)
  // ---------------------------------------------------------------------

  /** The elements of `s` that satisfy `p`, in their original order. */
  function Filter<T(!new)>(s: seq<T>, p: T -> bool): (r: seq<T>)
    ensures |r| <= |s|
    ensures forall x :: x in r <==> x in s && p(x)
    ensures forall i :: 0 <= i < |r| ==> p(r[i])
  {
    if |s| == 0 then []
    else
      var front := Filter(s[..|s| - 1], p);
      var last := s[|s| - 1];
      assert s == s[..|s| - 1] + [last];
      if p(last) then front + [last] else front
  }

  /** Filtering a table that grew by one row. */
  lemma FilterSnoc<T(!new)>(s: seq<T>, x: T, p: T -> bool)
    ensures Filter(s + [x], p) == Filter(s, p) + (if p(x) then [x] else [])
  {
    assert (s + [x])[..|s + [x]| - 1] == s;
  }

  /** Filtering keeps every occurrence of a selected element and drops every
      occurrence of the others, so no row is lost or repeated. */
  lemma {:induction false} FilterCounts<T(!new)>(s: seq<T>, p: T -> bool)
    ensures forall x :: multiset(Filter(s, p))[x] == if p(x) then multiset(s)[x] else 0
  {
    if |s| > 0 {
      var front := s[..|s| - 1];
      var last := s[|s| - 1];
      assert s == front + [last];
      FilterCounts(front, p);
      FilterSnoc(front, last, p);
    }
  }

  // ---------------------------------------------------------------------
  // Mapping
  // ---------------------------------------------------------------------

  function Map<T, U>(s: seq<T>, f: T -> U): (r: seq<U>)
    ensures |r| == |s|
    ensures forall i :: 0 <= i < |s| ==> r[i] == f(s[i])
  {
    seq(|s|, i requires 0 <= i < |s| => f(s[i]))
  }

  /** Mapping then filtering on the image equals filtering then mapping,
      when the two predicates agree through `f`. */
  lemma {:induction false} MapFilterCommute<T(!new), U(!new)>(s: seq<T>, f: T -> U, p: T -> bool, q: U -> bool)
    requires forall i :: 0 <= i < |s| ==> p(s[i]) == q(f(s[i]))
    ensures Map(Filter(s, p), f) == Filter(Map(s, f), q)
  {
    if |s| > 0 {
      var s' := s[..|s| - 1];
      var x := s[|s| - 1];
      MapFilterCommute(s', f, p, q);
      assert s == s' + [x];
      MapSnoc(s', x, f);
      FilterSnoc(s', x, p);
      FilterSnoc(Map(s', f), f(x), q);
      if p(x) {
        MapSnoc(Filter(s', p), x, f);
      }
    }
  }

  // ---------------------------------------------------------------------
  // First match (Convex's `.first()`, JavaScript's Array.find)
  // ---------------------------------------------------------------------

  /** Index of the first element satisfying `p`, if any. */
  function FindFirst<T>(s: seq<T>, p: T -> bool): (r: Option<nat>)
    ensures r.Some? ==> r.value < |s| && p(s[r.value])
    ensures r.Some? ==> forall j :: 0 <= j < r.value ==> !p(s[j])
    ensures r.None? <==> forall j :: 0 <= j < |s| ==> !p(s[j])
  {
    if |s| == 0 then None
    else if p(s[0]) then Some(0)
    else
      match FindFirst(s[1..], p)
      case None => None
      case Some(k) => Some(k + 1)
  }

  /** Searching the image of `s` under `f` finds the same position as
      searching `s`, when the two predicates agree through `f`. */
  lemma {:induction false} FindFirstMap<T, U>(s: seq<T>, f: T -> U, p: T -> bool, q: U -> bool)
    requires forall i :: 0 <= i < |s| ==> p(s[i]) == q(f(s[i]))
    ensures FindFirst(Map(s, f), q) == FindFirst(s, p)
  {
    if |s| > 0 && !p(s[0]) {
      assert Map(s, f)[1..] == Map(s[1..], f);
      FindFirstMap(s[1..], f, p, q);
    }
  }

  /** The first element satisfying `p`, if any. */
  function Find<T>(s: seq<T>, p: T -> bool): (r: Option<T>)
    ensures r.Some? ==> r.value in s && p(r.value)
    ensures r.None? <==> forall j :: 0 <= j < |s| ==> !p(s[j])
  {
    match FindFirst(s, p)
    case None => None
    case Some(k) => Some(s[k])
  }

  // ---------------------------------------------------------------------
  // Reversal, truncation, de-duplication
  // ---------------------------------------------------------------------

  function Reverse<T>(s: seq<T>): (r: seq<T>)
    ensures |r| == |s|
    ensures forall i :: 0 <= i < |s| ==> r[i] == s[|s| - 1 - i]
  {
    seq(|s|, i requires 0 <= i < |s| => s[|s| - 1 - i])
  }

  /** Reversing a non-empty sequence puts its head last. */
  lemma ReverseCons<T>(s: seq<T>)
    requires |s| > 0
    ensures Reverse(s) == Reverse(s[1..]) + [s[0]]
  {
    var r := Reverse(s[1..]) + [s[0]];
    forall i | 0 <= i < |s|
      ensures r[i] == Reverse(s)[i]
    {
      if i < |s| - 1 {
        assert r[i] == s[1..][|s| - 2 - i];
      }
    }
  }

  lemma MapReverse<T, U>(s: seq<T>, f: T -> U)
    ensures Map(Reverse(s), f) == Reverse(Map(s, f))
  {
  }

  lemma MapTake<T, U>(s: seq<T>, f: T -> U, n: nat)
    ensures Map(Take(s, n), f) == Take(Map(s, f), n)
  {
  }

  lemma MapSnoc<T, U>(s: seq<T>, x: T, f: T -> U)
    ensures Map(s + [x], f) == Map(s, f) + [f(x)]
  {
  }

  /** The first `n` elements, or all of them when there are fewer. */
  function Take<T>(s: seq<T>, n: nat): (r: seq<T>)
    ensures |r| == Min(n, |s|)
    ensures forall i :: 0 <= i < |r| ==> r[i] == s[i]
  {
    if n <= |s| then s[..n] else s
  }

  predicate NoDuplicates<T(==)>(s: seq<T>) {
    forall i, j :: 0 <= i < j < |s| ==> s[i] != s[j]
  }

  /** Distinct elements of `s` in order of first occurrence: the iteration
      order of JavaScript's `Array.from(new Set(s))`. */
  function Distinct<T(==,!new)>(s: seq<T>): (r: seq<T>)
    ensures NoDuplicates(r)
    ensures forall x :: x in r <==> x in s
    ensures |r| <= |s|
  {
    if |s| == 0 then []
    else
      var front := Distinct(s[..|s| - 1]);
      var last := s[|s| - 1];
      assert s == s[..|s| - 1] + [last];
      if last in front then front else front + [last]
  }

  /** Position of the first occurrence of `x` in `s`. */
  function IndexOf<T(==)>(s: seq<T>, x: T): (k: nat)
    requires x in s
    ensures k < |s| && s[k] == x
    ensures forall j :: 0 <= j < k ==> s[j] != x
  {
    if s[0] == x then 0 else 1 + IndexOf(s[1..], x)
  }

  lemma IndexOfPrefix<T>(s: seq<T>, x: T, y: T)
    requires x in s
    ensures IndexOf(s + [y], x) == IndexOf(s, x)
  {
    var k := IndexOf(s, x);
    var k' := IndexOf(s + [y], x);
    assert (s + [y])[k] == x;
    assert s[k'] == x by {
      if k' >= |s| {
        assert false;
      }
    }
  }

  /** `Distinct` lists its elements in the order in which they first occur. */
  lemma {:induction false} DistinctKeepsFirstOccurrenceOrder<T(!new)>(s: seq<T>)
    ensures forall i, j :: 0 <= i < j < |Distinct(s)| ==>
              IndexOf(s, Distinct(s)[i]) < IndexOf(s, Distinct(s)[j])
  {
    if |s| > 0 {
      var s' := s[..|s| - 1];
      var last := s[|s| - 1];
      assert s == s' + [last];
      DistinctKeepsFirstOccurrenceOrder(s');
      var d' := Distinct(s');
      var d := Distinct(s);
      forall x | x in d'
        ensures IndexOf(s, x) == IndexOf(s', x)
      {
        IndexOfPrefix(s', x, last);
      }
      if last !in d' {
        assert d == d' + [last];
        assert last !in s';
        assert IndexOf(s, last) == |s'| by {
          var k := IndexOf(s, last);
          if k < |s'| {
            assert false;
          }
        }
        forall i, j | 0 <= i < j < |d|
          ensures IndexOf(s, d[i]) < IndexOf(s, d[j])
        {
          assert d[i] in d';
          if j < |d'| {
            assert d[j] == d'[j];
          } else {
            assert IndexOf(s, d[i]) == IndexOf(s', d[i]) < |s'|;
          }
        }
      }
    }
  }

  // ---------------------------------------------------------------------
  // Text
  // ---------------------------------------------------------------------

  /** ASCII upper-casing of one character. */
  function UpperChar(c: char): char {
    if 'a' <= c <= 'z' then (c as int - 'a' as int + 'A' as int) as char else c
  }

  function LowerChar(c: char): char {
    if 'A' <= c <= 'Z' then (c as int - 'A' as int + 'a' as int) as char else c
  }

  /** JavaScript's `toUpperCase`, restricted to ASCII letters. */
  function Upper(s: string): (r: string)
    ensures |r| == |s|
    ensures forall i :: 0 <= i < |s| ==> r[i] == UpperChar(s[i])
  {
    seq(|s|, i requires 0 <= i < |s| => UpperChar(s[i]))
  }

  function Lower(s: string): (r: string)
    ensures |r| == |s|
    ensures forall i :: 0 <= i < |s| ==> r[i] == LowerChar(s[i])
  {
    seq(|s|, i requires 0 <= i < |s| => LowerChar(s[i]))
  }

  /** Upper-casing ignores the case the text was typed in. */
  lemma UpperOfLower(s: string)
    ensures Upper(Lower(s)) == Upper(s)
  {
  }

  predicate IsDigit(c: char) {
    '0' <= c <= '9'
  }

  /** Decimal rendering of a number (template-literal interpolation). */
  function DecimalString(n: nat): (r: string)
    ensures |r| >= 1
    ensures forall i :: 0 <= i < |r| ==> IsDigit(r[i])
  {
    var digit := ('0' as int + n % 10) as char;
    if n < 10 then [digit] else DecimalString(n / 10) + [digit]
  }

  function ParseDecimal(s: string): nat
    requires forall i :: 0 <= i < |s| ==> IsDigit(s[i])
  {
    if |s| == 0 then 0
    else
      assert IsDigit(s[|s| - 1]);
      ParseDecimal(s[..|s| - 1]) * 10 + (s[|s| - 1] as int - '0' as int)
  }

  /** Rendering a number and reading it back gives the number. */
  lemma {:induction false} ParseDecimalString(n: nat)
    ensures ParseDecimal(DecimalString(n)) == n
  {
    var r := DecimalString(n);
    if n >= 10 {
      ParseDecimalString(n / 10);
      assert r[..|r| - 1] == DecimalString(n / 10);
    }
  }

  /** Distinct numbers render as distinct strings, also behind a common prefix. */
  lemma PrefixedDecimalInjective(prefix: string, m: nat, n: nat)
    requires prefix + DecimalString(m) == prefix + DecimalString(n)
    ensures m == n
  {
    var a := prefix + DecimalString(m);
    assert a[|prefix|..] == DecimalString(m);
    assert (prefix + DecimalString(n))[|prefix|..] == DecimalString(n);
    ParseDecimalString(m);
    ParseDecimalString(n);
  }
}
