/** Small value-level helpers shared by the server and client models:
    optional values, order-preserving filters, the string predicates the
    JavaScript and PHP code rely on, and half-up decimal rounding. */
module Common {

  datatype Option<T> = None | Some(value: T) {
    function GetOr(default: T): T {
      if Some? then value else default
    }
  }

  // ---------------------------------------------------------------------
  // Order-preserving filtering (Array.filter, array_filter + array_values,
  // and every SQL WHERE over a table kept in insertion order)
  // ---------------------------------------------------------------------

  /** Keeps the elements satisfying p, in their original order. */
  function Filter<T>(s: seq<T>, p: T -> bool): (r: seq<T>)
    ensures |r| <= |s|
    ensures forall i :: 0 <= i < |r| ==> p(r[i])
    decreases |s|
  {
    if |s| == 0 then []
    else Filter(s[..|s| - 1], p) + (if p(s[|s| - 1]) then [s[|s| - 1]] else [])
  }

  /** a can be obtained from b by deleting elements (order kept). */
  ghost predicate IsSubsequence<T>(a: seq<T>, b: seq<T>)
    decreases |b|
  {
    if |a| == 0 then true
    else if |b| == 0 then false
    else if a[|a| - 1] == b[|b| - 1] then IsSubsequence(a[..|a| - 1], b[..|b| - 1])
    else IsSubsequence(a, b[..|b| - 1])
  }

  lemma {:induction false} FilterMembership<T>(s: seq<T>, p: T -> bool, x: T)
    ensures x in Filter(s, p) <==> x in s && p(x)
    decreases |s|
  {
    if |s| > 0 {
      var init := s[..|s| - 1];
      assert s == init + [s[|s| - 1]];
      FilterMembership(init, p, x);
    }
  }

  lemma {:induction false} FilterIsSubsequence<T>(s: seq<T>, p: T -> bool)
    ensures IsSubsequence(Filter(s, p), s)
    decreases |s|
  {
    if |s| > 0 {
      var init := s[..|s| - 1];
      FilterIsSubsequence(init, p);
      var f := Filter(init, p);
      if p(s[|s| - 1]) {
        var r := f + [s[|s| - 1]];
        assert r[..|r| - 1] == f;
      } else {
        assert Filter(s, p) == f;
        SubsequenceOfPrefix(f, init, s[|s| - 1]);
        assert init + [s[|s| - 1]] == s;
      }
    }
  }

  /** Every element of a subsequence is an element of the whole. */
  lemma {:induction false} SubsequenceMembers<T>(a: seq<T>, b: seq<T>)
    requires IsSubsequence(a, b)
    ensures forall x :: x in a ==> x in b
    decreases |b|
  {
    if |a| > 0 && |b| > 0 {
      var b0 := b[..|b| - 1];
      if a[|a| - 1] == b[|b| - 1] {
        SubsequenceMembers(a[..|a| - 1], b0);
        assert a == a[..|a| - 1] + [a[|a| - 1]];
      } else {
        SubsequenceMembers(a, b0);
      }
    }
  }

  /** Appending to the longer sequence keeps a subsequence a subsequence. */
  lemma {:induction false} SubsequenceOfPrefix<T>(a: seq<T>, b: seq<T>, x: T)
    requires IsSubsequence(a, b)
    ensures IsSubsequence(a, b + [x])
    decreases |b|, 1
  {
    var b' := b + [x];
    assert b'[..|b'| - 1] == b;
    if |a| > 0 && a[|a| - 1] == x {
      // matched at the new end: a[..|a|-1] is a subsequence of b as well
      SubsequenceDropLast(a, b);
    }
  }

  lemma {:induction false} SubsequenceDropLast<T>(a: seq<T>, b: seq<T>)
    requires |a| > 0 && IsSubsequence(a, b)
    ensures IsSubsequence(a[..|a| - 1], b)
    decreases |b|, 0
  {
    var b0 := b[..|b| - 1];
    if a[|a| - 1] == b[|b| - 1] {
      SubsequenceOfPrefix(a[..|a| - 1], b0, b[|b| - 1]);
      assert b0 + [b[|b| - 1]] == b;
    } else {
      SubsequenceDropLast(a, b0);
      SubsequenceOfPrefix(a[..|a| - 1], b0, b[|b| - 1]);
      assert b0 + [b[|b| - 1]] == b;
    }
  }

  /** Filtering with a predicate that holds everywhere keeps the whole list. */
  lemma {:induction false} FilterAll<T>(s: seq<T>, p: T -> bool)
    requires forall x :: x in s ==> p(x)
    ensures Filter(s, p) == s
    decreases |s|
  {
    if |s| > 0 {
      FilterAll(s[..|s| - 1], p);
      assert s[..|s| - 1] + [s[|s| - 1]] == s;
    }
  }

  /** Filtering a list with one more element at the end. */
  lemma FilterSnoc<T>(s: seq<T>, x: T, p: T -> bool)
    ensures Filter(s + [x], p) == Filter(s, p) + (if p(x) then [x] else [])
  {
    assert (s + [x])[..|s|] == s;
  }

  /** Filtering distributes over concatenation. */
  lemma {:induction false} FilterAppend<T>(a: seq<T>, b: seq<T>, p: T -> bool)
    ensures Filter(a + b, p) == Filter(a, p) + Filter(b, p)
    decreases |b|
  {
    if |b| > 0 {
      var init := b[..|b| - 1];
      FilterAppend(a, init, p);
      assert a + b == (a + init) + [b[|b| - 1]];
      FilterSnoc(a + init, b[|b| - 1], p);
      FilterSnoc(init, b[|b| - 1], p);
      assert init + [b[|b| - 1]] == b;
    } else {
      assert a + b == a;
    }
  }

  /** Filtering with a weaker predicate never keeps fewer elements. */
  lemma {:induction false} FilterMonotone<T>(s: seq<T>, p: T -> bool, q: T -> bool)
    requires forall x :: p(x) ==> q(x)
    ensures |Filter(s, p)| <= |Filter(s, q)|
    decreases |s|
  {
    if |s| > 0 {
      FilterMonotone(s[..|s| - 1], p, q);
    }
  }

  /** Nothing is kept when no element satisfies p. */
  lemma FilterNone<T>(s: seq<T>, p: T -> bool)
    requires forall x :: x in s ==> !p(x)
    ensures Filter(s, p) == []
  {
    if Filter(s, p) != [] {
      FilterMembership(s, p, Filter(s, p)[0]);
    }
  }

  /** A filter drops nothing exactly when every element satisfies p. */
  lemma {:induction false} FilterKeepsAll<T>(s: seq<T>, p: T -> bool)
    ensures |Filter(s, p)| == |s| <==> forall x :: x in s ==> p(x)
    decreases |s|
  {
    if |s| > 0 {
      var init := s[..|s| - 1];
      FilterKeepsAll(init, p);
      assert s == init + [s[|s| - 1]];
      assert forall x :: x in s <==> x in init || x == s[|s| - 1];
    }
  }

  /** The distinct elements of s, in order of first appearance. */
  function Dedup<T(==,!new)>(s: seq<T>): (r: seq<T>)
    ensures forall x :: x in r <==> x in s
    ensures forall i, j :: 0 <= i < j < |r| ==> r[i] != r[j]
    decreases |s|
  {
    if |s| == 0 then []
    else
      var d := Dedup(s[..|s| - 1]);
      assert s == s[..|s| - 1] + [s[|s| - 1]];
      if s[|s| - 1] in d then d else d + [s[|s| - 1]]
  }

  // ---------------------------------------------------------------------
  // Ordering (SQL ORDER BY, Array.prototype.sort)
  // ---------------------------------------------------------------------

  /** le is total and transitive: a sort key comparison. */
  ghost predicate TotalPreorder<T(!new)>(le: (T, T) -> bool) {
    (forall a, b :: le(a, b) || le(b, a))
    && (forall a, b, c :: le(a, b) && le(b, c) ==> le(a, c))
  }

  predicate SortedBy<T>(s: seq<T>, le: (T, T) -> bool) {
    forall i, j :: 0 <= i < j < |s| ==> le(s[i], s[j])
  }

  /** Inserts x before the first element it does not follow. */
  function InsertBy<T>(x: T, s: seq<T>, le: (T, T) -> bool): (r: seq<T>)
    ensures |r| == |s| + 1
    ensures multiset(r) == multiset(s) + multiset{x}
  {
    if |s| == 0 then [x]
    else if le(x, s[0]) then [x] + s
    else
      assert s == [s[0]] + s[1..];
      [s[0]] + InsertBy(x, s[1..], le)
  }

  /** Insertion sort: a permutation of s (stable among equal keys). */
  function SortBy<T>(s: seq<T>, le: (T, T) -> bool): (r: seq<T>)
    ensures |r| == |s|
    ensures multiset(r) == multiset(s)
  {
    if |s| == 0 then []
    else
      assert s == [s[0]] + s[1..];
      InsertBy(s[0], SortBy(s[1..], le), le)
  }

  lemma {:induction false} InsertSorted<T(!new)>(x: T, s: seq<T>, le: (T, T) -> bool)
    requires TotalPreorder(le) && SortedBy(s, le)
    ensures SortedBy(InsertBy(x, s, le), le)
    decreases |s|
  {
    if |s| > 0 && !le(x, s[0]) {
      InsertSorted(x, s[1..], le);
      var r := InsertBy(x, s, le);
      var t := InsertBy(x, s[1..], le);
      assert r == [s[0]] + t;
      forall j | 0 < j < |r|
        ensures le(r[0], r[j])
      {
        assert r[j] in multiset(t);
        assert r[j] in multiset(s[1..]) + multiset{x};
        if r[j] != x {
          var k :| 0 <= k < |s[1..]| && s[1..][k] == r[j];
          assert s[k + 1] == r[j];
        }
      }
    }
  }

  lemma {:induction false} SortSorted<T(!new)>(s: seq<T>, le: (T, T) -> bool)
    requires TotalPreorder(le)
    ensures SortedBy(SortBy(s, le), le)
    decreases |s|
  {
    if |s| > 0 {
      SortSorted(s[1..], le);
      InsertSorted(s[0], SortBy(s[1..], le), le);
    }
  }

  // ---------------------------------------------------------------------
  // Strings
  // ---------------------------------------------------------------------

  /** Code-point lexicographic order. */
  predicate StrLe(a: string, b: string)
    decreases |a|
  {
    |a| == 0 || (|b| > 0 && (a[0] < b[0] || (a[0] == b[0] && StrLe(a[1..], b[1..]))))
  }

  lemma StrLeTotal(a: string, b: string)
    ensures StrLe(a, b) || StrLe(b, a)
    decreases |a|
  {
    if |a| > 0 && |b| > 0 && a[0] == b[0] {
      StrLeTotal(a[1..], b[1..]);
    }
  }

  lemma StrLeTransitive(a: string, b: string, c: string)
    requires StrLe(a, b) && StrLe(b, c)
    ensures StrLe(a, c)
    decreases |a|
  {
    if |a| > 0 && |b| > 0 && |c| > 0 && a[0] == b[0] && b[0] == c[0] {
      StrLeTransitive(a[1..], b[1..], c[1..]);
    }
  }

  predicate StartsWith(s: string, prefix: string) {
    |prefix| <= |s| && s[..|prefix|] == prefix
  }

  /** JavaScript String.prototype.includes / a RegExp literal test /
      PHP substring search: t occurs somewhere in s. */
  predicate Contains(s: string, t: string)
    decreases |s|
  {
    StartsWith(s, t) || (|s| > 0 && Contains(s[1..], t))
  }

  lemma ContainsEmpty(s: string)
    ensures Contains(s, "")
  {
    assert StartsWith(s, "");
  }

  /** Contains agrees with "occurs at some position". */
  lemma {:induction false} ContainsAt(s: string, t: string, k: nat)
    requires k + |t| <= |s| && s[k..k + |t|] == t
    ensures Contains(s, t)
    decreases k
  {
    if k > 0 {
      assert s[1..][k - 1..k - 1 + |t|] == s[k..k + |t|];
      ContainsAt(s[1..], t, k - 1);
    }
  }

  /** Lower-casing of one character (ASCII letters only). */
  function LowerChar(c: char): char {
    if 'A' <= c <= 'Z' then (c as int + 32) as char else c
  }

  function Lower(s: string): (r: string)
    ensures |r| == |s|
  {
    seq(|s|, i requires 0 <= i < |s| => LowerChar(s[i]))
  }

  lemma LowerIdempotent(s: string)
    ensures Lower(Lower(s)) == Lower(s)
  {
  }

  /** The characters PHP's trim() removes: space, tab, LF, CR, NUL, vertical tab. */
  predicate IsPhpSpace(c: char) {
    c == ' ' || c == '\t' || c == '\n' || c == '\r' || c as int == 0 || c as int == 11
  }

  /** The characters JavaScript's String.prototype.trim() removes
      (WhiteSpace and LineTerminator of ECMA-262). */
  predicate IsJsSpace(c: char) {
    var n := c as int;
    n == 0x09 || n == 0x0A || n == 0x0B || n == 0x0C || n == 0x0D || n == 0x20
    || n == 0xA0 || n == 0x1680 || (0x2000 <= n <= 0x200A) || n == 0x2028 || n == 0x2029
    || n == 0x202F || n == 0x205F || n == 0x3000 || n == 0xFEFF
  }

  /** Number of leading characters satisfying ws. */
  function LeadingRun(s: string, ws: char -> bool): (k: nat)
    ensures k <= |s|
    ensures forall i :: 0 <= i < k ==> ws(s[i])
    ensures k < |s| ==> !ws(s[k])
    decreases |s|
  {
    if |s| == 0 || !ws(s[0]) then 0 else 1 + LeadingRun(s[1..], ws)
  }

  /** Length of the prefix left once trailing characters satisfying ws are cut. */
  function KeptPrefix(s: string, ws: char -> bool): (k: nat)
    ensures k <= |s|
    ensures forall i :: k <= i < |s| ==> ws(s[i])
    ensures k > 0 ==> !ws(s[k - 1])
    decreases |s|
  {
    if |s| == 0 || !ws(s[|s| - 1]) then |s| else KeptPrefix(s[..|s| - 1], ws)
  }

  /** Removes leading and trailing characters satisfying ws. The result is a
      contiguous slice of s whose ends are not ws, and everything cut is ws. */
  function TrimBy(s: string, ws: char -> bool): (r: string)
    ensures exists a, b :: 0 <= a <= b <= |s| && r == s[a..b]
              && (forall i :: 0 <= i < a ==> ws(s[i]))
              && (forall i :: b <= i < |s| ==> ws(s[i]))
    ensures |r| > 0 ==> !ws(r[0]) && !ws(r[|r| - 1])
  {
    var a := LeadingRun(s, ws);
    var k := KeptPrefix(s[a..], ws);
    TrimBounds(s, ws, a, k);
    s[a..a + k]
  }

  /** The bounds TrimBy cuts at, from what LeadingRun and KeptPrefix
      promise: everything before a and from a + k on is ws, and the
      characters at both ends of what is kept are not. */
  lemma TrimBounds(s: string, ws: char -> bool, a: nat, k: nat)
    requires a <= |s| && k <= |s| - a
    requires a < |s| ==> !ws(s[a])
    requires forall i :: k <= i < |s| - a ==> ws(s[a..][i])
    requires k > 0 ==> !ws(s[a..][k - 1])
    ensures forall i :: a + k <= i < |s| ==> ws(s[i])
    ensures k > 0 ==> !ws(s[a]) && !ws(s[a + k - 1])
  {
    var t := s[a..];
    forall i | a + k <= i < |s|
      ensures ws(s[i])
    {
      assert s[i] == t[i - a];
    }
    if k > 0 {
      assert s[a + k - 1] == t[k - 1];
    }
  }

  function PhpTrim(s: string): string { TrimBy(s, IsPhpSpace) }

  function JsTrim(s: string): string { TrimBy(s, IsJsSpace) }

  /** PHP's empty() on a string: true for "" and also for "0". */
  predicate PhpEmpty(s: string) {
    s == "" || s == "0"
  }

  /** JavaScript's `a || b` on an optional string: an absent or empty string
      is falsy and yields the fallback. */
  function OrElse(s: Option<string>, fallback: string): (r: string)
    ensures r == fallback || (s.Some? && s.value != "" && r == s.value)
    ensures s.Some? && s.value != "" ==> r == s.value
  {
    if s.Some? && s.value != "" then s.value else fallback
  }

  // ---------------------------------------------------------------------
  // Lengths: PHP strlen counts UTF-8 bytes, JavaScript .length counts UTF-16 units
  // ---------------------------------------------------------------------

  function Utf8Width(c: char): nat {
    if c as int < 0x80 then 1 else if c as int < 0x800 then 2 else if c as int < 0x10000 then 3 else 4
  }

  function Utf16Width(c: char): nat {
    if c as int < 0x10000 then 1 else 2
  }

  function Utf8Length(s: string): nat
    decreases |s|
  {
    if |s| == 0 then 0 else Utf8Length(s[..|s| - 1]) + Utf8Width(s[|s| - 1])
  }

  function Utf16Length(s: string): nat
    decreases |s|
  {
    if |s| == 0 then 0 else Utf16Length(s[..|s| - 1]) + Utf16Width(s[|s| - 1])
  }

  /** A string is never shorter in UTF-8 bytes than in UTF-16 units, and
      both agree with the character count on ASCII text. */
  lemma {:induction false} Utf16NotLongerThanUtf8(s: string)
    ensures |s| <= Utf16Length(s) <= Utf8Length(s)
    decreases |s|
  {
    if |s| > 0 {
      Utf16NotLongerThanUtf8(s[..|s| - 1]);
    }
  }

  // ---------------------------------------------------------------------
  // Decimal rounding, half away from zero on non-negative reals
  // (MySQL ROUND(x, n), PHP round(x, n), Number.prototype.toFixed(n))
  // ---------------------------------------------------------------------

  /** A real with no fractional part. */
  predicate IsWhole(y: real) {
    y.Floor as real == y
  }

  /** Two-decimal rounding of a non-negative value, ties upward: the result
      is a whole number of hundredths within half a hundredth of x. */
  function Round2(x: real): (r: real)
    requires x >= 0.0
    ensures r >= 0.0
    ensures IsWhole(r * 100.0)
    ensures r * 100.0 - 0.5 <= x * 100.0 < r * 100.0 + 0.5
  {
    (x * 100.0 + 0.5).Floor as real / 100.0
  }

  /** One-decimal rounding of a non-negative value, ties upward. */
  function Round1(x: real): (r: real)
    requires x >= 0.0
    ensures r >= 0.0
    ensures IsWhole(r * 10.0)
    ensures r * 10.0 - 0.5 <= x * 10.0 < r * 10.0 + 0.5
  {
    (x * 10.0 + 0.5).Floor as real / 10.0
  }

  /** Four-decimal rounding of a non-negative value, ties upward: the scale
      MySQL gives the quotient of two integers. */
  function Round4(x: real): (r: real)
    requires x >= 0.0
    ensures r >= 0.0
    ensures IsWhole(r * 10000.0)
    ensures r * 10000.0 - 0.5 <= x * 10000.0 < r * 10000.0 + 0.5
  {
    (x * 10000.0 + 0.5).Floor as real / 10000.0
  }

  /** Rounding to two decimals keeps a percentage in [0, 100]. */
  lemma Round2Bounded(x: real)
    requires 0.0 <= x <= 100.0
    ensures 0.0 <= Round2(x) <= 100.0
  {
    var r := Round2(x);
    var n := (r * 100.0).Floor;
    assert n as real < 10000.5;
    assert n <= 10000;
  }

  /** A value already on the two-decimal grid is left alone. */
  lemma Round2OnGrid(k: nat)
    ensures Round2(k as real / 100.0) == k as real / 100.0
  {
    var x := k as real / 100.0;
    var r := Round2(x);
    var n := (r * 100.0).Floor;
    assert n as real - 0.5 <= k as real < n as real + 0.5;
    assert n == k;
  }
}
