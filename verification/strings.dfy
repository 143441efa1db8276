/** The pieces of Go's `strings`, `sort` and `strconv` packages that the
    monitor relies on. A Dafny `string` stands for a Go string with one
    `char` per byte. */
module Strings {

  // ---------------------------------------------------------------------
  // strings.Split and strings.Join with a one-character separator
  // ---------------------------------------------------------------------

  /** `strings.Split(s, string(sep))`: the pieces between separators, so `n`
      separators give `n + 1` pieces and an empty string gives one empty piece. */
  function Split(s: string, sep: char): (parts: seq<string>)
    ensures |parts| >= 1
    ensures forall i | 0 <= i < |parts| :: sep !in parts[i]
    decreases |s|
  {
    if |s| == 0 then [""]
    else
      var rest := Split(s[1..], sep);
      if s[0] == sep then [""] + rest
      else [[s[0]] + rest[0]] + rest[1..]
  }

  /** `strings.Join(parts, string(sep))`. */
  function JoinWith(parts: seq<string>, sep: char): string
    decreases |parts|
  {
    if |parts| == 0 then ""
    else if |parts| == 1 then parts[0]
    else parts[0] + [sep] + JoinWith(parts[1..], sep)
  }

  /** Splitting at one separator splits the two sides independently. */
  lemma {:induction false} SplitAround(a: string, sep: char, b: string)
    ensures Split(a + [sep] + b, sep) == Split(a, sep) + Split(b, sep)
    decreases |a|
  {
    if |a| == 0 {
      assert a + [sep] + b == [sep] + b;
      assert ([sep] + b)[1..] == b;
    } else {
      var s := a + [sep] + b;
      assert s[1..] == a[1..] + [sep] + b;
      SplitAround(a[1..], sep, b);
    }
  }

  /** A string without the separator is a single piece. */
  lemma {:induction false} SplitWithoutSeparator(s: string, sep: char)
    requires sep !in s
    ensures Split(s, sep) == [s]
    decreases |s|
  {
    if |s| > 0 {
      SplitWithoutSeparator(s[1..], sep);
      assert [s[0]] + s[1..] == s;
    }
  }

  /** Joining and then splitting gives back the pieces, as long as no piece
      contains the separator. */
  lemma {:induction false} SplitJoin(parts: seq<string>, sep: char)
    requires |parts| >= 1
    requires forall i | 0 <= i < |parts| :: sep !in parts[i]
    ensures Split(JoinWith(parts, sep), sep) == parts
    decreases |parts|
  {
    if |parts| == 1 {
      SplitWithoutSeparator(parts[0], sep);
    } else {
      SplitWithoutSeparator(parts[0], sep);
      SplitJoin(parts[1..], sep);
      SplitAround(parts[0], sep, JoinWith(parts[1..], sep));
      assert [parts[0]] + parts[1..] == parts;
    }
  }

  /** Splitting and then joining gives back the string. */
  lemma {:induction false} JoinSplit(s: string, sep: char)
    ensures JoinWith(Split(s, sep), sep) == s
    decreases |s|
  {
    if |s| > 0 {
      JoinSplit(s[1..], sep);
      var rest := Split(s[1..], sep);
      if s[0] == sep {
        assert ([""] + rest)[1..] == rest;
      } else {
        var parts := [[s[0]] + rest[0]] + rest[1..];
        if |rest| == 1 {
          assert parts == [[s[0]] + rest[0]];
        } else {
          assert parts[1..] == rest[1..];
          assert JoinWith(rest, sep) == rest[0] + [sep] + JoinWith(rest[1..], sep);
        }
      }
    }
  }

  // ---------------------------------------------------------------------
  // strings.TrimSpace and strings.HasPrefix
  // ---------------------------------------------------------------------

  /** The ASCII white space that `strings.TrimSpace` removes. */
  predicate IsSpace(c: char) {
    c == ' ' || c == '\t' || c == '\n' || c == '\r' || c == '\U{B}' || c == '\U{C}'
  }

  /** True when `s` contains no white space at all. */
  predicate NoSpace(s: string) {
    forall i | 0 <= i < |s| :: !IsSpace(s[i])
  }

  function TrimLeft(s: string): (r: string)
    ensures |r| <= |s| && r == s[|s| - |r|..]
    ensures |r| > 0 ==> !IsSpace(r[0])
    ensures forall i | 0 <= i < |s| - |r| :: IsSpace(s[i])
    decreases |s|
  {
    if |s| > 0 && IsSpace(s[0]) then TrimLeft(s[1..]) else s
  }

  function TrimRight(s: string): (r: string)
    ensures |r| <= |s| && r == s[..|r|]
    ensures |r| > 0 ==> !IsSpace(r[|r| - 1])
    ensures forall i | |r| <= i < |s| :: IsSpace(s[i])
    decreases |s|
  {
    if |s| > 0 && IsSpace(s[|s| - 1]) then TrimRight(s[..|s| - 1]) else s
  }

  /** `strings.TrimSpace`: `s` without its leading and trailing white space. */
  function TrimSpace(s: string): (r: string)
    ensures |r| <= |s|
    ensures |r| > 0 ==> !IsSpace(r[0]) && !IsSpace(r[|r| - 1])
    ensures NoSpace(s) ==> r == s
    ensures exists k | 0 <= k <= |s| - |r| :: Trimmed(s, k, r)
  {
    var l := TrimLeft(s);
    var r := TrimRight(l);
    var k := |s| - |l|;
    assert Trimmed(s, k, r) by {
      assert r == s[k..k + |r|];
      assert forall i | k + |r| <= i < |s| :: s[i] == l[i - k];
    }
    r
  }

  /** `r` is `s` with white space only before position `k` and after `r`. */
  predicate Trimmed(s: string, k: nat, r: string)
    requires k + |r| <= |s|
  {
    && r == s[k..k + |r|]
    && (forall i | 0 <= i < k :: IsSpace(s[i]))
    && (forall i | k + |r| <= i < |s| :: IsSpace(s[i]))
  }

  /** A line written by `fmt.Fprintln` loses exactly its newline when trimmed,
      as long as it neither starts nor ends with white space. */
  lemma TrimLine(body: string)
    requires |body| > 0 ==> !IsSpace(body[0]) && !IsSpace(body[|body| - 1])
    ensures TrimSpace(body + "\n") == body
  {
    var s := body + "\n";
    if |body| == 0 {
      assert TrimLeft(s) == "";
    } else {
      assert TrimLeft(s) == s;
      assert s[..|s| - 1] == body;
      assert TrimRight(body) == body;
    }
  }

  /** `strings.HasPrefix`. */
  predicate HasPrefix(s: string, prefix: string) {
    |prefix| <= |s| && s[..|prefix|] == prefix
  }

  // ---------------------------------------------------------------------
  // Byte-wise string order and sort.Strings
  // ---------------------------------------------------------------------

  /** Go's `<=` on strings: lexicographic order of the bytes, a proper
      prefix coming first. */
  predicate LessEq(a: string, b: string)
    decreases |a|
  {
    if |a| == 0 then true
    else if |b| == 0 then false
    else if a[0] != b[0] then a[0] < b[0]
    else LessEq(a[1..], b[1..])
  }

  lemma {:induction false} LessEqTotal(a: string, b: string)
    ensures LessEq(a, b) || LessEq(b, a)
    decreases |a|
  {
    if |a| > 0 && |b| > 0 && a[0] == b[0] {
      LessEqTotal(a[1..], b[1..]);
    }
  }

  lemma {:induction false} LessEqTransitive(a: string, b: string, c: string)
    requires LessEq(a, b) && LessEq(b, c)
    ensures LessEq(a, c)
    decreases |a|
  {
    if |a| > 0 && |b| > 0 && |c| > 0 && a[0] == b[0] && b[0] == c[0] {
      LessEqTransitive(a[1..], b[1..], c[1..]);
    }
  }

  lemma {:induction false} LessEqAntisymmetric(a: string, b: string)
    requires LessEq(a, b) && LessEq(b, a)
    ensures a == b
    decreases |a|
  {
    if |a| > 0 {
      LessEqAntisymmetric(a[1..], b[1..]);
      assert a == [a[0]] + a[1..] && b == [b[0]] + b[1..];
    }
  }

  /** Every pair of positions is in order. */
  predicate Sorted(xs: seq<string>) {
    forall i, j | 0 <= i < j < |xs| :: LessEq(xs[i], xs[j])
  }

  /** A lower bound of a sorted sequence may go in front of it. */
  lemma ConsSorted(y: string, ys: seq<string>)
    requires Sorted(ys)
    requires forall k | 0 <= k < |ys| :: LessEq(y, ys[k])
    ensures Sorted([y] + ys)
  {
    var r := [y] + ys;
    forall i, j | 0 <= i < j < |r| ensures LessEq(r[i], r[j]) {
      if i > 0 { assert r[i] == ys[i - 1] && r[j] == ys[j - 1]; }
    }
  }

  /** The head of a sorted sequence is below everything in it and below
      anything not below the head. */
  lemma HeadIsBound(x: string, xs: seq<string>, tail: seq<string>)
    requires Sorted(xs) && |xs| > 0
    requires LessEq(xs[0], x)
    requires multiset(tail) == multiset(xs[1..]) + multiset{x}
    ensures forall k | 0 <= k < |tail| :: LessEq(xs[0], tail[k])
  {
    forall k | 0 <= k < |tail| ensures LessEq(xs[0], tail[k]) {
      assert tail[k] in multiset(tail);
      if tail[k] != x {
        assert tail[k] in multiset(xs[1..]);
        var i :| 0 <= i < |xs[1..]| && xs[1..][i] == tail[k];
        assert xs[i + 1] == tail[k];
      }
    }
  }

  /** Inserts `x` before the first element it does not follow. */
  function Insert(x: string, xs: seq<string>): (r: seq<string>)
    requires Sorted(xs)
    ensures Sorted(r)
    ensures multiset(r) == multiset(xs) + multiset{x}
    decreases |xs|
  {
    if |xs| == 0 then [x]
    else if LessEq(x, xs[0]) then
      assert forall k | 0 <= k < |xs| :: LessEq(x, xs[k]) by {
        forall k | 0 <= k < |xs| ensures LessEq(x, xs[k]) {
          if k > 0 { LessEqTransitive(x, xs[0], xs[k]); }
        }
      }
      ConsSorted(x, xs);
      [x] + xs
    else
      var tail := Insert(x, xs[1..]);
      LessEqTotal(x, xs[0]);
      HeadIsBound(x, xs, tail);
      ConsSorted(xs[0], tail);
      assert xs == [xs[0]] + xs[1..];
      [xs[0]] + tail
  }

  /** `sort.Strings`: an ascending permutation of `xs`. */
  function SortStrings(xs: seq<string>): (r: seq<string>)
    ensures Sorted(r)
    ensures multiset(r) == multiset(xs)
    decreases |xs|
  {
    if |xs| == 0 then []
    else
      assert xs == [xs[0]] + xs[1..];
      Insert(xs[0], SortStrings(xs[1..]))
  }

  /** A sorted sequence without repeats is strictly ascending. */
  lemma SortedDistinctIsStrict(xs: seq<string>, i: int, j: int)
    requires Sorted(xs)
    requires 0 <= i < j < |xs|
    requires xs[i] != xs[j]
    ensures !LessEq(xs[j], xs[i])
  {
    if LessEq(xs[j], xs[i]) {
      LessEqAntisymmetric(xs[i], xs[j]);
    }
  }

  // ---------------------------------------------------------------------
  // strconv.Itoa
  // ---------------------------------------------------------------------

  const Digits := "0123456789"

  /** Decimal digits of a natural number, without leading zeros. */
  function NatDigits(n: nat): (r: string)
    ensures |r| >= 1
    ensures forall i | 0 <= i < |r| :: r[i] in Digits
    decreases n
  {
    if n < 10 then [Digits[n]] else NatDigits(n / 10) + [Digits[n % 10]]
  }

  /** `strconv.Itoa`. */
  function Itoa(n: int): (r: string)
    ensures n >= 0 ==> (forall i | 0 <= i < |r| :: r[i] in Digits) && DigitsValue(r) == n
    ensures n < 0 ==>
      && |r| >= 2 && r[0] == '-'
      && (forall i | 1 <= i < |r| :: r[i] in Digits)
      && DigitsValue(r[1..]) == -n
  {
    if n < 0 then
      NatDigitsValue(-n);
      assert ("-" + NatDigits(-n))[1..] == NatDigits(-n);
      "-" + NatDigits(-n)
    else
      NatDigitsValue(n);
      NatDigits(n)
  }

  /** The number a string of decimal digits denotes. */
  function DigitsValue(s: string): nat
    requires forall i | 0 <= i < |s| :: s[i] in Digits
    decreases |s|
  {
    if |s| == 0 then 0
    else DigitsValue(s[..|s| - 1]) * 10 + (s[|s| - 1] as int - '0' as int)
  }

  /** Reading back the digits that Itoa writes gives the number. */
  lemma {:induction false} NatDigitsValue(n: nat)
    ensures DigitsValue(NatDigits(n)) == n
    decreases n
  {
    if n >= 10 {
      NatDigitsValue(n / 10);
      var s := NatDigits(n);
      assert s[..|s| - 1] == NatDigits(n / 10);
    }
  }
}
