/**
 * The string operations the object model relies on: Python's decimal
 * rendering of an int, the `functor/arity` fluent name, `','.join(...)`
 * and Python's ordering of `str` values (code point by code point).
 */
module Strings {
  import opened Wrappers

  predicate IsDigit(c: char)
  {
    '0' <= c <= '9'
  }

  predicate AllDigits(s: string)
  {
    forall i :: 0 <= i < |s| ==> IsDigit(s[i])
  }

  function DigitChar(d: nat): (c: char)
    requires d < 10
    ensures IsDigit(c)
  {
    (48 + d) as char
  }

  function DigitValue(c: char): nat
    requires IsDigit(c)
  {
    (c as int) - 48
  }

  /** A decimal numeral as Python writes one: at least one digit, and no leading zero unless it is "0". */
  predicate Canonical(s: string)
  {
    1 <= |s| && AllDigits(s) && (s[0] == '0' ==> |s| == 1)
  }

  /** `str(n)` for a non-negative Python int: decimal, no leading zero. */
  function NatToString(n: nat): (s: string)
    ensures Canonical(s)
    ensures s[0] == '0' ==> n == 0
    decreases n
  {
    if n < 10 then [DigitChar(n)] else NatToString(n / 10) + [DigitChar(n % 10)]
  }

  /** Reads a decimal numeral; the inverse of NatToString. */
  function ParseNat(s: string): nat
    requires AllDigits(s)
  {
    if s == [] then 0 else 10 * ParseNat(s[..|s| - 1]) + DigitValue(s[|s| - 1])
  }

  lemma {:induction false} ParseNatToString(n: nat)
    ensures ParseNat(NatToString(n)) == n
    decreases n
  {
    var s := NatToString(n);
    if n >= 10 {
      assert s[..|s| - 1] == NatToString(n / 10);
      ParseNatToString(n / 10);
    } else {
      assert s[..|s| - 1] == [];
    }
  }

  /** A numeral without a leading zero reads as a positive number. */
  lemma {:induction false} ParseNatPositive(s: string)
    requires 1 <= |s| && AllDigits(s) && s[0] != '0'
    ensures ParseNat(s) >= 1
  {
    if |s| > 1 {
      ParseNatPositive(s[..|s| - 1]);
    }
  }

  /** Every canonical numeral is the rendering of the number it reads as. */
  lemma {:induction false} NatToStringParseNat(s: string)
    requires Canonical(s)
    ensures NatToString(ParseNat(s)) == s
  {
    if |s| == 1 {
      assert s[..0] == [];
    } else {
      var init := s[..|s| - 1];
      ParseNatPositive(init);
      NatToStringParseNat(init);
      assert s == init + [s[|s| - 1]];
    }
  }

  /** The canonical `functor/arity` name, as `'{}/{}'.format(functor, arity)` renders it. */
  function FluentName(functor: string, arity: nat): string
  {
    functor + "/" + NatToString(arity)
  }

  /** The position of the last '/' in `s`, if any. */
  function LastSlash(s: string): (r: Option<nat>)
    ensures r.Some? ==> r.value < |s| && s[r.value] == '/'
    ensures r.Some? ==> forall j :: r.value < j < |s| ==> s[j] != '/'
    ensures r.None? ==> forall j :: 0 <= j < |s| ==> s[j] != '/'
  {
    if s == [] then None
    else if s[|s| - 1] == '/' then Some(|s| - 1)
    else LastSlash(s[..|s| - 1])
  }

  /**
   * Splits a fluent name at its last '/' into functor and arity. The functor
   * may itself contain '/', since the arity part never does.
   */
  function ParseFluentName(s: string): Option<(string, nat)>
  {
    match LastSlash(s)
    case None => None
    case Some(i) =>
      if Canonical(s[i + 1..]) then Some((s[..i], ParseNat(s[i + 1..]))) else None
  }

  lemma {:induction false} LastSlashOfFluentName(functor: string, arity: nat)
    ensures LastSlash(FluentName(functor, arity)) == Some(|functor|)
  {
    var s := FluentName(functor, arity);
    var digits := NatToString(arity);
    assert s[|functor|] == '/';
    assert forall j :: |functor| < j < |s| ==> s[j] == digits[j - |functor| - 1];
    LastSlashIsUnique(s, |functor|);
  }

  lemma LastSlashIsUnique(s: string, i: nat)
    requires i < |s| && s[i] == '/'
    requires forall j :: i < j < |s| ==> s[j] != '/'
    ensures LastSlash(s) == Some(i)
  {
  }

  /** Round trip: the functor and the arity can be read back from the name. */
  lemma {:induction false} FluentNameRoundTrip(functor: string, arity: nat)
    ensures ParseFluentName(FluentName(functor, arity)) == Some((functor, arity))
  {
    var s := FluentName(functor, arity);
    LastSlashOfFluentName(functor, arity);
    assert s[..|functor|] == functor;
    assert s[|functor| + 1..] == NatToString(arity);
    ParseNatToString(arity);
  }

  /** A name reads as (functor, arity) exactly when it is the rendering of that pair: nothing else parses. */
  lemma ParseFluentNameExact(s: string, functor: string, arity: nat)
    ensures ParseFluentName(s) == Some((functor, arity)) <==> s == FluentName(functor, arity)
  {
    if ParseFluentName(s) == Some((functor, arity)) {
      var i := LastSlash(s).value;
      NatToStringParseNat(s[i + 1..]);
      assert s == s[..i] + "/" + s[i + 1..];
    }
    if s == FluentName(functor, arity) {
      FluentNameRoundTrip(functor, arity);
    }
  }

  /** Distinct (functor, arity) pairs always get distinct names. */
  lemma FluentNameInjective(f1: string, n1: nat, f2: string, n2: nat)
    requires FluentName(f1, n1) == FluentName(f2, n2)
    ensures f1 == f2 && n1 == n2
  {
    FluentNameRoundTrip(f1, n1);
    FluentNameRoundTrip(f2, n2);
  }

  /** `sep.join(xs)` */
  function Join(xs: seq<string>, sep: string): string
  {
    if xs == [] then "" else if |xs| == 1 then xs[0] else xs[0] + sep + Join(xs[1..], sep)
  }

  /** `s.split(c)`: the pieces between occurrences of `c`; never empty. */
  function Split(s: string, c: char): (parts: seq<string>)
    ensures |parts| >= 1
  {
    if s == [] then [""]
    else
      var rest := Split(s[1..], c);
      if s[0] == c then [""] + rest else [[s[0]] + rest[0]] + rest[1..]
  }

  lemma {:induction false} SplitWithoutSeparator(a: string, c: char)
    requires c !in a
    ensures Split(a, c) == [a]
  {
    if a != [] {
      SplitWithoutSeparator(a[1..], c);
      assert a == [a[0]] + a[1..];
    }
  }

  lemma {:induction false} SplitAtFirstSeparator(a: string, b: string, c: char)
    requires c !in a
    ensures Split(a + [c] + b, c) == [a] + Split(b, c)
  {
    var s := a + [c] + b;
    if a == [] {
      assert s[1..] == b;
    } else {
      assert s[1..] == a[1..] + [c] + b;
      SplitAtFirstSeparator(a[1..], b, c);
      assert a == [a[0]] + a[1..];
    }
  }

  /** Joining pieces that do not contain `c` with `c` and splitting on `c` gives the pieces back. */
  lemma {:induction false} SplitJoin(xs: seq<string>, c: char)
    requires |xs| >= 1
    requires forall i :: 0 <= i < |xs| ==> c !in xs[i]
    ensures Split(Join(xs, [c]), c) == xs
  {
    if |xs| == 1 {
      SplitWithoutSeparator(xs[0], c);
    } else {
      SplitJoin(xs[1..], c);
      SplitAtFirstSeparator(xs[0], Join(xs[1..], [c]), c);
      assert xs == [xs[0]] + xs[1..];
    }
  }

  /** Python's `a < b` on `str`: lexicographic by code point, a proper prefix is smaller. */
  predicate StrLt(a: string, b: string)
  {
    if a == [] then b != []
    else if b == [] then false
    else if a[0] != b[0] then a[0] < b[0]
    else StrLt(a[1..], b[1..])
  }

  lemma {:induction false} StrLtIrreflexive(a: string)
    ensures !StrLt(a, a)
  {
    if a != [] {
      StrLtIrreflexive(a[1..]);
    }
  }

  lemma {:induction false} StrLtTransitive(a: string, b: string, c: string)
    requires StrLt(a, b) && StrLt(b, c)
    ensures StrLt(a, c)
  {
    if a != [] && b != [] && c != [] && a[0] == b[0] && b[0] == c[0] {
      StrLtTransitive(a[1..], b[1..], c[1..]);
    }
  }

  lemma {:induction false} StrLtTotal(a: string, b: string)
    ensures a == b || StrLt(a, b) || StrLt(b, a)
  {
    if a != [] && b != [] && a[0] == b[0] {
      StrLtTotal(a[1..], b[1..]);
      if a[1..] == b[1..] {
        assert a == [a[0]] + a[1..] && b == [b[0]] + b[1..];
      }
    }
  }

  lemma StrLtAsymmetric(a: string, b: string)
    ensures !(StrLt(a, b) && StrLt(b, a))
  {
    if StrLt(a, b) && StrLt(b, a) {
      StrLtTransitive(a, b, a);
      StrLtIrreflexive(a);
    }
  }
}
