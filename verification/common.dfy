/**
 * Small building blocks shared by every component: the error-carrying result
 * type used for the services' `Result<_, Box<dyn Error>>` returns, and the
 * string operations the services use (prefix tests, `split` on one character,
 * `join`, decimal printing).
 */
module Common {

  datatype Option<+T> = None | Some(value: T)

  /** A service step either yields a value or fails with the reason string the
      request boundary reports back as `{status: "error", reason}`. */
  datatype Result<+T> = Ok(value: T) | Err(reason: string)

  /** The message of `SystemTimeError`, which `SystemTime::duration_since`
      returns for a time later than now. */
  const TimeLaterThanNow := "second time provided was later than self"

  predicate StartsWith(s: string, prefix: string) {
    |prefix| <= |s| && s[..|prefix|] == prefix
  }

  predicate Excludes(s: string, c: char) {
    forall i :: 0 <= i < |s| ==> s[i] != c
  }

  /** `s.split(c)` (Rust `str::split` / JavaScript `String.prototype.split`
      with a one-character separator): the maximal separator-free pieces, one
      more piece than there are separators. */
  function Split(s: string, c: char): (parts: seq<string>)
    ensures |parts| >= 1
    decreases |s|
  {
    if s == [] then [""]
    else if s[0] == c then [""] + Split(s[1..], c)
    else
      var rest := Split(s[1..], c);
      [[s[0]] + rest[0]] + rest[1..]
  }

  /** `parts.join(c)`. */
  function Join(parts: seq<string>, c: char): string
    decreases |parts|
  {
    if |parts| == 0 then ""
    else if |parts| == 1 then parts[0]
    else parts[0] + [c] + Join(parts[1..], c)
  }

  lemma {:induction false} SplitSingle(a: string, c: char)
    requires Excludes(a, c)
    ensures Split(a, c) == [a]
    decreases |a|
  {
    if a != [] {
      SplitSingle(a[1..], c);
      assert [a[0]] + a[1..] == a;
    }
  }

  lemma {:induction false} SplitCons(a: string, c: char, b: string)
    requires Excludes(a, c)
    ensures Split(a + [c] + b, c) == [a] + Split(b, c)
    decreases |a|
  {
    var s := a + [c] + b;
    if a == [] {
      assert s[1..] == b;
    } else {
      assert s[1..] == a[1..] + [c] + b;
      SplitCons(a[1..], c, b);
      assert [a[0]] + a[1..] == a;
    }
  }

  /** Splitting undoes joining, provided no piece contains the separator. */
  lemma {:induction false} SplitJoin(parts: seq<string>, c: char)
    requires |parts| >= 1
    requires forall i :: 0 <= i < |parts| ==> Excludes(parts[i], c)
    ensures Split(Join(parts, c), c) == parts
    decreases |parts|
  {
    if |parts| == 1 {
      SplitSingle(parts[0], c);
    } else {
      SplitJoin(parts[1..], c);
      SplitCons(parts[0], c, Join(parts[1..], c));
      assert [parts[0]] + parts[1..] == parts;
    }
  }

  /** Two strings glued around a separator that neither left part contains
      can only be split one way. */
  lemma {:induction false} SeparatedUnique(a: string, x: string, b: string, y: string, c: char)
    requires Excludes(a, c) && Excludes(b, c)
    requires a + [c] + x == b + [c] + y
    ensures a == b && x == y
  {
    SplitCons(a, c, x);
    SplitCons(b, c, y);
    var pa := Split(a + [c] + x, c);
    assert pa[0] == a && pa[0] == b;
    assert (a + [c] + x)[|a| + 1..] == x;
    assert (b + [c] + y)[|b| + 1..] == y;
  }

  /** A string cut at two positions is the three pieces and the two
      characters between them. */
  lemma CutTwice(s: string, i: nat, j: nat)
    requires i < j < |s|
    ensures s == s[..i] + [s[i]] + s[i + 1..j] + [s[j]] + s[j + 1..]
  {
  }

  function DecimalDigit(d: nat): char
    requires d < 10
  {
    (48 + d) as char
  }

  predicate IsDecimalDigit(c: char) {
    '0' <= c <= '9'
  }

  /** Rust's `format!("{}", n)` of a non-negative integer. */
  function Decimal(n: nat): (s: string)
    ensures |s| >= 1
    ensures forall i :: 0 <= i < |s| ==> IsDecimalDigit(s[i])
    ensures ParseDecimal(s) == n
  {
    if n < 10 then [DecimalDigit(n)] else Decimal(n / 10) + [DecimalDigit(n % 10)]
  }

  /** The value of a string of decimal digits, the reading `Decimal`
      inverts. */
  function ParseDecimal(s: string): nat
  {
    if s == [] then 0
    else
      var c := s[|s| - 1];
      ParseDecimal(s[..|s| - 1]) * 10 + (if IsDecimalDigit(c) then (c as int - 48) else 0)
  }

  lemma DecimalNoDash(n: nat)
    ensures Excludes(Decimal(n), '-')
  {
  }

  lemma DecimalInjective(a: nat, b: nat)
    requires Decimal(a) == Decimal(b)
    ensures a == b
  {
  }
}
