/**
 Unique action-name generation of the animation-transfer operator.

 The transferred action is named `Mixamo_<base>`. When that name is already an
 action name, the operator tries `Mixamo_<base>_01`, `Mixamo_<base>_02`, ...
 (the counter formatted as a zero-padded, at-least-two-digit decimal, Python's
 `{count:02d}`) and keeps the first name not yet taken.

 Candidate number 0 is the unsuffixed name; candidate k >= 1 carries the
 suffix `_` followed by the padded k. The key fact is that candidates are
 pairwise distinct, proved through `ParseCandidate`, a left inverse of
 `Candidate`; from it follows that the search over a finite set of names ends.
 */
module ActionNames {
  import opened Wrappers

  const NamePrefix: string := "Mixamo_"

  // ---------------------------------------------------------------------------
  // Decimal digits
  // ---------------------------------------------------------------------------

  predicate IsDigit(c: char) {
    '0' <= c <= '9'
  }

  predicate AllDigits(s: string) {
    forall i :: 0 <= i < |s| ==> IsDigit(s[i])
  }

  function Digit(d: nat): (c: char)
    requires d < 10
    ensures IsDigit(c)
  {
    ('0' as int + d) as char
  }

  function DigitValue(c: char): (d: nat)
    requires IsDigit(c)
    ensures d < 10
  {
    (c as int - '0' as int) as nat
  }

  /** The decimal representation of `n` without leading zeros (`str(n)`). */
  function DecimalString(n: nat): (s: string)
    ensures AllDigits(s)
    ensures 1 <= |s|
    ensures n < 10 <==> |s| == 1
    ensures n < 100 <==> |s| <= 2
    ensures n >= 10 ==> s[0] != '0'
    decreases n
  {
    if n < 10 then [Digit(n)] else DecimalString(n / 10) + [Digit(n % 10)]
  }

  /** The value of a string of decimal digits, leading zeros allowed. */
  function ParseDecimal(s: string): nat
    requires AllDigits(s)
    decreases |s|
  {
    if |s| == 0 then 0 else ParseDecimal(s[..|s| - 1]) * 10 + DigitValue(s[|s| - 1])
  }

  /** Reading back the decimal representation gives the number again. */
  lemma {:induction false} ParseDecimalString(n: nat)
    ensures ParseDecimal(DecimalString(n)) == n
    decreases n
  {
    if n >= 10 {
      var s := DecimalString(n / 10);
      var t := DecimalString(n);
      assert t == s + [Digit(n % 10)];
      assert t[..|t| - 1] == s;
      ParseDecimalString(n / 10);
    }
  }

  /**
   The counter as `{count:02d}` formats it: decimal, left-padded with `0` to
   a width of two; numbers of three or more digits are not truncated.
   */
  function Pad2(n: nat): (s: string)
    ensures AllDigits(s)
    ensures 2 <= |s|
    ensures |s| == 2 <==> n < 100
    ensures n < 10 <==> s[0] == '0'
    ensures ParseDecimal(s) == n
  {
    ParseDecimalString(n);
    if n < 10 then
      var s := "0" + DecimalString(n);
      assert s[..|s| - 1] == "0";
      s
    else DecimalString(n)
  }

  /**
   A digit string without a leading zero (apart from "0" itself) is the
   decimal representation of its value: `DecimalString` is the only
   canonical rendering.
   */
  lemma {:induction false} CanonicalIsDecimalString(t: string)
    requires AllDigits(t) && 1 <= |t|
    requires |t| > 1 ==> t[0] != '0'
    ensures t == DecimalString(ParseDecimal(t))
    decreases |t|
  {
    var u := t[..|t| - 1];
    var c := t[|t| - 1];
    var d := DigitValue(c);
    assert Digit(d) == c;
    if |u| > 0 {
      assert u[0] == t[0];
      CanonicalIsDecimalString(u);
      var m := ParseDecimal(u);
      var n := ParseDecimal(t);
      assert n == m * 10 + d;
      assert n / 10 == m && n % 10 == d;
      assert DecimalString(n) == DecimalString(m) + [Digit(d)];
      assert t == u + [c];
    }
  }

  /**
   `Pad2` is exactly the `{count:02d}` rendering: any digit string at least
   two wide, with a leading zero only when it is two wide, that reads as `n`
   is `Pad2(n)`.
   */
  lemma Pad2Canonical(t: string, n: nat)
    requires AllDigits(t) && 2 <= |t|
    requires |t| > 2 ==> t[0] != '0'
    requires ParseDecimal(t) == n
    ensures t == Pad2(n)
  {
    if t[0] == '0' {
      var u := t[..1];
      assert u == "0";
      assert ParseDecimal(u) == 0;
      assert n == DigitValue(t[1]) && n < 10;
      assert Pad2(n) == "0" + [Digit(n)];
      assert t == u + [t[1]];
    } else {
      CanonicalIsDecimalString(t);
      assert |DecimalString(n)| >= 2;
    }
  }

  // ---------------------------------------------------------------------------
  // Candidate names
  // ---------------------------------------------------------------------------

  /** The unsuffixed name, `Mixamo_<base>`. */
  function BaseName(base: string): string {
    NamePrefix + base
  }

  /** The k-th name the search tries: the base name for k = 0, else `_NN` appended. */
  function Candidate(base: string, k: nat): string {
    if k == 0 then BaseName(base) else BaseName(base) + "_" + Pad2(k)
  }

  /**
   Recovers the candidate number from a name: `Some(k)` exactly when `name`
   is `Candidate(base, k)`, `None` when it is no candidate of `base`.
   */
  function ParseCandidate(base: string, name: string): (r: Option<nat>)
    ensures r.Some? ==> Candidate(base, r.value) == name
  {
    var p := BaseName(base);
    if name == p then Some(0)
    else if |name| > |p| + 1 && name[..|p| + 1] == p + "_" && AllDigits(name[|p| + 1..]) then
      var digits := name[|p| + 1..];
      var k := ParseDecimal(digits);
      if k >= 1 && Pad2(k) == digits then
        assert name == name[..|p| + 1] + digits;
        Some(k)
      else None
    else None
  }

  /** `ParseCandidate` undoes `Candidate`. */
  lemma CandidateRoundTrip(base: string, k: nat)
    ensures ParseCandidate(base, Candidate(base, k)) == Some(k)
  {
  }

  /** Names are a complete characterisation of candidate numbers, both ways. */
  lemma ParseCandidateIff(base: string, name: string, k: nat)
    ensures ParseCandidate(base, name) == Some(k) <==> name == Candidate(base, k)
  {
  }

  /** Distinct counters give distinct candidate names. */
  lemma CandidateInjective(base: string, i: nat, j: nat)
    ensures Candidate(base, i) == Candidate(base, j) ==> i == j
  {
    CandidateRoundTrip(base, i);
    CandidateRoundTrip(base, j);
  }

  // ---------------------------------------------------------------------------
  // The search
  // ---------------------------------------------------------------------------

  /** Candidates 0 .. k-1 are all already action names. */
  predicate AllTakenBelow(base: string, existing: set<string>, k: nat) {
    forall j: nat :: j < k ==> Candidate(base, j) in existing
  }

  /** Candidate k is the first candidate that is not an action name. */
  predicate IsLeastFree(base: string, existing: set<string>, k: nat) {
    Candidate(base, k) !in existing && AllTakenBelow(base, existing, k)
  }

  /**
   A finite set of names holds at most as many candidates as it has elements;
   this bounds the search.
   */
  lemma {:induction false} TakenBound(base: string, existing: set<string>, k: nat)
    requires AllTakenBelow(base, existing, k)
    ensures k <= |existing|
    decreases k
  {
    if k > 0 {
      var last := Candidate(base, k - 1);
      var rest := existing - {last};
      forall j: nat | j < k - 1
        ensures Candidate(base, j) in rest
      {
        CandidateInjective(base, j, k - 1);
      }
      TakenBound(base, rest, k - 1);
    }
  }

  /** There is at most one least free candidate. */
  lemma LeastFreeUnique(base: string, existing: set<string>, i: nat, j: nat)
    requires IsLeastFree(base, existing, i)
    requires IsLeastFree(base, existing, j)
    ensures i == j
  {
  }

  /** The least free candidate number at or after `k`, given all below `k` taken. */
  function FirstFreeFrom(base: string, existing: set<string>, k: nat): (r: nat)
    requires AllTakenBelow(base, existing, k)
    ensures k <= r
    ensures IsLeastFree(base, existing, r)
    decreases |existing| - k
  {
    TakenBound(base, existing, k);
    if Candidate(base, k) !in existing then k
    else
      TakenBound(base, existing, k + 1);
      FirstFreeFrom(base, existing, k + 1)
  }

  /** The number of the least free candidate. */
  function LeastFreeIndex(base: string, existing: set<string>): (k: nat)
    ensures IsLeastFree(base, existing, k)
    ensures k <= |existing|
  {
    var k := FirstFreeFrom(base, existing, 0);
    TakenBound(base, existing, k);
    k
  }

  /** The name the operator gives the transferred action. */
  function UniqueActionName(base: string, existing: set<string>): (name: string)
    ensures name !in existing
    ensures BaseName(base) !in existing ==> name == BaseName(base)
  {
    Candidate(base, LeastFreeIndex(base, existing))
  }

  /**
   The generated name is the least free candidate: whichever counter k makes
   `Candidate(base, k)` free with all earlier candidates taken, the name is
   that candidate, and such a counter exists.
   */
  lemma UniqueActionNameIsLeastFree(base: string, existing: set<string>)
    ensures exists k: nat :: IsLeastFree(base, existing, k)
    ensures forall k: nat :: IsLeastFree(base, existing, k)
              ==> UniqueActionName(base, existing) == Candidate(base, k)
  {
    var k0 := LeastFreeIndex(base, existing);
    assert IsLeastFree(base, existing, k0);
    forall k: nat | IsLeastFree(base, existing, k)
      ensures UniqueActionName(base, existing) == Candidate(base, k)
    {
      LeastFreeUnique(base, existing, k, k0);
    }
  }

  /**
   The name search exactly as the operator performs it: start at the base
   name, then append `_01`, `_02`, ... while the name is taken. `suffix` is
   the value of the counter that produced the result (0 for no suffix).
   */
  method FindUniqueName(base: string, existing: set<string>) returns (name: string, suffix: nat)
    ensures name !in existing
    ensures name == Candidate(base, suffix)
    ensures AllTakenBelow(base, existing, suffix)
    ensures BaseName(base) !in existing ==> suffix == 0 && name == BaseName(base)
    ensures BaseName(base) in existing ==> 1 <= suffix && name == BaseName(base) + "_" + Pad2(suffix)
    ensures name == UniqueActionName(base, existing)
  {
    name := BaseName(base);
    var count: nat := 1;
    while name in existing
      invariant 1 <= count
      invariant name == Candidate(base, count - 1)
      invariant AllTakenBelow(base, existing, count - 1)
      decreases |existing| - (count - 1)
    {
      TakenBound(base, existing, count);
      name := BaseName(base) + "_" + Pad2(count);
      count := count + 1;
    }
    suffix := count - 1;
    LeastFreeUnique(base, existing, suffix, LeastFreeIndex(base, existing));
  }

  /**
   Re-importing a file whose names `Mixamo_foo`, `Mixamo_foo_01`, ...,
   `Mixamo_foo_k` are all taken, with the next one free, yields the next one.
   */
  lemma NextAfterTakenRun(base: string, existing: set<string>, k: nat)
    requires forall j: nat :: j <= k ==> Candidate(base, j) in existing
    requires Candidate(base, k + 1) !in existing
    ensures UniqueActionName(base, existing) == BaseName(base) + "_" + Pad2(k + 1)
  {
  }

  /** Concrete renderings of the counter: padded below 10, widened past 99. */
  lemma Pad2Examples()
    ensures Pad2(1) == "01" && Pad2(9) == "09" && Pad2(10) == "10"
    ensures Pad2(99) == "99" && Pad2(100) == "100"
  {
  }
}
