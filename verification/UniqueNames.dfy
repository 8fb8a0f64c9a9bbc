/** Making a generated workspace name unique against the names in use. */
module UniqueNames {

  const DIGITS := "0123456789"

  function Decimal(n: nat): string {
    if n < 10 then [DIGITS[n]] else Decimal(n / 10) + [DIGITS[n % 10]]
  }

  /** `base-2`, `base-3`, … */
  function Candidate(base: string, n: nat): string {
    base + "-" + Decimal(n)
  }

  lemma DigitsDiffer(a: nat, b: nat)
    requires a < 10 && b < 10 && DIGITS[a] == DIGITS[b]
    ensures a == b
  {
  }

  lemma {:induction false} DecimalInjective(m: nat, n: nat)
    requires Decimal(m) == Decimal(n)
    ensures m == n
  {
    var s, t := Decimal(m), Decimal(n);
    assert s[|s| - 1] == DIGITS[m % 10] && t[|t| - 1] == DIGITS[n % 10];
    DigitsDiffer(m % 10, n % 10);
    DecimalNonEmpty(m / 10);
    DecimalNonEmpty(n / 10);
    if m >= 10 && n >= 10 {
      assert Decimal(m / 10) == s[..|s| - 1];
      assert Decimal(n / 10) == t[..|t| - 1];
      DecimalInjective(m / 10, n / 10);
    }
  }

  /** A numeral read from the left, digit by digit. */
  function Reading(s: string): int {
    if s == "" then 0 else 10 * Reading(s[..|s| - 1]) + (s[|s| - 1] as int - '0' as int)
  }

  /** The numeral of a number reads as that number, most significant digit
      first, and without a leading zero. */
  lemma {:induction false} DecimalReadsBack(n: nat)
    ensures Reading(Decimal(n)) == n
    ensures Decimal(n) != "" && (n > 0 ==> Decimal(n)[0] != '0')
  {
    DigitIs(n % 10);
    if n < 10 {
      assert Decimal(n)[..0] == "";
    } else {
      DecimalReadsBack(n / 10);
      assert Decimal(n)[..|Decimal(n)| - 1] == Decimal(n / 10);
    }
  }

  lemma DigitIs(d: nat)
    requires d < 10
    ensures DIGITS[d] as int == '0' as int + d
  {
  }

  lemma {:induction false} DecimalIsDigits(n: nat)
    ensures forall c :: c in Decimal(n) ==> '0' <= c <= '9'
  {
    DigitIs(n % 10);
    if n >= 10 {
      DecimalIsDigits(n / 10);
    }
  }

  /** A numeral without a leading zero is the one its number has. */
  lemma {:induction false} NumeralIsDecimal(digits: string)
    requires digits != "" && digits[0] != '0' && forall c :: c in digits ==> '0' <= c <= '9'
    ensures Reading(digits) > 0 && Decimal(Reading(digits)) == digits
  {
    hide Decimal, DIGITS;
    var front, last := digits[..|digits| - 1], digits[|digits| - 1];
    assert digits == front + [last];
    assert last in digits && forall c :: c in front ==> c in digits;
    var d := last as int - '0' as int;
    if front != "" {
      assert front[0] == digits[0];
      NumeralIsDecimal(front);
      NextDigit(Reading(front), d, last);
    } else {
      assert digits == [last];
      FirstDigit(d, last);
    }
  }

  lemma NextDigit(n: nat, d: nat, c: char)
    requires n > 0 && d < 10 && c as int == '0' as int + d
    ensures Decimal(10 * n + d) == Decimal(n) + [c]
  {
    DigitIs(d);
    assert (10 * n + d) / 10 == n && (10 * n + d) % 10 == d;
  }

  lemma FirstDigit(d: nat, c: char)
    requires d < 10 && c as int == '0' as int + d
    ensures Decimal(d) == [c]
  {
    DigitIs(d);
  }

  lemma DecimalNonEmpty(n: nat)
    ensures |Decimal(n)| >= 1
  {
  }

  lemma CandidateInjective(base: string, m: nat, n: nat)
    requires Candidate(base, m) == Candidate(base, n)
    ensures m == n
  {
    var s := base + "-";
    assert Candidate(base, m)[|s|..] == Decimal(m);
    assert Candidate(base, n)[|s|..] == Decimal(n);
    DecimalInjective(m, n);
  }

  /** `name` is `base` itself when free, otherwise the first free candidate. */
  ghost predicate FirstFree(used: set<string>, base: string, name: string) {
    if base !in used then name == base
    else exists n: nat {:trigger Candidate(base, n)} ::
           && 2 <= n <= |used| + 1
           && name == Candidate(base, n)
           && name !in used
           && forall m: nat {:trigger Candidate(base, m)} :: 2 <= m < n ==> Candidate(base, m) in used
  }

  lemma CandidateIsUntried(base: string, n: nat, tried: set<string>)
    requires forall t :: t in tried ==>
               t == base || exists m: nat {:trigger Candidate(base, m)} :: m < n && t == Candidate(base, m)
    ensures Candidate(base, n) !in tried
  {
    assert |Candidate(base, n)| > |base|;
    if Candidate(base, n) in tried {
      var m: nat :| m < n && Candidate(base, n) == Candidate(base, m);
      CandidateInjective(base, m, n);
    }
  }

  /** Every rejected candidate is a different used name, so the search ends
      with a suffix of at most `|used| + 1`. */
  method DedupeWorkspaceName(used: set<string>, base: string) returns (name: string, used': set<string>)
    ensures FirstFree(used, base, name)
    ensures name !in used && used' == used + {name}
  {
    if base !in used {
      return base, used + {base};
    }
    var n := 2;
    ghost var tried := {base};
    while Candidate(base, n) in used
      invariant 2 <= n && tried <= used && |tried| == n - 1 && base in tried
      invariant forall t :: t in tried ==>
                    t == base || exists m: nat {:trigger Candidate(base, m)} :: m < n && t == Candidate(base, m)
      invariant forall m: nat {:trigger Candidate(base, m)} :: 2 <= m < n ==> Candidate(base, m) in used
      decreases used - tried
    {
      ghost var c := Candidate(base, n);
      CandidateIsUntried(base, n, tried);
      tried := tried + {c};
      n := n + 1;
    }
    CardinalityBound(tried, used);
    name := Candidate(base, n);
    used' := used + {name};
  }

  lemma {:induction false} CardinalityBound<T>(a: set<T>, b: set<T>)
    requires a <= b
    ensures |a| <= |b|
  {
    assert b == a + (b - a);
  }
}
