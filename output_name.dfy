/** The name of the output image: f'formula-{n}.png', where n is the number of
    PNG files already in the output directory (getformula.py:60-61). */
module OutputName {
  import opened Wrappers

  predicate IsDigit(c: char) {
    '0' <= c <= '9'
  }

  /** A decimal numeral as Python's str() writes a non-negative int: digits
      only, and no leading zero except in "0" itself. */
  predicate Canonical(s: string) {
    |s| >= 1 && (forall i | 0 <= i < |s| :: IsDigit(s[i])) && (s[0] == '0' ==> |s| == 1)
  }

  function DigitChar(d: nat): (c: char)
    requires d < 10
    ensures IsDigit(c) && c as int - '0' as int == d
  {
    ('0' as int + d) as char
  }

  /** The value of a string of decimal digits, most significant first. */
  function DigitsValue(s: string): nat
    requires forall i | 0 <= i < |s| :: IsDigit(s[i])
    decreases |s|
  {
    if s == [] then 0
    else
      assert IsDigit(s[|s| - 1]);
      DigitsValue(s[..|s| - 1]) * 10 + (s[|s| - 1] as int - '0' as int)
  }

  /** Python's str(n) for a count n. */
  function Decimal(n: nat): (s: string)
    ensures Canonical(s)
    decreases n
  {
    if n < 10 then [DigitChar(n)]
    else
      var s := Decimal(n / 10) + [DigitChar(n % 10)];
      assert s[0] == Decimal(n / 10)[0];
      s
  }

  /** Reading the numeral back gives the count. */
  lemma {:induction false} DecimalValue(n: nat)
    ensures DigitsValue(Decimal(n)) == n
    decreases n
  {
    if n >= 10 {
      var s := Decimal(n);
      assert s[..|s| - 1] == Decimal(n / 10);
      DecimalValue(n / 10);
    }
  }

  /** A numeral that does not start with '0' has a value of at least 1, and
      of at least 10 when it has two digits or more. */
  lemma {:induction false} LeadingDigitBound(s: string)
    requires Canonical(s) && s[0] != '0'
    ensures DigitsValue(s) >= 1
    ensures |s| >= 2 ==> DigitsValue(s) >= 10
    decreases |s|
  {
    if |s| >= 2 {
      var init := s[..|s| - 1];
      assert init[0] == s[0];
      LeadingDigitBound(init);
    }
  }

  /** Every canonical numeral is the one str() writes for its value. */
  lemma {:induction false} CanonicalIsDecimal(s: string)
    requires Canonical(s)
    ensures Decimal(DigitsValue(s)) == s
    decreases |s|
  {
    if |s| >= 2 {
      var init := s[..|s| - 1];
      assert init[0] == s[0];
      LeadingDigitBound(s);
      LeadingDigitBound(init);
      CanonicalIsDecimal(init);
      var n := DigitsValue(s);
      var d := s[|s| - 1] as int - '0' as int;
      assert n / 10 == DigitsValue(init) && n % 10 == d;
      assert s == init + [s[|s| - 1]];
    }
  }

  const Prefix: string := "formula-"
  const Suffix: string := ".png"

  /** The output file name for a directory that already holds n PNG files. It
      is matched by the '*.png' pattern the next run counts with: it ends in
      ".png" and does not start with '.', which glob treats as hidden. */
  function FileName(n: nat): (name: string)
    ensures |name| > |Prefix| + |Suffix|
    ensures name[..|Prefix|] == Prefix && name[|name| - |Suffix|..] == Suffix
    ensures name[0] != '.'
  {
    Prefix + Decimal(n) + Suffix
  }

  /** The index a file name of the form formula-<n>.png stands for, if any. */
  function ParseFileName(name: string): Option<nat> {
    if |name| > |Prefix| + |Suffix| && name[..|Prefix|] == Prefix
      && name[|name| - |Suffix|..] == Suffix
      && Canonical(name[|Prefix|..|name| - |Suffix|])
    then Some(DigitsValue(name[|Prefix|..|name| - |Suffix|]))
    else None
  }

  /** The name of run n is read back as n. */
  lemma FileNameRoundTrip(n: nat)
    ensures ParseFileName(FileName(n)) == Some(n)
  {
    var name := FileName(n);
    assert name[|Prefix|..|name| - |Suffix|] == Decimal(n);
    DecimalValue(n);
  }

  /** A name that parses to n is exactly the name of run n. */
  lemma ParseFileNameExact(name: string, n: nat)
    requires ParseFileName(name) == Some(n)
    ensures name == FileName(n)
  {
    var digits := name[|Prefix|..|name| - |Suffix|];
    CanonicalIsDecimal(digits);
    assert name == name[..|Prefix|] + digits + name[|name| - |Suffix|..];
  }

  /** Different counts give different names. */
  lemma FileNameInjective(m: nat, n: nat)
    requires FileName(m) == FileName(n)
    ensures m == n
  {
    FileNameRoundTrip(m);
    FileNameRoundTrip(n);
  }

  /** The names written by the first n runs into an initially empty directory. */
  ghost function NamesBelow(n: nat): set<string> {
    set k | 0 <= k < n :: FileName(k)
  }

  /** When the directory holds exactly the names of runs 0 .. n-1, it holds n
      PNG files, run n writes a name not yet present, and afterwards the
      directory holds exactly the names of runs 0 .. n. */
  lemma {:induction false} SequentialNaming(n: nat)
    ensures |NamesBelow(n)| == n
    ensures FileName(n) !in NamesBelow(n)
    ensures NamesBelow(n + 1) == NamesBelow(n) + {FileName(n)}
    decreases n
  {
    if FileName(n) in NamesBelow(n) {
      var k :| 0 <= k < n && FileName(k) == FileName(n);
      FileNameInjective(k, n);
    }
    assert NamesBelow(n + 1) == NamesBelow(n) + {FileName(n)};
    if n > 0 {
      SequentialNaming(n - 1);
    }
  }
}
