/** parse_iterations of tests/run_tests.c: the number of generations a
    test file asks for, written as the digits just before the first "_it"
    of its name, or the default when there is none. */
module IterationCount {

  predicate IsDigit(ch: char) {
    '0' <= ch <= '9'
  }

  /** "_it" starts at position j of s. */
  predicate ItAt(s: string, j: int) {
    0 <= j && j + 3 <= |s| && s[j] == '_' && s[j + 1] == 'i' && s[j + 2] == 't'
  }

  /** strstr(s + k, "_it") as an index: the first occurrence at or after
      k, or -1 when there is none. */
  function FindFrom(s: string, k: nat): (r: int)
    ensures r == -1 || (k <= r && ItAt(s, r))
    ensures forall j :: k <= j && (r == -1 || j < r) ==> !ItAt(s, j)
    decreases |s| - k
  {
    if k + 3 > |s| then -1
    else if ItAt(s, k) then k
    else FindFrom(s, k + 1)
  }

  /** strstr(filename, "_it"). */
  function FindIt(s: string): int {
    FindFrom(s, 0)
  }

  /** The start of the longest run of digits that ends just before
      position i. */
  function RunStart(s: string, i: nat): (r: nat)
    requires i <= |s|
    ensures r <= i
    ensures forall j :: r <= j < i ==> IsDigit(s[j])
    ensures r == 0 || !IsDigit(s[r - 1])
  {
    if i == 0 || !IsDigit(s[i - 1]) then i else RunStart(s, i - 1)
  }

  /** The value of a string of decimal digits; 0 for the empty string. */
  function Decimal(d: string): nat
    requires forall j :: 0 <= j < |d| ==> IsDigit(d[j])
  {
    if |d| == 0 then 0 else 10 * Decimal(d[..|d| - 1]) + DigitValue(d[|d| - 1])
  }

  function DigitValue(ch: char): nat
    requires IsDigit(ch)
  {
    ch as int - '0' as int
  }

  /** The digits at the start of t, up to the first non-digit. */
  function LeadingDigits(t: string): (d: string)
    ensures d <= t
    ensures forall j :: 0 <= j < |d| ==> IsDigit(d[j])
    ensures |d| < |t| ==> !IsDigit(t[|d|])
  {
    if |t| == 0 || !IsDigit(t[0]) then [] else [t[0]] + LeadingDigits(t[1..])
  }

  /** atoi on a string that starts with a digit or with '_': the value of
      its leading digits. */
  function Atoi(t: string): nat {
    Decimal(LeadingDigits(t))
  }

  /** What parse_iterations returns: defaultGens when the name has no "_it"
      or when the digits before it are missing or read as 0, and otherwise
      their value. */
  function Iterations(s: string, defaultGens: int): (gens: int)
    ensures gens == defaultGens || gens > 0
    ensures FindIt(s) < 0 ==> gens == defaultGens
  {
    var i := FindIt(s);
    if i < 0 then defaultGens
    else
      var v := Decimal(s[RunStart(s, i)..i]);
      if v > 0 then v else defaultGens
  }

  /** At the start of the digit run before "_it", atoi's leading digits
      are exactly that run, because the run is followed by '_'. */
  lemma {:induction false} LeadingDigitsOfRun(s: string, p: nat, i: nat)
    requires p <= i && ItAt(s, i)
    requires forall j :: p <= j < i ==> IsDigit(s[j])
    ensures LeadingDigits(s[p..]) == s[p..i]
    decreases i - p
  {
    if p < i {
      LeadingDigitsOfRun(s, p + 1, i);
      assert s[p..][1..] == s[p + 1..];
      assert s[p..i] == [s[p]] + s[p + 1..i];
    } else {
      assert !IsDigit(s[p..][0]);
    }
  }

  /** parse_iterations: find "_it", walk back over the digits before it
      without passing the start of the name, step forward onto the first
      digit, and convert. The walk reads filename[-1] when "_it" opens the
      name, so that case is excluded; atoi overflows past nine digits, so
      longer runs are excluded too. */
  method ParseIterations(filename: string, defaultGens: int) returns (gens: int)
    requires FindIt(filename) != 0
    requires FindIt(filename) > 0 ==> FindIt(filename) - RunStart(filename, FindIt(filename)) <= 9
    ensures gens == Iterations(filename, defaultGens)
  {
    var itPos := FindIt(filename);
    if itPos < 0 {
      return defaultGens;
    }
    var p := itPos - 1;
    while p > 0 && IsDigit(filename[p])
      invariant 0 <= p < itPos
      invariant forall j :: p < j < itPos ==> IsDigit(filename[j])
      invariant RunStart(filename, itPos) == RunStart(filename, p + 1)
      decreases p
    {
      p := p - 1;
    }
    if !IsDigit(filename[p]) {
      p := p + 1;
    }
    assert p == RunStart(filename, itPos);
    LeadingDigitsOfRun(filename, p, itPos);
    var value := Atoi(filename[p..]);
    gens := if value > 0 then value else defaultGens;
  }

  function DigitChar(v: nat): (ch: char)
    requires v < 10
    ensures IsDigit(ch) && DigitValue(ch) == v
  {
    ('0' as int + v) as char
  }

  /** The decimal digits of n > 0, most significant first, no leading 0. */
  function Digits(n: nat): (d: string)
    requires n > 0
    ensures |d| > 0 && d[0] != '0'
    ensures forall j :: 0 <= j < |d| ==> IsDigit(d[j])
  {
    if n < 10 then [DigitChar(n)] else Digits(n / 10) + [DigitChar(n % 10)]
  }

  /** Reading the digits of n gives back n. */
  lemma {:induction false} DecimalOfDigits(n: nat)
    requires n > 0
    ensures Decimal(Digits(n)) == n
  {
    var d := Digits(n);
    if n >= 10 {
      DecimalOfDigits(n / 10);
      assert d[..|d| - 1] == Digits(n / 10);
    } else {
      assert d[..|d| - 1] == [];
    }
  }

  /** The first "_it" of s is at m when none starts before it. */
  lemma FirstItAt(s: string, m: nat)
    requires ItAt(s, m)
    requires forall j :: 0 <= j < m ==> !ItAt(s, j)
    ensures FindIt(s) == m
  {
  }

  /** A name made of a prefix without "_it" that does not end in a digit,
      a run of digits, "_it" and anything at all asks for the value of the
      run, or for the default when the run reads as 0. */
  lemma NameWithRun(prefix: string, digits: string, suffix: string, defaultGens: int)
    requires |digits| > 0 && forall j :: 0 <= j < |digits| ==> IsDigit(digits[j])
    requires FindIt(prefix) == -1
    requires |prefix| == 0 || !IsDigit(prefix[|prefix| - 1])
    ensures Iterations(prefix + digits + "_it" + suffix, defaultGens)
         == if Decimal(digits) > 0 then Decimal(digits) else defaultGens
  {
    var s := prefix + digits + "_it" + suffix;
    var m := |prefix| + |digits|;
    FirstItAfterRun(prefix, digits, suffix);
    assert s[|prefix|..m] == digits;
    forall j | |prefix| <= j < m
      ensures IsDigit(s[j])
    {
      assert s[j] == digits[j - |prefix|];
    }
    if |prefix| > 0 {
      assert s[|prefix| - 1] == prefix[|prefix| - 1];
    }
    RunOfDigits(s, |prefix|, m);
  }

  /** In such a name the first "_it" is the one right after the run. */
  lemma FirstItAfterRun(prefix: string, digits: string, suffix: string)
    requires |digits| > 0 && forall j :: 0 <= j < |digits| ==> IsDigit(digits[j])
    requires FindIt(prefix) == -1
    ensures FindIt(prefix + digits + "_it" + suffix) == |prefix| + |digits|
  {
    var s := prefix + digits + "_it" + suffix;
    var m := |prefix| + |digits|;
    forall j | 0 <= j < m
      ensures !ItAt(s, j)
    {
      if j + 3 <= |prefix| {
        assert !ItAt(prefix, j);
      } else if j + 1 < |prefix| {
        assert s[j + 2] == digits[j + 2 - |prefix|];
      } else if j < |prefix| {
        assert s[j + 1] == digits[0];
      } else {
        assert s[j] == digits[j - |prefix|];
      }
    }
    FirstItAt(s, m);
  }

  /** With the digits of n > 0 as the run, the name asks for n generations:
      parse_iterations inverts the naming scheme of the test files. */
  lemma NameRoundTrip(prefix: string, n: nat, suffix: string, defaultGens: int)
    requires n > 0
    requires FindIt(prefix) == -1
    requires |prefix| == 0 || !IsDigit(prefix[|prefix| - 1])
    ensures Iterations(prefix + Digits(n) + "_it" + suffix, defaultGens) == n
  {
    NameWithRun(prefix, Digits(n), suffix, defaultGens);
    DecimalOfDigits(n);
  }

  /** The run before position i is s[p..i] when it is all digits and s[p - 1]
      is not a digit (or p is 0). */
  lemma {:induction false} RunOfDigits(s: string, p: nat, i: nat)
    requires p <= i <= |s|
    requires forall j :: p <= j < i ==> IsDigit(s[j])
    requires p == 0 || !IsDigit(s[p - 1])
    ensures RunStart(s, i) == p
    decreases i
  {
    if p < i {
      RunOfDigits(s, p, i - 1);
    }
  }

  /** "_001_it" reads as 1: leading zeros are part of the run. */
  lemma FirstDocumentedName()
    ensures Iterations("test_case_1_001_it.txt", 200) == 1
  {
    var prefix := "test_case_1_";
    assert FindIt(prefix) == -1 by {
      assert forall j :: 0 <= j ==> !ItAt(prefix, j);
    }
    assert Decimal("001") == 1 by {
      assert "001"[..2] == "00" && "00"[..1] == "0" && "0"[..0] == "";
    }
    assert "test_case_1_001_it.txt" == prefix + "001" + "_it" + ".txt";
    NameWithRun(prefix, "001", ".txt", 200);
  }

  /** "_1000_it" reads as 1000. */
  lemma ThirdDocumentedName()
    ensures Iterations("test_case_3_1000_it.txt", 200) == 1000
  {
    var prefix := "test_case_3_";
    assert FindIt(prefix) == -1 by {
      assert forall j :: 0 <= j ==> !ItAt(prefix, j);
    }
    assert Decimal("1000") == 1000 by {
      assert "1000"[..3] == "100" && "100"[..2] == "10" && "10"[..1] == "1" && "1"[..0] == "";
    }
    assert "test_case_3_1000_it.txt" == prefix + "1000" + "_it" + ".txt";
    NameWithRun(prefix, "1000", ".txt", 200);
  }

  /** A name without "_it" gets the default. */
  lemma SecondDocumentedName()
    ensures Iterations("test_case_2.txt", 200) == 200
  {
    var c := "test_case_2.txt";
    assert forall j :: 0 <= j ==> !ItAt(c, j);
  }
}
