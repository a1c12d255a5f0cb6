/**
 * The resident identity number check of GB 11643-1999 registered for
 * `Locale.CHINA`: an 18-character number is six region and place digits,
 * an eight-digit birth date, a three-digit sequence and a check character
 * computed with ISO 7064 MOD 11-2. A 15-digit number of the older format
 * is first upgraded to 18 characters. Regular expressions, `Locale` and
 * `DateTimeFormatter` are replaced by the predicates below.
 */
module IdentityCard {
  import opened Wrappers

  type Locale = string

  /** `Locale.CHINA`. */
  const China: Locale := "zh-CN"

  /** The region codes the rule accepts as the first two digits. */
  const Regions: set<int> := {
    11, 12, 13, 14, 15, 21, 22, 23, 31, 32, 33, 34, 35, 36, 37,
    41, 42, 43, 44, 45, 46, 50, 51, 52, 53, 54, 61, 62, 63, 64, 65,
    71, 81, 82, 91 }

  /** `mode18Calculations`: the weights of the 17 body digits. */
  const Weights: seq<int> := [7, 9, 10, 5, 8, 4, 2, 1, 6, 3, 7, 9, 10, 5, 8, 4, 2]

  /** `mode18Suffixes`: the check character for each weighted sum modulo 11. */
  const Suffixes: seq<char> := ['1', '0', 'X', '9', '8', '7', '6', '5', '4', '3', '2']

  predicate IsDigit(c: char)
  {
    '0' <= c <= '9'
  }

  predicate AllDigits(s: seq<char>)
  {
    forall i :: 0 <= i < |s| ==> IsDigit(s[i])
  }

  function DigitValue(c: char): int
  {
    c as int - '0' as int
  }

  /** The value of `s` as a decimal numeral. */
  function Decimal(s: seq<char>): int
  {
    if |s| == 0 then 0 else Decimal(s[..|s| - 1]) * 10 + DigitValue(s[|s| - 1])
  }

  /** `toLowerCase` as far as it matters here: ASCII capitals become small letters. */
  function LowerChar(c: char): char
  {
    if 'A' <= c <= 'Z' then (c as int + 32) as char else c
  }

  function Lower(s: seq<char>): (r: seq<char>)
    ensures |r| == |s| && forall i :: 0 <= i < |s| ==> r[i] == LowerChar(s[i])
  {
    if |s| == 0 then [] else Lower(s[..|s| - 1]) + [LowerChar(s[|s| - 1])]
  }

  /** `^(\d){15}$`. */
  predicate Mode15(s: seq<char>)
    ensures Mode15(s) ==> Lower(s) == s
  {
    |s| == 15 && AllDigits(s)
  }

  /** `^\d{17}(\d|x)$`. */
  predicate Mode18(s: seq<char>)
    ensures Mode18(s) ==> Lower(s) == s
  {
    |s| == 18 && AllDigits(s[..17]) && (IsDigit(s[17]) || s[17] == 'x')
  }

  function Pow2(n: nat): nat
  {
    if n == 0 then 1 else 2 * Pow2(n - 1)
  }

  /** The weights are the powers of two modulo 11 that MOD 11-2 prescribes. */
  lemma PowerWeight(i: int)
    requires 0 <= i < 17
    ensures Pow2(17 - i) % 11 == Weights[i]
  {
    assert Pow2(1) == 2 && Pow2(2) == 4 && Pow2(3) == 8 && Pow2(4) == 16;
    assert Pow2(5) == 32 && Pow2(6) == 64 && Pow2(7) == 128 && Pow2(8) == 256;
    assert Pow2(9) == 512 && Pow2(10) == 1024 && Pow2(11) == 2048 && Pow2(12) == 4096;
    assert Pow2(13) == 8192 && Pow2(14) == 16384 && Pow2(15) == 32768 && Pow2(16) == 65536;
    assert Pow2(17) == 131072;
  }

  /** A check position's value after `x` has been replaced by `a` and parsed in base 11. */
  function CharValue(c: char): int
  {
    if c == 'x' then 10 else DigitValue(c)
  }

  /** Σ over the first `n` positions of `(2^(17-i) mod 11) · value(t[i])`, as the check loop adds it. */
  function CheckSum(t: seq<char>, n: nat): int
    requires n <= |t| && n <= 18
  {
    if n == 0 then 0 else CheckSum(t, n - 1) + Pow2(18 - n) % 11 * CharValue(t[n - 1])
  }

  /** Σ over the first `n` digits of `digit · Weights[i]`, as the upgrade loop adds it. */
  function WeightedSum(s: seq<char>, n: nat): int
    requires n <= |s| && n <= 17
  {
    if n == 0 then 0 else WeightedSum(s, n - 1) + DigitValue(s[n - 1]) * Weights[n - 1]
  }

  /** The ISO calendar: a date exists iff its month is 1 to 12 and its day fits that month. */
  function DaysInMonth(year: int, month: int): int
    requires 1 <= month <= 12
  {
    if month == 2 then
      (if (year % 4 == 0 && year % 100 != 0) || year % 400 == 0 then 29 else 28)
    else if month == 4 || month == 6 || month == 9 || month == 11 then 30
    else 31
  }

  predicate ValidDate(year: int, month: int, day: int)
  {
    1 <= month <= 12 && 1 <= day <= DaysInMonth(year, month)
  }

  /** The date in characters 7 to 14 parses as an ISO `yyyy-MM-dd` local date. */
  predicate BirthDateValid(t: seq<char>)
    requires |t| >= 14
  {
    ValidDate(Decimal(t[6..10]), Decimal(t[10..12]), Decimal(t[12..14]))
  }

  predicate RegionValid(t: seq<char>)
    requires |t| >= 2
  {
    Decimal(t[..2]) in Regions
  }

  /** The checks an 18-character lower-case candidate must pass, in the rule's order. */
  predicate Accepts18(t: seq<char>)
  {
    Mode18(t) && RegionValid(t) && BirthDateValid(t) && CheckSum(t, 18) % 11 == 1
  }

  /** The body of an upgraded number: "19" inserted after the sixth digit. */
  function UpgradedBody(input: seq<char>): (r: seq<char>)
    requires |input| == 15
    ensures |r| == 17 && r[..6] == input[..6] && r[6..8] == "19" && r[8..] == input[6..]
  {
    input[..6] + "19" + input[6..]
  }

  /**
   * `upgrade` as written: the check character is looked up with the weighted
   * sum of the 15 input digits, not of the 17-digit body it is appended to.
   */
  function UpgradeAsWritten(input: seq<char>): (r: seq<char>)
    ensures r == "#" <==> !Mode15(input)
    ensures Mode15(input) ==> |r| == 18 && r[..17] == UpgradedBody(input)
    ensures Mode15(input) ==> r[17] == Suffixes[WeightedSum(input, 15) % 11]
  {
    if Mode15(input) then
      UpgradedBody(input) + [Suffixes[WeightedSum(input, 15) % 11]]
    else
      "#"
  }

  /** `upgrade` with the check character computed over the 17-digit body. */
  function Upgrade(input: seq<char>): (r: seq<char>)
    ensures r == "#" <==> !Mode15(input)
    ensures Mode15(input) ==> |r| == 18 && r[..17] == UpgradedBody(input)
    ensures Mode15(input) ==> r[17] == Suffixes[WeightedSum(UpgradedBody(input), 17) % 11]
  {
    if Mode15(input) then
      var body := UpgradedBody(input);
      body + [Suffixes[WeightedSum(body, 17) % 11]]
    else
      "#"
  }

  /** What the rule decides for a non-null value, with the corrected upgrade. */
  predicate ChinaAccepts(value: seq<char>)
    ensures ChinaAccepts(value) ==> (|value| == 15 && Mode15(value)) || |value| == 18
    ensures |value| == 18 ==> (ChinaAccepts(value) <==> Accepts18(Lower(value)))
  {
    Accepts18(Lower(if |value| == 15 then Upgrade(value) else value))
  }

  /** What the rule decides for a non-null value, with `upgrade` as written. */
  predicate ChinaAcceptsAsWritten(value: seq<char>)
    ensures ChinaAcceptsAsWritten(value) ==> (|value| == 15 && Mode15(value)) || |value| == 18
    ensures |value| != 15 ==> (ChinaAcceptsAsWritten(value) <==> ChinaAccepts(value))
  {
    Accepts18(Lower(if |value| == 15 then UpgradeAsWritten(value) else value))
  }

  /** On digits, the check loop's first 17 terms are the upgrade's weighted sum. */
  lemma {:induction false} CheckSumOfDigits(t: seq<char>, n: nat)
    requires n <= 17 && n <= |t| && forall i :: 0 <= i < n ==> IsDigit(t[i])
    ensures CheckSum(t, n) == WeightedSum(t, n)
  {
    if n > 0 {
      CheckSumOfDigits(t, n - 1);
      var w := Pow2(18 - n) % 11;
      assert w == Weights[n - 1] by {
        PowerWeight(n - 1);
      }
      assert CharValue(t[n - 1]) == DigitValue(t[n - 1]);
      assert CheckSum(t, n) == CheckSum(t, n - 1) + w * DigitValue(t[n - 1]);
    }
  }

  /** The weighted sum reads only the first `n` characters. */
  lemma {:induction false} WeightedSumPrefix(s: seq<char>, u: seq<char>, n: nat)
    requires n <= |s| && n <= |u| && n <= 17 && s[..n] == u[..n]
    ensures WeightedSum(s, n) == WeightedSum(u, n)
  {
    if n > 0 {
      assert s[..n - 1] == s[..n][..n - 1] && u[..n - 1] == u[..n][..n - 1];
      assert s[n - 1] == s[..n][n - 1];
      assert u[n - 1] == u[..n][n - 1];
      WeightedSumPrefix(s, u, n - 1);
    }
  }

  /** The suffix table holds, for each remainder `s`, the character whose value brings the sum to 1 modulo 11. */
  lemma SuffixCompletes(s: int)
    requires 0 <= s < 11
    ensures (s + CharValue(LowerChar(Suffixes[s]))) % 11 == 1
    ensures IsDigit(LowerChar(Suffixes[s])) || LowerChar(Suffixes[s]) == 'x'
  {
  }

  /** Distinct check characters have distinct values. */
  lemma CharValueInjective(a: char, b: char)
    requires IsDigit(a) || a == 'x'
    requires IsDigit(b) || b == 'x'
    ensures 0 <= CharValue(a) <= 10
    ensures CharValue(a) == CharValue(b) ==> a == b
  {
  }

  /**
   * MOD 11-2: a well-formed number passes the check loop iff its last
   * character is the suffix selected by the weighted sum of its body.
   */
  lemma CheckIffSuffix(t: seq<char>)
    requires Mode18(t)
    ensures CheckSum(t, 18) % 11 == 1 <==> t[17] == LowerChar(Suffixes[WeightedSum(t, 17) % 11])
  {
    assert forall i :: 0 <= i < 17 ==> t[i] == t[..17][i];
    CheckSumOfDigits(t, 17);
    var w := WeightedSum(t, 17);
    var s := w % 11;
    var c := LowerChar(Suffixes[s]);
    SuffixCompletes(s);
    assert Pow2(0) == 1;
    assert CheckSum(t, 18) == w + CharValue(t[17]);
    CharValueInjective(t[17], c);
    CharValueInjective(c, t[17]);
    AddResidue(w, CharValue(t[17]));
    SameResidue(s, CharValue(t[17]), CharValue(c));
  }

  /** Adding to a number or to its remainder modulo 11 leaves the same remainder. */
  lemma AddResidue(w: int, v: int)
    ensures (w + v) % 11 == (w % 11 + v) % 11
  {
    var q := w / 11;
    assert w + v == 11 * q + (w % 11 + v);
    assert w % 11 + v == 11 * ((w % 11 + v) / 11) + (w % 11 + v) % 11;
    assert w + v == 11 * (q + (w % 11 + v) / 11) + (w % 11 + v) % 11;
  }

  /** Two values below 11 added to the same number leave the same remainder only when they are equal. */
  lemma SameResidue(s: int, a: int, b: int)
    requires 0 <= a <= 10 && 0 <= b <= 10
    ensures (s + a) % 11 == (s + b) % 11 <==> a == b
  {
    if (s + a) % 11 == (s + b) % 11 {
      var qa, qb := (s + a) / 11, (s + b) / 11;
      assert a - b == 11 * (qa - qb);
    }
  }

  /** Lower-casing leaves a string of digits as it is. */
  lemma LowerDigits(s: seq<char>)
    requires AllDigits(s)
    ensures Lower(s) == s
  {
  }

  /** The corrected upgrade always yields a number whose check character is right. */
  lemma UpgradePassesCheck(input: seq<char>)
    requires Mode15(input)
    ensures Mode18(Lower(Upgrade(input)))
    ensures CheckSum(Lower(Upgrade(input)), 18) % 11 == 1
  {
    var r := Upgrade(input);
    var t := Lower(r);
    var body := UpgradedBody(input);
    forall i | 0 <= i < 17
      ensures t[i] == body[i] && IsDigit(t[i])
    {
      if i < 6 {
        assert body[i] == body[..6][i] == input[i];
      } else if i >= 8 {
        assert body[i] == body[8..][i - 8] == input[i - 2];
      } else {
        assert body[i] == body[6..8][i - 6];
      }
    }
    assert t[..17] == body;
    SuffixCompletes(WeightedSum(body, 17) % 11);
    WeightedSumPrefix(t, body, 17);
    CheckIffSuffix(t);
  }

  /** The value of a two-digit numeral. */
  lemma Decimal2(s: seq<char>)
    requires |s| == 2
    ensures Decimal(s) == 10 * DigitValue(s[0]) + DigitValue(s[1])
  {
    var a := s[..1];
    assert a[..0] == [] && a[0] == s[0];
    assert Decimal(a) == Decimal(a[..0]) * 10 + DigitValue(a[0]);
  }

  /** The value of a four-digit numeral. */
  lemma Decimal4(s: seq<char>)
    requires |s| == 4
    ensures Decimal(s) == 100 * Decimal(s[..2]) + Decimal(s[2..])
  {
    var a := s[..3];
    assert a[..2] == s[..2] && a[2] == s[2];
    assert Decimal(a) == Decimal(a[..2]) * 10 + DigitValue(a[2]);
    Decimal2(s[2..]);
  }

  /** A 15-digit number is accepted iff its region and its 19xx birth date are valid. */
  lemma FifteenDigitsAccepted(value: seq<char>)
    requires |value| == 15
    ensures ChinaAccepts(value) <==> (Mode15(value) && RegionValid(value)
      && ValidDate(1900 + Decimal(value[6..8]), Decimal(value[8..10]), Decimal(value[10..12])))
  {
    if Mode15(value) {
      UpgradePassesCheck(value);
      UpgradedFields(value);
    } else {
      assert !Mode18(Lower("#"));
    }
  }

  /** The upgraded number carries the region, the 19xx year, the month and the day of the 15 digits. */
  lemma UpgradedFields(value: seq<char>)
    requires Mode15(value)
    ensures |Lower(Upgrade(value))| == 18
    ensures Lower(Upgrade(value))[..2] == value[..2]
    ensures Decimal(Lower(Upgrade(value))[6..10]) == 1900 + Decimal(value[6..8])
    ensures Lower(Upgrade(value))[10..12] == value[8..10]
    ensures Lower(Upgrade(value))[12..14] == value[10..12]
  {
    UpgradePassesCheck(value);
    var t := Lower(Upgrade(value));
    var body := UpgradedBody(value);
    assert t[..17] == body;
    assert t[..2] == value[..2] by {
      assert body[..2] == body[..6][..2];
    }
    var y := t[6..10];
    assert y == t[..17][6..10];
    assert y[0] == '1' && y[1] == '9' by {
      assert y[0] == body[6] && y[1] == body[7];
      assert body[6..8] == "19";
    }
    assert y[2] == value[6] && y[3] == value[7] by {
      assert y[2] == body[8] == body[8..][0];
      assert y[3] == body[9] == body[8..][1];
    }
    Decimal4(y);
    Decimal2(y[..2]);
    assert y[2..] == value[6..8];
    assert Decimal(y) == 1900 + Decimal(value[6..8]);
    assert t[10..12] == value[8..10] by {
      assert t[10..12] == body[10..12] == body[8..][2..4];
    }
    assert t[12..14] == value[10..12] by {
      assert t[12..14] == body[12..14] == body[8..][4..6];
    }
  }

  /** The weighted sum of the 15 digits that `upgrade` as written looks the suffix up with. */
  lemma AsWrittenSuffixIndex()
    ensures WeightedSum("110101800101001", 15) % 11 == 6
  {
    var s := "110101800101001";
    assert WeightedSum(s, 1) == 7;
    assert WeightedSum(s, 2) == 16;
    assert WeightedSum(s, 4) == 21;
    assert WeightedSum(s, 6) == 25;
    assert WeightedSum(s, 7) == 41;
    assert WeightedSum(s, 10) == 44;
    assert WeightedSum(s, 12) == 53;
    assert WeightedSum(s, 15) == 61;
  }

  /** The weighted sum of the 17-digit body the check loop verifies. */
  lemma BodySuffixIndex()
    ensures WeightedSum("11010119800101001", 17) % 11 == 1
  {
    var s := "11010119800101001";
    assert WeightedSum(s, 1) == 7;
    assert WeightedSum(s, 2) == 16;
    assert WeightedSum(s, 4) == 21;
    assert WeightedSum(s, 6) == 25;
    assert WeightedSum(s, 7) == 27;
    assert WeightedSum(s, 8) == 36;
    assert WeightedSum(s, 9) == 84;
    assert WeightedSum(s, 12) == 93;
    assert WeightedSum(s, 14) == 98;
    assert WeightedSum(s, 17) == 100;
  }

  /** The 17 characters `upgrade` builds from the sample number. */
  lemma SampleBody(input: seq<char>)
    requires input == "110101800101001"
    ensures UpgradedBody(input) == "11010119800101001"
  {
  }

  /**
   * `upgrade` as written appends the wrong check character to a valid
   * 15-digit number (Beijing, born 1980-01-01), and the rule rejects it.
   */
  lemma UpgradeAsWrittenRejectsValidNumber()
    ensures Mode15("110101800101001")
    ensures !ChinaAcceptsAsWritten("110101800101001")
  {
    var input := "110101800101001";
    assert Mode15(input);
    var body := UpgradedBody(input);
    SampleBody(input);
    AsWrittenSuffixIndex();
    BodySuffixIndex();
    var r := UpgradeAsWritten(input);
    assert r == body + ['6'];
    LowerDigits(r);
    WeightedSumPrefix(r, body, 17);
    CheckIffSuffix(r);
  }

  /** The same number is accepted once upgraded with the corrected check character. */
  lemma UpgradeAcceptsValidNumber()
    ensures RegionValid("110101800101001") && ValidDate(1980, 1, 1)
    ensures ChinaAccepts("110101800101001")
  {
    var input := "110101800101001";
    SampleFields(input);
    assert RegionValid(input);
    assert ValidDate(1900 + Decimal(input[6..8]), Decimal(input[8..10]), Decimal(input[10..12]));
    FifteenDigitsAccepted(input);
  }

  /** The region, year, month and day fields of the sample 15-digit number. */
  lemma SampleFields(input: seq<char>)
    requires input == "110101800101001"
    ensures Mode15(input)
    ensures Decimal(input[..2]) == 11 && Decimal(input[6..8]) == 80
    ensures Decimal(input[8..10]) == 1 && Decimal(input[10..12]) == 1
  {
    assert Mode15(input);
    assert input[..2] == "11" && input[6..8] == "80" && input[8..10] == "01" && input[10..12] == "01";
    Decimal2("11");
    Decimal2("80");
    Decimal2("01");
  }

  /** The check loop of the rule's `isValid`, counting down from 2^17. */
  method ComputeCheckValue(t: seq<char>) returns (calcValue: int)
    requires |t| == 18
    ensures calcValue == CheckSum(t, 18)
  {
    calcValue := 0;
    var count := 17;
    while count >= 0
      invariant -1 <= count <= 17
      invariant calcValue == CheckSum(t, 17 - count)
    {
      calcValue := calcValue + Pow2(count) % 11 * CharValue(t[17 - count]);
      count := count - 1;
    }
  }

  /** The accumulation loop of `upgrade`, over the first `n` digits of `s`. */
  method ComputeWeightedSum(s: seq<char>, n: nat) returns (calcValue: int)
    requires n <= |s| && n <= 17
    ensures calcValue == WeightedSum(s, n)
  {
    calcValue := 0;
    var count := 0;
    while count < n
      invariant 0 <= count <= n
      invariant calcValue == WeightedSum(s, count)
    {
      calcValue := calcValue + DigitValue(s[count]) * Weights[count];
      count := count + 1;
    }
  }

  /** The checks of the rule's `isValid` after the upgrade, step by step. */
  method CheckTarget(target: seq<char>) returns (ok: bool)
    ensures ok == Accepts18(Lower(target))
  {
    var t := Lower(target);
    if !Mode18(t) {
      return false;
    }
    if !RegionValid(t) {
      return false;
    }
    if !BirthDateValid(t) {
      return false;
    }
    var calcValue := ComputeCheckValue(t);
    ok := calcValue % 11 == 1;
  }

  /** The CHINA rule's `isValid`, step by step, with the corrected upgrade. */
  method ChinaIsValid(value: seq<char>) returns (ok: bool)
    ensures ok == ChinaAccepts(value)
  {
    var target := value;
    if |value| == 15 {
      if Mode15(value) {
        var body := UpgradedBody(value);
        var calcValue := ComputeWeightedSum(body, 17);
        target := body + [Suffixes[calcValue % 11]];
      } else {
        target := "#";
      }
    }
    ok := CheckTarget(target);
  }

  /** The CHINA rule's `isValid`, step by step, with `upgrade` as written. */
  method ChinaIsValidAsWritten(value: seq<char>) returns (ok: bool)
    ensures ok == ChinaAcceptsAsWritten(value)
  {
    var target := value;
    if |value| == 15 {
      if Mode15(value) {
        var calcValue := ComputeWeightedSum(value, 15);
        target := UpgradedBody(value) + [Suffixes[calcValue % 11]];
      } else {
        target := "#";
      }
    }
    ok := CheckTarget(target);
  }

  /** A registered rule: the built-in CHINA rule or one supplied through `addRule`. */
  datatype Rule = ChinaRule | CustomRule(accepts: seq<char> -> bool)

  /** A rule's verdict; the CHINA rule runs with the corrected upgrade. */
  predicate Apply(rule: Rule, value: seq<char>)
    ensures rule.ChinaRule? && Apply(rule, value) ==> (|value| == 15 && Mode15(value)) || |value| == 18
    ensures rule.CustomRule? ==> (Apply(rule, value) <==> rule.accepts(value))
  {
    match rule
    case ChinaRule => ChinaAccepts(value)
    case CustomRule(accepts) => accepts(value)
  }

  /** The static `RULES` table. */
  class RuleRegistry {
    var rules: map<Locale, Rule>

    /** The static initialiser registers the CHINA rule. */
    constructor ()
      ensures rules == map[China := ChinaRule]
    {
      rules := map[China := ChinaRule];
    }

    /** `addRule`: a null locale or rule is rejected; otherwise the rule replaces any earlier one. */
    method AddRule(locale: Option<Locale>, rule: Option<Rule>) returns (error: Option<Exception>)
      modifies this
      ensures locale.None? || rule.None? <==> error == Some(IllegalArgument)
      ensures error.None? <==> locale.Some? && rule.Some?
      ensures error.Some? ==> rules == old(rules)
      ensures error.None? ==> rules == old(rules)[locale.value := rule.value]
    {
      if locale.None? || rule.None? {
        return Some(IllegalArgument);
      }
      rules := rules[locale.value := rule.value];
      error := None;
    }
  }

  predicate IsWhitespace(c: char)
  {
    c == ' ' || c == '\t' || c == '\n' || c == '\r' || c == '\U{B}' || c == '\U{C}'
    || '\U{1C}' <= c <= '\U{1F}'
  }

  /** `StringUtils.hasText`. */
  predicate HasText(s: seq<char>)
  {
    exists i :: 0 <= i < |s| && !IsWhitespace(s[i])
  }

  /** The constraint validator, configured by its annotation. */
  class IdentityCardValidator {
    var locale: Locale
    var bypass: bool

    constructor ()
      ensures locale == "" && !bypass
    {
      locale := "";
      bypass := false;
    }

    /** `initialize`: the region tag must have text; it becomes the locale. */
    method Initialize(countryOrRegion: seq<char>, bypassIfNoRuleAvailable: bool) returns (error: Option<Exception>)
      modifies this
      ensures error.Some? <==> !HasText(countryOrRegion)
      ensures error.Some? ==> error.value == IllegalArgument && unchanged(this)
      ensures error.None? ==> locale == countryOrRegion && bypass == bypassIfNoRuleAvailable
    {
      var i := 0;
      while i < |countryOrRegion| && IsWhitespace(countryOrRegion[i])
        invariant 0 <= i <= |countryOrRegion|
        invariant forall j :: 0 <= j < i ==> IsWhitespace(countryOrRegion[j])
      {
        i := i + 1;
      }
      if i == |countryOrRegion| {
        return Some(IllegalArgument);
      }
      locale := countryOrRegion;
      bypass := bypassIfNoRuleAvailable;
      error := None;
    }

    /** `isValid`: null is valid; without a rule for the locale the bypass flag decides. */
    predicate IsValid(value: Option<seq<char>>, rules: map<Locale, Rule>)
      reads this
      ensures value.Some? && locale in rules && rules[locale].ChinaRule? ==>
        (IsValid(value, rules) <==> ChinaAccepts(value.value))
      ensures IsValid(value, rules) && value.Some? && locale in rules && rules[locale].ChinaRule? ==>
        |value.value| == 15 || |value.value| == 18
    {
      match value
      case None => true
      case Some(v) => if locale !in rules then bypass else Apply(rules[locale], v)
    }

    /** The three outcomes of the dispatch. */
    lemma Dispatch(value: Option<seq<char>>, rules: map<Locale, Rule>)
      ensures value.None? ==> IsValid(value, rules)
      ensures value.Some? && locale !in rules ==> (IsValid(value, rules) <==> bypass)
      ensures value.Some? && locale in rules ==> (IsValid(value, rules) <==> Apply(rules[locale], value.value))
    {
    }
  }
}
