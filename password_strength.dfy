/**
 The PasswordStrengthChecker class of password-strength/password-strength.js: a
 policy held in the checker's fields, the checks run against a password in a fixed
 order, the score they add up to, and the entropy estimate log2(distinct^length).
 */
module PasswordStrength {

  /** The checker's policy: the fields its constructor sets. */
  datatype Settings = Settings(
    minLength: int,
    requireUppercase: bool,
    requireLowercase: bool,
    requireNumbers: bool,
    requireSpecialChars: bool)

  /** The policy a fresh checker starts with. */
  const DefaultSettings: Settings := Settings(8, true, true, true, true)

  /** One reported problem; the length issue carries the minimum it names. */
  datatype Issue =
    | TooShort(minLength: int)
    | NoUppercase
    | NoLowercase
    | NoNumber
    | NoSpecialChar
    | CommonPattern
    | LowEntropy

  /** The position of each check in the order the checker runs them. */
  function Rank(issue: Issue): nat
  {
    match issue
    case TooShort(_) => 0
    case NoUppercase => 1
    case NoLowercase => 2
    case NoNumber => 3
    case NoSpecialChar => 4
    case CommonPattern => 5
    case LowEntropy => 6
  }

  /**
   The entropy estimate log2(distinct^length), kept as its two integer inputs so that
   the comparison with 3 bits is exact.
   */
  datatype Entropy = Entropy(distinct: nat, length: nat)

  /** The object checkStrength returns. */
  datatype StrengthResult = StrengthResult(isStrong: bool, issues: seq<Issue>, score: int, entropy: Entropy)

  /** The characters of the class [!@#$%^&*(),.?":{}|<>]. */
  const SpecialChars: string := "!@#$%^&*(),.?\":{}|<>"

  /** The substrings that mark a password as common, matched on its lowercase form. */
  const CommonPatterns: seq<string> := ["password", "123456", "qwerty", "admin"]

  predicate IsUpper(c: char) { 'A' <= c <= 'Z' }
  predicate IsLower(c: char) { 'a' <= c <= 'z' }
  predicate IsDigit(c: char) { '0' <= c <= '9' }
  predicate IsSpecial(c: char) { c in SpecialChars }

  /** /[A-Z]/.test(password) */
  predicate HasUpper(password: string) { exists i :: 0 <= i < |password| && IsUpper(password[i]) }
  /** /[a-z]/.test(password) */
  predicate HasLower(password: string) { exists i :: 0 <= i < |password| && IsLower(password[i]) }
  /** /\d/.test(password) */
  predicate HasDigit(password: string) { exists i :: 0 <= i < |password| && IsDigit(password[i]) }
  /** /[!@#$%^&*(),.?":{}|<>]/.test(password) */
  predicate HasSpecial(password: string) { exists i :: 0 <= i < |password| && IsSpecial(password[i]) }

  /** toLowerCase on one character: A-Z map to a-z, everything else is kept. */
  function LowerChar(c: char): (d: char)
    ensures !IsUpper(d)
    ensures !IsUpper(c) ==> d == c
    ensures IsUpper(c) ==> IsLower(d)
  {
    if IsUpper(c) then (c as int + 32) as char else c
  }

  /**
   toLowerCase on a string, character by character: no uppercase letter is left, each
   uppercase letter becomes a lowercase one, and every other character is kept.
   */
  function ToLower(s: string): (t: string)
    ensures |t| == |s|
    ensures forall i :: 0 <= i < |t| ==> !IsUpper(t[i])
    ensures forall i :: 0 <= i < |s| ==> if IsUpper(s[i]) then IsLower(t[i]) else t[i] == s[i]
  {
    seq(|s|, i requires 0 <= i < |s| => LowerChar(s[i]))
  }

  /** pattern occurs in text starting at index i. */
  predicate OccursAt(text: string, pattern: string, i: nat)
    requires i + |pattern| <= |text|
  {
    text[i..i + |pattern|] == pattern
  }

  /** text.includes(pattern) */
  predicate Contains(text: string, pattern: string)
  {
    exists i: nat :: i + |pattern| <= |text| && OccursAt(text, pattern, i)
  }

  /** commonPatterns.some(pattern => password.toLowerCase().includes(pattern)) */
  predicate HasCommonPattern(password: string)
  {
    exists k :: 0 <= k < |CommonPatterns| && Contains(ToLower(password), CommonPatterns[k])
  }

  /** The size of new Set(password.split('')). */
  function DistinctChars(password: string): (d: nat)
    ensures d <= |password|
    ensures |password| > 0 ==> d >= 1
  {
    CharSetSize(password);
    |CharSet(password)|
  }

  function CharSet(s: string): set<char>
  {
    set c | c in s
  }

  lemma {:induction false} CharSetSize(s: string)
    ensures |CharSet(s)| <= |s|
    ensures |s| > 0 ==> |CharSet(s)| >= 1
  {
    if |s| > 0 {
      var init := s[..|s| - 1];
      CharSetSize(init);
      assert CharSet(s) == CharSet(init) + {s[|s| - 1]};
      assert s[0] in CharSet(s);
    }
  }

  /** calculateEntropy(password) */
  function CalculateEntropy(password: string): (e: Entropy)
    ensures e.length == |password|
    ensures e.distinct <= e.length
    ensures e.length > 0 ==> e.distinct >= 1
  {
    Entropy(DistinctChars(password), |password|)
  }

  /**
   b to the power e: distinct^length, the number of strings of that length over the
   password's own characters. RandomBounds.Pow256 is the fixed-base power of the
   other module; the two modules share nothing else.
   */
  function Pow(b: nat, e: nat): nat
  {
    if e == 0 then 1 else b * Pow(b, e - 1)
  }

  /** entropy < 3, that is log2(distinct^length) < 3, that is distinct^length < 8. */
  predicate BelowThreeBits(e: Entropy)
  {
    Pow(e.distinct, e.length) < 8
  }

  lemma {:induction false} PowBaseMonotone(a: nat, b: nat, e: nat)
    requires a <= b
    ensures Pow(a, e) <= Pow(b, e)
  {
    if e > 0 {
      PowBaseMonotone(a, b, e - 1);
      MulMonotone(a, b, Pow(a, e - 1), Pow(b, e - 1));
    }
  }

  lemma MulMonotone(a: nat, b: nat, x: nat, y: nat)
    requires a <= b && x <= y
    ensures a * x <= b * y
  {
    assert a * x <= b * x;
  }

  lemma {:induction false} PowExpMonotone(b: nat, e: nat, f: nat)
    requires b >= 1 && e <= f
    ensures Pow(b, e) <= Pow(b, f)
    decreases f
  {
    if e < f {
      PowExpMonotone(b, e, f - 1);
      assert Pow(b, f - 1) <= b * Pow(b, f - 1);
    }
  }

  lemma {:induction false} PowOfOne(e: nat)
    ensures Pow(1, e) == 1
  {
    if e > 0 {
      PowOfOne(e - 1);
    }
  }

  /**
   The entropy check fails exactly for passwords of at most two characters and for
   passwords that repeat a single character.
   */
  lemma LowEntropyIff(password: string)
    ensures BelowThreeBits(CalculateEntropy(password)) <==> |password| <= 2 || DistinctChars(password) <= 1
  {
    var e := CalculateEntropy(password);
    var d, n := e.distinct, e.length;
    if n <= 2 {
      PowBaseMonotone(d, 2, n);
      PowExpMonotone(2, n, 2);
      assert Pow(2, 2) == 4;
    } else if d <= 1 {
      PowOfOne(n);
      assert d == 1;
    } else {
      PowBaseMonotone(2, d, n);
      PowExpMonotone(2, 3, n);
      assert Pow(2, 3) == 8;
    }
  }

  /** The number of checks checkStrength runs. */
  const CheckCount: nat := 7

  /** Whether check k (in running order) fails on password under settings p. */
  predicate Failed(p: Settings, password: string, k: nat)
    requires k < CheckCount
  {
    match k
    case 0 => |password| < p.minLength
    case 1 => p.requireUppercase && !HasUpper(password)
    case 2 => p.requireLowercase && !HasLower(password)
    case 3 => p.requireNumbers && !HasDigit(password)
    case 4 => p.requireSpecialChars && !HasSpecial(password)
    case 5 => HasCommonPattern(password)
    case _ => BelowThreeBits(CalculateEntropy(password))
  }

  /** The issue check k reports when it fails. */
  function IssueOf(p: Settings, k: nat): (issue: Issue)
    requires k < CheckCount
    ensures Rank(issue) == k
  {
    match k
    case 0 => TooShort(p.minLength)
    case 1 => NoUppercase
    case 2 => NoLowercase
    case 3 => NoNumber
    case 4 => NoSpecialChar
    case 5 => CommonPattern
    case _ => LowEntropy
  }

  function Point(passed: bool): int
  {
    if passed then 1 else 0
  }

  /**
   What check k adds to the score: a point when it passes, except that a disabled class
   check adds nothing and the common-pattern check only ever takes a point away.
   */
  function Points(p: Settings, password: string, k: nat): int
    requires k < CheckCount
  {
    match k
    case 0 => Point(!Failed(p, password, 0))
    case 1 => Point(p.requireUppercase && !Failed(p, password, 1))
    case 2 => Point(p.requireLowercase && !Failed(p, password, 2))
    case 3 => Point(p.requireNumbers && !Failed(p, password, 3))
    case 4 => Point(p.requireSpecialChars && !Failed(p, password, 4))
    case 5 => -Point(Failed(p, password, 5))
    case _ => Point(!Failed(p, password, 6))
  }

  /** The issues reported by the first k checks, in order. */
  function IssuesUpTo(p: Settings, password: string, k: nat): seq<Issue>
    requires k <= CheckCount
  {
    if k == 0 then []
    else if Failed(p, password, k - 1) then IssuesUpTo(p, password, k - 1) + [IssueOf(p, k - 1)]
    else IssuesUpTo(p, password, k - 1)
  }

  /** The score after the first k checks. */
  function ScoreUpTo(p: Settings, password: string, k: nat): int
    requires k <= CheckCount
  {
    if k == 0 then 0 else ScoreUpTo(p, password, k - 1) + Points(p, password, k - 1)
  }

  /** Whether none of the first k checks fails. */
  predicate StrongUpTo(p: Settings, password: string, k: nat)
    requires k <= CheckCount
  {
    k == 0 || (StrongUpTo(p, password, k - 1) && !Failed(p, password, k - 1))
  }

  lemma {:induction false} StrongIffNoIssues(p: Settings, password: string, k: nat)
    requires k <= CheckCount
    ensures StrongUpTo(p, password, k) <==> IssuesUpTo(p, password, k) == []
  {
    if k > 0 {
      StrongIffNoIssues(p, password, k - 1);
    }
  }

  /** The issues checkStrength reports under settings p. */
  function Issues(p: Settings, password: string): seq<Issue>
  {
    IssuesUpTo(p, password, CheckCount)
  }

  /** The score checkStrength reports under settings p. */
  function Score(p: Settings, password: string): int
  {
    ScoreUpTo(p, password, CheckCount)
  }

  /** How many of the four character-class checks the settings switch on. */
  function EnabledChecks(p: Settings): nat
  {
    Point(p.requireUppercase) + Point(p.requireLowercase) + Point(p.requireNumbers) + Point(p.requireSpecialChars)
  }

  class PasswordStrengthChecker {
    var minLength: int
    var requireUppercase: bool
    var requireLowercase: bool
    var requireNumbers: bool
    var requireSpecialChars: bool

    /** A fresh checker asks for 8 characters and all four character classes. */
    constructor ()
      ensures Current() == DefaultSettings
    {
      minLength := 8;
      requireUppercase := true;
      requireLowercase := true;
      requireNumbers := true;
      requireSpecialChars := true;
    }

    /** The settings the checker's fields hold now. */
    function Current(): Settings
      reads this
    {
      Settings(minLength, requireUppercase, requireLowercase, requireNumbers, requireSpecialChars)
    }

    /**
     checkStrength(password): runs the checks in order, each failure pushing its issue
     and clearing isStrong, each pass of an enabled check adding a point; a common
     pattern costs a point.
     */
    method CheckStrength(password: string) returns (results: StrengthResult)
      ensures results.issues == Issues(Current(), password)
      ensures results.score == Score(Current(), password)
      ensures results.isStrong <==> results.issues == []
      ensures results.entropy == CalculateEntropy(password)
    {
      var isStrong := true;
      var issues: seq<Issue> := [];
      var score := 0;
      // After check k, issues, score and isStrong are those of the first k checks.
      ghost var p := Current();

      if |password| < minLength {
        issues := issues + [TooShort(minLength)];
        isStrong := false;
      } else {
        score := score + 1;
      }
      assert issues == IssuesUpTo(p, password, 1) && score == ScoreUpTo(p, password, 1);
      assert isStrong == StrongUpTo(p, password, 1);

      if requireUppercase && !HasUpper(password) {
        issues := issues + [NoUppercase];
        isStrong := false;
      } else if requireUppercase {
        score := score + 1;
      }
      assert issues == IssuesUpTo(p, password, 2) && score == ScoreUpTo(p, password, 2);
      assert isStrong == StrongUpTo(p, password, 2);

      if requireLowercase && !HasLower(password) {
        issues := issues + [NoLowercase];
        isStrong := false;
      } else if requireLowercase {
        score := score + 1;
      }
      assert issues == IssuesUpTo(p, password, 3) && score == ScoreUpTo(p, password, 3);
      assert isStrong == StrongUpTo(p, password, 3);

      if requireNumbers && !HasDigit(password) {
        issues := issues + [NoNumber];
        isStrong := false;
      } else if requireNumbers {
        score := score + 1;
      }
      assert issues == IssuesUpTo(p, password, 4) && score == ScoreUpTo(p, password, 4);
      assert isStrong == StrongUpTo(p, password, 4);

      if requireSpecialChars && !HasSpecial(password) {
        issues := issues + [NoSpecialChar];
        isStrong := false;
      } else if requireSpecialChars {
        score := score + 1;
      }
      assert issues == IssuesUpTo(p, password, 5) && score == ScoreUpTo(p, password, 5);
      assert isStrong == StrongUpTo(p, password, 5);

      if HasCommonPattern(password) {
        issues := issues + [CommonPattern];
        isStrong := false;
        score := score - 1;
      }
      assert issues == IssuesUpTo(p, password, 6) && score == ScoreUpTo(p, password, 6);
      assert isStrong == StrongUpTo(p, password, 6);

      var entropy := CalculateEntropy(password);
      if BelowThreeBits(entropy) {
        issues := issues + [LowEntropy];
        isStrong := false;
      } else {
        score := score + 1;
      }

      assert isStrong == StrongUpTo(p, password, CheckCount);
      StrongIffNoIssues(p, password, CheckCount);
      results := StrengthResult(isStrong, issues, score, entropy);
    }
  }

  // Properties of the checks.

  /** Issue k is among the issues of the first n checks exactly when k < n and check k fails. */
  lemma {:induction false} IssueAmongFirst(p: Settings, password: string, k: nat, n: nat)
    requires k < CheckCount && n <= CheckCount
    ensures IssueOf(p, k) in IssuesUpTo(p, password, n) <==> k < n && Failed(p, password, k)
  {
    if n > 0 {
      IssueAmongFirst(p, password, k, n - 1);
      assert IssueOf(p, k) == IssueOf(p, n - 1) ==> k == n - 1 by {
        if IssueOf(p, k) == IssueOf(p, n - 1) {
          assert Rank(IssueOf(p, k)) == Rank(IssueOf(p, n - 1));
        }
      }
    }
  }

  /** The issue of check k is reported exactly when check k fails. */
  lemma IssueReportedIff(p: Settings, password: string, k: nat)
    requires k < CheckCount
    ensures IssueOf(p, k) in Issues(p, password) <==> Failed(p, password, k)
  {
    IssueAmongFirst(p, password, k, CheckCount);
  }

  /** A password shorter than the minimum gets the length issue naming that minimum, and only then. */
  lemma LengthIssue(p: Settings, password: string)
    ensures TooShort(p.minLength) in Issues(p, password) <==> |password| < p.minLength
  {
    IssueReportedIff(p, password, 0);
  }

  /** A required character class that the password lacks gets its issue, and only then. */
  lemma ClassIssues(p: Settings, password: string)
    ensures NoUppercase in Issues(p, password) <==> p.requireUppercase && !HasUpper(password)
    ensures NoLowercase in Issues(p, password) <==> p.requireLowercase && !HasLower(password)
    ensures NoNumber in Issues(p, password) <==> p.requireNumbers && !HasDigit(password)
    ensures NoSpecialChar in Issues(p, password) <==> p.requireSpecialChars && !HasSpecial(password)
  {
    IssueReportedIff(p, password, 1);
    IssueReportedIff(p, password, 2);
    IssueReportedIff(p, password, 3);
    IssueReportedIff(p, password, 4);
  }

  /** A password whose lowercase form contains a common pattern gets the pattern issue, and only then. */
  lemma CommonPatternIssue(p: Settings, password: string)
    ensures CommonPattern in Issues(p, password) <==>
      exists k :: 0 <= k < |CommonPatterns| && Contains(ToLower(password), CommonPatterns[k])
  {
    IssueReportedIff(p, password, 5);
  }

  /**
   The entropy issue is reported exactly when distinct^length < 8: for passwords of at
   most two characters and for passwords made of one repeated character.
   */
  lemma LowEntropyIssue(p: Settings, password: string)
    ensures LowEntropy in Issues(p, password) <==> BelowThreeBits(CalculateEntropy(password))
    ensures LowEntropy in Issues(p, password) <==> |password| <= 2 || DistinctChars(password) <= 1
  {
    IssueReportedIff(p, password, 6);
    assert IssueOf(p, 6) == LowEntropy && (Failed(p, password, 6) <==> BelowThreeBits(CalculateEntropy(password)));
    LowEntropyIff(password);
  }

  /** The issues of the first n checks come from those checks, in the order they run. */
  lemma {:induction false} IssuesUpToOrdered(p: Settings, password: string, n: nat)
    requires n <= CheckCount
    ensures forall i :: 0 <= i < |IssuesUpTo(p, password, n)| ==> Rank(IssuesUpTo(p, password, n)[i]) < n
    ensures forall i, j :: 0 <= i < j < |IssuesUpTo(p, password, n)| ==>
      Rank(IssuesUpTo(p, password, n)[i]) < Rank(IssuesUpTo(p, password, n)[j])
  {
    if n > 0 {
      IssuesUpToOrdered(p, password, n - 1);
    }
  }

  /** The issues appear in the order the checks run, so none appears twice. */
  lemma IssuesInCheckOrder(p: Settings, password: string)
    ensures forall i, j :: 0 <= i < j < |Issues(p, password)| ==>
      Rank(Issues(p, password)[i]) < Rank(Issues(p, password)[j])
    ensures |Issues(p, password)| <= CheckCount
  {
    var issues := Issues(p, password);
    IssuesUpToOrdered(p, password, CheckCount);
    if |issues| > 0 {
      RanksClimb(issues, |issues| - 1);
    }
  }

  lemma {:induction false} RanksClimb(issues: seq<Issue>, i: nat)
    requires i < |issues|
    requires forall a, b :: 0 <= a < b < |issues| ==> Rank(issues[a]) < Rank(issues[b])
    ensures Rank(issues[i]) >= i
  {
    if i > 0 {
      RanksClimb(issues, i - 1);
    }
  }

  /** The point check k adds when it passes: one, except for a disabled class check and the pattern check. */
  function Reward(p: Settings, k: nat): (r: nat)
    requires k < CheckCount
    ensures r <= 1
  {
    match k
    case 1 => Point(p.requireUppercase)
    case 2 => Point(p.requireLowercase)
    case 3 => Point(p.requireNumbers)
    case 4 => Point(p.requireSpecialChars)
    case 5 => 0
    case _ => 1
  }

  /** The score the first k checks give when all of them pass. */
  function TopScoreUpTo(p: Settings, k: nat): nat
    requires k <= CheckCount
  {
    if k == 0 then 0 else TopScoreUpTo(p, k - 1) + Reward(p, k - 1)
  }

  /** Each check either reports an issue or adds its point; a common pattern reports one and takes one. */
  lemma {:induction false} ScorePlusIssuesUpTo(p: Settings, password: string, k: nat)
    requires k <= CheckCount
    ensures ScoreUpTo(p, password, k) + |IssuesUpTo(p, password, k)| == TopScoreUpTo(p, k)
  {
    if k > 0 {
      ScorePlusIssuesUpTo(p, password, k - 1);
    }
  }

  /**
   The score is the number of checks that can add a point (length, the enabled classes
   and entropy) less the number of issues.
   */
  lemma ScoreCountsIssues(p: Settings, password: string)
    ensures Score(p, password) == 2 + EnabledChecks(p) - |Issues(p, password)|
  {
    ScorePlusIssuesUpTo(p, password, CheckCount);
    assert TopScoreUpTo(p, 1) == 1;
    assert TopScoreUpTo(p, 3) == 1 + Point(p.requireUppercase) + Point(p.requireLowercase);
    assert TopScoreUpTo(p, 5) == 1 + EnabledChecks(p);
    assert TopScoreUpTo(p, 7) == 2 + EnabledChecks(p);
  }

  /** Two different characters make at least two distinct characters. */
  lemma TwoDistinctChars(s: string, i: nat, j: nat)
    requires i < |s| && j < |s| && s[i] != s[j]
    ensures DistinctChars(s) >= 2
  {
    var rest := CharSet(s) - {s[i]};
    assert s[j] in rest;
    assert CharSet(s) == rest + {s[i]};
  }

  /**
   A password holding a common pattern has at least five characters, two of them
   different, so it never fails the entropy check.
   */
  lemma CommonPatternHasEntropy(password: string)
    requires HasCommonPattern(password)
    ensures |password| >= 5 && DistinctChars(password) >= 2
    ensures !BelowThreeBits(CalculateEntropy(password))
  {
    var lower := ToLower(password);
    var k :| 0 <= k < |CommonPatterns| && Contains(lower, CommonPatterns[k]);
    var pattern := CommonPatterns[k];
    var i: nat :| i + |pattern| <= |lower| && OccursAt(lower, pattern, i);
    assert |pattern| >= 5 && pattern[0] != pattern[1];
    assert lower[i] == pattern[0] && lower[i + 1] == pattern[1];
    TwoDistinctChars(password, i, i + 1);
    LowEntropyIff(password);
  }

  lemma {:induction false} ScoreUpToNonNegative(p: Settings, password: string, k: nat)
    requires k <= 5
    ensures ScoreUpTo(p, password, k) >= 0
  {
    if k > 0 {
      ScoreUpToNonNegative(p, password, k - 1);
    }
  }

  /**
   The score never goes negative: the point a common pattern takes away is always
   made up by the entropy check, which such a password passes.
   */
  lemma ScoreBounds(p: Settings, password: string)
    ensures 0 <= Score(p, password) <= 2 + EnabledChecks(p)
  {
    ScoreCountsIssues(p, password);
    ScoreUpToNonNegative(p, password, 5);
    if HasCommonPattern(password) {
      CommonPatternHasEntropy(password);
    }
    assert ScoreUpTo(p, password, 6) == ScoreUpTo(p, password, 5) + Points(p, password, 5);
    assert Score(p, password) == ScoreUpTo(p, password, 6) + Points(p, password, 6);
  }

  /**
   Under the default policy the score is 6 less the number of issues, between 0 and 6,
   and it is 6 exactly when there is no issue, that is when the password is strong.
   */
  lemma DefaultPolicyScore(password: string)
    ensures Score(DefaultSettings, password) == 6 - |Issues(DefaultSettings, password)|
    ensures 0 <= Score(DefaultSettings, password) <= 6
    ensures Score(DefaultSettings, password) == 6 <==> Issues(DefaultSettings, password) == []
  {
    ScoreCountsIssues(DefaultSettings, password);
    ScoreBounds(DefaultSettings, password);
  }

  /** Lowercasing twice is lowercasing once. */
  lemma ToLowerIdempotent(s: string)
    ensures ToLower(ToLower(s)) == ToLower(s)
  {
    assert forall i :: 0 <= i < |s| ==> ToLower(ToLower(s))[i] == ToLower(s)[i];
  }

  /** The pattern check ignores case: a password and its lowercase form get the same verdict. */
  lemma CommonPatternIgnoresCase(password: string)
    ensures HasCommonPattern(ToLower(password)) <==> HasCommonPattern(password)
  {
    ToLowerIdempotent(password);
  }
}
