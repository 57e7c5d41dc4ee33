/** Password policies: the one-pass checks and the rules they stand for. */
module PasswordPolicy {
  import opened Text

  datatype Policy = Policy(
    minLength: nat,
    maxLength: nat,
    requireUppercase: bool,
    requireLowercase: bool,
    requireDigit: bool,
    requireSpecial: bool,
    minUniqueChars: nat,
    maxIdenticalConsecutive: nat,
    disallowedPasswords: seq<string>)

  const DEFAULT: Policy := Policy(8, 128, true, true, true, false, 0, 0, [])

  datatype Rule =
    | MinLength
    | MaxLength
    | RequireUppercase
    | RequireLowercase
    | RequireDigit
    | RequireSpecial
    | MinUniqueChars
    | MaxIdenticalConsecutive
    | DisallowedPassword

  predicate IsUpper(c: char) { 'A' <= c <= 'Z' }

  predicate IsLower(c: char) { 'a' <= c <= 'z' }

  predicate IsDigit(c: char) { '0' <= c <= '9' }

  predicate IsSpecial(c: char) { !IsUpper(c) && !IsLower(c) && !IsDigit(c) }

  /** `n` adjacent characters starting at `i` are the same. */
  ghost predicate SameFrom(s: string, i: nat, n: nat) {
    i + n <= |s| && forall j :: i <= j < i + n ==> s[j] == s[i]
  }

  ghost predicate HasRun(s: string, n: nat) {
    exists i :: 0 <= i <= |s| && SameFrom(s, i, n)
  }

  /** What each rule forbids; `lower` is Unicode lower-casing. */
  ghost predicate Broken(rule: Rule, p: Policy, password: string, lower: string -> string) {
    match rule
    case MinLength => ByteLength(password) < p.minLength
    case MaxLength => ByteLength(password) > p.maxLength
    case RequireUppercase => p.requireUppercase && !exists c :: c in password && 'A' <= c <= 'Z'
    case RequireLowercase => p.requireLowercase && !exists c :: c in password && 'a' <= c <= 'z'
    case RequireDigit => p.requireDigit && !exists c :: c in password && '0' <= c <= '9'
    case RequireSpecial =>
      p.requireSpecial && forall c :: c in password ==> 'A' <= c <= 'Z' || 'a' <= c <= 'z' || '0' <= c <= '9'
    case MinUniqueChars => |set c | c in password| < p.minUniqueChars
    case MaxIdenticalConsecutive => p.maxIdenticalConsecutive > 0 && HasRun(password, p.maxIdenticalConsecutive + 1)
    case DisallowedPassword => exists d :: d in p.disallowedPasswords && lower(d) == lower(password)
  }

  const RULES: seq<Rule> := [
    MinLength, MaxLength, RequireUppercase, RequireLowercase, RequireDigit, RequireSpecial, MinUniqueChars,
    MaxIdenticalConsecutive, DisallowedPassword]

  /** The broken ones of the first `k` rules, in the order in which they are checked. */
  ghost function BrokenRules(k: nat, p: Policy, password: string, lower: string -> string): seq<Rule>
    requires k <= |RULES|
  {
    if k == 0 then []
    else
      BrokenRules(k - 1, p, password, lower)
      + if Broken(RULES[k - 1], p, password, lower) then [RULES[k - 1]] else []
  }

  lemma OneMore(k: nat, rule: Rule, broken: bool, p: Policy, password: string, lower: string -> string)
    requires k < |RULES| && RULES[k] == rule && (broken <==> Broken(rule, p, password, lower))
    ensures BrokenRules(k + 1, p, password, lower)
         == BrokenRules(k, p, password, lower) + if broken then [rule] else []
  {
  }

  method CharacterClasses(password: string) returns (upper: bool, lower: bool, digit: bool, special: bool)
    ensures upper <==> exists c :: c in password && IsUpper(c)
    ensures lower <==> exists c :: c in password && IsLower(c)
    ensures digit <==> exists c :: c in password && IsDigit(c)
    ensures special <==> exists c :: c in password && IsSpecial(c)
  {
    upper, lower, digit, special := false, false, false, false;
    for i := 0 to |password|
      invariant upper <==> exists c :: c in password[..i] && IsUpper(c)
      invariant lower <==> exists c :: c in password[..i] && IsLower(c)
      invariant digit <==> exists c :: c in password[..i] && IsDigit(c)
      invariant special <==> exists c :: c in password[..i] && IsSpecial(c)
    {
      var ch := password[i];
      assert password[..i + 1] == password[..i] + [ch];
      if IsUpper(ch) {
        upper := true;
      } else if IsLower(ch) {
        lower := true;
      } else if IsDigit(ch) {
        digit := true;
      } else {
        assert IsSpecial(ch);
        special := true;
      }
    }
    assert password[..|password|] == password;
  }

  /** The run of equal characters that ends the text is `n` long. */
  ghost predicate EndsWithRun(s: string, n: nat) {
    1 <= n <= |s| && SameFrom(s, |s| - n, n) && (n < |s| ==> s[|s| - n - 1] != s[|s| - n])
  }

  lemma RunAtEnd(s: string, run: nat, i: nat, n: nat)
    requires EndsWithRun(s, run) && 1 <= n && i + n == |s| && SameFrom(s, i, n)
    ensures n <= run
  {
  }

  /** One more character: a run is one that was there, or one that ends with it. */
  lemma RunsGrow(s: string, c: char, run: nat, n: nat)
    requires EndsWithRun(s + [c], run) && n >= 1
    ensures HasRun(s + [c], n) <==> HasRun(s, n) || n <= run
  {
    var t := s + [c];
    if i :| 0 <= i <= |t| && SameFrom(t, i, n) {
      if i + n <= |s| {
        assert forall j :: i <= j < i + n ==> t[j] == s[j];
        assert SameFrom(s, i, n);
      } else {
        RunAtEnd(t, run, i, n);
      }
    }
    if i :| 0 <= i <= |s| && SameFrom(s, i, n) {
      assert forall j :: i <= j < i + n ==> t[j] == s[j];
      assert SameFrom(t, i, n);
    }
    if n <= run {
      assert SameFrom(t, |t| - n, n);
    }
  }

  /** The one-pass counter. For a non-empty text it is the length of the longest run. */
  method LongestRun(password: string) returns (maxRun: nat)
    requires password != ""
    ensures forall n :: n >= 1 ==> (HasRun(password, n) <==> n <= maxRun)
  {
    maxRun := 1;
    var currentRun := 1;
    var prev: Option<char> := None;
    for i := 0 to |password|
      invariant prev == if i == 0 then None else Some(password[i - 1])
      invariant 1 <= currentRun <= maxRun
      invariant i == 0 ==> currentRun == maxRun == 1
      invariant i > 0 ==> EndsWithRun(password[..i], currentRun)
      invariant i > 0 ==> forall n :: n >= 1 ==> (HasRun(password[..i], n) <==> n <= maxRun)
    {
      var ch := password[i];
      var front := password[..i];
      assert password[..i + 1] == front + [ch];
      if Some(ch) == prev {
        currentRun := currentRun + 1;
        if currentRun > maxRun {
          maxRun := currentRun;
        }
      } else {
        currentRun := 1;
      }
      prev := Some(ch);
      assert EndsWithRun(front + [ch], currentRun);
      forall n | n >= 1
        ensures HasRun(front + [ch], n) <==> HasRun(front, n) || n <= currentRun
      {
        RunsGrow(front, ch, currentRun, n);
      }
    }
    assert password[..|password|] == password;
  }

  method IsDisallowed(password: string, disallowed: seq<string>, lower: string -> string) returns (found: bool)
    ensures found <==> exists d :: d in disallowed && lower(d) == lower(password)
  {
    found := false;
    for i := 0 to |disallowed|
      invariant forall d :: d in disallowed[..i] ==> lower(d) != lower(password)
    {
      assert disallowed[..i + 1] == disallowed[..i] + [disallowed[i]];
      if lower(password) == lower(disallowed[i]) {
        return true;
      }
    }
    assert disallowed[..|disallowed|] == disallowed;
  }

  lemma EmptyHasNoRun(n: nat)
    requires n >= 1
    ensures !HasRun("", n)
  {
  }

  /** Which of the four character-class rules are broken. */
  method MissingClasses(p: Policy, password: string, ghost lower: string -> string)
    returns (noUpper: bool, noLower: bool, noDigit: bool, noSpecial: bool)
    ensures noUpper <==> Broken(RequireUppercase, p, password, lower)
    ensures noLower <==> Broken(RequireLowercase, p, password, lower)
    ensures noDigit <==> Broken(RequireDigit, p, password, lower)
    ensures noSpecial <==> Broken(RequireSpecial, p, password, lower)
  {
    var hasUpper, hasLower, hasDigit, hasSpecial := CharacterClasses(password);
    noUpper := p.requireUppercase && !hasUpper;
    noLower := p.requireLowercase && !hasLower;
    noDigit := p.requireDigit && !hasDigit;
    noSpecial := p.requireSpecial && !hasSpecial;
  }

  /** Whether the longest run is too long; the empty password has none. */
  method RunTooLong(p: Policy, password: string) returns (broken: bool)
    ensures broken <==> p.maxIdenticalConsecutive > 0 && HasRun(password, p.maxIdenticalConsecutive + 1)
  {
    broken := false;
    if p.maxIdenticalConsecutive > 0 && password != "" {
      var maxRun := LongestRun(password);
      broken := maxRun > p.maxIdenticalConsecutive;
    } else {
      EmptyHasNoRun(p.maxIdenticalConsecutive + 1);
    }
  }

  /** Two rules checked one after the other. */
  method CheckTwo(
    ghost k: nat, first: Rule, firstBroken: bool, second: Rule, secondBroken: bool, before: seq<Rule>,
    ghost p: Policy, ghost password: string, ghost lower: string -> string)
    returns (violated: seq<Rule>)
    requires k + 1 < |RULES| && RULES[k] == first && RULES[k + 1] == second
    requires firstBroken <==> Broken(first, p, password, lower)
    requires secondBroken <==> Broken(second, p, password, lower)
    requires before == BrokenRules(k, p, password, lower)
    ensures violated == BrokenRules(k + 2, p, password, lower)
  {
    violated := before;
    if firstBroken {
      violated := violated + [first];
    }
    OneMore(k, first, firstBroken, p, password, lower);
    if secondBroken {
      violated := violated + [second];
    }
    OneMore(k + 1, second, secondBroken, p, password, lower);
  }

  method CheckLengths(p: Policy, password: string, ghost lower: string -> string) returns (violated: seq<Rule>)
    ensures violated == BrokenRules(2, p, password, lower)
  {
    var tooShort, tooLong := ByteLength(password) < p.minLength, ByteLength(password) > p.maxLength;
    violated := CheckTwo(0, MinLength, tooShort, MaxLength, tooLong, [], p, password, lower);
  }

  method CheckClasses(p: Policy, password: string, ghost lower: string -> string, before: seq<Rule>)
    returns (violated: seq<Rule>)
    requires before == BrokenRules(2, p, password, lower)
    ensures violated == BrokenRules(6, p, password, lower)
  {
    var noUpper, noLower, noDigit, noSpecial := MissingClasses(p, password, lower);
    violated := CheckTwo(2, RequireUppercase, noUpper, RequireLowercase, noLower, before, p, password, lower);
    violated := CheckTwo(4, RequireDigit, noDigit, RequireSpecial, noSpecial, violated, p, password, lower);
  }

  method CheckRepetition(p: Policy, password: string, ghost lower: string -> string, before: seq<Rule>)
    returns (violated: seq<Rule>)
    requires before == BrokenRules(6, p, password, lower)
    ensures violated == BrokenRules(8, p, password, lower)
  {
    var tooFew := p.minUniqueChars > 0 && |set c | c in password| < p.minUniqueChars;
    var runTooLong := RunTooLong(p, password);
    violated := CheckTwo(
      6, MinUniqueChars, tooFew, MaxIdenticalConsecutive, runTooLong, before, p, password, lower);
  }

  /** The rules reported are exactly the broken ones, in the order of the checks. */
  method ValidatePassword(p: Policy, password: string, lower: string -> string) returns (violated: seq<Rule>)
    ensures violated == BrokenRules(|RULES|, p, password, lower)
  {
    violated := CheckLengths(p, password, lower);
    violated := CheckClasses(p, password, lower, violated);
    violated := CheckRepetition(p, password, lower, violated);
    var disallowed := IsDisallowed(password, p.disallowedPasswords, lower);
    if disallowed {
      violated := violated + [DisallowedPassword];
    }
    OneMore(8, DisallowedPassword, disallowed, p, password, lower);
  }

  lemma {:induction false} BrokenRulesAre(k: nat, p: Policy, password: string, lower: string -> string)
    requires k <= |RULES|
    ensures forall r :: r in BrokenRules(k, p, password, lower) <==> r in RULES[..k] && Broken(r, p, password, lower)
  {
    if k > 0 {
      BrokenRulesAre(k - 1, p, password, lower);
      assert RULES[..k] == RULES[..k - 1] + [RULES[k - 1]];
    }
  }

  lemma EveryRuleIsChecked(r: Rule)
    ensures r in RULES
  {
  }

  /** Every rule is reported exactly when the password breaks it. */
  lemma ReportedExactly(p: Policy, password: string, lower: string -> string, r: Rule)
    ensures r in BrokenRules(|RULES|, p, password, lower) <==> Broken(r, p, password, lower)
  {
    BrokenRulesAre(|RULES|, p, password, lower);
    EveryRuleIsChecked(r);
    assert RULES[..|RULES|] == RULES;
  }

  ghost predicate HasThreeClasses(password: string) {
    && (exists c :: c in password && 'A' <= c <= 'Z')
    && (exists c :: c in password && 'a' <= c <= 'z')
    && (exists c :: c in password && '0' <= c <= '9')
  }

  ghost predicate Strong(password: string) {
    ByteLength(password) >= 8 && HasThreeClasses(password)
  }

  method IsStrongPassword(password: string) returns (strong: bool)
    ensures strong <==> Strong(password)
  {
    if ByteLength(password) < 8 {
      return false;
    }
    var upper, lower, digit, _ := CharacterClasses(password);
    strong := upper && lower && digit;
  }

  lemma DefaultRules(password: string, lower: string -> string, r: Rule)
    ensures Broken(r, DEFAULT, password, lower) <==>
              match r
              case MinLength => ByteLength(password) < 8
              case MaxLength => ByteLength(password) > 128
              case RequireUppercase => !exists c :: c in password && 'A' <= c <= 'Z'
              case RequireLowercase => !exists c :: c in password && 'a' <= c <= 'z'
              case RequireDigit => !exists c :: c in password && '0' <= c <= '9'
              case _ => false
  {
  }

  /** The default policy is the older strength check with a limit of 128 bytes added. */
  lemma DefaultIsStrongUpTo128Bytes(password: string, lower: string -> string)
    ensures BrokenRules(|RULES|, DEFAULT, password, lower) == [] <==>
              Strong(password) && ByteLength(password) <= 128
  {
    var broken := BrokenRules(|RULES|, DEFAULT, password, lower);
    forall r: Rule
      ensures r in broken <==> Broken(r, DEFAULT, password, lower)
    {
      ReportedExactly(DEFAULT, password, lower, r);
    }
    if broken == [] {
      DefaultRules(password, lower, MinLength);
      DefaultRules(password, lower, MaxLength);
      DefaultRules(password, lower, RequireUppercase);
      DefaultRules(password, lower, RequireLowercase);
      DefaultRules(password, lower, RequireDigit);
      assert MinLength !in broken && MaxLength !in broken && RequireUppercase !in broken;
      assert RequireLowercase !in broken && RequireDigit !in broken;
    } else {
      assert broken[0] in broken;
      DefaultRules(password, lower, broken[0]);
    }
  }

  // ----- Bytes and characters -----

  /** The strength that the documentation promises: eight characters. */
  ghost predicate StrongInCharacters(password: string) {
    |password| >= 8 && HasThreeClasses(password)
  }

  /** Six characters are enough when three of them take two bytes each. */
  lemma SixCharactersAreStrong()
    ensures var password := "Aa1\U{E9}\U{E9}\U{E9}";
            |password| == 6 && Strong(password) && !StrongInCharacters(password)
  {
    var password := "Aa1\U{E9}\U{E9}\U{E9}";
    assert password[1..] == "a1\U{E9}\U{E9}\U{E9}" && password[1..][1..] == "1\U{E9}\U{E9}\U{E9}";
    assert password[3..] == "\U{E9}\U{E9}\U{E9}" && password[1..][1..][1..] == password[3..];
    assert password[3..][1..] == "\U{E9}\U{E9}" && password[3..][1..][1..] == "\U{E9}";
    assert ByteLength("\U{E9}\U{E9}") == 4;
    assert password[0] == 'A' && password[1] == 'a' && password[2] == '1';
    assert 'A' in password && 'a' in password && '1' in password;
  }

  /** Counting bytes never refuses what counting characters accepts, and in ASCII they agree. */
  lemma CharactersSuffice(password: string)
    ensures StrongInCharacters(password) ==> Strong(password)
    ensures IsAscii(password) ==> (StrongInCharacters(password) <==> Strong(password))
  {
    BytesAndCharacters(password);
  }

  /** The length rules count characters, whatever the limits, exactly on ASCII passwords. */
  lemma LengthRulesCountCharactersExactly(password: string, lower: string -> string)
    ensures IsAscii(password) <==>
              forall p: Policy ::
                && (Broken(MinLength, p, password, lower) <==> |password| < p.minLength)
                && (Broken(MaxLength, p, password, lower) <==> |password| > p.maxLength)
  {
    BytesAndCharacters(password);
    var p := DEFAULT.(minLength := |password| + 1);
    assert !IsAscii(password) ==> !Broken(MinLength, p, password, lower);
  }
}
