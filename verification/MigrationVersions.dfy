/** The versions of migration files as the decimal numbers that they spell. */
module MigrationVersions {
  import opened Text
  import opened Ordering
  import opened MigrationOrder

  function Digit(d: nat): (c: char)
    requires d < 10
    ensures '0' <= c <= '9' && c as int - '0' as int == d
  {
    '0' + d as char
  }

  /** The decimal digits of a number. */
  function Decimal(n: nat): (s: string)
    ensures s != ""
  {
    if n < 10 then [Digit(n)] else Decimal(n / 10) + [Digit(n % 10)]
  }

  function Zeros(k: nat): (s: string)
    ensures |s| == k && forall i :: 0 <= i < k ==> s[i] == '0'
  {
    seq(k, _ => '0')
  }

  lemma CharAppends(s: string, c: char)
    requires '0' <= c <= '9'
    ensures Digits(s + [c]) == if Digits(s).None? then None else Some(Digits(s).value * 10 + (c as int - '0' as int))
  {
    var all := s + [c];
    assert all[..|all| - 1] == s && all[|all| - 1] == c;
  }

  lemma DigitsAppend(s: string, d: nat)
    requires d < 10
    ensures Digits(s + [Digit(d)]) == if Digits(s).None? then None else Some(Digits(s).value * 10 + d)
  {
    CharAppends(s, Digit(d));
  }

  lemma {:induction false} ZerosAdd(k: nat, s: string)
    ensures Digits(Zeros(k) + s) == Digits(s)
    decreases |s|, k
  {
    if s != "" {
      ZerosAdd(k, s[..|s| - 1]);
      assert (Zeros(k) + s)[..k + |s| - 1] == Zeros(k) + s[..|s| - 1];
    } else if k > 0 {
      ZerosAdd(k - 1, s);
      DigitsAppend(Zeros(k - 1), 0);
      assert Zeros(k) + s == Zeros(k - 1) + ['0'] && Zeros(k - 1) + s == Zeros(k - 1);
    } else {
      assert Zeros(0) + s == s;
    }
  }

  lemma OneMoreDigit(n: nat, d: nat)
    requires n > 0 && d < 10
    ensures Decimal(n * 10 + d) == Decimal(n) + [Digit(d)]
  {
    assert (n * 10 + d) / 10 == n && (n * 10 + d) % 10 == d;
  }

  lemma {:induction false} DecimalIsRead(n: nat)
    ensures Digits(Decimal(n)) == Some(n)
  {
    var front, last := n / 10, n % 10;
    if n < 10 {
      DigitsAppend("", n);
      assert "" + [Digit(n)] == [Digit(n)];
    } else {
      DecimalIsRead(front);
      OneMoreDigit(front, last);
      DigitsAppend(Decimal(front), last);
    }
  }

  lemma NumberIsRead(zeros: nat, n: nat)
    ensures Digits(Zeros(zeros) + Decimal(n)) == Some(n)
  {
    ZerosAdd(zeros, Decimal(n));
    DecimalIsRead(n);
  }

  /** One more digit behind a printed number. */
  lemma PrintedFurther(zeros: nat, n: nat, d: nat) returns (more: nat)
    requires d < 10
    ensures Zeros(zeros) + Decimal(n) + [Digit(d)] == Zeros(more) + Decimal(n * 10 + d)
  {
    if n == 0 {
      more := zeros + 1;
      assert Zeros(zeros) + ['0'] == Zeros(more);
    } else {
      more := zeros;
      OneMoreDigit(n, d);
      Regroup(Zeros(zeros), Decimal(n), [Digit(d)]);
    }
  }

  /** Every text of digits is a printed number behind some zeros. */
  lemma {:induction false} DigitsArePrinted(s: string) returns (zeros: nat)
    requires s != "" && Digits(s).Some?
    ensures s == Zeros(zeros) + Decimal(Digits(s).value)
    decreases |s|
  {
    var front, last := s[..|s| - 1], s[|s| - 1];
    var d := last as int - '0' as int;
    assert s == front + [Digit(d)];
    if front == "" {
      zeros := 0;
      assert Digits(s) == Some(d);
      assert Zeros(0) + Decimal(d) == s;
    } else {
      var before := DigitsArePrinted(front);
      zeros := PrintedFurther(before, Digits(front).value, d);
    }
  }

  // ----- Names -----

  function Number(plus: bool, zeros: nat, n: nat): string {
    (if plus then "+" else "") + (Zeros(zeros) + Decimal(n))
  }

  /** `V`, perhaps a plus sign, perhaps zeros, the number, an underscore and anything behind it. */
  function Named(plus: bool, zeros: nat, n: nat, rest: string): string {
    "V" + Number(plus, zeros, n) + "_" + rest
  }

  lemma {:induction false} OnlyDigits(s: string)
    requires Digits(s).Some?
    ensures forall i :: 0 <= i < |s| ==> '0' <= s[i] <= '9'
    decreases |s|
  {
    if s != "" {
      OnlyDigits(s[..|s| - 1]);
      assert s == s[..|s| - 1] + [s[|s| - 1]];
    }
  }

  lemma DigitsParse(digits: string, n: nat)
    requires digits != "" && digits[0] != '+' && Digits(digits) == Some(n)
    ensures ParseU32(digits) == ParseU32("+" + digits) == if n <= 4294967295 then Some(n) else None
  {
    assert ("+" + digits)[1..] == digits;
  }

  lemma NumberIsParsed(plus: bool, zeros: nat, n: nat)
    ensures ParseU32(Number(plus, zeros, n)) == if n <= 4294967295 then Some(n) else None
    ensures '_' !in Number(plus, zeros, n)
  {
    var digits := Zeros(zeros) + Decimal(n);
    NumberIsRead(zeros, n);
    OnlyDigits(digits);
    DigitsParse(digits, n);
    assert "" + digits == digits;
  }

  /** A name that spells a number has that version if the number fits into 32 bits, and none otherwise,
      whatever stands behind the underscore. */
  lemma NamedVersion(plus: bool, zeros: nat, n: nat, rest: string)
    ensures Version(Named(plus, zeros, n, rest)) == if n <= 4294967295 then Some(n) else None
  {
    var first := "V" + Number(plus, zeros, n);
    NumberIsParsed(plus, zeros, n);
    assert first[0] == 'V' && first[1..] == Number(plus, zeros, n);
    assert Named(plus, zeros, n, rest) == first + ['_'] + rest;
    SplitFirst(first, '_', rest);
  }

  lemma {:induction false} BehindFirst(s: string) returns (rest: string)
    requires |Split(s, '_')| >= 2
    ensures s == Split(s, '_')[0] + "_" + rest
  {
    if s[0] == '_' {
      rest := s[1..];
      assert s == "" + "_" + rest;
    } else {
      rest := BehindFirst(s[1..]);
      assert s == [s[0]] + s[1..];
    }
  }

  lemma ParsedIsNumber(s: string) returns (plus: bool, zeros: nat)
    requires ParseU32(s).Some?
    ensures s == Number(plus, zeros, ParseU32(s).value)
  {
    plus := s != "" && s[0] == '+';
    var digits := if plus then s[1..] else s;
    zeros := DigitsArePrinted(digits);
    assert plus ==> s == "+" + digits;
    assert "" + digits == digits;
  }

  /** A name has a version if and only if it spells that number so, and the number fits into 32 bits. */
  lemma VersionExactly(name: string, n: nat)
    ensures Version(name) == Some(n) <==>
              n <= 4294967295 && exists plus, zeros, rest :: name == Named(plus, zeros, n, rest)
  {
    if n <= 4294967295 {
      if plus, zeros, rest :| name == Named(plus, zeros, n, rest) {
        NamedVersion(plus, zeros, n, rest);
      }
    }
    if Version(name) == Some(n) {
      var first := Split(name, '_')[0];
      var rest := BehindFirst(name);
      var plus, zeros := ParsedIsNumber(first[1..]);
      assert first == "V" + first[1..];
      assert name == Named(plus, zeros, n, rest);
    }
  }

  // ----- The uniqueness check and the order -----

  /** The names spell the numbers. */
  ghost predicate Spell(names: seq<string>, numbers: seq<nat>) {
    && |names| == |numbers|
    && forall i :: 0 <= i < |names| ==>
         numbers[i] <= 4294967295 && exists plus, zeros, rest :: names[i] == Named(plus, zeros, numbers[i], rest)
  }

  /** Files count as duplicates exactly when they spell the same number. */
  lemma UniqueExactly(names: seq<string>, numbers: seq<nat>)
    requires Spell(names, numbers)
    ensures UniqueVersions(names) <==> forall i, j :: 0 <= i < j < |numbers| ==> numbers[i] != numbers[j]
  {
    forall i | 0 <= i < |names|
      ensures Version(names[i]) == Some(numbers[i])
    {
      VersionExactly(names[i], numbers[i]);
    }
  }

  /** Wherever the two stand in the plan, `a` is in front of `b`. */
  predicate Before(plan: seq<string>, a: string, b: string) {
    forall i, j :: 0 <= i < |plan| && 0 <= j < |plan| && plan[i] == a && plan[j] == b ==> i < j
  }

  lemma InFront(plan: seq<string>, i: nat, j: nat)
    requires SortedBy(plan, NameLeq) && i < |plan| && j < |plan| && plan[i] != plan[j]
    ensures i < j || NameLeq(plan[j], plan[i])
  {
  }

  /** In the plan of any listing a file comes before every file that spells a greater number. */
  lemma SmallerComesFirst(listing: seq<string>, a: string, b: string, m: nat, n: nat)
    requires Spell([a, b], [m, n]) && m < n && a in listing && b in listing
    ensures a in Plan(listing) && b in Plan(listing)
    ensures Before(Plan(listing), a, b)
  {
    var plan := Plan(listing);
    NameLeqIsTotal();
    SortSorts(listing, NameLeq);
    SortKeeps(listing, NameLeq);
    SameElements(plan, listing);
    assert [a, b][0] == a && [a, b][1] == b && [m, n][0] == m && [m, n][1] == n;
    VersionExactly(a, m);
    VersionExactly(b, n);
    assert !NameLeq(b, a);
    forall i, j | 0 <= i < |plan| && 0 <= j < |plan| && plan[i] == a && plan[j] == b
      ensures i < j
    {
      InFront(plan, i, j);
    }
  }

  /** Files that spell the same number come in the order of their names. */
  lemma SameNumberByName(listing: seq<string>, a: string, b: string, n: nat)
    requires Spell([a, b], [n, n]) && a != b && TextLeq(a, b) && a in listing && b in listing
    ensures Before(Plan(listing), a, b)
  {
    var plan := Plan(listing);
    NameLeqIsTotal();
    SortSorts(listing, NameLeq);
    assert [a, b][0] == a && [a, b][1] == b && [n, n][0] == n && [n, n][1] == n;
    VersionExactly(a, n);
    VersionExactly(b, n);
    if TextLeq(b, a) {
      TextLeqAntisymmetric(a, b);
    }
    assert !NameLeq(b, a);
    forall i, j | 0 <= i < |plan| && 0 <= j < |plan| && plan[i] == a && plan[j] == b
      ensures i < j
    {
      InFront(plan, i, j);
    }
  }

  /** `V2` comes before `V10`, although its text does not. */
  lemma TwoBeforeTen(listing: seq<string>, x: string, y: string)
    requires "V2_" + x in listing && "V10_" + y in listing
    ensures TextLeq("V10_" + y, "V2_" + x)
    ensures Before(Plan(listing), "V2_" + x, "V10_" + y)
  {
    assert Decimal(2) == "2" && Decimal(10) == "10";
    assert "V2_" + x == Named(false, 0, 2, x);
    assert "V10_" + y == Named(false, 0, 10, y);
    SmallerComesFirst(listing, "V2_" + x, "V10_" + y, 2, 10);
  }
}
