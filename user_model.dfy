/**
 * The validation rules declared on the user model's fields, the list of errors the
 * validator reports for a model, and the `NameAge` label.
 */
module UserModelRules {
  import opened Entities
  import opened Email

  const NameTooShort: string := "Must be at least 3 characters"
  const NameTooLong: string := "It must have a maximum of 50 characters."
  const InvalidEmail: string := "Invalid email"
  const EmailTooShort: string := "Must be at least 5 characters"
  const AgeOutOfRange: string := "Age range not accepted"

  /** A name of 3 to 50 characters. */
  predicate ValidName(name: string) {
    3 <= |name| <= 50
  }

  /** An email of at least 5 characters that passes the email-address rule. */
  predicate ValidEmail(email: string) {
    IsEmailAddress(email) && 5 <= |email|
  }

  /** An age from 18 to 60, both included. */
  predicate ValidAge(age: int) {
    18 <= age <= 60
  }

  /** The name's errors: minimum length, then maximum length. */
  function NameErrors(name: string): (errors: seq<string>)
    ensures errors == [] <==> ValidName(name)
    ensures |errors| <= 1
  {
    (if |name| < 3 then [NameTooShort] else []) + (if |name| > 50 then [NameTooLong] else [])
  }

  /** The email's errors: the address rule, then minimum length; both can fail together. */
  function EmailErrors(email: string): (errors: seq<string>)
    ensures errors == [] <==> ValidEmail(email)
    ensures |errors| == (if IsEmailAddress(email) then 0 else 1) + (if |email| < 5 then 1 else 0)
  {
    (if IsEmailAddress(email) then [] else [InvalidEmail]) + (if |email| < 5 then [EmailTooShort] else [])
  }

  /** The age's errors: the range. */
  function AgeErrors(age: int): (errors: seq<string>)
    ensures errors == [] <==> ValidAge(age)
  {
    if ValidAge(age) then [] else [AgeOutOfRange]
  }

  /**
   * What validating every property reports: each failing rule of each field, fields in
   * declaration order (name, email, age), rules in the order they are declared.
   */
  function ValidationErrors(m: UserModel): (errors: seq<string>)
    ensures |errors| == |NameErrors(m.name)| + |EmailErrors(m.email)| + |AgeErrors(m.age)|
  {
    NameErrors(m.name) + EmailErrors(m.email) + AgeErrors(m.age)
  }

  /** A model is valid when all three fields are. */
  predicate Valid(m: UserModel) {
    ValidName(m.name) && ValidEmail(m.email) && ValidAge(m.age)
  }

  /** The validator reports nothing exactly for a valid model. */
  lemma NoErrorsIffValid(m: UserModel)
    ensures ValidationErrors(m) == [] <==> Valid(m)
  {
    if ValidationErrors(m) == [] {
      assert |NameErrors(m.name)| == 0 && |EmailErrors(m.email)| == 0 && |AgeErrors(m.age)| == 0;
    }
  }

  /** An over-long name with a valid email and age yields exactly the one maximum-length error. */
  lemma OverlongNameIsTheOnlyError(m: UserModel)
    requires |m.name| > 50 && ValidEmail(m.email) && ValidAge(m.age)
    ensures ValidationErrors(m) == [NameTooLong]
  {
  }

  /**
   * With an over-long name, an email without '@' and a valid age, the count depends on the
   * email's length: two errors from 5 characters on, three below.
   */
  lemma NameAndEmailErrors(m: UserModel)
    requires |m.name| > 50 && '@' !in m.email && ValidAge(m.age)
    ensures |ValidationErrors(m)| == if |m.email| < 5 then 3 else 2
  {
    assert IndexOf(m.email, '@') == -1;
  }

  /** Adding an age outside the range adds exactly the range error at the end. */
  lemma AgeErrorComesLast(m: UserModel)
    requires !ValidAge(m.age)
    ensures ValidationErrors(m) == NameErrors(m.name) + EmailErrors(m.email) + [AgeOutOfRange]
    ensures |ValidationErrors(m)| == |ValidationErrors(m.(age := 18))| + 1
  {
  }

  /** The decimal digits of a natural number, most significant first, without leading zeros. */
  function Digits(n: nat): (s: string)
    ensures 1 <= |s|
    ensures forall i :: 0 <= i < |s| ==> '0' <= s[i] <= '9'
    ensures |s| > 1 ==> s[0] != '0'
  {
    if n < 10 then [(n + '0' as int) as char] else Digits(n / 10) + [(n % 10 + '0' as int) as char]
  }

  /** An `int` as interpolation writes it: optional minus sign, then the digits. */
  function Decimal(n: int): string {
    if n < 0 then "-" + Digits(-n) else Digits(n)
  }

  /** The value of a string of decimal digits. */
  function ParseDigits(s: string): nat
    decreases |s|
  {
    if s == [] then 0 else ParseDigits(s[..|s| - 1]) * 10 + ((s[|s| - 1] as int - '0' as int) % 10)
  }

  /** The value of an optionally signed decimal. */
  function ParseDecimal(s: string): int {
    if s != [] && s[0] == '-' then -(ParseDigits(s[1..]) as int) else ParseDigits(s)
  }

  lemma {:induction false} DigitsRoundTrip(n: nat)
    ensures ParseDigits(Digits(n)) == n
  {
    if n >= 10 {
      DigitsRoundTrip(n / 10);
      var d := Digits(n);
      assert d[..|d| - 1] == Digits(n / 10);
    }
  }

  /** Reading the decimal back gives the number. */
  lemma DecimalRoundTrip(n: int)
    ensures ParseDecimal(Decimal(n)) == n
  {
    if n < 0 {
      DigitsRoundTrip(-n);
      assert ("-" + Digits(-n))[1..] == Digits(-n);
    } else {
      DigitsRoundTrip(n);
    }
  }

  /** `NameAge`: the name, a spaced dash, and the age in decimal. */
  function NameAge(m: UserModel): (text: string)
    ensures |text| > |m.name| + 3
    ensures text[..|m.name|] == m.name
    ensures text[|m.name|..|m.name| + 3] == " - "
    ensures ParseDecimal(text[|m.name| + 3..]) == m.age
  {
    DecimalRoundTrip(m.age);
    var text := m.name + " - " + Decimal(m.age);
    assert text[|m.name| + 3..] == Decimal(m.age);
    text
  }
}
