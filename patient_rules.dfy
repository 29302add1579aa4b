/** The Bean Validation constraints on a patient's registration and profile
    forms: which field each constraint checks, what its pattern accepts, and which
    of the two validation groups (sign-up, profile update) it belongs to. */
module PatientRules {
  import opened Wrappers
  import opened RegNo

  /** The validation groups: sign-up validates `OnCreate`, a profile edit `OnUpdate`. */
  datatype Group = OnCreate | OnUpdate

  datatype Field = PatientName | IdCard | Phone | Age | Password

  /** The constrained fields of a submitted patient; an absent value is a JSON null.
      Gender, address and medical history carry no constraint. */
  datatype PatientForm = PatientForm(
    patientName: Option<string>,
    idCard: Option<string>,
    phone: Option<string>,
    age: Option<int>,
    password: Option<string>)

  // ---------------------------------------------------------------------------
  // The constraint annotations

  /** `@NotBlank`: present and not all characters at or below U+0020 (what
      `String.trim` removes). */
  predicate NotBlank(v: Option<string>)
  {
    v.Some? && exists k :: 0 <= k < |v.value| && v.value[k] > ' '
  }

  /** `String.length()`: UTF-16 code units, two for a character outside the BMP. */
  function Utf16Length(s: string): (n: nat)
    ensures |s| <= n <= 2 * |s|
  {
    if s == [] then 0 else (if s[0] as int > 0xFFFF then 2 else 1) + Utf16Length(s[1..])
  }

  /** `@Size(min, max)`: a null passes. */
  predicate SizeWithin(v: Option<string>, min: nat, max: nat)
  {
    v.None? || min <= Utf16Length(v.value) <= max
  }

  /** `@Min(min) @Max(max)` on an `Integer`: a null passes. */
  predicate InRange(v: Option<int>, min: int, max: int)
  {
    v.None? || min <= v.value <= max
  }

  // ---------------------------------------------------------------------------
  // The patterns (whole-string matches; `\d` is ASCII 0-9)

  /** `[一-龥]`: a character of the CJK Unified Ideographs block up to U+9FA5. */
  predicate IsHan(c: char)
  {
    '\U{4E00}' <= c <= '\U{9FA5}'
  }

  /** `^[一-龥]+$` */
  predicate HanPattern(s: string)
  {
    |s| >= 1 && forall k :: 0 <= k < |s| ==> IsHan(s[k])
  }

  /** `^1[3-9]\d{9}$` */
  predicate PhonePattern(s: string)
  {
    |s| == 11 && s[0] == '1' && '3' <= s[1] <= '9' && AllDigits(s[2..])
  }

  /** `(18|19|20)` */
  predicate CenturyGroup(a: char, b: char)
  {
    (a == '1' && (b == '8' || b == '9')) || (a == '2' && b == '0')
  }

  /** `(0[1-9]|1[0-2])` */
  predicate MonthGroup(a: char, b: char)
  {
    (a == '0' && '1' <= b <= '9') || (a == '1' && '0' <= b <= '2')
  }

  /** `(0[1-9]|[12]\d|3[01])` */
  predicate DayGroup(a: char, b: char)
  {
    (a == '0' && '1' <= b <= '9') || ((a == '1' || a == '2') && IsDigit(b))
    || (a == '3' && (b == '0' || b == '1'))
  }

  /** `^[1-9]\d{5}(18|19|20)\d{2}(0[1-9]|1[0-2])(0[1-9]|[12]\d|3[01])\d{3}[\dXx]$`:
      six region digits, a four-digit year, month, day, three sequence digits and
      a check character. */
  predicate IdCardPattern(s: string)
  {
    |s| == 18
    && '1' <= s[0] <= '9' && AllDigits(s[1..6])
    && CenturyGroup(s[6], s[7]) && AllDigits(s[8..10])
    && MonthGroup(s[10], s[11])
    && DayGroup(s[12], s[13])
    && AllDigits(s[14..17])
    && (IsDigit(s[17]) || s[17] == 'X' || s[17] == 'x')
  }

  /** `@Pattern`: a null passes. */
  predicate Matches(v: Option<string>, pattern: string -> bool)
  {
    v.None? || pattern(v.value)
  }

  // ---------------------------------------------------------------------------
  // The fields

  predicate NameValid(v: Option<string>)
  {
    NotBlank(v) && SizeWithin(v, 2, 20) && Matches(v, HanPattern)
  }

  predicate IdCardValid(v: Option<string>)
  {
    NotBlank(v) && Matches(v, IdCardPattern)
  }

  predicate PhoneValid(v: Option<string>)
  {
    NotBlank(v) && Matches(v, PhonePattern)
  }

  predicate AgeValid(v: Option<int>)
  {
    InRange(v, 0, 150)
  }

  predicate PasswordValid(v: Option<string>)
  {
    NotBlank(v) && SizeWithin(v, 6, 20)
  }

  /** The fields a form fails in a group. The ID card and the password are only
      checked at sign-up. */
  function Violations(p: PatientForm, g: Group): (bad: set<Field>)
    ensures g == OnUpdate ==> IdCard !in bad && Password !in bad
    ensures Age in bad ==> p.age.Some?
  {
    (if NameValid(p.patientName) then {} else {PatientName})
    + (if g == OnCreate && !IdCardValid(p.idCard) then {IdCard} else {})
    + (if PhoneValid(p.phone) then {} else {Phone})
    + (if AgeValid(p.age) then {} else {Age})
    + (if g == OnCreate && !PasswordValid(p.password) then {Password} else {})
  }

  // ---------------------------------------------------------------------------
  // What the constraints add up to

  lemma {:induction false} Utf16LengthOfBmp(s: string)
    requires forall k :: 0 <= k < |s| ==> s[k] as int <= 0xFFFF
    ensures Utf16Length(s) == |s|
  {
    if s != [] {
      Utf16LengthOfBmp(s[1..]);
    }
  }

  /** A name is accepted exactly when it has 2 to 20 characters, all Han. */
  lemma NameCharacterization(v: Option<string>)
    ensures NameValid(v) <==>
      v.Some? && 2 <= |v.value| <= 20 && forall k :: 0 <= k < |v.value| ==> IsHan(v.value[k])
  {
    if v.Some? && forall k :: 0 <= k < |v.value| ==> IsHan(v.value[k]) {
      Utf16LengthOfBmp(v.value);
      if |v.value| >= 1 {
        assert v.value[0] > ' ';
      }
    }
  }

  /** A password is accepted exactly when it has 6 to 20 UTF-16 units, not all blank. */
  lemma PasswordCharacterization(v: Option<string>)
    ensures PasswordValid(v) <==>
      v.Some? && 6 <= Utf16Length(v.value) <= 20 && exists k :: 0 <= k < |v.value| && v.value[k] > ' '
  {
  }

  lemma DigitsConcat(a: string, b: string)
    requires AllDigits(a) && AllDigits(b)
    ensures AllDigits(a + b)
  {
    forall k | 0 <= k < |a + b| ensures IsDigit((a + b)[k]) {
      if k < |a| {
        assert (a + b)[k] == a[k];
      } else {
        assert (a + b)[k] == b[k - |a|];
      }
    }
  }

  lemma ShiftDigit(x: int, p: int, y: int, d: int)
    ensures 10 * (x * p + y) + d == x * (10 * p) + (10 * y + d)
  {
  }

  /** The value of a digit string splits at any point. */
  lemma {:induction false} DigitsValueConcat(a: string, b: string)
    requires AllDigits(a) && AllDigits(b)
    ensures AllDigits(a + b)
    ensures DigitsValue(a + b) == DigitsValue(a) * Pow10(|b|) + DigitsValue(b)
    decreases |b|
  {
    DigitsConcat(a, b);
    if b == [] {
      assert a + b == a;
    } else {
      var init := b[..|b| - 1];
      var last := b[|b| - 1];
      assert (a + b)[..|a + b| - 1] == a + init;
      assert (a + b)[|a + b| - 1] == last;
      assert AllDigits(init) by {
        forall k | 0 <= k < |init| ensures IsDigit(init[k]) {
          assert init[k] == b[k];
        }
      }
      DigitsValueConcat(a, init);
      assert DigitsValue(a + b) == 10 * DigitsValue(a + init) + DigitValue(last);
      assert DigitsValue(b) == 10 * DigitsValue(init) + DigitValue(last);
      assert Pow10(|b|) == 10 * Pow10(|init|);
      ShiftDigit(DigitsValue(a), Pow10(|init|), DigitsValue(init), DigitValue(last));
    }
  }

  /** A digit string spells less than ten to its length. */
  lemma {:induction false} DigitsValueBound(s: string)
    requires AllDigits(s)
    ensures DigitsValue(s) < Pow10(|s|)
    decreases |s|
  {
    if s != [] {
      var init := s[..|s| - 1];
      assert AllDigits(init) by {
        forall k | 0 <= k < |init| ensures IsDigit(init[k]) {
          assert init[k] == s[k];
        }
      }
      DigitsValueBound(init);
    }
  }

  lemma TwoDigits(a: char, b: char)
    requires IsDigit(a) && IsDigit(b)
    ensures AllDigits([a, b]) && DigitsValue([a, b]) == 10 * DigitValue(a) + DigitValue(b)
  {
    assert [a, b][..1] == [a];
    assert [a][..0] == [];
    assert DigitsValue([a]) == DigitValue(a);
  }

  /** The two-digit field at `i` of `s` and its value. */
  lemma FieldValue(s: string, i: nat)
    requires i + 2 <= |s| && IsDigit(s[i]) && IsDigit(s[i + 1])
    ensures AllDigits(s[i..i + 2]) && DigitsValue(s[i..i + 2]) == 10 * DigitValue(s[i]) + DigitValue(s[i + 1])
  {
    assert s[i..i + 2] == [s[i], s[i + 1]];
    TwoDigits(s[i], s[i + 1]);
  }

  /** The month group accepts exactly the two-digit months 01 to 12. */
  lemma MonthGroupValue(a: char, b: char)
    ensures MonthGroup(a, b) <==> IsDigit(a) && IsDigit(b) && 1 <= 10 * DigitValue(a) + DigitValue(b) <= 12
  {
  }

  /** The day group accepts exactly the two-digit days 01 to 31, in any month. */
  lemma DayGroupValue(a: char, b: char)
    ensures DayGroup(a, b) <==> IsDigit(a) && IsDigit(b) && 1 <= 10 * DigitValue(a) + DigitValue(b) <= 31
  {
  }

  /** The century group accepts exactly the four-digit years 1800 to 2099. */
  lemma YearValue(s: string, i: nat)
    requires i + 4 <= |s| && AllDigits(s[i + 2..i + 4])
    ensures CenturyGroup(s[i], s[i + 1]) <==>
      IsDigit(s[i]) && IsDigit(s[i + 1]) && 1800 <= DigitsValue(s[i..i + 4]) <= 2099
  {
    var rest := s[i + 2..i + 4];
    DigitsValueBound(rest);
    assert Pow10(2) == 100;
    if IsDigit(s[i]) && IsDigit(s[i + 1]) {
      assert s[i..i + 4] == [s[i], s[i + 1]] + rest;
      TwoDigits(s[i], s[i + 1]);
      DigitsValueConcat([s[i], s[i + 1]], rest);
    }
  }

  /** A slice is all digits exactly when each of its positions in `s` is. */
  lemma AllDigitsSlice(s: string, i: nat, j: nat)
    requires i <= j <= |s|
    ensures AllDigits(s[i..j]) <==> forall k :: i <= k < j ==> IsDigit(s[k])
  {
    if AllDigits(s[i..j]) {
      forall k | i <= k < j ensures IsDigit(s[k]) {
        assert s[i..j][k - i] == s[k];
      }
    }
    if forall k :: i <= k < j ==> IsDigit(s[k]) {
      forall k | 0 <= k < j - i ensures IsDigit(s[i..j][k]) {
        assert s[i..j][k] == s[k + i];
      }
    }
  }

  /** The seventeen leading characters are digits exactly when every digit run of
      the pattern is. */
  lemma LeadingSeventeen(s: string)
    requires |s| == 18
    ensures AllDigits(s[..17]) <==> (forall k :: 0 <= k < 17 ==> IsDigit(s[k]))
    ensures AllDigits(s[1..6]) <==> (forall k :: 1 <= k < 6 ==> IsDigit(s[k]))
    ensures AllDigits(s[8..10]) <==> IsDigit(s[8]) && IsDigit(s[9])
    ensures AllDigits(s[14..17]) <==> IsDigit(s[14]) && IsDigit(s[15]) && IsDigit(s[16])
  {
    assert s[..17] == s[0..17];
    AllDigitsSlice(s, 0, 17);
    AllDigitsSlice(s, 1, 6);
    AllDigitsSlice(s, 8, 10);
    AllDigitsSlice(s, 14, 17);
  }

  /** An ID card number is accepted exactly when it is 18 characters, 17 digits
      and a check character that is a digit or X, with a non-zero first digit, a
      year from 1800 to 2099, a month from 1 to 12 and a day from 1 to 31. */
  lemma IdCardCharacterization(s: string)
    ensures IdCardPattern(s) <==>
      |s| == 18 && AllDigits(s[..17]) && s[0] != '0'
      && 1800 <= DigitsValue(s[6..10]) <= 2099
      && 1 <= DigitsValue(s[10..12]) <= 12
      && 1 <= DigitsValue(s[12..14]) <= 31
      && (IsDigit(s[17]) || s[17] == 'X' || s[17] == 'x')
  {
    if |s| == 18 {
      LeadingSeventeen(s);
      MonthGroupValue(s[10], s[11]);
      DayGroupValue(s[12], s[13]);
      if IsDigit(s[8]) && IsDigit(s[9]) {
        YearValue(s, 6);
      }
      if IsDigit(s[10]) && IsDigit(s[11]) {
        FieldValue(s, 10);
      }
      if IsDigit(s[12]) && IsDigit(s[13]) {
        FieldValue(s, 12);
      }
      if IdCardPattern(s) {
        assert forall k :: 0 <= k < 17 ==> IsDigit(s[k]);
      }
    }
  }

  lemma PowNine()
    ensures Pow10(9) == 1000000000
  {
    assert Pow10(3) == 1000;
    assert Pow10(6) == 1000 * Pow10(3) by {
      assert Pow10(6) == 10 * Pow10(5) && Pow10(5) == 10 * Pow10(4) && Pow10(4) == 10 * Pow10(3);
    }
    assert Pow10(9) == 1000 * Pow10(6) by {
      assert Pow10(9) == 10 * Pow10(8) && Pow10(8) == 10 * Pow10(7) && Pow10(7) == 10 * Pow10(6);
    }
  }

  /** A phone number is accepted exactly when it is an 11-digit number from
      13000000000 to 19999999999. */
  lemma PhoneCharacterization(s: string)
    ensures PhonePattern(s) <==>
      |s| == 11 && AllDigits(s) && 13000000000 <= DigitsValue(s) <= 19999999999
  {
    if |s| == 11 {
      assert s[2..] == s[2..11];
      AllDigitsSlice(s, 2, 11);
      if IsDigit(s[0]) && IsDigit(s[1]) && AllDigits(s[2..]) {
        var rest := s[2..];
        assert s == [s[0], s[1]] + rest;
        TwoDigits(s[0], s[1]);
        DigitsValueConcat([s[0], s[1]], rest);
        DigitsValueBound(rest);
        assert |rest| == 9;
        PowNine();
        assert DigitsValue(s) == (10 * DigitValue(s[0]) + DigitValue(s[1])) * 1000000000 + DigitsValue(rest);
      }
    }
  }

  /** A phone number is always non-blank once it matches, and so the `@NotBlank`
      on it only adds the rejection of a null. */
  lemma PhoneValidity(v: Option<string>)
    ensures PhoneValid(v) <==> v.Some? && PhonePattern(v.value)
  {
    if v.Some? && PhonePattern(v.value) {
      assert v.value[0] > ' ';
    }
  }

  lemma IdCardValidity(v: Option<string>)
    ensures IdCardValid(v) <==> v.Some? && IdCardPattern(v.value)
  {
    if v.Some? && IdCardPattern(v.value) {
      assert v.value[0] > ' ';
    }
  }

  /** Sign-up checks everything a profile edit checks, plus the ID card and the
      password; the edit ignores those two whatever they hold. */
  lemma GroupsNest(p: PatientForm, idCard: Option<string>, password: Option<string>)
    ensures Violations(p, OnUpdate) <= Violations(p, OnCreate)
    ensures Violations(p, OnCreate) - Violations(p, OnUpdate) ==
      (if IdCardValid(p.idCard) then {} else {IdCard}) + (if PasswordValid(p.password) then {} else {Password})
    ensures Violations(p.(idCard := idCard, password := password), OnUpdate) == Violations(p, OnUpdate)
  {
  }
}
