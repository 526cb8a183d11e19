/** The inputs and outputs of day-4's unit tests for the field parsers, and instances of
    its record tests, each derived from the general lemmas about the parsers and the
    matcher. Inputs are written as the concatenation of their parts where that spares
    the verifier from comparing long strings character by character. */
module UnitCases {
  import opened Lexing
  import opened Fields
  import opened Matcher

  /** A run of four decimal digits denotes the number they spell. */
  lemma FourDigits(s: string)
    requires |s| == 4 && AllDigits(s)
    ensures DecimalValue(s)
         == 1000 * DigitValue(s[0]) + 100 * DigitValue(s[1]) + 10 * DigitValue(s[2]) + DigitValue(s[3])
  {
    assert s[..1][..0] == [] && s[..1][0] == s[0];
    assert DecimalValue(s[..1]) == DigitValue(s[0]);
    assert s[..2][..1] == s[..1] && s[..2][1] == s[1];
    assert DecimalValue(s[..2]) == 10 * DigitValue(s[0]) + DigitValue(s[1]);
    assert s[..3][..2] == s[..2] && s[..3][2] == s[2];
    assert DecimalValue(s[..3]) == 100 * DigitValue(s[0]) + 10 * DigitValue(s[1]) + DigitValue(s[2]);
  }

  // ---------------------------------------------------------------------------------
  // test_check_year_record

  lemma BirthYearInRange()
    ensures BirthYear("byr:" + "1981") == Some(("", 1981))
  {
    FourDigits("1981");
    YearAccepts("byr", 1920, 2002, "1981", "");
    assert "byr" + ":" + "1981" + "" == "byr:" + "1981";
  }

  lemma BirthYearTooEarly()
    ensures BirthYear("byr:" + "1900").None?
  {
    FourDigits("1900");
    YearRejects("byr", 1920, 2002, "1900", "");
    assert "byr" + ":" + "1900" + "" == "byr:" + "1900";
  }

  // ---------------------------------------------------------------------------------
  // test_check_eye_color

  lemma EyeColorListed()
    ensures EyeColor("ecl:" + "amb") == Some(("", "amb"))
  {
    EyeColorAccepts("amb", "");
    assert "ecl:" + "amb" + "" == "ecl:" + "amb";
  }

  lemma EyeColorLeadingSpace()
    ensures EyeColor("  ecl:amb").None?
  {
    assert "  ecl:amb"[0] == ' ';
    ParseFieldWithoutKey(Ecl, "  ecl:amb");
  }

  lemma EyeColorTrailingSpace()
    ensures EyeColor("ecl:" + "amb" + "  ") == Some(("", "amb"))
  {
    EyeColorAccepts("amb", "  ");
    Multispace0Append("  ", "");
    assert "  " + "" == "  ";
  }

  lemma EyeColorUnlisted()
    ensures EyeColor("ecl:" + "bul").None?
  {
    EyeColorRejects("bul", "");
    assert "bul" + "" == "bul";
  }

  // ---------------------------------------------------------------------------------
  // test_check_cid

  lemma CountryIdThenWord()
    ensures CountryId("cid:" + "123alper" + ("  " + "lbabla")) == Some(("lbabla", Some("123alper")))
  {
    Multispace0Append("  ", "lbabla");
    CountryIdAccepts("123alper", "  " + "lbabla");
  }

  lemma CountryIdOtherKey()
    ensures CountryId("eid:123alper  lbabla") == Some(("eid:123alper  lbabla", None))
  {
    assert "eid:123alper  lbabla"[0] == 'e';
    CountryIdAbsent("eid:123alper  lbabla");
  }

  lemma CountryIdLeadingSpace()
    ensures CountryId("   cid:123alper  lbabla") == Some(("   cid:123alper  lbabla", None))
  {
    assert "   cid:123alper  lbabla"[0] == ' ';
    CountryIdAbsent("   cid:123alper  lbabla");
  }

  lemma CountryIdToEnd()
    ensures CountryId("cid:" + "alper") == Some(("", Some("alper")))
    ensures CountryId("cid:" + "123") == Some(("", Some("123")))
  {
    CountryIdAccepts("alper", "");
    assert "cid:" + "alper" + "" == "cid:" + "alper";
    CountryIdAccepts("123", "");
    assert "cid:" + "123" + "" == "cid:" + "123";
  }

  // ---------------------------------------------------------------------------------
  // test_check_passport_id

  lemma PassportIdNineDigits()
    ensures PassportId("pid:" + "123456789") == Some(("", "123456789"))
  {
    PassportIdAccepts("123456789", "");
    assert "pid:" + "123456789" + "" == "pid:" + "123456789";
  }

  lemma PassportIdTrailingSpace()
    ensures PassportId("pid:" + "123456789" + "    ") == Some(("", "123456789"))
  {
    Multispace0Append("    ", "");
    assert "    " + "" == "    ";
    PassportIdAccepts("123456789", "    ");
  }

  lemma PassportIdTooLong()
    ensures PassportId("pid:" + "123456789" + "12    ").None?
  {
    assert "12    "[0] == '1';
    PassportIdRejectsLong("123456789", "12    ");
  }

  // ---------------------------------------------------------------------------------
  // test_check_hair_color

  lemma HairColorSixDigits()
    ensures HairColor("hcl:" + "#ffffff") == Some(("", "ffffff"))
  {
    assert "#ffffff"[1..] == "ffffff";
    HairColorAccepts("#ffffff", "");
    assert "hcl:" + "#ffffff" + "" == "hcl:" + "#ffffff";
    assert Multispace0("") == "";
  }

  lemma HairColorTrailingSpace()
    ensures HairColor("hcl:" + "#000000" + "  ") == Some(("", "000000"))
  {
    assert "#000000"[1..] == "000000";
    Multispace0Append("  ", "");
    assert "  " + "" == "  ";
    HairColorAccepts("#000000", "  ");
  }

  lemma HairColorFiveDigits()
    ensures HairColor("hcl:#11111").None?
  {
  }

  lemma HairColorWithoutHash()
    ensures HairColor("hcl:5d90f0").None?
  {
    assert "hcl:5d90f0"[4] == '5';
  }

  // ---------------------------------------------------------------------------------
  // Values from test_check_contents and the record tests

  lemma HeightInInches()
    ensures Height("hgt:" + "60in") == Some(("", 60))
  {
    assert DecimalValue("60") == 60 by { assert "60"[..1][..0] == ""; }
    assert HeightDigits("60in") == "60";
    HeightAccepts("60in", "");
    assert "hgt:" + "60in" + "" == "hgt:" + "60in";
  }

  lemma HeightWithoutUnit()
    ensures Height("hgt:" + "170").None?
  {
    HeightRejects("170", "");
    assert "hgt:" + "170" + "" == "hgt:" + "170";
  }

  /** A record whose first token is a required field its parser refuses fails. */
  lemma RecordStartingWithBadToken(bad: Token, tail: string)
    requires bad.kind != Cid && ParseField(bad.kind, Render(bad) + tail).None?
    ensures MatchRecord(Render(bad) + tail) == None
  {
    MatchRecordRejectsBadToken([], [], bad, tail);
    assert Join([], []) + (Render(bad) + tail) == Render(bad) + tail;
  }

  /** `eyr:1972 …`: the first token is out of range, so the record fails whatever follows. */
  lemma RecordStartingWithBadExpiry(tail: string)
    requires DigitBoundary(tail)
    ensures MatchRecord("eyr:" + "1972" + tail) == None
  {
    FourDigits("1972");
    YearRejects("eyr", 2020, 2030, "1972", tail);
    var bad := Token(Eyr, "1972");
    assert Render(bad) == "eyr" + ":" + "1972" == "eyr:" + "1972";
    RecordStartingWithBadToken(bad, tail);
  }

  /** `hcl:dab227 …`: a hair colour without `#` sinks the record. */
  lemma RecordStartingWithBareHairColor(tail: string)
    ensures MatchRecord("hcl:" + "dab227" + tail) == None
  {
    var bad := Token(Hcl, "dab227");
    assert Render(bad) == "hcl:" + "dab227";
    assert !("hcl:#" <= Render(bad) + tail) by { assert (Render(bad) + tail)[4] == 'd'; }
    RecordStartingWithBadToken(bad, tail);
  }

  /** `hgt:59cm …`: 59 is an inch height, not a centimetre one, so the record fails. */
  lemma RecordStartingWithShortHeight(tail: string)
    ensures MatchRecord("hgt:" + "59" + ("cm" + tail)) == None
  {
    assert DecimalValue("59") == 59 by { assert "59"[..1][..0] == ""; }
    HeightRejects("59", "cm" + tail);
    var bad := Token(Hgt, "59");
    assert Render(bad) == "hgt:" + "59";
    RecordStartingWithBadToken(bad, "cm" + tail);
  }

  /** `pid:3556412378 …`: ten digits are one too many, so the record fails. */
  lemma RecordStartingWithLongPassportId(tail: string)
    ensures MatchRecord("pid:" + "3556412378" + tail) == None
  {
    var bad := Token(Pid, "3556412378");
    assert Render(bad) == "pid:" + "3556412378";
    var s := Render(bad) + tail;
    assert s[4..13] == "355641237" && s[13] == '8';
    RecordStartingWithBadToken(bad, tail);
  }

  /** `hgt:170 …`: a height without a unit fails the record. */
  lemma RecordStartingWithUnitlessHeight(tail: string)
    requires DigitBoundary(tail) && !("cm" <= tail) && !("in" <= tail)
    ensures MatchRecord("hgt:" + "170" + tail) == None
  {
    assert DecimalValue("170") == 170 by {
      assert "170"[..2][..1][..0] == "" && "170"[..2][..1] == "1" && "170"[..2] == "17";
    }
    HeightRejects("170", tail);
    var bad := Token(Hgt, "170");
    assert Render(bad) == "hgt:" + "170";
    RecordStartingWithBadToken(bad, tail);
  }

  /** A record with whitespace before its first token fails. */
  lemma RecordWithLeadingNewline(rest: string)
    ensures MatchRecord("\n" + rest) == None
  {
    MatchRecordRejectsLeadingSpace("\n" + rest);
  }
}
