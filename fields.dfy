/** The per-field value parsers of day-4 (`check_birth_year` … `check_cid`), each a pure
    function from the input to `Some((rest, value))` or `None`, together with the field
    grammar they are meant to implement (`ValidYear`, `ValidHeight`, …) and, per parser,
    a lemma in each direction relating the two. */
module Fields {
  import opened Lexing

  /** The eight fields, declared in the order `check_contents` passes them to `permutation`. */
  datatype Kind = Ecl | Pid | Byr | Iyr | Eyr | Hcl | Hgt | Cid

  function Key(k: Kind): string
  {
    match k
    case Ecl => "ecl"
    case Pid => "pid"
    case Byr => "byr"
    case Iyr => "iyr"
    case Eyr => "eyr"
    case Hcl => "hcl"
    case Hgt => "hgt"
    case Cid => "cid"
  }

  /** What follows a numeric value: the digit run must not go on. */
  predicate DigitBoundary(t: string) { t == [] || !IsDigit(t[0]) }

  /** The remainder every field parser leaves: `multispace0` has removed the whitespace run. */
  predicate CleanRest(rest: string, s: string)
  {
    IsSuffix(rest, s) && (rest == [] || !IsMultispace(rest[0]))
  }

  /** `multispace0` after a suffix leaves a clean rest of the whole input. */
  lemma CleanAfter(after: string, s: string)
    requires IsSuffix(after, s)
    ensures CleanRest(Multispace0(after), s) && |Multispace0(after)| <= |after|
  {
    SuffixTrans(Multispace0(after), after, s);
  }

  // ---------------------------------------------------------------------------------
  // byr, iyr, eyr

  /** `check_year_record`: the tag `field:`, a digit run that parses as a `u16` within
      `[lower, upper]`, then `multispace0`. */
  function YearRecord(s: string, field: string, lower: nat, upper: nat): (r: Option<(string, nat)>)
    ensures r.Some? ==> lower <= r.value.1 <= upper
    ensures r.Some? ==> CleanRest(r.value.0, s) && |r.value.0| < |s|
  {
    match Tag(s, field + ":")
    case None => None
    case Some(afterTag) =>
      match Digit1(afterTag)
      case None => None
      case Some((afterDigits, digits)) =>
        match ParseU16(digits)
        case None => None
        case Some(n) =>
          if n < lower || n > upper then None
          else
            ConsumedSplit(s, field + ":", afterTag, digits, afterDigits);
            CleanAfter(afterDigits, s);
            Some((Multispace0(afterDigits), n))
  }

  /** The year grammar: one or more decimal digits (leading zeros allowed) denoting a
      value in `[lower, upper]`. */
  predicate ValidYear(text: string, lower: nat, upper: nat)
  {
    text != [] && AllDigits(text) && lower <= DecimalValue(text) <= upper
  }

  /** A well-formed year token, followed by anything that does not continue its digit
      run, is accepted with its value; the trailing whitespace is consumed. The bounds
      are `u16` in the source. */
  lemma YearAccepts(field: string, lower: nat, upper: nat, text: string, t: string)
    requires upper <= 0xFFFF
    requires ValidYear(text, lower, upper) && DigitBoundary(t)
    ensures YearRecord(field + ":" + text + t, field, lower, upper)
         == Some((Multispace0(t), DecimalValue(text)))
  {
    var s := field + ":" + text + t;
    assert s[|field + ":"|..] == text + t;
    SpanAppend(text, t, IsDigit);
    assert (text + t)[..|text|] == text && (text + t)[|text|..] == t;
  }

  /** A digit run out of range is refused, whatever follows it. */
  lemma YearRejects(field: string, lower: nat, upper: nat, text: string, t: string)
    requires text != [] && AllDigits(text) && DigitBoundary(t)
    requires !(lower <= DecimalValue(text) <= upper)
    ensures YearRecord(field + ":" + text + t, field, lower, upper).None?
  {
    var s := field + ":" + text + t;
    assert s == (field + ":") + (text + t);
    assert Tag(s, field + ":") == Some(text + t);
    SpanAppend(text, t, IsDigit);
    assert (text + t)[..|text|] == text && (text + t)[|text|..] == t;
    assert Digit1(text + t) == Some((t, text));
  }

  /** Every success of the year parser reads a well-formed year token. */
  lemma YearSound(s: string, field: string, lower: nat, upper: nat)
    requires YearRecord(s, field, lower, upper).Some?
    ensures exists text, t ::
              s == field + ":" + text + t && ValidYear(text, lower, upper) && DigitBoundary(t)
              && YearRecord(s, field, lower, upper) == Some((Multispace0(t), DecimalValue(text)))
  {
    var afterTag := Tag(s, field + ":").value;
    var (t, text) := Digit1(afterTag).value;
    assert s == field + ":" + text + t;
  }

  /** `check_birth_year`. */
  function BirthYear(s: string): (r: Option<(string, nat)>)
    ensures r.Some? ==> 1920 <= r.value.1 <= 2002
    ensures r.Some? ==> CleanRest(r.value.0, s) && |r.value.0| < |s|
  {
    YearRecord(s, "byr", 1920, 2002)
  }

  /** `check_issue_year`. */
  function IssueYear(s: string): (r: Option<(string, nat)>)
    ensures r.Some? ==> 2010 <= r.value.1 <= 2020
    ensures r.Some? ==> CleanRest(r.value.0, s) && |r.value.0| < |s|
  {
    YearRecord(s, "iyr", 2010, 2020)
  }

  /** `check_expiry_year`. */
  function ExpiryYear(s: string): (r: Option<(string, nat)>)
    ensures r.Some? ==> 2020 <= r.value.1 <= 2030
    ensures r.Some? ==> CleanRest(r.value.0, s) && |r.value.0| < |s|
  {
    YearRecord(s, "eyr", 2020, 2030)
  }

  // ---------------------------------------------------------------------------------
  // ecl

  const EyeColors: seq<string> := ["amb", "blu", "brn", "gry", "grn", "hzl", "oth"]

  /** nom's `alt` over `tag`s: the first of `tags` that is a prefix of `s`, as `(rest, tag)`. */
  function AltTags(s: string, tags: seq<string>): (r: Option<(string, string)>)
    ensures r.Some? ==> r.value.1 in tags && s == r.value.1 + r.value.0
    ensures r.None? <==> forall i :: 0 <= i < |tags| ==> !(tags[i] <= s)
  {
    if tags == [] then None
    else
      match Tag(s, tags[0])
      case Some(rest) => Some((rest, tags[0]))
      case None => AltTags(s, tags[1..])
  }

  /** Among tags of one length, the one that is a prefix is the one `alt` picks. */
  lemma {:induction false} AltTagsPicks(s: string, tags: seq<string>, x: string)
    requires x in tags && x <= s
    requires forall i :: 0 <= i < |tags| ==> |tags[i]| == |x|
    ensures AltTags(s, tags) == Some((s[|x|..], x))
  {
    if tags[0] <= s {
      assert tags[0] == s[..|x|] == x;
    } else {
      assert x in tags[1..];
      AltTagsPicks(s, tags[1..], x);
    }
  }

  /** `check_eye_color`: the tag `ecl:`, one of the seven colour tags (nothing is checked
      after its three letters), then `multispace0`. */
  function EyeColor(s: string): (r: Option<(string, string)>)
    ensures r.Some? ==> r.value.1 in EyeColors
    ensures r.Some? ==> CleanRest(r.value.0, s) && |r.value.0| < |s|
  {
    match Tag(s, "ecl:")
    case None => None
    case Some(afterTag) =>
      match AltTags(afterTag, EyeColors)
      case None => None
      case Some((afterColor, color)) =>
        ConsumedSplit(s, "ecl:", afterTag, color, afterColor);
        CleanAfter(afterColor, s);
        Some((Multispace0(afterColor), color))
  }

  predicate ValidEyeColor(text: string) { text in EyeColors }

  /** A listed colour is accepted whatever follows it. */
  lemma EyeColorAccepts(text: string, t: string)
    requires ValidEyeColor(text)
    ensures EyeColor("ecl:" + text + t) == Some((Multispace0(t), text))
  {
    var s := "ecl:" + text + t;
    assert s[4..] == text + t;
    AltTagsPicks(text + t, EyeColors, text);
    assert (text + t)[|text|..] == t;
  }

  /** Three letters that are not a listed colour are refused. */
  lemma EyeColorRejects(text: string, t: string)
    requires |text| == 3 && !ValidEyeColor(text)
    ensures EyeColor("ecl:" + text + t).None?
  {
    var s := "ecl:" + text + t;
    assert s[4..] == text + t;
    forall i | 0 <= i < |EyeColors| ensures !(EyeColors[i] <= text + t) {
      assert |EyeColors[i]| == 3 && (text + t)[..3] == text && EyeColors[i] != text;
      PrefixLength(EyeColors[i], text + t);
    }
  }

  /** Every success of the eye-colour parser reads a listed colour. */
  lemma EyeColorSound(s: string)
    requires EyeColor(s).Some?
    ensures exists text, t ::
              s == "ecl:" + text + t && ValidEyeColor(text)
              && EyeColor(s) == Some((Multispace0(t), text))
  {
    var afterTag := Tag(s, "ecl:").value;
    var (t, text) := AltTags(afterTag, EyeColors).value;
    assert s == "ecl:" + text + t;
  }

  // ---------------------------------------------------------------------------------
  // cid

  /** The characters `take_till` in `check_cid` stops at. */
  predicate IsCidStop(c: char) { c == ' ' || c == '\n' }

  /** `check_cid`: `opt` of the tag `cid:`, the text up to the next space or newline
      (possibly empty), then `multispace0`. It never fails. */
  function CountryId(s: string): (r: Option<(string, Option<string>)>)
    ensures r.Some?
    ensures r.value.1.None? <==> !("cid:" <= s)
    ensures r.value.1.None? ==> r.value.0 == s
    ensures r.value.1.Some? ==> CleanRest(r.value.0, s) && |r.value.0| < |s|
    ensures r.value.1.Some? ==> forall i :: 0 <= i < |r.value.1.value| ==> !IsCidStop(r.value.1.value[i])
  {
    match Tag(s, "cid:")
    case None => Some((s, None))
    case Some(afterTag) =>
      var (afterId, id) := TakeTill(afterTag, IsCidStop);
      ConsumedSplit(s, "cid:", afterTag, id, afterId);
      CleanAfter(afterId, s);
      Some((Multispace0(afterId), Some(id)))
  }

  /** The cid grammar: any text without a space or newline. */
  predicate ValidCountryId(text: string) { forall i :: 0 <= i < |text| ==> !IsCidStop(text[i]) }

  predicate CidBoundary(t: string) { t == [] || IsCidStop(t[0]) }

  /** A cid token ending at a space, a newline or the end is read in full. */
  lemma CountryIdAccepts(text: string, t: string)
    requires ValidCountryId(text) && CidBoundary(t)
    ensures CountryId("cid:" + text + t) == Some((Multispace0(t), Some(text)))
  {
    var s := "cid:" + text + t;
    assert s[4..] == text + t;
    TakeTillSplits(text, t, IsCidStop);
  }

  /** Without the tag, `opt` succeeds without consuming anything. */
  lemma CountryIdAbsent(s: string)
    requires !("cid:" <= s)
    ensures CountryId(s) == Some((s, None))
  {
  }

  /** Every present cid read by the parser is a cid token at a boundary. */
  lemma CountryIdSound(s: string)
    requires CountryId(s).value.1.Some?
    ensures exists text, t ::
              s == "cid:" + text + t && ValidCountryId(text) && CidBoundary(t)
              && CountryId(s) == Some((Multispace0(t), Some(text)))
  {
    var afterTag := Tag(s, "cid:").value;
    var (t, text) := TakeTill(afterTag, IsCidStop);
    assert s == "cid:" + text + t;
  }

  // ---------------------------------------------------------------------------------
  // pid

  /** `check_passport_id`: the tag `pid:`, exactly nine digits that `not(digit1)` shows
      are not followed by a tenth, then `multispace0`. */
  function PassportId(s: string): (r: Option<(string, string)>)
    ensures r.Some? ==> |r.value.1| == 9 && AllDigits(r.value.1)
    ensures r.Some? ==> CleanRest(r.value.0, s) && |r.value.0| < |s|
  {
    match Tag(s, "pid:")
    case None => None
    case Some(afterTag) =>
      match TakeWhileMN(afterTag, 9, 9, IsDigit)
      case None => None
      case Some((afterId, id)) =>
        if Digit1(afterId).Some? then None
        else
          ConsumedSplit(s, "pid:", afterTag, id, afterId);
          CleanAfter(afterId, s);
          Some((Multispace0(afterId), id))
  }

  predicate ValidPassportId(text: string) { |text| == 9 && AllDigits(text) }

  /** Nine digits not followed by a digit are accepted, leading zeros kept. */
  lemma PassportIdAccepts(text: string, t: string)
    requires ValidPassportId(text) && DigitBoundary(t)
    ensures PassportId("pid:" + text + t) == Some((Multispace0(t), text))
  {
    var s := "pid:" + text + t;
    assert s[4..] == text + t;
    SpanAppend(text, t, IsDigit);
    assert (text + t)[..9] == text && (text + t)[9..] == t;
  }

  /** Nine digits followed by a further digit are refused: the id is too long. */
  lemma PassportIdRejectsLong(text: string, t: string)
    requires ValidPassportId(text) && !DigitBoundary(t)
    ensures PassportId("pid:" + text + t).None?
  {
    var s := "pid:" + text + t;
    assert s[4..] == text + t;
    var n := Span(text + t, IsDigit);
    assert n >= 9 by { assert forall i :: 0 <= i < 9 ==> (text + t)[i] == text[i]; }
    assert (text + t)[..9] == text && (text + t)[9..] == t;
  }

  /** Every success of the passport-id parser reads exactly nine digits. */
  lemma PassportIdSound(s: string)
    requires PassportId(s).Some?
    ensures exists text, t ::
              s == "pid:" + text + t && ValidPassportId(text) && DigitBoundary(t)
              && PassportId(s) == Some((Multispace0(t), text))
  {
    var afterTag := Tag(s, "pid:").value;
    var (t, text) := TakeWhileMN(afterTag, 9, 9, IsDigit).value;
    assert s == "pid:" + text + t;
  }

  // ---------------------------------------------------------------------------------
  // hcl

  /** `check_hair_color`: the tag `hcl:#`, exactly six hex digits (what follows is not
      looked at), then `multispace0`. The value is returned without the `#`. */
  function HairColor(s: string): (r: Option<(string, string)>)
    ensures r.Some? ==> |r.value.1| == 6 && AllHexDigits(r.value.1)
    ensures r.Some? ==> CleanRest(r.value.0, s) && |r.value.0| < |s|
  {
    match Tag(s, "hcl:#")
    case None => None
    case Some(afterTag) =>
      match TakeWhileMN(afterTag, 6, 6, IsHexDigit)
      case None => None
      case Some((afterColor, color)) =>
        ConsumedSplit(s, "hcl:#", afterTag, color, afterColor);
        CleanAfter(afterColor, s);
        Some((Multispace0(afterColor), color))
  }

  /** The hair-colour grammar: `#` and six hex digits. */
  predicate ValidHairColor(text: string) { |text| == 7 && text[0] == '#' && AllHexDigits(text[1..]) }

  /** A run of hex digits at least as long as `a` starts any extension of `a`. */
  lemma {:induction false} SpanCovers(a: string, b: string, p: char -> bool)
    requires forall i :: 0 <= i < |a| ==> p(a[i])
    ensures Span(a + b, p) >= |a|
  {
    if a != [] {
      assert (a + b)[1..] == a[1..] + b;
      SpanCovers(a[1..], b, p);
    }
  }

  /** A well-formed colour is accepted whatever follows its six digits. */
  lemma HairColorAccepts(text: string, t: string)
    requires ValidHairColor(text)
    ensures HairColor("hcl:" + text + t) == Some((Multispace0(t), text[1..]))
  {
    var s := "hcl:" + text + t;
    assert "hcl:#" <= s && s[5..] == text[1..] + t;
    SpanCovers(text[1..], t, IsHexDigit);
    assert (text[1..] + t)[..6] == text[1..] && (text[1..] + t)[6..] == t;
  }

  /** Every success of the hair-colour parser reads `#` and six hex digits. */
  lemma HairColorSound(s: string)
    requires HairColor(s).Some?
    ensures exists text, t ::
              s == "hcl:" + text + t && ValidHairColor(text)
              && HairColor(s) == Some((Multispace0(t), text[1..]))
  {
    var afterTag := Tag(s, "hcl:#").value;
    var (t, color) := TakeWhileMN(afterTag, 6, 6, IsHexDigit).value;
    var text := "#" + color;
    assert text[1..] == color;
    assert s == "hcl:" + text + t;
  }

  // ---------------------------------------------------------------------------------
  // hgt

  /** One branch of the `alt` in `check_height`: a digit run that parses as a `u16`
      within `[lower, upper]`, then the tag `unit`. */
  function Measure(s: string, lower: nat, upper: nat, unit: string): (r: Option<(string, nat)>)
    ensures r.Some? ==> lower <= r.value.1 <= upper
    ensures r.Some? ==> IsSuffix(r.value.0, s) && |r.value.0| < |s|
  {
    match Digit1(s)
    case None => None
    case Some((afterDigits, digits)) =>
      match ParseU16(digits)
      case None => None
      case Some(n) =>
        if n < lower || n > upper then None
        else
          match Tag(afterDigits, unit)
          case None => None
          case Some(afterUnit) =>
            ConsumedSplit(s, digits, afterDigits, unit, afterUnit);
            Some((afterUnit, n))
  }

  /** The `alt` of `check_height`: centimetres first, then inches. */
  function CmOrIn(s: string): (r: Option<(string, nat)>)
    ensures r.Some? ==> 150 <= r.value.1 <= 193 || 59 <= r.value.1 <= 76
    ensures r.Some? ==> IsSuffix(r.value.0, s) && |r.value.0| < |s|
  {
    var cm := Measure(s, 150, 193, "cm");
    if cm.Some? then cm else Measure(s, 59, 76, "in")
  }

  /** `check_height`: the tag `hgt:`, then a value in `[150, 193]` followed by `cm` or,
      failing that, a value in `[59, 76]` followed by `in`, then `multispace0`. */
  function Height(s: string): (r: Option<(string, nat)>)
    ensures r.Some? ==> 150 <= r.value.1 <= 193 || 59 <= r.value.1 <= 76
    ensures r.Some? ==> CleanRest(r.value.0, s) && |r.value.0| < |s|
  {
    match Tag(s, "hgt:")
    case None => None
    case Some(afterTag) =>
      match CmOrIn(afterTag)
      case None => None
      case Some((afterUnit, n)) =>
        ConsumedSplit(s, "hgt:", afterTag, [], afterTag);
        SuffixTrans(afterUnit, afterTag, s);
        CleanAfter(afterUnit, s);
        Some((Multispace0(afterUnit), n))
  }

  /** The height grammar: digits then `cm` with a value in `[150, 193]`, or digits then
      `in` with a value in `[59, 76]`. A number without a unit is not a height. */
  predicate ValidHeight(text: string)
  {
    |text| >= 3 && AllDigits(HeightDigits(text))
    && var n := DecimalValue(HeightDigits(text));
       var unit := text[|text| - 2..];
       (unit == "cm" && 150 <= n <= 193) || (unit == "in" && 59 <= n <= 76)
  }

  function HeightDigits(text: string): string
  {
    if |text| >= 2 then text[..|text| - 2] else text
  }

  /** `Measure` on a digit run followed by a non-digit: it succeeds exactly when the
      number is in range and the unit comes next. */
  lemma MeasureAt(digits: string, rest: string, lower: nat, upper: nat, unit: string)
    requires digits != [] && AllDigits(digits) && (rest == [] || !IsDigit(rest[0]))
    requires upper < 0x1_0000
    ensures Measure(digits + rest, lower, upper, unit)
         == if lower <= DecimalValue(digits) <= upper && unit <= rest
            then Some((rest[|unit|..], DecimalValue(digits))) else None
  {
    SpanAppend(digits, rest, IsDigit);
    assert (digits + rest)[..|digits|] == digits && (digits + rest)[|digits|..] == rest;
  }

  /** A well-formed height is accepted with its number whatever follows the unit. */
  lemma HeightAccepts(text: string, t: string)
    requires ValidHeight(text)
    ensures Height("hgt:" + text + t) == Some((Multispace0(t), DecimalValue(HeightDigits(text))))
  {
    var s := "hgt:" + text + t;
    var digits, unit := HeightDigits(text), text[|text| - 2..];
    var afterTag := digits + (unit + t);
    assert text == digits + unit;
    assert s[4..] == afterTag;
    assert (unit + t)[2..] == t;
    assert (unit + t)[..2] == unit;
    MeasureAt(digits, unit + t, 150, 193, "cm");
    MeasureAt(digits, unit + t, 59, 76, "in");
    if unit == "cm" {
      assert Measure(afterTag, 150, 193, "cm") == Some((t, DecimalValue(digits)));
    } else {
      assert !("cm" <= unit + t) by { assert (unit + t)[0] == 'i'; }
      assert Measure(afterTag, 59, 76, "in") == Some((t, DecimalValue(digits)));
    }
    assert CmOrIn(afterTag) == Some((t, DecimalValue(digits)));
  }

  /** A number followed by neither a fitting `cm` nor a fitting `in` is not a height; in
      particular a number without a unit is refused. */
  lemma HeightRejects(digits: string, t: string)
    requires digits != [] && AllDigits(digits) && DigitBoundary(t)
    requires var n := DecimalValue(digits);
      !(("cm" <= t && 150 <= n <= 193) || ("in" <= t && 59 <= n <= 76))
    ensures Height("hgt:" + digits + t).None?
  {
    var s := "hgt:" + digits + t;
    assert s[4..] == digits + t;
    MeasureAt(digits, t, 150, 193, "cm");
    MeasureAt(digits, t, 59, 76, "in");
  }

  /** What a successful `Measure` has read: a height text of the given unit, and its
      number. */
  lemma MeasureSplits(s: string, lower: nat, upper: nat, unit: string) returns (text: string)
    requires unit == "cm" || unit == "in"
    requires Measure(s, lower, upper, unit).Some?
    ensures s == text + Measure(s, lower, upper, unit).value.0
    ensures |text| >= 3 && HeightDigits(text) != [] && AllDigits(HeightDigits(text))
    ensures text[|text| - 2..] == unit
    ensures Measure(s, lower, upper, unit).value.1 == DecimalValue(HeightDigits(text))
  {
    var (afterDigits, digits) := Digit1(s).value;
    var n := ParseU16(digits).value;
    assert n == DecimalValue(digits);
    assert afterDigits == unit + Measure(s, lower, upper, unit).value.0;
    text := digits + unit;
    assert HeightDigits(text) == digits;
    assert text[|text| - 2..] == unit;
  }

  /** Every success of the height parser reads a well-formed height. */
  lemma HeightSound(s: string)
    requires Height(s).Some?
    ensures exists text, t ::
              s == "hgt:" + text + t && ValidHeight(text)
              && Height(s) == Some((Multispace0(t), DecimalValue(HeightDigits(text))))
  {
    var afterTag := s[4..];
    assert s == "hgt:" + afterTag;
    var (t, n) := CmOrIn(afterTag).value;
    assert Height(s) == Some((Multispace0(t), n));
    var text;
    var cm := Measure(afterTag, 150, 193, "cm");
    if cm.Some? {
      assert cm == Some((t, n));
      text := MeasureSplits(afterTag, 150, 193, "cm");
    } else {
      assert Measure(afterTag, 59, 76, "in") == Some((t, n));
      text := MeasureSplits(afterTag, 59, 76, "in");
    }
    assert ValidHeight(text);
    TagThen(s, "hgt:", text, t);
    assert Height(s) == Some((Multispace0(t), DecimalValue(HeightDigits(text))));
  }

  // ---------------------------------------------------------------------------------
  // All fields at once

  /** The typed values the parsers return: `&str`, `u16`, and `Option<&str>` for cid. */
  datatype Value = Text(text: string) | Number(n: nat) | OptText(opt: Option<string>)

  /** The constraint each parser's result type and range checks guarantee. */
  predicate Fits(k: Kind, v: Value)
  {
    match k
    case Ecl => v.Text? && v.text in EyeColors
    case Pid => v.Text? && |v.text| == 9 && AllDigits(v.text)
    case Byr => v.Number? && 1920 <= v.n <= 2002
    case Iyr => v.Number? && 2010 <= v.n <= 2020
    case Eyr => v.Number? && 2020 <= v.n <= 2030
    case Hcl => v.Text? && |v.text| == 6 && AllHexDigits(v.text)
    case Hgt => v.Number? && (150 <= v.n <= 193 || 59 <= v.n <= 76)
    case Cid => v.OptText?
  }

  function AsText(r: Option<(string, string)>): Option<(string, Value)>
  {
    if r.Some? then Some((r.value.0, Text(r.value.1))) else None
  }

  function AsNumber(r: Option<(string, nat)>): Option<(string, Value)>
  {
    if r.Some? then Some((r.value.0, Number(r.value.1))) else None
  }

  /** The parser of field `k`, its result widened to `Value`. */
  function ParseField(k: Kind, s: string): (r: Option<(string, Value)>)
    ensures r.Some? ==> Fits(k, r.value.1)
    ensures k == Cid ==> r.Some?
    ensures r.Some? ==> IsSuffix(r.value.0, s)
    ensures r.Some? && r.value.1 != OptText(None) ==> CleanRest(r.value.0, s) && |r.value.0| < |s|
  {
    match k
    case Ecl => AsText(EyeColor(s))
    case Pid => AsText(PassportId(s))
    case Byr => AsNumber(BirthYear(s))
    case Iyr => AsNumber(IssueYear(s))
    case Eyr => AsNumber(ExpiryYear(s))
    case Hcl => AsText(HairColor(s))
    case Hgt => AsNumber(Height(s))
    case Cid => var (rest, id) := CountryId(s).value; Some((rest, OptText(id)))
  }

  /** The grammar of field `k`'s value text (what follows `key:`). */
  predicate ValidValue(k: Kind, text: string)
  {
    match k
    case Ecl => ValidEyeColor(text)
    case Pid => ValidPassportId(text)
    case Byr => ValidYear(text, 1920, 2002)
    case Iyr => ValidYear(text, 2010, 2020)
    case Eyr => ValidYear(text, 2020, 2030)
    case Hcl => ValidHairColor(text)
    case Hgt => ValidHeight(text)
    case Cid => ValidCountryId(text)
  }

  /** What may follow field `k`'s value without extending it. */
  predicate Boundary(k: Kind, t: string)
  {
    match k
    case Pid | Byr | Iyr | Eyr => DigitBoundary(t)
    case Cid => CidBoundary(t)
    case Ecl | Hcl | Hgt => true
  }

  /** The value field `k`'s parser yields for a well-formed value text. */
  function Interpret(k: Kind, text: string): Value
  {
    match k
    case Ecl | Pid => Text(text)
    case Byr | Iyr | Eyr => Number(DecimalValue(text))
    case Hcl => Text(if text == [] then [] else text[1..])
    case Hgt => Number(DecimalValue(HeightDigits(text)))
    case Cid => OptText(Some(text))
  }

  /** The value read from a well-formed text is one its parser can return. */
  lemma InterpretFits(k: Kind, text: string)
    requires ValidValue(k, text)
    ensures Fits(k, Interpret(k, text))
  {
    if k == Hcl {
      assert forall i :: 0 <= i < 6 ==> text[1..][i] == text[i + 1];
    }
  }

  /** Each parser accepts its own well-formed `key:value` token at a boundary, yields
      the value the grammar gives it, and consumes the whitespace after it. */
  lemma ParseFieldAccepts(k: Kind, text: string, t: string)
    requires ValidValue(k, text) && Boundary(k, t)
    ensures ParseField(k, Key(k) + ":" + text + t) == Some((Multispace0(t), Interpret(k, text)))
  {
    var s := Key(k) + ":" + text + t;
    match k
    case Ecl =>
      assert s == "ecl:" + text + t;
      EyeColorAccepts(text, t);
    case Pid =>
      assert s == "pid:" + text + t;
      PassportIdAccepts(text, t);
    case Byr =>
      assert s == "byr:" + text + t;
      YearAccepts("byr", 1920, 2002, text, t);
    case Iyr =>
      assert s == "iyr:" + text + t;
      YearAccepts("iyr", 2010, 2020, text, t);
    case Eyr =>
      assert s == "eyr:" + text + t;
      YearAccepts("eyr", 2020, 2030, text, t);
    case Hcl =>
      assert s == "hcl:" + text + t;
      HairColorAccepts(text, t);
    case Hgt =>
      assert s == "hgt:" + text + t;
      HeightAccepts(text, t);
    case Cid =>
      assert s == "cid:" + text + t;
      CountryIdAccepts(text, t);
  }

  /** A parser whose key tag is absent fails, except cid, which then yields `None`
      and consumes nothing. */
  lemma ParseFieldWithoutKey(k: Kind, s: string)
    requires !(Key(k) + ":" <= s)
    ensures k != Cid ==> ParseField(k, s).None?
    ensures k == Cid ==> ParseField(k, s) == Some((s, OptText(None)))
  {
    PrefixOfPrefix("hcl:", "hcl:#", s);
  }

  /** The key tags are distinct and none extends another: at a field's token no other
      field's tag matches. */
  lemma KeysExclusive(k: Kind, j: Kind, s: string)
    requires k != j
    ensures !(Key(j) + ":" <= Key(k) + ":" + s)
  {
    var s' := Key(k) + ":" + s;
    assert s'[..4] == Key(k) + ":";
    assert (Key(k) + ":")[..3] == Key(k) && (Key(j) + ":")[..3] == Key(j);
    assert Key(k) != Key(j) by {
      match k
      case Ecl => {} case Pid => {} case Byr => {} case Iyr => {}
      case Eyr => {} case Hcl => {} case Hgt => {} case Cid => {}
    }
  }
}
