# Passport validation (Advent of Code 2020, day 4) in Dafny

A model of `day-4/src/main.rs`, with proofs. The program reads a batch of passport
records, separated by blank lines. It counts the records in two ways:

- the records that name all seven required keys (`check`, the shallow test);
- the records that nom's `permutation` accepts (`check_contents`, the deep test).
  Here every required field must also carry a value its parser accepts.

The model has six modules:

| module | file | what it models |
|---|---|---|
| `Lexing` | `lexing.dfy` | What the nom primitives the program uses mean. These are `tag`, `digit1`, `multispace0`, `take_till` and `take_while_m_n`, plus `str::parse::<u16>`. |
| `Fields` | `fields.dfy` | The field parsers `check_year_record` … `check_cid`. Each is a pure function from the input to `Some((rest, value))` or `None`. Each comes with the grammar it implements (`ValidYear`, `ValidHeight`, …) and two lemmas: `…Accepts` (a well-formed token is read with its value) and `…Sound` (every success reads a well-formed token). |
| `Shallow` | `shallow.dfy` | `check`. `Words` models `split_whitespace` over Unicode `White_Space`. `KeyOf` models `split(':').next()`. `Check` is the set difference. |
| `Matcher` | `matcher.dfy` | `check_contents`. The method `CheckContents` writes `permutation`'s loop out: one slot per parser, a cursor, and rounds that try the unmatched parsers in declaration order. The function `Run` specifies that loop. |
| `Driver` | `driver.dfy` | `main` without its I/O. `Blocks` models `split("\n\n")`, `Count` models `filter(..).count()`, the method `DeepCount` is the `deep_count` loop, and `Tally` returns both counts. |
| `UnitCases` | `unit_cases.dfy` | The inputs and outputs of the source's unit tests, derived from the general lemmas. |

nom is not modelled as a combinator framework. Each parser is written by what its
combinator expression means.

`permutation` is stated for any family of field parsers. This is the type
`FieldParsers = (Kind, string) -> Option<(string, Value)>`. Three predicates on such
a family name what the record lemmas rest on:

- `Typed`: values have their field's type, and the rest is a suffix of the input.
- `ReadTokens`: the family reads every well-formed token at a boundary, and every earlier parser fails there.
- `NeedKeys`: a parser whose key tag is absent fails, except cid's, which yields `None`.

`Matcher.ParseFieldTyped`, `Matcher.ParseFieldReadTokens` and `Matcher.ParseFieldNeedKeys`
prove these for the program's own parsers (`Fields.ParseField`). The `MatchRecord…`
lemmas then apply the generic `Run…` lemmas to that family.

A record is described as tokens (`Matcher.Token`, a kind and a value text).
`Matcher.Join` writes them out, each followed by its separator. `WellFormedRecord` holds
when:

- every value fits its grammar;
- no kind appears twice;
- every separator is a whitespace run that starts with a space or a newline;
- the separator after a cid token that is not last is not empty.

Behaviour of the code worth knowing, which the model follows:

- Input left over after all eight parsers have matched does not make `check_contents`
  fail. `permutation` returns OK with the remainder, and `main` only tests `is_ok()`.
  See `Matcher.MatchRecordKeepsLeftover`. For the same reason a duplicate or an
  unknown token after the last field is accepted.
- Deep validity does not imply shallow validity. No field parser needs whitespace after
  its value, so `byr:1980iyr:2015…` is read as two fields by `check_contents`: in
  `WellFormedRecord`, a separator after a non-cid token may be empty. `check` sees
  only one word, whose key is `byr`.
- A cid value may be empty (`cid:` followed by a space), because `take_till` accepts
  zero characters.
- A record that begins with whitespace is refused. At such a position no parser but
  cid's succeeds, and cid's reads nothing. See `Matcher.MatchRecordRejectsLeadingSpace`.
- A key with an invalid value is a recoverable nom error, not a hard failure. Because
  the key tags exclude each other (`Fields.KeysExclusive`), no other parser can match at
  that position, and the result is the same. See `Matcher.MatchRecordRejectsBadToken`.
- Deep validity depends on the order of the tokens once a record holds a duplicate or a
  refused token. A complete record followed by ` eyr:1900` is accepted, because the
  extra token is only leftover (`Matcher.MatchRecordKeepsLeftover`). The same tokens
  with `eyr:1900` first are refused (`Matcher.MatchRecordRejectsBadToken`). This is why
  `Matcher.MatchRecordOrderIndependent` is stated only for well-formed records.
- `check_height` returns only the number. The unit is lost.
- `take_till` stops only at `' '` and `'\n'`. A cid value followed by `"\r\n"` keeps
  the `'\r'`.

## Model

| member | source | states |
|---|---|---|
| Lexing.IsDigit | day-4/src/main.rs:184 | an ASCII decimal digit `0`-`9`: the class of `is_digit(10)` and of `digit1` (line 123) |
| Lexing.IsHexDigit | day-4/src/main.rs:205 | `0`-`9`, `a`-`f` or `A`-`F`: the class of `is_digit(16)` |
| Lexing.IsMultispace | day-4/src/main.rs:131 | space, tab, carriage return or newline: the characters `multispace0` skips |
| Lexing.DecimalValue | day-4/src/main.rs:123 | the number a digit run denotes, most significant digit first, as `parse::<u16>` reads it before its overflow check |
| Lexing.Tag | day-4/src/main.rs:122 | `tag(t)` succeeds exactly when `t` is a prefix, and returns the input after it |
| Lexing.Digit1 | day-4/src/main.rs:123 | `digit1` fails exactly when the input does not start with an ASCII digit; otherwise it splits off the maximal non-empty digit run, and the rest does not start with a digit |
| Lexing.Multispace0 | day-4/src/main.rs:131 | `multispace0` returns a suffix whose dropped prefix is all space, tab, CR or LF, and that does not start with one |
| Lexing.Multispace0Append | day-4/src/main.rs:131 | after a whitespace run, `multispace0` stops exactly at the next character that is not whitespace |
| Lexing.TakeTill | day-4/src/main.rs:171 | `take_till(stop)` splits the input into a prefix without stop characters and a rest that is empty or starts with one |
| Lexing.TakeTillSplits | day-4/src/main.rs:171 | a stop-free text followed by a stop character or by nothing is exactly what `take_till` takes |
| Lexing.TakeWhileMN | day-4/src/main.rs:184 | `take_while_m_n(m, n, p)` succeeds exactly when at least `m` leading characters satisfy `p`, and takes the longest such prefix of at most `n` characters, looking no further |
| Lexing.ParseU16 | day-4/src/main.rs:123-129 | `parse::<u16>` on a digit run succeeds exactly when its decimal value is below 65536, and returns that value |
| Fields.Key | day-4/src/main.rs:103-218 | each field's key as its parser tags it: `byr`, `iyr`, `eyr` (lines 103, 107, 111), `ecl` (156), `cid` (171), `pid` (187), `hcl` (203), `hgt` (218), each followed by `:` |
| Fields.YearRecord | day-4/src/main.rs:114-133 | a success has a value within `[lower, upper]` and a rest with its whitespace removed, strictly shorter than the input |
| Fields.YearAccepts | day-4/src/main.rs:114-133 | `field:` and a digit run valued in range, followed by anything that is not a digit, is accepted with that value, and the whitespace after it is consumed |
| Fields.YearRejects | day-4/src/main.rs:124-125 | a digit run valued out of range is refused, whatever follows |
| Fields.YearSound | day-4/src/main.rs:114-133 | every success reads `field:`, an in-range digit run and a digit boundary, and yields that run's value |
| Fields.BirthYear | day-4/src/main.rs:102-104 | `byr` values lie in `[1920, 2002]` |
| Fields.IssueYear | day-4/src/main.rs:106-108 | `iyr` values lie in `[2010, 2020]` |
| Fields.ExpiryYear | day-4/src/main.rs:110-112 | `eyr` values lie in `[2020, 2030]` |
| Fields.AltTags | day-4/src/main.rs:146-154 | `alt` over tags returns one of the tags and the input after it; it fails exactly when no tag is a prefix |
| Fields.AltTagsPicks | day-4/src/main.rs:146-154 | among tags of one length, the tag that is a prefix is the one `alt` returns |
| Fields.EyeColors | day-4/src/main.rs:146-154 | the seven colour tags of the `alt`, in the order it tries them: amb, blu, brn, gry, grn, hzl, oth |
| Fields.EyeColor | day-4/src/main.rs:145-157 | a success returns one of the seven listed colours and a rest with its whitespace removed |
| Fields.EyeColorAccepts | day-4/src/main.rs:145-157 | `ecl:` and a listed colour is accepted whatever follows it; trailing whitespace is consumed |
| Fields.EyeColorRejects | day-4/src/main.rs:146-154 | three letters that are not a listed colour are refused |
| Fields.EyeColorSound | day-4/src/main.rs:145-157 | every success reads `ecl:` and a listed colour |
| Fields.CountryId | day-4/src/main.rs:170-172 | `check_cid` never fails; it yields `None` exactly when the input does not start with `cid:`, and then consumes nothing; a value has no space or newline |
| Fields.IsCidStop | day-4/src/main.rs:171 | the characters the `take_till` closure stops at: a space or a newline, nothing else |
| Fields.CountryIdAccepts | day-4/src/main.rs:170-172 | `cid:` and a text without space or newline, followed by one of them or by nothing, yields that text; the whitespace after it is consumed |
| Fields.CountryIdAbsent | day-4/src/main.rs:171 | without the `cid:` tag the result is `None` and the input is unchanged |
| Fields.CountryIdSound | day-4/src/main.rs:170-172 | every `Some` reads `cid:` and a text that ends at a space, a newline or the end, possibly empty |
| Fields.PassportId | day-4/src/main.rs:183-190 | a success returns exactly nine decimal digits, leading zeros kept |
| Fields.PassportIdAccepts | day-4/src/main.rs:183-190 | `pid:` and nine digits not followed by a digit is accepted with those digits |
| Fields.PassportIdRejectsLong | day-4/src/main.rs:183-190 | nine digits followed by a further digit are refused by `not(digit1)` |
| Fields.PassportIdSound | day-4/src/main.rs:183-190 | every success reads `pid:`, nine digits and a non-digit or the end |
| Fields.HairColor | day-4/src/main.rs:202-206 | a success returns exactly six hex digits, without the `#` |
| Fields.HairColorAccepts | day-4/src/main.rs:202-206 | `hcl:#` and six hex digits is accepted, whatever follows, with those six digits |
| Fields.HairColorSound | day-4/src/main.rs:202-206 | every success reads `hcl:#` and six hex digits |
| Fields.Measure | day-4/src/main.rs:221-241 | one `alt` branch: a digit run in range followed by the unit; its value is in range and its rest a shorter suffix |
| Fields.CmOrIn | day-4/src/main.rs:221-242 | the `alt` of the two branches yields a value in `[150, 193]` or in `[59, 76]` |
| Fields.Height | day-4/src/main.rs:217-245 | a success yields a value in `[150, 193]` or `[59, 76]`, with the whitespace after it removed |
| Fields.MeasureAt | day-4/src/main.rs:222-231 | a branch over a digit run succeeds exactly when the value is in range and the unit follows |
| Fields.HeightAccepts | day-4/src/main.rs:217-245 | `hgt:` and a height with `cm` in `[150, 193]` or `in` in `[59, 76]` is accepted with its number |
| Fields.HeightRejects | day-4/src/main.rs:217-245 | a digit run neither followed by `cm` while in `[150, 193]` nor by `in` while in `[59, 76]` is refused; a bare number is refused |
| Fields.MeasureSplits | day-4/src/main.rs:221-241 | every success of a branch reads digits and the unit, and yields the digits' value |
| Fields.HeightSound | day-4/src/main.rs:217-245 | every success reads `hgt:` and a well-formed height |
| Fields.Value | day-4/src/main.rs:51 | the parsers' result types: `&str` as `Text`, `u16` as `Number`, cid's `Option<&str>` as `OptText` |
| Fields.ParseField | day-4/src/main.rs:51-62 | the eight parsers as one family: values fit their field; cid's never fails; every rest is a suffix |
| Fields.InterpretFits | day-4/src/main.rs:51 | the value read from a well-formed text has the field's type in the result tuple |
| Fields.ParseFieldAccepts | day-4/src/main.rs:102-245 | every parser accepts its own well-formed token at a boundary and consumes the whitespace after it |
| Fields.ParseFieldWithoutKey | day-4/src/main.rs:102-245 | without its key tag a parser fails, except cid's, which yields `None` and reads nothing |
| Fields.KeysExclusive | day-4/src/main.rs:102-245 | no field's key tag is a prefix of another field's token |
| Shallow.Words | day-4/src/main.rs:41-44 | `split_whitespace` yields non-empty words without whitespace, and none exactly when the block is all whitespace |
| Shallow.IsWhitespace | day-4/src/main.rs:42 | the Unicode `White_Space` characters `split_whitespace` splits on |
| Shallow.WordsOfLayout | day-4/src/main.rs:41-44 | a block written as words with whitespace around them splits back into exactly those words |
| Shallow.KeyOf | day-4/src/main.rs:43 | the key is the longest prefix without `:`; it is the whole word or ends at the first `:` |
| Shallow.KeyOfPair | day-4/src/main.rs:43 | the key of `key:value` is `key` |
| Shallow.RequiredKeys | day-4/src/main.rs:37-38 | the set `required_fields`: byr, iyr, eyr, hgt, hcl, ecl, pid, without cid |
| Shallow.PresentKeys | day-4/src/main.rs:40-44 | the set `present_fields`: the key of every whitespace-separated word of the block |
| Shallow.Check | day-4/src/main.rs:36-49 | `check` holds exactly when each of the seven required keys is the key of some word of the block |
| Shallow.CheckOfLayout | day-4/src/main.rs:36-49 | for a block written as words, `check` holds exactly when the words' keys cover the required keys; the whitespace does not matter |
| Shallow.CheckWordSet | day-4/src/main.rs:41-46 | only the set of words counts: reordered or repeated words give the same result |
| Shallow.CheckExtraWord | day-4/src/main.rs:41-48 | an extra word never makes a passing block fail; an unknown key, `cid` or a duplicate key changes nothing |
| Matcher.Index | day-4/src/main.rs:52-61 | each kind's slot in the tuple given to `permutation` |
| Matcher.Order | day-4/src/main.rs:52-61 | the order of the parsers in the tuple: ecl, pid, byr, iyr, eyr, hcl, hgt, cid; a round tries them in this order |
| Matcher.Round | day-4/src/main.rs:52-61 | one round returns the first unmatched parser that succeeds, and that every unmatched parser before it failed; it returns none exactly when every unmatched parser fails |
| Matcher.Run | day-4/src/main.rs:52-61 | when the rounds succeed, every slot is filled with a value of its field's type, and the rest is a suffix of the input |
| Matcher.Passport | day-4/src/main.rs:51 | the tuple `check_contents` returns, in the order ecl, pid, byr, iyr, eyr, hcl, hgt, cid; `u16`s as `nat`s, cid optional |
| Matcher.Assemble | day-4/src/main.rs:51 | a filled slot tuple becomes a passport whose fields satisfy every range and format |
| Matcher.MatchRecord | day-4/src/main.rs:51-62 | every accepted record yields a valid passport and a rest that is a suffix of the input |
| Matcher.TryRound | day-4/src/main.rs:52-61 | one pass over the unmatched parsers, in order, returns the first success exactly as `Round` specifies |
| Matcher.CheckContents | day-4/src/main.rs:51-62 | the loop over the tuple of results and the cursor returns exactly what `MatchRecord` specifies |
| Matcher.ParseFieldTyped | day-4/src/main.rs:102-245 | the program's parsers return values of their field's type and suffixes of the input |
| Matcher.ParseFieldReadTokens | day-4/src/main.rs:102-245 | the program's parsers pick every well-formed token, and every parser before it in the order fails there |
| Matcher.ParseFieldPicks | day-4/src/main.rs:102-245 | at one well-formed token followed by a boundary, its field's parser reads it with the whitespace after it, and the parsers before it fail |
| Matcher.EarlierParsersFail | day-4/src/main.rs:102-245 | at the key tag of a field, every parser earlier in the order fails |
| Matcher.ParseFieldNeedKeys | day-4/src/main.rs:102-245 | the program's parsers need their key tag; cid's yields `None` without it |
| Matcher.RoundAtToken | day-4/src/main.rs:52-61 | at a well-formed token whose slot is empty, the round picks that token's parser |
| Matcher.RunStuck | day-4/src/main.rs:52-61 | when a required slot is empty and every parser that could run fails, the match fails |
| Matcher.RunAtToken | day-4/src/main.rs:52-61 | a round at a well-formed token fills its slot and moves past the token and its whitespace |
| Matcher.RunJoin | day-4/src/main.rs:52-61 | running over well-formed tokens fills their slots and continues at what follows them |
| Matcher.RunSettled | day-4/src/main.rs:52-61 | once every required slot is filled and no parser matches, the match ends OK with the input left as it is |
| Matcher.RunAtEnd | day-4/src/main.rs:52-61 | at the end of the input, the match succeeds exactly when every required slot is filled |
| Matcher.RunOfTokens | day-4/src/main.rs:52-61 | for any parser family that reads tokens and needs keys, a well-formed record is consumed completely when it has every required kind, and fails otherwise |
| Matcher.MatchRecordOfTokens | day-4/src/main.rs:51-62 | a well-formed record in any order is accepted exactly when it has the seven required fields; it is then consumed completely and yields the tuple its tokens stand for |
| Matcher.MatchRecordOrderIndependent | day-4/src/main.rs:51-62 | reordering the tokens of a well-formed record, or changing its separators, never changes what `check_contents` returns |
| Matcher.RunRejectsBadToken | day-4/src/main.rs:52-61 | for any parser family that reads tokens and needs keys, a required field's token that its parser refuses sinks the record |
| Matcher.BadTokenStops | day-4/src/main.rs:52-61 | at a required token its parser refuses, every required parser fails and cid's reads nothing |
| Matcher.MatchRecordRejectsBadToken | day-4/src/main.rs:51-62 | a required field whose value its parser refuses, after well-formed tokens of other fields, makes `check_contents` fail |
| Matcher.MatchRecordRejectsLeadingSpace | day-4/src/main.rs:51-62 | a record that begins with whitespace is refused |
| Matcher.RunKeepsLeftover | day-4/src/main.rs:52-61 | for any parser family that reads tokens and needs keys: a record with every required field, followed by text, ends OK with that text as the rest and the record's slots. The text may be anything except text that starts with whitespace, text that continues the last value when no separator ends it, or a `cid:` token the record lacks |
| Matcher.MatchRecordKeepsLeftover | day-4/src/main.rs:51-62 | a complete record followed by further text is accepted, with that text as the rest, and yields the record's tuple. The text is under the same three conditions as `RunKeepsLeftover` |
| Driver.FirstBreak | day-4/src/main.rs:19 | the position of the first blank line, and none exactly when there is no blank line |
| Driver.Blocks | day-4/src/main.rs:19 | `split("\n\n")` yields at least one piece, and no piece holds a blank line |
| Driver.UnsplitBlocks | day-4/src/main.rs:19 | splitting loses nothing: the pieces joined with blank lines are the input |
| Driver.BlocksCons | day-4/src/main.rs:19 | a block without a blank line, not ending in a newline, followed by a blank line, is the first piece, and the rest splits on its own |
| Driver.BlocksUnsplit | day-4/src/main.rs:19 | blocks without blank lines, none but the last ending in a newline, come back from splitting their join |
| Driver.Count | day-4/src/main.rs:19 | the count is at most the number of blocks; it equals it exactly when all blocks pass, and is zero exactly when none does |
| Driver.Accepted | day-4/src/main.rs:28 | `check_contents(b).is_ok()`: the match returns a tuple, whatever rest it leaves |
| Driver.CountAppend | day-4/src/main.rs:19 | counts add up over consecutive runs of blocks |
| Driver.DeepCount | day-4/src/main.rs:23-31 | the loop's `deep_count` is the number of blocks `check_contents` accepts |
| Driver.Tally | day-4/src/main.rs:19-31 | `count` is the number of blocks `check` accepts, and `deep_count` the number `check_contents` accepts |
| UnitCases.BirthYearInRange | day-4/src/main.rs:137-140 | `byr:1981` gives `("", 1981)` |
| UnitCases.BirthYearTooEarly | day-4/src/main.rs:142 | `byr:1900` fails |
| UnitCases.EyeColorListed | day-4/src/main.rs:161 | `ecl:amb` gives `("", "amb")` |
| UnitCases.EyeColorLeadingSpace | day-4/src/main.rs:163 | `  ecl:amb` fails |
| UnitCases.EyeColorTrailingSpace | day-4/src/main.rs:165 | `ecl:amb  ` gives `("", "amb")` |
| UnitCases.EyeColorUnlisted | day-4/src/main.rs:167 | `ecl:bul` fails |
| UnitCases.CountryIdThenWord | day-4/src/main.rs:176 | `cid:123alper  lbabla` gives `("lbabla", Some("123alper"))` |
| UnitCases.CountryIdOtherKey | day-4/src/main.rs:177 | `eid:123alper  lbabla` gives the input unchanged and `None` |
| UnitCases.CountryIdLeadingSpace | day-4/src/main.rs:178 | `   cid:123alper  lbabla` gives the input unchanged and `None` |
| UnitCases.CountryIdToEnd | day-4/src/main.rs:179-180 | `cid:alper` and `cid:123` give `("", Some(…))` |
| UnitCases.PassportIdNineDigits | day-4/src/main.rs:194 | `pid:123456789` gives `("", "123456789")` |
| UnitCases.PassportIdTrailingSpace | day-4/src/main.rs:195-198 | `pid:123456789    ` gives `("", "123456789")` |
| UnitCases.PassportIdTooLong | day-4/src/main.rs:199 | `pid:12345678912    ` fails |
| UnitCases.HairColorSixDigits | day-4/src/main.rs:210 | `hcl:#ffffff` gives `("", "ffffff")` |
| UnitCases.HairColorTrailingSpace | day-4/src/main.rs:211 | `hcl:#000000  ` gives `("", "000000")` |
| UnitCases.HairColorFiveDigits | day-4/src/main.rs:213 | `hcl:#11111` fails |
| UnitCases.HairColorWithoutHash | day-4/src/main.rs:214 | `hcl:5d90f0` fails |
| UnitCases.HeightInInches | day-4/src/main.rs:75 | `hgt:60in` gives 60 |
| UnitCases.HeightWithoutUnit | day-4/src/main.rs:91 | `hgt:170` fails |
| UnitCases.RecordStartingWithBadToken | day-4/src/main.rs:90-99 | a record whose first token is a required field with a refused value fails |
| UnitCases.RecordStartingWithBadExpiry | day-4/src/main.rs:90-91 | a record starting `eyr:1972` fails, whatever follows after a non-digit |
| UnitCases.RecordStartingWithBareHairColor | day-4/src/main.rs:95-96 | a record starting `hcl:dab227` fails, whatever follows |
| UnitCases.RecordStartingWithShortHeight | day-4/src/main.rs:97-99 | a record starting `hgt:59cm` fails, whatever follows |
| UnitCases.RecordStartingWithLongPassportId | day-4/src/main.rs:99 | a record starting `pid:3556412378` fails, whatever follows |
| UnitCases.RecordStartingWithUnitlessHeight | day-4/src/main.rs:91 | a record starting `hgt:170` and then neither a digit nor a unit fails |
| UnitCases.RecordWithLeadingNewline | day-4/src/main.rs:51-62 | a record starting with a newline fails |

## Left out

- The file read (`fs::read_to_string`, line 18) and the two `println!` calls (lines 21 and 33) are I/O. `Driver.Tally` takes the file's text as a parameter and returns the two counts.
- nom's error values (`ErrorKind`, the `io::Error` messages of lines 125, 128, 225, 228, 235 and 238) are left out. A failure is `None`: only success or failure reaches `main`.
- nom itself is not modelled as a combinator library. Each combinator appears by its meaning in the parser that uses it.
- The `u16` results are `nat`s. `ParseU16` models the 65535 overflow, and every range bound is below it, so no value wraps.
- The accepted records of `test_check_contents` (lines 66-88) are not restated over their literal text. Comparing strings that long character by character is beyond the verifier's budget. They are instances of `Matcher.MatchRecordOfTokens`: each is a well-formed record with all seven required fields.
- The rejected records at lines 90-99 are not restated over their literal text. The one at lines 92-94 (`eyr:1967` after two valid fields) is an instance of `Matcher.MatchRecordRejectsBadToken`. The ones at lines 90-91, 95-96 and 97-99 fail on their first token. `UnitCases` states each with that token and any rest, except that for lines 90-91 the rest must not start with a digit. The `hgt:170` token of line 91, which is not first in its record, is stated for a rest that starts with neither a digit nor a unit.
- Matcher.RunKeepsLeftover, Matcher.MatchRecordKeepsLeftover: say nothing about the three excluded leftovers, because the outcome then differs. Whitespace at the start is consumed with the last separator, so the rest is shorter. A value with no separator after it reads on into the leftover and may then fail. A `cid:` token fills the empty cid slot and changes the tuple.
- `Shallow.Check` is stated over `Words` and `KeyOf`. The `HashSet`s are replaced by a set comprehension, which has the same membership.
