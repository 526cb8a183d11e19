/** `check_contents`: nom's `permutation` over the eight field parsers. One slot per
    parser records its value once it has matched; each round tries the unmatched parsers
    in declaration order at the current position, and the first one that succeeds
    advances the position and starts the next round. A round without a success ends the
    match: OK, with whatever input is left, when every slot is filled, an error otherwise.

    The rounds are stated for any family of field parsers `parse(k, s)` and then used
    with `ParseField`; the lemmas about records say which facts about the field parsers
    each conclusion rests on. */
module Matcher {
  import opened Lexing
  import opened Fields

  /** The order of the parsers in the tuple handed to `permutation`. */
  const Order: seq<Kind> := [Ecl, Pid, Byr, Iyr, Eyr, Hcl, Hgt, Cid]

  function Index(k: Kind): (i: nat)
    ensures i < 8 && Order[i] == k
  {
    match k
    case Ecl => 0
    case Pid => 1
    case Byr => 2
    case Iyr => 3
    case Eyr => 4
    case Hcl => 5
    case Hgt => 6
    case Cid => 7
  }

  /** `permutation`'s tuple of partial results: slot `i` belongs to parser `Order[i]`. */
  type Slots = s: seq<Option<Value>> | |s| == 8
    witness [None, None, None, None, None, None, None, None]

  /** The tuple of results before any parser has matched. */
  function NoneMatched(): (res: Slots)
    ensures forall i :: 0 <= i < 8 ==> res[i].None?
  {
    seq(8, i => None)
  }

  predicate AllMatched(res: Slots) { forall i :: 0 <= i < 8 ==> res[i].Some? }

  /** Every filled slot holds a value its parser can return. */
  predicate WellTyped(res: Slots)
  {
    forall i :: 0 <= i < 8 && res[i].Some? ==> Fits(Order[i], res[i].value)
  }

  /** The number of parsers still to match. */
  function Unmatched(res: seq<Option<Value>>): nat
  {
    if res == [] then 0 else (if res[0].None? then 1 else 0) + Unmatched(res[1..])
  }

  lemma {:induction false} UnmatchedDecreases(res: seq<Option<Value>>, j: nat, v: Value)
    requires j < |res| && res[j].None?
    ensures Unmatched(res[j := Some(v)]) < Unmatched(res)
  {
    if j > 0 {
      assert res[j := Some(v)][1..] == res[1..][j - 1 := Some(v)];
      UnmatchedDecreases(res[1..], j - 1, v);
    } else {
      assert res[j := Some(v)][1..] == res[1..];
    }
  }

  /** The field parsers `permutation` is given: `parse(k, s)` runs the parser of field `k`
      at `s`. */
  type FieldParsers = (Kind, string) -> Option<(string, Value)>

  /** Parsers whose values are of their field's type and whose rest is a suffix of the input. */
  ghost predicate Typed(parse: FieldParsers)
  {
    forall k, s :: parse(k, s).Some? ==> Fits(k, parse(k, s).value.1) && IsSuffix(parse(k, s).value.0, s)
  }

  /** At a well-formed token `tok` followed by `t`, the parser of its field reads it, the
      whitespace after it included, and every parser before it in the order fails. */
  ghost predicate PicksToken(parse: FieldParsers, tok: Token, t: string)
  {
    && parse(tok.kind, Render(tok) + t) == Some((Multispace0(t), Interpret(tok.kind, tok.text)))
    && forall j :: 0 <= j < Index(tok.kind) ==> parse(Order[j], Render(tok) + t).None?
  }

  /** Parsers that pick every well-formed token at a boundary. */
  ghost predicate ReadTokens(parse: FieldParsers)
  {
    forall tok: Token, t: string :: ValidValue(tok.kind, tok.text) && Boundary(tok.kind, t) ==> PicksToken(parse, tok, t)
  }

  /** At `s`, the parsers whose key tag is absent fail, except cid's, which then succeeds
      with nothing read. */
  ghost predicate KeyedAt(parse: FieldParsers, s: string)
  {
    && (forall j :: 0 <= j < 7 && !(Key(Order[j]) + ":" <= s) ==> parse(Order[j], s).None?)
    && (!("cid:" <= s) ==> parse(Cid, s) == Some((s, OptText(None))))
  }

  /** Parsers that need their key tag everywhere. */
  ghost predicate NeedKeys(parse: FieldParsers)
  {
    forall s :: KeyedAt(parse, s)
  }

  lemma ParseFieldTyped()
    ensures Typed(ParseField)
  {
  }

  lemma ParseFieldReadTokens()
    ensures ReadTokens(ParseField)
  {
    forall tok: Token, t: string | ValidValue(tok.kind, tok.text) && Boundary(tok.kind, t)
      ensures PicksToken(ParseField, tok, t)
    {
      ParseFieldPicks(tok, t);
    }
  }

  /** At a well-formed token the `ParseField` parser of its field reads it and those
      before it in the order fail. */
  lemma ParseFieldPicks(tok: Token, t: string)
    requires ValidValue(tok.kind, tok.text) && Boundary(tok.kind, t)
    ensures PicksToken(ParseField, tok, t)
  {
    ParseFieldAccepts(tok.kind, tok.text, t);
    EarlierParsersFail(tok.kind, tok.text, t);
  }

  /** At the key tag of field `k`, every parser before `k`'s in the order fails. */
  lemma EarlierParsersFail(k: Kind, text: string, t: string)
    ensures forall j :: 0 <= j < Index(k) ==> ParseField(Order[j], Key(k) + ":" + text + t).None?
  {
    var s := Key(k) + ":" + text + t;
    assert s == Key(k) + ":" + (text + t);
    forall j | 0 <= j < Index(k)
      ensures ParseField(Order[j], s).None?
    {
      assert Order[j] != k;
      KeysExclusive(k, Order[j], text + t);
      ParseFieldWithoutKey(Order[j], s);
    }
  }

  lemma ParseFieldNeedKeys()
    ensures NeedKeys(ParseField)
  {
    forall s ensures KeyedAt(ParseField, s) {
      forall j | 0 <= j < 7 && !(Key(Order[j]) + ":" <= s)
        ensures ParseField(Order[j], s).None?
      {
        ParseFieldWithoutKey(Order[j], s);
      }
      if !("cid:" <= s) {
        ParseFieldWithoutKey(Cid, s);
      }
    }
  }

  /** The rest of one round from slot `i` on: the first unmatched parser that succeeds at
      `s`, as `(slot, rest, value)`, or `None` when every one of them fails. */
  function Round(parse: FieldParsers, s: string, res: Slots, i: nat): (r: Option<(nat, string, Value)>)
    requires i <= 8
    decreases 8 - i
    ensures r.Some? ==> i <= r.value.0 < 8 && res[r.value.0].None?
                        && parse(Order[r.value.0], s) == Some((r.value.1, r.value.2))
    ensures r.Some? ==> forall j :: i <= j < r.value.0 ==> res[j].Some? || parse(Order[j], s).None?
    ensures r.None? <==> forall j :: i <= j < 8 ==> res[j].Some? || parse(Order[j], s).None?
  {
    if i == 8 then None
    else if res[i].None? && parse(Order[i], s).Some? then
      var (rest, v) := parse(Order[i], s).value;
      Some((i, rest, v))
    else Round(parse, s, res, i + 1)
  }

  /** A rest read after a successful parser at `s` is a suffix of `s`. */
  lemma SuffixStep(parse: FieldParsers, s: string, j: nat, rest: string, v: Value, r: Option<(string, Slots)>)
    requires j < 8 && parse(Order[j], s) == Some((rest, v))
    requires Typed(parse) && r.Some? ==> IsSuffix(r.value.0, rest)
    ensures Typed(parse) && r.Some? ==> IsSuffix(r.value.0, s)
  {
    if Typed(parse) && r.Some? {
      SuffixTrans(r.value.0, rest, s);
    }
  }

  /** The rounds of `permutation` from position `s` with slots `res`. */
  function Run(parse: FieldParsers, s: string, res: Slots): (r: Option<(string, Slots)>)
    decreases Unmatched(res)
    ensures Typed(parse) && WellTyped(res) && r.Some? ==> AllMatched(r.value.1) && WellTyped(r.value.1)
    ensures Typed(parse) && r.Some? ==> IsSuffix(r.value.0, s)
  {
    match Round(parse, s, res, 0)
    case Some((j, rest, v)) =>
      UnmatchedDecreases(res, j, v);
      var r := Run(parse, rest, res[j := Some(v)]);
      SuffixStep(parse, s, j, rest, v, r);
      r
    case None =>
      if AllMatched(res) then Some((s, res)) else None
  }

  /** The tuple `check_contents` returns, in the order of `Order`. */
  datatype Passport = Passport(
    ecl: string, pid: string, byr: nat, iyr: nat, eyr: nat, hcl: string, hgt: nat,
    cid: Option<string>)

  /** What every returned tuple satisfies: the ranges and formats the parsers check. */
  predicate ValidPassport(p: Passport)
  {
    && p.ecl in EyeColors
    && |p.pid| == 9 && AllDigits(p.pid)
    && 1920 <= p.byr <= 2002
    && 2010 <= p.iyr <= 2020
    && 2020 <= p.eyr <= 2030
    && |p.hcl| == 6 && AllHexDigits(p.hcl)
    && (150 <= p.hgt <= 193 || 59 <= p.hgt <= 76)
  }

  function Assemble(res: Slots): (p: Passport)
    requires AllMatched(res) && WellTyped(res)
    ensures ValidPassport(p)
  {
    assert Fits(Order[0], res[0].value) && Fits(Order[1], res[1].value);
    assert Fits(Order[2], res[2].value) && Fits(Order[3], res[3].value);
    assert Fits(Order[4], res[4].value) && Fits(Order[5], res[5].value);
    assert Fits(Order[6], res[6].value) && Fits(Order[7], res[7].value);
    Passport(res[0].value.text, res[1].value.text, res[2].value.n, res[3].value.n,
             res[4].value.n, res[5].value.text, res[6].value.n, res[7].value.opt)
  }

  /** What `check_contents(input)` returns: `Some((rest, tuple))` for `Ok`, `None` for an
      error. Every tuple it returns is valid, and the rest is a suffix of the input. */
  function MatchRecord(input: string): (r: Option<(string, Passport)>)
    ensures r.Some? ==> ValidPassport(r.value.1) && IsSuffix(r.value.0, input)
  {
    ParseFieldTyped();
    match Run(ParseField, input, NoneMatched())
    case None => None
    case Some((rest, res)) => Some((rest, Assemble(res)))
  }

  /** One round of `permutation`'s loop: the unmatched parsers are tried in order at `s`
      and the first success is returned, as `(slot, rest, value)`. */
  method TryRound(s: string, res: Slots) returns (r: Option<(nat, string, Value)>)
    ensures r == Round(ParseField, s, res, 0)
  {
    var i := 0;
    while i < 8
      invariant 0 <= i <= 8
      invariant Round(ParseField, s, res, 0) == Round(ParseField, s, res, i)
    {
      if res[i].None? {
        var parsed := ParseField(Order[i], s);
        if parsed.Some? {
          return Some((i, parsed.value.0, parsed.value.1));
        }
      }
      i := i + 1;
    }
    return None;
  }

  /** `check_contents`, with `permutation`'s loop written out: `res` is its tuple of
      optional results and `rest` its cursor into the input. */
  method CheckContents(input: string) returns (r: Option<(string, Passport)>)
    ensures r == MatchRecord(input)
  {
    ParseFieldTyped();
    var res: Slots := NoneMatched();
    var rest := input;
    while true
      invariant WellTyped(res)
      invariant Run(ParseField, rest, res) == Run(ParseField, input, NoneMatched())
      decreases Unmatched(res)
    {
      var found := TryRound(rest, res);
      if found.None? {
        if AllMatched(res) {
          return Some((rest, Assemble(res)));
        }
        return None;
      }
      var (j, after, v) := found.value;
      UnmatchedDecreases(res, j, v);
      rest, res := after, res[j := Some(v)];
    }
  }

  // ---------------------------------------------------------------------------------
  // Records made of well-formed tokens

  /** One `key:value` token of a record. */
  datatype Token = Token(kind: Kind, text: string)

  function Render(t: Token): string { Key(t.kind) + ":" + t.text }

  /** A record: each token followed by its separator. */
  function Join(toks: seq<Token>, seps: seq<string>): string
    requires |seps| == |toks|
  {
    if toks == [] then [] else Render(toks[0]) + seps[0] + Join(toks[1..], seps[1..])
  }

  /** A separator: a run of `multispace0` characters that, when not empty, begins with a
      space or a newline (the characters that end a cid value). */
  predicate IsSeparator(sep: string)
  {
    AllMultispace(sep) && (sep != [] ==> IsCidStop(sep[0]))
  }

  /** Tokens with well-formed values, one per field at most, separated by separators;
      only a cid token needs a non-empty separator before a following token. */
  predicate WellFormedRecord(toks: seq<Token>, seps: seq<string>)
  {
    && |seps| == |toks|
    && (forall i :: 0 <= i < |toks| ==> ValidValue(toks[i].kind, toks[i].text))
    && (forall i, j :: 0 <= i < j < |toks| ==> toks[i].kind != toks[j].kind)
    && (forall i :: 0 <= i < |seps| ==> IsSeparator(seps[i]))
    && (forall i :: 0 <= i < |toks| - 1 && toks[i].kind == Cid ==> seps[i] != [])
  }

  function KindsOf(toks: seq<Token>): set<Kind>
  {
    set i | 0 <= i < |toks| :: toks[i].kind
  }

  const Required: set<Kind> := {Ecl, Pid, Byr, Iyr, Eyr, Hcl, Hgt}

  /** The text of the first token of kind `k`. */
  function TextFor(toks: seq<Token>, k: Kind): string
  {
    if toks == [] then [] else if toks[0].kind == k then toks[0].text else TextFor(toks[1..], k)
  }

  /** The tuple a record of well-formed tokens stands for. */
  function Expected(toks: seq<Token>): Passport
  {
    var hcl := TextFor(toks, Hcl);
    Passport(
      TextFor(toks, Ecl), TextFor(toks, Pid),
      DecimalValue(TextFor(toks, Byr)), DecimalValue(TextFor(toks, Iyr)), DecimalValue(TextFor(toks, Eyr)),
      if hcl == [] then [] else hcl[1..],
      DecimalValue(HeightDigits(TextFor(toks, Hgt))),
      if Cid in KindsOf(toks) then Some(TextFor(toks, Cid)) else None)
  }

  /** The slots after the tokens' parsers have matched, one token each. */
  function Fill(res: Slots, toks: seq<Token>): Slots
    decreases toks
  {
    if toks == [] then res
    else Fill(res[Index(toks[0].kind) := Some(Interpret(toks[0].kind, toks[0].text))], toks[1..])
  }

  /** The slots at the end of a record: its tokens' values, and cid's `None` if it has none. */
  function Filled(toks: seq<Token>): Slots
  {
    var f := Fill(NoneMatched(), toks);
    if f[7].Some? then f else f[7 := Some(OptText(None))]
  }

  /** In a round at a token of an unmatched field, that field's parser is the one that
      succeeds: the parsers before it in the order fail on its key tag. */
  lemma RoundAtToken(parse: FieldParsers, tok: Token, t: string, res: Slots)
    requires PicksToken(parse, tok, t)
    requires res[Index(tok.kind)].None?
    ensures Round(parse, Render(tok) + t, res, 0)
         == Some((Index(tok.kind), Multispace0(t), Interpret(tok.kind, tok.text)))
  {
  }

  /** Where no required parser can advance and cid's reads nothing, while a required slot
      is still empty, the match fails. */
  lemma RunStuck(parse: FieldParsers, s: string, res: Slots, m: nat)
    requires m < 7 && res[m].None?
    requires forall j :: 0 <= j < 7 ==> res[j].Some? || parse(Order[j], s).None?
    requires parse(Cid, s) == Some((s, OptText(None)))
    ensures Run(parse, s, res) == None
  {
    if res[7].None? {
      var res' := res[7 := Some(OptText(None))];
      assert Round(parse, s, res', 0).None?;
      assert res'[m].None?;
      assert Run(parse, s, res') == None;
      assert Round(parse, s, res, 0) == Some((7, s, OptText(None)));
    } else {
      assert Round(parse, s, res, 0).None?;
      assert !AllMatched(res);
    }
  }

  /** What follows a token of field `k` and its separator `sep` lets the token be read
      as written: it does not begin with whitespace (which `multispace0` would take
      along with the separator), and the token's value ends where the parser stops. */
  predicate Follows(k: Kind, sep: string, after: string)
  {
    (after == [] || !IsMultispace(after[0])) && Boundary(k, sep + after)
  }

  /** A non-empty separator ends every value; without one, what follows must. */
  lemma FollowsAt(k: Kind, sep: string, after: string)
    requires IsSeparator(sep) && (after == [] || !IsMultispace(after[0]))
    requires sep == [] ==> Boundary(k, after)
    ensures Follows(k, sep, after)
  {
    if sep == [] {
      assert sep + after == after;
    } else {
      assert (sep + after)[0] == sep[0];
    }
  }

  /** A lower-case letter (the start of the next key) follows any token, and cid's one
      when a separator comes between them. */
  lemma LowerFollows(k: Kind, sep: string, after: string)
    requires IsSeparator(sep) && (after == [] || 'a' <= after[0] <= 'z')
    requires sep == [] && after != [] ==> k != Cid
    ensures Follows(k, sep, after)
  {
    FollowsAt(k, sep, after);
  }

  /** One token and its separator: the round at the token picks its parser, which
      consumes the token and the separator. */
  lemma RunAtToken(parse: FieldParsers, tok: Token, sep: string, after: string, res: Slots)
    requires ReadTokens(parse)
    requires ValidValue(tok.kind, tok.text) && IsSeparator(sep) && Follows(tok.kind, sep, after)
    requires res[Index(tok.kind)].None?
    ensures Run(parse, Render(tok) + (sep + after), res)
         == Run(parse, after, res[Index(tok.kind) := Some(Interpret(tok.kind, tok.text))])
  {
    Multispace0Append(sep, after);
    assert PicksToken(parse, tok, sep + after);
    RoundAtToken(parse, tok, sep + after, res);
  }

  lemma KeyLower(k: Kind)
    ensures |Key(k)| == 3 && 'a' <= Key(k)[0] <= 'z'
  {
  }

  /** A record, with anything after it, starts with a lower-case letter. */
  lemma JoinHead(toks: seq<Token>, seps: seq<string>, tail: string)
    requires |seps| == |toks| && toks != []
    ensures Join(toks, seps) + tail != [] && 'a' <= (Join(toks, seps) + tail)[0] <= 'z'
  {
    var k, r := toks[0].kind, Render(toks[0]);
    assert Join(toks, seps) + tail == r + (seps[0] + Join(toks[1..], seps[1..]) + tail);
    assert r[0] == Key(k)[0];
    KeyLower(k);
  }

  /** The tokens after the first of a well-formed record form one too, and none of them
      shares the first one's field. */
  lemma WellFormedTail(toks: seq<Token>, seps: seq<string>)
    requires WellFormedRecord(toks, seps) && toks != []
    ensures WellFormedRecord(toks[1..], seps[1..])
    ensures ValidValue(toks[0].kind, toks[0].text) && IsSeparator(seps[0])
    ensures |toks| > 1 && toks[0].kind == Cid ==> seps[0] != []
    ensures forall i :: 0 <= i < |toks[1..]| ==> toks[1..][i].kind != toks[0].kind
  {
    forall i | 0 <= i < |toks[1..]| ensures toks[1..][i].kind != toks[0].kind {
      assert toks[1..][i] == toks[i + 1];
    }
  }

  /** What `RunJoin` needs of a record, the slots and what follows: the record's fields
      are unmatched, and the record cannot run on into what follows it. */
  predicate JoinReady(toks: seq<Token>, seps: seq<string>, tail: string, res: Slots)
  {
    && WellFormedRecord(toks, seps)
    && (forall i :: 0 <= i < |toks| ==> res[Index(toks[i].kind)].None?)
    && (toks != [] ==> Follows(toks[|toks| - 1].kind, seps[|toks| - 1], tail))
  }

  /** Past the first token of a ready record the rest is ready. */
  lemma JoinReadyTail(toks: seq<Token>, seps: seq<string>, tail: string, res: Slots)
    requires JoinReady(toks, seps, tail, res) && toks != []
    ensures JoinReady(toks[1..], seps[1..], tail, res[Index(toks[0].kind) := Some(Interpret(toks[0].kind, toks[0].text))])
  {
    WellFormedTail(toks, seps);
    var n := |toks| - 1;
    if n > 0 {
      assert toks[1..][n - 1] == toks[n] && seps[1..][n - 1] == seps[n];
    }
    var res' := res[Index(toks[0].kind) := Some(Interpret(toks[0].kind, toks[0].text))];
    forall i | 0 <= i < |toks[1..]|
      ensures res'[Index(toks[1..][i].kind)].None?
    {
      assert toks[1..][i] == toks[i + 1];
    }
  }

  /** The first token of a ready record meets what `RunAtToken` needs. */
  lemma JoinFirstReady(toks: seq<Token>, seps: seq<string>, tail: string, res: Slots)
    requires JoinReady(toks, seps, tail, res) && toks != []
    ensures ValidValue(toks[0].kind, toks[0].text) && IsSeparator(seps[0])
    ensures Follows(toks[0].kind, seps[0], Join(toks[1..], seps[1..]) + tail)
    ensures res[Index(toks[0].kind)].None?
  {
    var after := Join(toks[1..], seps[1..]) + tail;
    WellFormedTail(toks, seps);
    var n := |toks| - 1;
    if toks[1..] != [] {
      JoinHead(toks[1..], seps[1..], tail);
      LowerFollows(toks[0].kind, seps[0], after);
    } else {
      assert after == tail && n == 0;
    }
  }

  /** The first token of a record is read together with its separator. */
  lemma JoinStep(parse: FieldParsers, toks: seq<Token>, seps: seq<string>, tail: string, res: Slots)
    requires ReadTokens(parse)
    requires JoinReady(toks, seps, tail, res) && toks != []
    ensures Run(parse, Join(toks, seps) + tail, res)
         == Run(parse, Join(toks[1..], seps[1..]) + tail, res[Index(toks[0].kind) := Some(Interpret(toks[0].kind, toks[0].text))])
  {
    var after := Join(toks[1..], seps[1..]) + tail;
    JoinCons(toks, seps, tail);
    JoinFirstReady(toks, seps, tail, res);
    RunAtToken(parse, toks[0], seps[0], after, res);
  }

  /** A record followed by `tail` is its first token, that token's separator, and the
      rest of the record followed by `tail`. */
  lemma JoinCons(toks: seq<Token>, seps: seq<string>, tail: string)
    requires |seps| == |toks| && toks != []
    ensures Join(toks, seps) + tail == Render(toks[0]) + (seps[0] + (Join(toks[1..], seps[1..]) + tail))
  {
    var r, sep, rest := Render(toks[0]), seps[0], Join(toks[1..], seps[1..]);
    AppendAssoc(r + sep, rest, tail);
    AppendAssoc(r, sep, rest + tail);
  }

  /** A record whose tokens fill some slots brings `permutation` to the same place as
      filling them directly, followed by whatever comes after the record. */
  lemma {:induction false} RunJoin(parse: FieldParsers, toks: seq<Token>, seps: seq<string>, tail: string, res: Slots)
    requires ReadTokens(parse)
    requires JoinReady(toks, seps, tail, res)
    ensures Run(parse, Join(toks, seps) + tail, res) == Run(parse, tail, Fill(res, toks))
    decreases toks
  {
    if toks != [] {
      var res' := res[Index(toks[0].kind) := Some(Interpret(toks[0].kind, toks[0].text))];
      JoinStep(parse, toks, seps, tail, res);
      JoinReadyTail(toks, seps, tail, res);
      RunJoin(parse, toks[1..], seps[1..], tail, res');
      assert Fill(res, toks) == Fill(res', toks[1..]);
    } else {
      assert Join(toks, seps) + tail == tail;
    }
  }

  /** The slots `Fill` gives: a field's slot holds its token's value when the record has
      one, and is untouched otherwise. */
  lemma {:induction false} FillAt(res: Slots, toks: seq<Token>, i: nat)
    requires i < 8
    requires forall a, b :: 0 <= a < b < |toks| ==> toks[a].kind != toks[b].kind
    ensures Fill(res, toks)[i]
         == if Order[i] in KindsOf(toks) then Some(Interpret(Order[i], TextFor(toks, Order[i]))) else res[i]
    decreases toks
  {
    if toks != [] {
      var res' := res[Index(toks[0].kind) := Some(Interpret(toks[0].kind, toks[0].text))];
      FillAt(res', toks[1..], i);
      assert KindsOf(toks) == {toks[0].kind} + KindsOf(toks[1..]) by {
        forall k | k in KindsOf(toks) ensures k in {toks[0].kind} + KindsOf(toks[1..]) {
          var a :| 0 <= a < |toks| && toks[a].kind == k;
          if a > 0 { assert toks[1..][a - 1] == toks[a]; }
        }
        forall k | k in KindsOf(toks[1..]) ensures k in KindsOf(toks) {
          var a :| 0 <= a < |toks[1..]| && toks[1..][a].kind == k;
          assert toks[a + 1].kind == k;
        }
      }
      if Order[i] == toks[0].kind {
        forall a | 0 <= a < |toks[1..]| ensures toks[1..][a].kind != toks[0].kind {
          assert toks[1..][a] == toks[a + 1];
        }
      }
    }
  }

  /** The slot of every field the record has holds its token's value; the others are empty. */
  lemma FillFromNone(toks: seq<Token>)
    requires forall a, b :: 0 <= a < b < |toks| ==> toks[a].kind != toks[b].kind
    ensures forall i :: 0 <= i < 8 ==>
              Fill(NoneMatched(), toks)[i]
              == if Order[i] in KindsOf(toks) then Some(Interpret(Order[i], TextFor(toks, Order[i]))) else None
  {
    forall i | 0 <= i < 8
      ensures Fill(NoneMatched(), toks)[i]
           == if Order[i] in KindsOf(toks) then Some(Interpret(Order[i], TextFor(toks, Order[i]))) else None
    {
      FillAt(NoneMatched(), toks, i);
    }
  }

  /** The text `TextFor` finds for a field is its token's, when tokens have distinct fields. */
  lemma {:induction false} TextForMember(toks: seq<Token>, i: nat)
    requires i < |toks|
    requires forall a, b :: 0 <= a < b < |toks| ==> toks[a].kind != toks[b].kind
    ensures TextFor(toks, toks[i].kind) == toks[i].text
  {
    if i > 0 {
      assert toks[1..][i - 1] == toks[i];
      TextForMember(toks[1..], i - 1);
    }
  }

  /** With the required slots filled, a round at `s` can only fill cid's slot, reading
      nothing, and the next one ends the match with `s` left over. */
  lemma RunSettled(parse: FieldParsers, s: string, res: Slots)
    requires forall j :: 0 <= j < 7 ==> res[j].Some?
    requires res[7].Some? || parse(Cid, s) == Some((s, OptText(None)))
    ensures Run(parse, s, res) == Some((s, if res[7].Some? then res else res[7 := Some(OptText(None))]))
  {
    if res[7].None? {
      assert Round(parse, s, res, 0) == Some((7, s, OptText(None)));
      assert Round(parse, s, res[7 := Some(OptText(None))], 0).None?;
    } else {
      assert Round(parse, s, res, 0).None?;
    }
  }

  /** At the end of the input, with the required slots settled, the match ends. */
  lemma RunAtEnd(parse: FieldParsers, res: Slots)
    requires KeyedAt(parse, [])
    ensures Run(parse, [], res)
         == if forall j :: 0 <= j < 7 ==> res[j].Some?
            then Some(([], if res[7].Some? then res else res[7 := Some(OptText(None))]))
            else None
  {
    assert forall k :: !(Key(k) + ":" <= []);
    if forall j :: 0 <= j < 7 ==> res[j].Some? {
      RunSettled(parse, [], res);
    } else {
      var m :| 0 <= m < 7 && res[m].None?;
      RunStuck(parse, [], res, m);
    }
  }

  /** A record of well-formed tokens, in any order, is matched exactly when it has a token
      for each of the seven required fields, and then consumed completely. */
  lemma RunOfTokens(parse: FieldParsers, toks: seq<Token>, seps: seq<string>)
    requires ReadTokens(parse) && NeedKeys(parse)
    requires WellFormedRecord(toks, seps)
    ensures Run(parse, Join(toks, seps), NoneMatched())
         == if Required <= KindsOf(toks) then Some(([], Filled(toks))) else None
  {
    assert Join(toks, seps) + [] == Join(toks, seps);
    if toks != [] {
      FollowsAt(toks[|toks| - 1].kind, seps[|toks| - 1], []);
    }
    RunJoin(parse, toks, seps, [], NoneMatched());
    FillNeedsRequired(toks);
    if Required <= KindsOf(toks) {
      FillAllRequired(toks);
    }
    assert KeyedAt(parse, []);
    RunAtEnd(parse, Fill(NoneMatched(), toks));
  }

  /** Tokens for each required field fill the seven required slots. */
  lemma FillAllRequired(toks: seq<Token>)
    requires forall a, b :: 0 <= a < b < |toks| ==> toks[a].kind != toks[b].kind
    requires Required <= KindsOf(toks)
    ensures forall j :: 0 <= j < 7 ==> Fill(NoneMatched(), toks)[j].Some?
  {
    forall j | 0 <= j < 7 ensures Fill(NoneMatched(), toks)[j].Some? {
      FillAt(NoneMatched(), toks, j);
      assert Order[j] in Required;
    }
  }

  /** Tokens that fill the seven required slots include each required field. */
  lemma FillNeedsRequired(toks: seq<Token>)
    requires forall a, b :: 0 <= a < b < |toks| ==> toks[a].kind != toks[b].kind
    ensures (forall j :: 0 <= j < 7 ==> Fill(NoneMatched(), toks)[j].Some?) ==> Required <= KindsOf(toks)
  {
    if forall j :: 0 <= j < 7 ==> Fill(NoneMatched(), toks)[j].Some? {
      forall k | k in Required ensures k in KindsOf(toks) {
        FillAt(NoneMatched(), toks, Index(k));
      }
    }
  }

  /** The slot of field `Order[i]` at the end of a record: its token's value, or nothing
      (cid: `None`) when the record has no token of that field. */
  lemma FilledAt(toks: seq<Token>, i: nat)
    requires i < 8
    requires forall a, b :: 0 <= a < b < |toks| ==> toks[a].kind != toks[b].kind
    ensures Order[i] in KindsOf(toks) ==> Filled(toks)[i] == Some(Interpret(Order[i], TextFor(toks, Order[i])))
    ensures Order[i] !in KindsOf(toks) && i == 7 ==> Filled(toks)[i] == Some(OptText(None))
    ensures Order[i] !in KindsOf(toks) && i < 7 ==> Filled(toks)[i].None?
  {
    FillAt(NoneMatched(), toks, i);
  }

  /** Every slot a record of well-formed tokens fills holds a value of its field's type. */
  lemma FilledWellTyped(toks: seq<Token>, seps: seq<string>)
    requires WellFormedRecord(toks, seps)
    ensures WellTyped(Filled(toks))
  {
    FillFromNone(toks);
    forall i | 0 <= i < 8 && Order[i] in KindsOf(toks)
      ensures Fits(Order[i], Interpret(Order[i], TextFor(toks, Order[i])))
    {
      var a :| 0 <= a < |toks| && toks[a].kind == Order[i];
      TextForMember(toks, a);
      InterpretFits(Order[i], toks[a].text);
    }
  }

  /** A record with a token for each required field fills every slot. */
  lemma FilledComplete(toks: seq<Token>)
    requires forall a, b :: 0 <= a < b < |toks| ==> toks[a].kind != toks[b].kind
    requires Required <= KindsOf(toks)
    ensures AllMatched(Filled(toks))
  {
    forall i | 0 <= i < 8 ensures Filled(toks)[i].Some? {
      FilledAt(toks, i);
    }
  }

  /** The tuple read from a complete record of well-formed tokens is the one they stand for. */
  lemma AssembleFilled(toks: seq<Token>, seps: seq<string>)
    requires WellFormedRecord(toks, seps) && Required <= KindsOf(toks)
    ensures AllMatched(Filled(toks)) && WellTyped(Filled(toks))
    ensures Assemble(Filled(toks)) == Expected(toks)
  {
    FilledWellTyped(toks, seps);
    FilledComplete(toks);
    forall i | 0 <= i < 7
      ensures Filled(toks)[i] == Some(Interpret(Order[i], TextFor(toks, Order[i])))
    {
      FilledAt(toks, i);
      assert Order[i] in Required;
    }
    FilledAt(toks, 7);
    AssembleSlots(Filled(toks), toks);
  }

  /** Slots holding the values of a record's tokens assemble into the tuple they stand for. */
  lemma AssembleSlots(f: Slots, toks: seq<Token>)
    requires AllMatched(f) && WellTyped(f)
    requires forall i :: 0 <= i < 7 ==> f[i] == Some(Interpret(Order[i], TextFor(toks, Order[i])))
    requires f[7] == Some(OptText(if Cid in KindsOf(toks) then Some(TextFor(toks, Cid)) else None))
    ensures Assemble(f) == Expected(toks)
  {
    assert f[0] == Some(Interpret(Order[0], TextFor(toks, Order[0])));
    assert f[1] == Some(Interpret(Order[1], TextFor(toks, Order[1])));
    assert f[2] == Some(Interpret(Order[2], TextFor(toks, Order[2])));
    assert f[3] == Some(Interpret(Order[3], TextFor(toks, Order[3])));
    assert f[4] == Some(Interpret(Order[4], TextFor(toks, Order[4])));
    assert f[5] == Some(Interpret(Order[5], TextFor(toks, Order[5])));
    assert f[6] == Some(Interpret(Order[6], TextFor(toks, Order[6])));
  }

  /** A record of well-formed tokens, in any order, is accepted exactly when it has a
      token for each of the seven required fields; it is then consumed completely and
      yields the tuple the tokens stand for. */
  lemma MatchRecordOfTokens(toks: seq<Token>, seps: seq<string>)
    requires WellFormedRecord(toks, seps)
    ensures MatchRecord(Join(toks, seps))
         == if Required <= KindsOf(toks) then Some(([], Expected(toks))) else None
  {
    ParseFieldReadTokens();
    ParseFieldNeedKeys();
    RunOfTokens(ParseField, toks, seps);
    if Required <= KindsOf(toks) {
      AssembleFilled(toks, seps);
    }
  }

  /** Reordering the tokens of a record (and choosing other separators) never changes
      what `check_contents` returns for it. */
  lemma MatchRecordOrderIndependent(toks1: seq<Token>, seps1: seq<string>, toks2: seq<Token>, seps2: seq<string>)
    requires WellFormedRecord(toks1, seps1) && WellFormedRecord(toks2, seps2)
    requires multiset(toks1) == multiset(toks2)
    ensures MatchRecord(Join(toks1, seps1)) == MatchRecord(Join(toks2, seps2))
  {
    MatchRecordOfTokens(toks1, seps1);
    MatchRecordOfTokens(toks2, seps2);
    SameTokensSameKinds(toks1, toks2);
    SameTokensSameTexts(toks1, seps1, toks2, seps2);
    if Required <= KindsOf(toks1) {
      assert forall k :: k in Required ==> k in KindsOf(toks1);
      assert Expected(toks1) == Expected(toks2) by {
        assert Ecl in KindsOf(toks1) && Pid in KindsOf(toks1) && Byr in KindsOf(toks1);
        assert Iyr in KindsOf(toks1) && Eyr in KindsOf(toks1) && Hcl in KindsOf(toks1);
        assert Hgt in KindsOf(toks1);
      }
    }
  }

  /** Tokens with the same multiset have the same fields. */
  lemma SameTokensSameKinds(toks1: seq<Token>, toks2: seq<Token>)
    requires multiset(toks1) == multiset(toks2)
    ensures KindsOf(toks1) == KindsOf(toks2)
  {
    forall k | k in KindsOf(toks1) ensures k in KindsOf(toks2) {
      var a :| 0 <= a < |toks1| && toks1[a].kind == k;
      assert toks1[a] in multiset(toks2);
    }
    forall k | k in KindsOf(toks2) ensures k in KindsOf(toks1) {
      var a :| 0 <= a < |toks2| && toks2[a].kind == k;
      assert toks2[a] in multiset(toks1);
    }
  }

  /** Well-formed records with the same multiset of tokens give each field the same text. */
  lemma SameTokensSameTexts(toks1: seq<Token>, seps1: seq<string>, toks2: seq<Token>, seps2: seq<string>)
    requires WellFormedRecord(toks1, seps1) && WellFormedRecord(toks2, seps2)
    requires multiset(toks1) == multiset(toks2)
    ensures forall k :: k in KindsOf(toks1) ==> TextFor(toks1, k) == TextFor(toks2, k)
  {
    forall k | k in KindsOf(toks1) ensures TextFor(toks1, k) == TextFor(toks2, k) {
      var a :| 0 <= a < |toks1| && toks1[a].kind == k;
      assert toks1[a] in multiset(toks2);
      var b :| 0 <= b < |toks2| && toks2[b] == toks1[a];
      TextForMember(toks1, a);
      TextForMember(toks2, b);
    }
  }

  // ---------------------------------------------------------------------------------
  // Rejections, and what is not rejected

  /** A required field whose value its parser refuses sinks the record, when its key has
      not been seen before: the bad token stops every later round. */
  lemma RunRejectsBadToken(parse: FieldParsers, toks: seq<Token>, seps: seq<string>, bad: Token, tail: string)
    requires ReadTokens(parse) && NeedKeys(parse)
    requires WellFormedRecord(toks, seps)
    requires toks != [] && toks[|toks| - 1].kind == Cid ==> seps[|toks| - 1] != []
    requires bad.kind != Cid && bad.kind !in KindsOf(toks)
    requires parse(bad.kind, Render(bad) + tail).None?
    ensures Run(parse, Join(toks, seps) + (Render(bad) + tail), NoneMatched()) == None
  {
    var s := Render(bad) + tail;
    assert 'a' <= s[0] <= 'z' by { KeyLower(bad.kind); assert s[0] == Key(bad.kind)[0]; }
    if toks != [] {
      LowerFollows(toks[|toks| - 1].kind, seps[|toks| - 1], s);
    }
    RunJoin(parse, toks, seps, s, NoneMatched());
    FillAt(NoneMatched(), toks, Index(bad.kind));
    BadTokenStops(parse, bad, tail);
    RunStuck(parse, s, Fill(NoneMatched(), toks), Index(bad.kind));
  }

  /** At a refused token of a required field no parser advances, and cid's reads nothing. */
  lemma BadTokenStops(parse: FieldParsers, bad: Token, tail: string)
    requires NeedKeys(parse)
    requires bad.kind != Cid && parse(bad.kind, Render(bad) + tail).None?
    ensures forall j :: 0 <= j < 7 ==> parse(Order[j], Render(bad) + tail).None?
    ensures parse(Cid, Render(bad) + tail) == Some((Render(bad) + tail, OptText(None)))
  {
    var s := Render(bad) + tail;
    assert s == Key(bad.kind) + ":" + (bad.text + tail);
    forall j | 0 <= j < 8 && Order[j] != bad.kind ensures !(Key(Order[j]) + ":" <= s) {
      KeysExclusive(bad.kind, Order[j], bad.text + tail);
    }
    assert !("cid:" <= s) by {
      assert Key(Order[7]) == "cid";
    }
    assert KeyedAt(parse, s);
  }

  /** The same for `check_contents`. The distinction nom makes between "no match" and
      "bad value" does not matter. */
  lemma MatchRecordRejectsBadToken(toks: seq<Token>, seps: seq<string>, bad: Token, tail: string)
    requires WellFormedRecord(toks, seps)
    requires toks != [] && toks[|toks| - 1].kind == Cid ==> seps[|toks| - 1] != []
    requires bad.kind != Cid && bad.kind !in KindsOf(toks)
    requires ParseField(bad.kind, Render(bad) + tail).None?
    ensures MatchRecord(Join(toks, seps) + (Render(bad) + tail)) == None
  {
    ParseFieldReadTokens();
    ParseFieldNeedKeys();
    RunRejectsBadToken(ParseField, toks, seps, bad, tail);
  }

  /** A record cannot begin with whitespace: at such a position no parser but cid's
      succeeds, and cid's consumes nothing. */
  lemma MatchRecordRejectsLeadingSpace(s: string)
    requires s != [] && IsMultispace(s[0])
    ensures MatchRecord(s) == None
  {
    ParseFieldNeedKeys();
    forall j | 0 <= j < 8 ensures !(Key(Order[j]) + ":" <= s) {
      assert (Key(Order[j]) + ":")[0] != s[0];
    }
    assert KeyedAt(ParseField, s);
    RunStuck(ParseField, s, NoneMatched(), 0);
  }

  /** Input left over after the last field does not make the match fail: once every slot
      is filled, `permutation` returns OK with the remainder. The leftover is any text
      that does not begin with whitespace (the last separator's `multispace0` would take
      that along), does not continue the last value when no separator ends it, and is
      not a `cid:` token the record still lacks. */
  lemma RunKeepsLeftover(parse: FieldParsers, toks: seq<Token>, seps: seq<string>, tail: string)
    requires ReadTokens(parse) && NeedKeys(parse)
    requires WellFormedRecord(toks, seps) && Required <= KindsOf(toks)
    requires tail == [] || !IsMultispace(tail[0])
    requires toks != [] && seps[|toks| - 1] == [] ==> Boundary(toks[|toks| - 1].kind, tail)
    requires Cid in KindsOf(toks) || !("cid:" <= tail)
    ensures Run(parse, Join(toks, seps) + tail, NoneMatched()) == Some((tail, Filled(toks)))
  {
    FollowsAt(toks[|toks| - 1].kind, seps[|toks| - 1], tail);
    assert JoinReady(toks, seps, tail, NoneMatched());
    RunJoin(parse, toks, seps, tail, NoneMatched());
    FillAllRequired(toks);
    FillAt(NoneMatched(), toks, 7);
    assert KeyedAt(parse, tail);
    RunSettled(parse, tail, Fill(NoneMatched(), toks));
  }

  /** The same for `check_contents`: the rest is the leftover, the tuple the record's. */
  lemma MatchRecordKeepsLeftover(toks: seq<Token>, seps: seq<string>, tail: string)
    requires WellFormedRecord(toks, seps) && Required <= KindsOf(toks)
    requires tail == [] || !IsMultispace(tail[0])
    requires toks != [] && seps[|toks| - 1] == [] ==> Boundary(toks[|toks| - 1].kind, tail)
    requires Cid in KindsOf(toks) || !("cid:" <= tail)
    ensures MatchRecord(Join(toks, seps) + tail) == Some((tail, Expected(toks)))
  {
    ParseFieldReadTokens();
    ParseFieldNeedKeys();
    RunKeepsLeftover(ParseField, toks, seps, tail);
    AssembleFilled(toks, seps);
  }
}
