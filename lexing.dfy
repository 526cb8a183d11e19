/** The character classes and the nom primitives (complete `&str` versions) that the
    field parsers of day-4 are built from, each stated by its meaning: `tag`, `digit1`,
    `multispace0`, `take_till`, `take_while_m_n`, `not(digit1)`, and `str::parse::<u16>`. */
module Lexing {

  datatype Option<+T> = None | Some(value: T)

  /** `char::is_digit(10)` and nom's `digit1` test: ASCII `0-9`. */
  predicate IsDigit(c: char) { '0' <= c <= '9' }

  /** `char::is_digit(16)`: `0-9`, `a-f`, `A-F`. */
  predicate IsHexDigit(c: char) { IsDigit(c) || 'a' <= c <= 'f' || 'A' <= c <= 'F' }

  /** The characters nom's `multispace0` skips. */
  predicate IsMultispace(c: char) { c == ' ' || c == '\t' || c == '\r' || c == '\n' }

  predicate AllDigits(s: string) { forall i :: 0 <= i < |s| ==> IsDigit(s[i]) }
  predicate AllHexDigits(s: string) { forall i :: 0 <= i < |s| ==> IsHexDigit(s[i]) }
  predicate AllMultispace(s: string) { forall i :: 0 <= i < |s| ==> IsMultispace(s[i]) }

  /** `rest` is what is left of `s` once some prefix of it has been consumed. */
  predicate IsSuffix(rest: string, s: string) { |rest| <= |s| && s[|s| - |rest|..] == rest }

  lemma SuffixTrans(a: string, b: string, c: string)
    requires IsSuffix(a, b) && IsSuffix(b, c)
    ensures IsSuffix(a, c)
  {
    assert c[|c| - |a|..] == c[|c| - |b|..][|b| - |a|..];
  }

  /** Length of the longest prefix of `s` all of whose characters satisfy `p`. */
  function Span(s: string, p: char -> bool): (n: nat)
    ensures n <= |s|
    ensures forall i :: 0 <= i < n ==> p(s[i])
    ensures n == |s| || !p(s[n])
  {
    if s != [] && p(s[0]) then 1 + Span(s[1..], p) else 0
  }

  /** The span stops exactly at the end of a run `a` that is followed by a character
      outside the class. */
  lemma {:induction false} SpanAppend(a: string, b: string, p: char -> bool)
    requires forall i :: 0 <= i < |a| ==> p(a[i])
    requires b == [] || !p(b[0])
    ensures Span(a + b, p) == |a|
  {
    if a != [] {
      assert (a + b)[1..] == a[1..] + b;
      SpanAppend(a[1..], b, p);
    } else {
      assert a + b == b;
    }
  }

  /** nom's `tag(t)`: succeeds with the input after `t` when `t` is a prefix. */
  function Tag(s: string, t: string): (r: Option<string>)
    ensures r.Some? <==> t <= s
    ensures r.Some? ==> s == t + r.value
  {
    if t <= s then Some(s[|t|..]) else None
  }

  /** nom's `digit1`: one or more ASCII digits, as `(rest, digits)`. */
  function Digit1(s: string): (r: Option<(string, string)>)
    ensures r.None? <==> s == [] || !IsDigit(s[0])
    ensures r.Some? ==> s == r.value.1 + r.value.0
    ensures r.Some? ==> r.value.1 != [] && AllDigits(r.value.1)
    ensures r.Some? ==> r.value.0 == [] || !IsDigit(r.value.0[0])
  {
    var n := Span(s, IsDigit);
    if n == 0 then None
    else
      assert s == s[..n] + s[n..];
      Some((s[n..], s[..n]))
  }

  /** A sequence no longer than `b` is a prefix of it when it is `b`'s first part. */
  lemma PrefixLength(a: string, b: string)
    requires |a| <= |b|
    ensures a <= b <==> a == b[..|a|]
  {
  }

  /** nom's `multispace0`: drops the leading run of space, tab, `\r` and `\n`. */
  function Multispace0(s: string): (r: string)
    ensures IsSuffix(r, s)
    ensures AllMultispace(s[..|s| - |r|])
    ensures r == [] || !IsMultispace(r[0])
  {
    var n := Span(s, IsMultispace);
    assert s[..n] == s[..|s| - |s[n..]|];
    s[n..]
  }

  /** `multispace0` after a whitespace run lands exactly on the next non-space. */
  lemma Multispace0Append(sep: string, rest: string)
    requires AllMultispace(sep)
    requires rest == [] || !IsMultispace(rest[0])
    ensures Multispace0(sep + rest) == rest
  {
    SpanAppend(sep, rest, IsMultispace);
    assert (sep + rest)[|sep|..] == rest;
  }

  /** nom's `take_till(stop)`: the longest prefix without a stop character, possibly
      empty; never fails. Result `(rest, taken)`. */
  function TakeTill(s: string, stop: char -> bool): (r: (string, string))
    ensures s == r.1 + r.0
    ensures forall i :: 0 <= i < |r.1| ==> !stop(r.1[i])
    ensures r.0 == [] || stop(r.0[0])
  {
    if s == [] || stop(s[0]) then (s, [])
    else
      var (rest, taken) := TakeTill(s[1..], stop);
      assert s == [s[0]] + s[1..];
      (rest, [s[0]] + taken)
  }

  /** `take_till` splits a string at its first stop character and nowhere else. */
  lemma {:induction false} TakeTillSplits(a: string, b: string, stop: char -> bool)
    requires forall i :: 0 <= i < |a| ==> !stop(a[i])
    requires b == [] || stop(b[0])
    ensures TakeTill(a + b, stop) == (b, a)
  {
    if a == [] {
      assert a + b == b;
    } else {
      assert (a + b)[1..] == a[1..] + b;
      TakeTillSplits(a[1..], b, stop);
      assert [a[0]] + a[1..] == a;
    }
  }

  /** An input that starts with a tag is the tag, then what follows it, in two parts. */
  lemma TagThen(s: string, tag: string, a: string, b: string)
    requires tag <= s && s[|tag|..] == a + b
    ensures s == tag + a + b
  {
    assert s == tag + s[|tag|..];
  }

  /** Concatenation is associative. */
  lemma AppendAssoc(a: string, b: string, c: string)
    ensures (a + b) + c == a + (b + c)
  {
  }

  /** A tag, a part taken after it, and what is left: the rest is a suffix of the input. */
  lemma ConsumedSplit(s: string, tag: string, rest: string, taken: string, after: string)
    requires s == tag + rest && rest == taken + after
    ensures s == tag + taken + after
    ensures IsSuffix(after, s)
  {
    assert s == (tag + taken) + after;
    assert s[|tag + taken|..] == after;
  }

  /** A prefix of a prefix is a prefix. */
  lemma PrefixOfPrefix(a: string, b: string, s: string)
    requires a <= b
    ensures b <= s ==> a <= s
  {
  }

  /** nom's `take_while_m_n(m, n, p)`: the longest prefix of at most `n` characters
      satisfying `p`; fails when it has fewer than `m`. Result `(rest, taken)`. */
  function TakeWhileMN(s: string, m: nat, n: nat, p: char -> bool): (r: Option<(string, string)>)
    requires m <= n
    ensures r.Some? <==> m <= Span(s, p)
    ensures r.Some? ==> s == r.value.1 + r.value.0
    ensures r.Some? ==> |r.value.1| == (if Span(s, p) < n then Span(s, p) else n)
    ensures r.Some? ==> forall i :: 0 <= i < |r.value.1| ==> p(r.value.1[i])
  {
    var k := Span(s, p);
    if k < m then None
    else
      var j := if k < n then k else n;
      assert s == s[..j] + s[j..];
      Some((s[j..], s[..j]))
  }

  function DigitValue(c: char): nat { if IsDigit(c) then (c as int - '0' as int) else 0 }

  /** The number a run of decimal digits denotes, most significant digit first. */
  function DecimalValue(d: string): nat
  {
    if d == [] then 0 else 10 * DecimalValue(d[..|d| - 1]) + DigitValue(d[|d| - 1])
  }

  /** `str::parse::<u16>`: an optional `+`, then one or more decimal digits whose value
      fits in 16 bits. Leading zeros are allowed. */
  function ParseU16(s: string): (r: Option<nat>)
    ensures r.Some? ==> r.value < 0x1_0000
    ensures s != [] && AllDigits(s) ==> (r.Some? <==> DecimalValue(s) < 0x1_0000)
    ensures s != [] && AllDigits(s) && r.Some? ==> r.value == DecimalValue(s)
  {
    var digits := if s != [] && s[0] == '+' then s[1..] else s;
    if digits == [] || !AllDigits(digits) then None
    else if DecimalValue(digits) > 0xFFFF then None
    else Some(DecimalValue(digits))
  }
}
