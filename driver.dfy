/** The counting in day-4's `main`, without the file read and the printing: the input is
    split into blocks at every blank line, the blocks that pass `check` are counted, and
    a loop counts the blocks `check_contents` accepts. */
module Driver {
  import opened Lexing
  import opened Shallow
  import opened Matcher

  /** A blank line, the pattern `input.split("\n\n")` splits on, starts at index `j`. */
  predicate IsBreakAt(s: string, j: nat) { j + 2 <= |s| && s[j] == '\n' && s[j + 1] == '\n' }

  predicate HasBreak(s: string) { exists j: nat :: j < |s| && IsBreakAt(s, j) }

  /** Where the first blank line of `s` starts, if it has one. */
  function FirstBreak(s: string): (r: Option<nat>)
    ensures r.Some? ==> IsBreakAt(s, r.value) && forall j: nat :: j < r.value ==> !IsBreakAt(s, j)
    ensures r.None? ==> !HasBreak(s)
  {
    if |s| < 2 then None
    else if s[0] == '\n' && s[1] == '\n' then Some(0)
    else
      match FirstBreak(s[1..])
      case None =>
        assert forall j: nat :: IsBreakAt(s, j) ==> j > 0 && IsBreakAt(s[1..], j - 1);
        None
      case Some(i) =>
        assert IsBreakAt(s, i + 1) by { assert s[1..][i] == s[i + 1] && s[1..][i + 1] == s[i + 2]; }
        assert forall j: nat :: 0 < j < i + 1 && IsBreakAt(s, j) ==> IsBreakAt(s[1..], j - 1);
        Some(i + 1)
  }

  /** `str::split("\n\n")`: the pieces between blank lines, left to right; there is always
      at least one, and none holds a blank line. */
  function Blocks(s: string): (bs: seq<string>)
    ensures bs != []
    ensures forall i :: 0 <= i < |bs| ==> !HasBreak(bs[i])
    decreases |s|
  {
    match FirstBreak(s)
    case None => [s]
    case Some(i) =>
      assert !HasBreak(s[..i]) by {
        forall j: nat | IsBreakAt(s[..i], j) ensures false {
          assert IsBreakAt(s, j);
        }
      }
      [s[..i]] + Blocks(s[i + 2..])
  }

  /** The blocks put back together, a blank line between each two. */
  function Unsplit(bs: seq<string>): string
    requires bs != []
  {
    if |bs| == 1 then bs[0] else bs[0] + ("\n\n" + Unsplit(bs[1..]))
  }

  /** Splitting loses nothing: the blocks and the blank lines between them are the input. */
  lemma {:induction false} UnsplitBlocks(s: string)
    ensures Unsplit(Blocks(s)) == s
    decreases |s|
  {
    match FirstBreak(s)
    case None =>
    case Some(i) =>
      var rest := s[i + 2..];
      UnsplitBlocks(rest);
      assert Blocks(s)[1..] == Blocks(rest);
      assert s == s[..i] + ("\n\n" + rest);
  }

  /** A block without a blank line and not ending in `\n`, then a blank line: the first
      blank line is the one after the block. */
  lemma FirstBreakAfter(b: string, t: string)
    requires !HasBreak(b) && (b == [] || b[|b| - 1] != '\n')
    requires IsBreakAt(t, 0)
    ensures FirstBreak(b + t) == Some(|b|)
  {
    var s := b + t;
    assert IsBreakAt(s, |b|);
    forall j: nat | j < |b| ensures !IsBreakAt(s, j) {
      if j + 1 < |b| {
        if IsBreakAt(s, j) { assert IsBreakAt(b, j); }
      }
    }
  }

  /** A block without a blank line and not ending in `\n`, then a blank line: splitting
      yields the block first and then the pieces of what follows. */
  lemma BlocksCons(b: string, rest: string)
    requires !HasBreak(b) && (b == [] || b[|b| - 1] != '\n')
    ensures Blocks(b + ("\n\n" + rest)) == [b] + Blocks(rest)
  {
    var t := "\n\n" + rest;
    FirstBreakAfter(b, t);
    var s := b + t;
    assert s[..|b|] == b && s[|b| + 2..] == rest;
  }

  /** Blocks without blank lines, none but the last ending in `\n`, come back from
      splitting what `Unsplit` makes of them. */
  lemma {:induction false} BlocksUnsplit(bs: seq<string>)
    requires bs != []
    requires forall i :: 0 <= i < |bs| ==> !HasBreak(bs[i])
    requires forall i :: 0 <= i < |bs| - 1 ==> bs[i] == [] || bs[i][|bs[i]| - 1] != '\n'
    ensures Blocks(Unsplit(bs)) == bs
    decreases |bs|
  {
    if |bs| == 1 {
      assert FirstBreak(bs[0]).None?;
    } else {
      BlocksCons(bs[0], Unsplit(bs[1..]));
      assert forall i :: 0 <= i < |bs| - 1 ==> bs[1..][i] == bs[i + 1];
      BlocksUnsplit(bs[1..]);
      assert bs == [bs[0]] + bs[1..];
    }
  }

  /** `iter.filter(p).count()`: how many blocks satisfy `p`. */
  function Count(bs: seq<string>, p: string -> bool): (n: nat)
    ensures n <= |bs|
    ensures n == |bs| <==> forall i :: 0 <= i < |bs| ==> p(bs[i])
    ensures n == 0 <==> forall i :: 0 <= i < |bs| ==> !p(bs[i])
  {
    if bs == [] then 0
    else
      var n := Count(bs[1..], p);
      assert forall i :: 1 <= i < |bs| ==> bs[i] == bs[1..][i - 1];
      (if p(bs[0]) then 1 else 0) + n
  }

  /** Counts add up over consecutive runs of blocks. */
  lemma {:induction false} CountAppend(a: seq<string>, b: seq<string>, p: string -> bool)
    ensures Count(a + b, p) == Count(a, p) + Count(b, p)
  {
    if a == [] {
      assert a + b == b;
    } else {
      assert (a + b)[1..] == a[1..] + b;
      CountAppend(a[1..], b, p);
    }
  }

  /** One more block adds one to the count exactly when it satisfies `p`. */
  lemma CountPrefix(bs: seq<string>, i: nat, p: string -> bool)
    requires i < |bs|
    ensures Count(bs[..i + 1], p) == Count(bs[..i], p) + (if p(bs[i]) then 1 else 0)
  {
    assert bs[..i + 1] == bs[..i] + [bs[i]];
    CountAppend(bs[..i], [bs[i]], p);
    assert [bs[i]][1..] == [];
  }

  /** What `check_contents(b).is_ok()` tests. */
  predicate Accepted(b: string) { MatchRecord(b).Some? }

  /** The loop of `main` that counts the blocks `check_contents` accepts. */
  method DeepCount(input: string) returns (deepCount: nat)
    ensures deepCount == Count(Blocks(input), Accepted)
  {
    var blocks := Blocks(input);
    deepCount := 0;
    for i := 0 to |blocks|
      invariant deepCount == Count(blocks[..i], Accepted)
    {
      var c := CheckContents(blocks[i]);
      assert c.Some? <==> Accepted(blocks[i]);
      if c.Some? {
        deepCount := deepCount + 1;
      }
      CountPrefix(blocks, i, Accepted);
    }
    assert blocks[..|blocks|] == blocks;
  }

  /** `main` without its I/O: the shallow count of line 19, and `deep_count`. */
  method Tally(input: string) returns (count: nat, deepCount: nat)
    ensures count == Count(Blocks(input), Check)
    ensures deepCount == Count(Blocks(input), Accepted)
  {
    count := Count(Blocks(input), Check);
    deepCount := DeepCount(input);
  }
}
