/** `check`, the shallow test of day-4: a block passes when each of the seven required
    keys is the text before the first `:` of one of its whitespace-separated words. */
module Shallow {
  import opened Lexing

  /** Unicode `White_Space`, the class `str::split_whitespace` splits on. */
  predicate IsWhitespace(c: char)
  {
    || c == ' ' || '\t' <= c <= '\r'
    || c == '\U{85}' || c == '\U{A0}' || c == '\U{1680}'
    || '\U{2000}' <= c <= '\U{200A}'
    || c == '\U{2028}' || c == '\U{2029}' || c == '\U{202F}' || c == '\U{205F}' || c == '\U{3000}'
  }

  predicate IsWordChar(c: char) { !IsWhitespace(c) }

  predicate AllWhitespace(s: string) { forall i :: 0 <= i < |s| ==> IsWhitespace(s[i]) }

  /** A word `split_whitespace` can yield: non-empty, without whitespace. */
  predicate IsWord(w: string) { w != [] && forall i :: 0 <= i < |w| ==> IsWordChar(w[i]) }

  /** `str::split_whitespace`: the maximal runs of non-whitespace characters, in order. */
  function Words(s: string): (ws: seq<string>)
    ensures forall i :: 0 <= i < |ws| ==> IsWord(ws[i])
    ensures ws == [] <==> AllWhitespace(s)
    decreases |s|
  {
    var lead := Span(s, IsWhitespace);
    var t := s[lead..];
    if t == [] then
      assert lead == |s|;
      []
    else
      assert t[0] == s[lead] && IsWordChar(t[0]);
      var n := Span(t, IsWordChar);
      var w := t[..n];
      assert IsWord(w) by {
        forall i | 0 <= i < |w| ensures IsWordChar(w[i]) { assert w[i] == t[i]; }
      }
      [w] + Words(t[n..])
  }

  /** A whitespace run, a word, and then whitespace or nothing: the word comes first. */
  lemma WordsCons(lead: string, w: string, rest: string)
    requires AllWhitespace(lead) && IsWord(w)
    requires rest == [] || IsWhitespace(rest[0])
    ensures Words(lead + (w + rest)) == [w] + Words(rest)
  {
    var s := lead + (w + rest);
    SpanAppend(lead, w + rest, IsWhitespace);
    assert s[|lead|..] == w + rest;
    SpanAppend(w, rest, IsWordChar);
    assert (w + rest)[..|w|] == w && (w + rest)[|w|..] == rest;
  }

  /** A block written as words with separators after them: `ws[0] + seps[0] + ws[1] + …`. */
  function Unwords(ws: seq<string>, seps: seq<string>): string
    requires |seps| == |ws|
  {
    if ws == [] then [] else ws[0] + (seps[0] + Unwords(ws[1..], seps[1..]))
  }

  /** The blocks a sequence of words and whitespace separators spells: every separator but
      the last is non-empty. */
  predicate WordLayout(lead: string, ws: seq<string>, seps: seq<string>)
  {
    && AllWhitespace(lead)
    && |seps| == |ws|
    && (forall i :: 0 <= i < |ws| ==> IsWord(ws[i]))
    && (forall i :: 0 <= i < |seps| ==> AllWhitespace(seps[i]))
    && (forall i :: 0 <= i < |seps| - 1 ==> seps[i] != [])
  }

  /** `split_whitespace` recovers the words a block was written with, whatever whitespace
      leads, separates and ends them. */
  lemma {:induction false} WordsOfLayout(lead: string, ws: seq<string>, seps: seq<string>)
    requires WordLayout(lead, ws, seps)
    ensures Words(lead + Unwords(ws, seps)) == ws
    decreases ws
  {
    if ws == [] {
      assert lead + [] == lead;
    } else {
      var rest := Unwords(ws[1..], seps[1..]);
      LayoutTail(lead, ws, seps);
      WordsOfLayout(seps[0], ws[1..], seps[1..]);
      LayoutHead(lead, ws, seps);
      WordsCons(lead, ws[0], seps[0] + rest);
    }
  }

  /** After the first word and its separator, the rest of a layout is a layout. */
  lemma LayoutTail(lead: string, ws: seq<string>, seps: seq<string>)
    requires WordLayout(lead, ws, seps) && ws != []
    ensures WordLayout(seps[0], ws[1..], seps[1..])
  {
    forall i | 0 <= i < |ws| - 1 ensures IsWord(ws[1..][i]) { assert ws[1..][i] == ws[i + 1]; }
    forall i | 0 <= i < |seps| - 1 ensures AllWhitespace(seps[1..][i]) { assert seps[1..][i] == seps[i + 1]; }
  }

  /** What follows the first word of a layout is whitespace or nothing. */
  lemma LayoutHead(lead: string, ws: seq<string>, seps: seq<string>)
    requires WordLayout(lead, ws, seps) && ws != []
    ensures var after := seps[0] + Unwords(ws[1..], seps[1..]);
      after == [] || IsWhitespace(after[0])
  {
    if |ws| == 1 {
      assert Unwords(ws[1..], seps[1..]) == [];
    }
    assert AllWhitespace(seps[0]);
  }

  predicate NotColon(c: char) { c != ':' }

  /** `f.split(':').next().unwrap()`: the text of a word before its first `:`, or the whole
      word when it has none. */
  function KeyOf(w: string): (k: string)
    ensures k <= w && ':' !in k
    ensures k == w || w[|k|] == ':'
  {
    var n := Span(w, NotColon);
    assert forall c :: c in w[..n] ==> c != ':' by {
      forall c | c in w[..n] ensures c != ':' {
        var i :| 0 <= i < n && w[..n][i] == c;
      }
    }
    w[..n]
  }

  /** The key of `key:value` is `key` when `key` has no colon. */
  lemma KeyOfPair(key: string, value: string)
    requires ':' !in key
    ensures KeyOf(key + ":" + value) == key
  {
    var w := key + ":" + value;
    assert forall i :: 0 <= i < |key| ==> w[i] == key[i] && key[i] != ':';
    assert w[|key|] == ':' && w[..|key|] == key;
  }

  const RequiredKeys: set<string> := {"byr", "iyr", "eyr", "hgt", "hcl", "ecl", "pid"}

  /** The set `present_fields`: the key of every word of the block. */
  function PresentKeys(block: string): set<string>
  {
    set w | w in Words(block) :: KeyOf(w)
  }

  /** `check(block)`: no required key is missing from the present keys. */
  function Check(block: string): (ok: bool)
    ensures ok <==> forall k :: k in RequiredKeys ==> exists w :: w in Words(block) && KeyOf(w) == k
  {
    var present := PresentKeys(block);
    assert forall k :: k in present <==> exists w :: w in Words(block) && KeyOf(w) == k;
    DifferenceEmpty(RequiredKeys, present);
    RequiredKeys - present == {}
  }

  /** A set difference is empty exactly when the first set is a subset of the second. */
  lemma DifferenceEmpty(a: set<string>, b: set<string>)
    ensures a - b == {} <==> a <= b
  {
    if !(a <= b) {
      var x :| x in a && x !in b;
      assert x in a - b;
    }
  }

  /** Whether one of the words has key `k`. */
  predicate HasKey(ws: seq<string>, k: string)
  {
    exists i :: 0 <= i < |ws| && KeyOf(ws[i]) == k
  }

  /** Whether the words' keys include every required key. */
  predicate CoversRequired(ws: seq<string>)
  {
    forall k :: k in RequiredKeys ==> HasKey(ws, k)
  }

  /** A block written as words passes exactly when its words' keys include each required
      key; whitespace does not matter. */
  lemma CheckOfLayout(lead: string, ws: seq<string>, seps: seq<string>)
    requires WordLayout(lead, ws, seps)
    ensures Check(lead + Unwords(ws, seps)) <==> CoversRequired(ws)
  {
    WordsOfLayout(lead, ws, seps);
    var block := lead + Unwords(ws, seps);
    if Check(block) {
      forall k | k in RequiredKeys ensures HasKey(ws, k) {
        var w :| w in Words(block) && KeyOf(w) == k;
        var i :| 0 <= i < |ws| && ws[i] == w;
      }
    }
    if CoversRequired(ws) {
      forall k | k in RequiredKeys ensures exists w :: w in Words(block) && KeyOf(w) == k {
        var i :| 0 <= i < |ws| && KeyOf(ws[i]) == k;
        assert ws[i] in Words(block);
      }
    }
  }

  /** Only the set of words counts: the order of the words and repeated words do not. */
  lemma CheckWordSet(ws1: seq<string>, ws2: seq<string>)
    requires forall w :: w in ws1 <==> w in ws2
    ensures CoversRequired(ws1) <==> CoversRequired(ws2)
  {
    if CoversRequired(ws1) {
      forall k | k in RequiredKeys ensures HasKey(ws2, k) {
        var i :| 0 <= i < |ws1| && KeyOf(ws1[i]) == k;
        assert ws1[i] in ws2;
        var j :| 0 <= j < |ws2| && ws2[j] == ws1[i];
      }
    }
    if CoversRequired(ws2) {
      forall k | k in RequiredKeys ensures HasKey(ws1, k) {
        var j :| 0 <= j < |ws2| && KeyOf(ws2[j]) == k;
        assert ws2[j] in ws1;
        var i :| 0 <= i < |ws1| && ws1[i] == ws2[j];
      }
    }
  }

  /** A word appended to a list has its key among the list's keys. */
  lemma HasKeyAppend(ws: seq<string>, w: string, k: string)
    ensures HasKey(ws + [w], k) <==> HasKey(ws, k) || KeyOf(w) == k
  {
    var ws' := ws + [w];
    if HasKey(ws, k) {
      var i :| 0 <= i < |ws| && KeyOf(ws[i]) == k;
      assert ws'[i] == ws[i];
    }
    if KeyOf(w) == k {
      assert ws'[|ws|] == w;
    }
    if HasKey(ws', k) && KeyOf(w) != k {
      var i :| 0 <= i < |ws'| && KeyOf(ws'[i]) == k;
      assert ws'[i] == ws[i];
    }
  }

  /** A further word never makes a passing block fail, and a word whose key is not required
      (an unknown key, or `cid`) or is already present changes nothing. */
  lemma CheckExtraWord(ws: seq<string>, w: string)
    ensures CoversRequired(ws) ==> CoversRequired(ws + [w])
    ensures KeyOf(w) !in RequiredKeys ==> (CoversRequired(ws + [w]) <==> CoversRequired(ws))
    ensures HasKey(ws, KeyOf(w)) ==> (CoversRequired(ws + [w]) <==> CoversRequired(ws))
  {
    forall k ensures HasKey(ws + [w], k) <==> HasKey(ws, k) || KeyOf(w) == k {
      HasKeyAppend(ws, w, k);
    }
  }
}
