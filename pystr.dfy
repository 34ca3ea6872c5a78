/**
 * The Python string operations the comparator relies on:
 * `str.lower()`, `str.split()`, `str.replace(' ', '')` and `sub in s`.
 * Strings are sequences of characters.
 */
module PyStr {

  // ---------------------------------------------------------------- lower()

  predicate IsUpperChar(c: char) {
    'A' <= c <= 'Z'
  }

  function LowerChar(c: char): (r: char)
    ensures !IsUpperChar(r)
    ensures !IsUpperChar(c) ==> r == c
    ensures IsUpperChar(c) ==> r as int == c as int + 32
  {
    if IsUpperChar(c) then (c as int + 32) as char else c
  }

  /** No character of `s` is an upper-case letter. */
  predicate IsLowerStr(s: string) {
    forall i :: 0 <= i < |s| ==> !IsUpperChar(s[i])
  }

  /** `s.lower()`: every letter folded to lower case; a string already in lower case is left as it is. */
  function Lower(s: string): (r: string)
    ensures |r| == |s|
    ensures IsLowerStr(r)
    ensures IsLowerStr(s) ==> r == s
  {
    seq(|s|, i requires 0 <= i < |s| => LowerChar(s[i]))
  }

  /** Folding twice is folding once. */
  lemma LowerIdempotent(s: string)
    ensures Lower(Lower(s)) == Lower(s)
  {
  }

  // ---------------------------------------------------------------- split()

  /** The characters Python 2.7's `unicode.split()` treats as separators (its Unicode 5.2 tables). */
  predicate IsSpace(c: char) {
    || c == ' '
    || '\t' <= c <= '\r'
    || '\U{1C}' <= c <= '\U{1F}'
    || c == '\U{85}' || c == '\U{A0}' || c == '\U{1680}' || c == '\U{180E}'
    || '\U{2000}' <= c <= '\U{200A}'
    || c == '\U{2028}' || c == '\U{2029}' || c == '\U{202F}' || c == '\U{205F}' || c == '\U{3000}'
  }

  predicate NoSpace(s: string) {
    forall i :: 0 <= i < |s| ==> !IsSpace(s[i])
  }

  /** A token produced by `split()`: non-empty and free of separators. */
  predicate IsWord(w: string) {
    |w| > 0 && NoSpace(w)
  }

  /** Splits `s`, where `cur` is the part of a token already read. */
  function SplitFrom(s: string, cur: string): (ws: seq<string>)
    requires NoSpace(cur)
    ensures forall k :: 0 <= k < |ws| ==> IsWord(ws[k])
    decreases |s|
  {
    if s == [] then
      (if cur == [] then [] else [cur])
    else if IsSpace(s[0]) then
      (if cur == [] then [] else [cur]) + SplitFrom(s[1..], [])
    else
      SplitFrom(s[1..], cur + [s[0]])
  }

  /** `s.split()`: the maximal runs of non-separator characters, in order. */
  function Split(s: string): (ws: seq<string>)
    ensures forall k :: 0 <= k < |ws| ==> IsWord(ws[k])
  {
    SplitFrom(s, [])
  }

  /** `' '.join(ws)`. */
  function Join(ws: seq<string>): string
  {
    if ws == [] then "" else if |ws| == 1 then ws[0] else ws[0] + " " + Join(ws[1..])
  }

  lemma {:induction false} SplitFromWord(w: string, rest: string, cur: string)
    requires NoSpace(cur) && NoSpace(w)
    ensures SplitFrom(w + rest, cur) == SplitFrom(rest, cur + w)
    decreases |w|
  {
    if w == [] {
      assert w + rest == rest;
      assert cur + w == cur;
    } else {
      assert (w + rest)[1..] == w[1..] + rest;
      SplitFromWord(w[1..], rest, cur + [w[0]]);
      assert cur + [w[0]] + w[1..] == cur + w;
    }
  }

  /** Splitting a space-joined list of tokens gives the tokens back. */
  lemma {:induction false} SplitJoin(ws: seq<string>)
    requires forall k :: 0 <= k < |ws| ==> IsWord(ws[k])
    ensures Split(Join(ws)) == ws
  {
    if ws == [] {
    } else if |ws| == 1 {
      SplitFromWord(ws[0], [], []);
      assert ws[0] + [] == ws[0];
      assert [] + ws[0] == ws[0];
    } else {
      var rest := " " + Join(ws[1..]);
      assert Join(ws) == ws[0] + rest;
      SplitFromWord(ws[0], rest, []);
      assert [] + ws[0] == ws[0];
      assert rest[1..] == Join(ws[1..]);
      SplitJoin(ws[1..]);
      assert ws == [ws[0]] + ws[1..];
    }
  }

  /** Leading separators are dropped: runs of separators never produce empty tokens. */
  lemma {:induction false} SplitSkipsLeadingSpace(c: char, s: string)
    requires IsSpace(c)
    ensures Split([c] + s) == Split(s)
  {
    assert ([c] + s)[1..] == s;
  }

  // ---------------------------------------------------------------- replace(' ', '')

  /** `s.replace(' ', '')`: the same characters in the same order, without the blanks. */
  function RemoveSpaces(s: string): (r: string)
    ensures ' ' !in r
    ensures multiset(r) == multiset(s)[' ' := 0]
  {
    if s == [] then []
    else
      assert s == [s[0]] + s[1..];
      (if s[0] == ' ' then [] else [s[0]]) + RemoveSpaces(s[1..])
  }

  lemma {:induction false} RemoveSpacesAppend(a: string, b: string)
    ensures RemoveSpaces(a + b) == RemoveSpaces(a) + RemoveSpaces(b)
  {
    if a == [] {
      assert a + b == b;
    } else {
      assert (a + b)[1..] == a[1..] + b;
      RemoveSpacesAppend(a[1..], b);
    }
  }

  lemma {:induction false} RemoveSpacesOfBlankFree(s: string)
    requires ' ' !in s
    ensures RemoveSpaces(s) == s
  {
    if s != [] {
      assert s[0] in s;
      assert forall c :: c in s[1..] ==> c in s;
      RemoveSpacesOfBlankFree(s[1..]);
    }
  }

  lemma RemoveSpacesDropsBlank(b: string)
    ensures RemoveSpaces([' '] + b) == RemoveSpaces(b)
  {
    assert ([' '] + b)[1..] == b;
  }

  /** Removing the blank between two blank-free pieces joins them. */
  lemma RemoveSpacesJoinsPieces(a: string, b: string)
    requires ' ' !in a && ' ' !in b
    ensures RemoveSpaces(a + ([' '] + b)) == a + b
  {
    RemoveSpacesAppend(a, [' '] + b);
    RemoveSpacesDropsBlank(b);
    RemoveSpacesOfBlankFree(a);
    RemoveSpacesOfBlankFree(b);
  }

  // ---------------------------------------------------------------- sub in s

  /** Python's `sub in s` for strings: `sub` occurs in `s` at some position. */
  function Contains(s: string, sub: string): (found: bool)
    ensures found ==> |sub| <= |s|
    ensures sub <= s ==> found
  {
    assert sub <= s ==> sub <= s[0..];
    exists k :: 0 <= k <= |s| && sub <= s[k..]
  }

  /** A blank-free piece of `s` survives the removal of blanks. */
  lemma ContainsAfterRemoveSpaces(s: string, sub: string)
    requires ' ' !in sub
    requires Contains(s, sub)
    ensures Contains(RemoveSpaces(s), sub)
  {
    var k :| 0 <= k <= |s| && sub <= s[k..];
    var tail := s[k + |sub|..];
    assert s == s[..k] + (sub + tail);
    RemoveSpacesAppend(s[..k], sub + tail);
    RemoveSpacesAppend(sub, tail);
    RemoveSpacesOfBlankFree(sub);
    var r := RemoveSpaces(s);
    var p := |RemoveSpaces(s[..k])|;
    assert r == RemoveSpaces(s[..k]) + (sub + RemoveSpaces(tail));
    assert r[p..] == sub + RemoveSpaces(tail);
    assert sub <= r[p..];
  }
}
