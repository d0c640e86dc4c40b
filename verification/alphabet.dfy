/** The fixed 26-letter alphabet every cipher works over: ASCII upper-casing,
    letter membership, letter <-> index, and the "upper-case then strip
    everything but A-Z" clean-up several ciphers apply to their input. */
module Alphabet {

  /** `alphabet.includes(char)` for a one-character string. */
  predicate IsLetter(c: char) {
    'A' <= c <= 'Z'
  }

  predicate AllLetters(s: seq<char>) {
    forall i :: 0 <= i < |s| ==> IsLetter(s[i])
  }

  lemma AllLettersConcat(a: seq<char>, b: seq<char>)
    requires AllLetters(a) && AllLetters(b)
    ensures AllLetters(a + b)
  {
    forall i | 0 <= i < |a + b|
      ensures IsLetter((a + b)[i])
    {
      if i >= |a| {
        assert (a + b)[i] == b[i - |a|];
      }
    }
  }

  /** `toUpperCase` on one character, for ASCII text. */
  function Upper(c: char): (u: char)
    ensures IsLetter(u) <==> ('A' <= c <= 'Z' || 'a' <= c <= 'z')
    ensures IsLetter(c) ==> u == c
    ensures !IsLetter(u) ==> u == c
    ensures 'a' <= c <= 'z' ==> Idx(u) == c as int - 'a' as int
  {
    if 'a' <= c <= 'z' then (c as int - 32) as char else c
  }

  function UpperAll(s: seq<char>): (r: seq<char>)
    ensures |r| == |s|
    ensures forall i :: 0 <= i < |s| ==> r[i] == Upper(s[i])
  {
    seq(|s|, i requires 0 <= i < |s| => Upper(s[i]))
  }

  lemma UpperAllCons(c: char, s: seq<char>)
    ensures UpperAll([c] + s) == [Upper(c)] + UpperAll(s)
  {
    assert forall i :: 0 < i < |s| + 1 ==> ([c] + s)[i] == s[i - 1];
  }

  /** r has a letter exactly where the upper-cased s has one and copies
      every other character of the upper-cased s: the shape every
      letter-by-letter cipher here keeps. */
  predicate KeepsLayout(s: seq<char>, r: seq<char>) {
    && |r| == |s|
    && (forall i :: 0 <= i < |s| ==> (IsLetter(r[i]) <==> IsLetter(Upper(s[i]))))
    && (forall i :: 0 <= i < |s| && !IsLetter(Upper(s[i])) ==> r[i] == Upper(s[i]))
  }

  /** One character written in front of the rest keeps the layout. */
  lemma KeepsLayoutCons(s: seq<char>, c: char, r: seq<char>)
    requires s != [] && KeepsLayout(s[1..], r)
    requires IsLetter(c) <==> IsLetter(Upper(s[0]))
    requires !IsLetter(Upper(s[0])) ==> c == Upper(s[0])
    ensures KeepsLayout(s, [c] + r)
  {
    forall i | 0 < i < |s|
      ensures ([c] + r)[i] == r[i - 1] && s[i] == s[1..][i - 1]
    {
    }
  }

  /** `s.toUpperCase().replace(/[^A-Z]/g, "")`. */
  function Clean(s: seq<char>): (r: seq<char>)
    ensures AllLetters(r)
    ensures |r| == LetterCount(s)
    ensures AllLetters(s) ==> r == s
  {
    if s == [] then []
    else (if IsLetter(Upper(s[0])) then [Upper(s[0])] else []) + Clean(s[1..])
  }

  /** The letters of s, upper-cased, in their order: the letter at index i
      of s lands at the index that counts the letters before it. */
  lemma {:induction false} CleanAt(s: seq<char>)
    ensures forall i :: 0 <= i < |s| && IsLetter(Upper(s[i])) ==>
              LetterCount(s[..i]) < |Clean(s)| && Clean(s)[LetterCount(s[..i])] == Upper(s[i])
  {
    if s != [] {
      CleanAt(s[1..]);
      forall i | 0 <= i < |s| && IsLetter(Upper(s[i]))
        ensures LetterCount(s[..i]) < |Clean(s)| && Clean(s)[LetterCount(s[..i])] == Upper(s[i])
      {
        if i == 0 {
          assert s[..0] == [];
        } else {
          LetterCountPrefix(s, i);
          assert s[1..][i - 1] == s[i];
        }
      }
    }
  }

  /** The number of characters of s that are letters once upper-cased. */
  function LetterCount(s: seq<char>): (n: nat)
    ensures n <= |s|
  {
    if s == [] then 0
    else (if IsLetter(Upper(s[0])) then 1 else 0) + LetterCount(s[1..])
  }

  /** Counting the letters of a prefix one character further. */
  lemma LetterCountPrefix(s: seq<char>, i: int)
    requires 0 < i <= |s|
    ensures LetterCount(s[..i]) ==
            (if IsLetter(Upper(s[0])) then 1 else 0) + LetterCount(s[1..][..i - 1])
  {
    assert s[..i][1..] == s[1..][..i - 1];
  }

  /** `char.charCodeAt(0) - 65` for a letter. */
  function Idx(c: char): (i: int)
    requires IsLetter(c)
    ensures 0 <= i < 26
  {
    c as int - 'A' as int
  }

  /** `String.fromCharCode(i + 65)` for an index in range. */
  function Letter(i: int): (c: char)
    requires 0 <= i < 26
    ensures IsLetter(c) && Idx(c) == i
  {
    (i + 'A' as int) as char
  }

  lemma LetterIdx(c: char)
    requires IsLetter(c)
    ensures Letter(Idx(c)) == c
  {
  }

  predicate Distinct(s: seq<char>) {
    forall i, j :: 0 <= i < j < |s| ==> s[i] != s[j]
  }

  /** `s.indexOf(c)`: the first position of c in s, or -1. */
  function IndexOf(s: seq<char>, c: char): (i: int)
    ensures -1 <= i < |s|
    ensures i == -1 <==> c !in s
    ensures 0 <= i ==> s[i] == c && c !in s[..i]
  {
    if s == [] then -1
    else if s[0] == c then 0
    else
      var k := IndexOf(s[1..], c);
      assert k >= 0 ==> s[..k + 1] == [s[0]] + s[1..][..k];
      if k == -1 then -1 else k + 1
  }

  /** In a sequence without repeats the position of its i-th element is i. */
  lemma IndexOfDistinct(s: seq<char>, i: int)
    requires Distinct(s) && 0 <= i < |s|
    ensures IndexOf(s, s[i]) == i
  {
    assert s[i] in s;
  }

  lemma SplitPair(s: seq<char>)
    requires |s| >= 2
    ensures s == [s[0], s[1]] + s[2..]
  {
  }

  lemma SplitTriple(s: seq<char>)
    requires |s| >= 3
    ensures s == [s[0], s[1], s[2]] + s[3..]
  {
  }
}
