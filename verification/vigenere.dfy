/** Vigenère: a repeating-key additive substitution over the letters of the
    text; every other character is copied (upper-cased) and does not use up
    a key position. */
module Vigenere {
  import opened Alphabet
  import opened ModArith

  /** The key used when the supplied one has no letters. */
  const DefaultKey: seq<char> := "KEY"

  /** Upper-case the key, drop its non-letters, fall back to "KEY". */
  function NormalizeKey(key: seq<char>): (k: seq<char>)
    ensures |k| > 0 && AllLetters(k)
    ensures Clean(key) != [] ==> k == Clean(key)
  {
    var cleaned := Clean(key);
    if cleaned == [] then DefaultKey else cleaned
  }

  /** One letter shifted forward (encrypt) or back (decrypt) by a key letter. */
  function Shift(c: char, k: char, encrypt: bool): (r: char)
    requires IsLetter(c) && IsLetter(k)
    ensures IsLetter(r)
  {
    Letter(if encrypt then Mod(Idx(c) + Idx(k), 26) else Mod(Idx(c) - Idx(k), 26))
  }

  lemma ShiftInverse(c: char, k: char)
    requires IsLetter(c) && IsLetter(k)
    ensures Shift(Shift(c, k, true), k, false) == c
    ensures Shift(Shift(c, k, false), k, true) == c
  {
    ModShiftBack(Idx(c), Idx(k), 26);
    LetterIdx(c);
  }

  /** The key letter used at key position n: the key repeats. */
  function KeyAt(key: seq<char>, n: nat): (k: char)
    requires |key| > 0 && AllLetters(key)
    ensures IsLetter(k)
  {
    key[n % |key|]
  }

  /** The key position after reading c: letters use one up, other characters
      none. */
  function Next(c: char, j: nat): (j': nat)
    ensures IsLetter(c) ==> j' == j + 1
    ensures !IsLetter(c) ==> j' == j
  {
    if IsLetter(c) then j + 1 else j
  }

  /** The character written for the upper-cased character c at key position j. */
  function Out(c: char, key: seq<char>, j: nat, encrypt: bool): (r: char)
    requires |key| > 0 && AllLetters(key)
    ensures IsLetter(r) <==> IsLetter(c)
    ensures !IsLetter(c) ==> r == c
  {
    if IsLetter(c) then Shift(c, KeyAt(key, j), encrypt) else c
  }

  /** Reading the written character back in the other direction at the same
      key position writes the original and advances the key the same way. */
  lemma OutRoundTrip(ch: char, key: seq<char>, j: nat, encrypt: bool)
    requires |key| > 0 && AllLetters(key)
    ensures var x := Out(Upper(ch), key, j, encrypt);
            Upper(x) == x && Next(x, j) == Next(Upper(ch), j) &&
            Out(x, key, j, !encrypt) == Upper(ch)
  {
    if IsLetter(Upper(ch)) {
      ShiftInverse(Upper(ch), KeyAt(key, j));
    }
  }

  /** The loop over the text from key position j on; j counts letters only. */
  function Run(text: seq<char>, key: seq<char>, j: nat, encrypt: bool): (r: seq<char>)
    requires |key| > 0 && AllLetters(key)
    ensures KeepsLayout(text, r)
  {
    if text == [] then []
    else
      var c := Upper(text[0]);
      var rest := Run(text[1..], key, Next(c, j), encrypt);
      KeepsLayoutCons(text, Out(c, key, j, encrypt), rest);
      [Out(c, key, j, encrypt)] + rest
  }

  /** `vigenere(text, key, isEncrypt)`: the output has the input's length, a
      letter exactly where the input has one, and every non-letter copied. */
  function Vigenere(text: seq<char>, key: seq<char>, encrypt: bool): (r: seq<char>)
    ensures KeepsLayout(text, r)
  {
    Run(text, NormalizeKey(key), 0, encrypt)
  }

  /** Run reads the first character and continues after it. */
  lemma RunCons(c: char, rest: seq<char>, key: seq<char>, j: nat, encrypt: bool)
    requires |key| > 0 && AllLetters(key)
    ensures Run([c] + rest, key, j, encrypt) ==
            [Out(Upper(c), key, j, encrypt)] + Run(rest, key, Next(Upper(c), j), encrypt)
  {
    var s := [c] + rest;
    assert s[0] == c && s[1..] == rest;
  }

  /** The key index in force when the loop reaches index i. */
  function IndexAt(text: seq<char>, j: nat, i: nat): nat
    requires i <= |text|
    decreases i
  {
    if i == 0 then j else IndexAt(text[1..], Next(Upper(text[0]), j), i - 1)
  }

  /** The character written at index i is the one Out writes for it at the
      key index then in force. */
  lemma {:induction false} RunAt(text: seq<char>, key: seq<char>, j: nat, encrypt: bool, i: nat)
    requires |key| > 0 && AllLetters(key) && i < |text|
    ensures Run(text, key, j, encrypt)[i] == Out(Upper(text[i]), key, IndexAt(text, j, i), encrypt)
  {
    var c, tail := text[0], text[1..];
    assert text == [c] + tail;
    var j' := Next(Upper(c), j);
    var rest := Run(tail, key, j', encrypt);
    RunCons(c, tail, key, j, encrypt);
    if i > 0 {
      assert ([Out(Upper(c), key, j, encrypt)] + rest)[i] == rest[i - 1];
      assert tail[i - 1] == text[i];
      RunAt(tail, key, j', encrypt, i - 1);
      assert IndexAt(text, j, i) == IndexAt(tail, j', i - 1);
      assert Run(text, key, j, encrypt)[i] == rest[i - 1];
    }
  }

  /** Only letters advance the key index. */
  lemma {:induction false} IndexAtCountsLetters(text: seq<char>, j: nat, i: nat)
    requires i <= |text|
    ensures IndexAt(text, j, i) == j + LetterCount(text[..i])
    decreases i
  {
    if i > 0 {
      IndexAtCountsLetters(text[1..], Next(Upper(text[0]), j), i - 1);
      LetterCountPrefix(text, i);
    } else {
      assert text[..0] == [];
    }
  }

  /** Each letter is shifted by the key letter at (number of letters before
      it) mod key length, so non-letters never advance the key. */
  lemma VigenereAt(text: seq<char>, key: seq<char>, encrypt: bool, i: nat)
    requires i < |text| && IsLetter(Upper(text[i]))
    ensures var k := NormalizeKey(key);
            Vigenere(text, key, encrypt)[i] ==
            Shift(Upper(text[i]), k[LetterCount(text[..i]) % |k|], encrypt)
  {
    RunAt(text, NormalizeKey(key), 0, encrypt, i);
    IndexAtCountsLetters(text, 0, i);
  }

  lemma {:induction false} RunRoundTrip(text: seq<char>, key: seq<char>, j: nat, encrypt: bool)
    requires |key| > 0 && AllLetters(key)
    ensures Run(Run(text, key, j, encrypt), key, j, !encrypt) == UpperAll(text)
  {
    if text != [] {
      var c, tail := text[0], text[1..];
      assert text == [c] + tail;
      var ch := Upper(c);
      var x := Out(ch, key, j, encrypt);
      var rest := Run(tail, key, Next(ch, j), encrypt);
      RunCons(c, tail, key, j, encrypt);
      OutRoundTrip(c, key, j, encrypt);
      RunCons(x, rest, key, j, !encrypt);
      RunRoundTrip(tail, key, Next(ch, j), encrypt);
      UpperAllCons(c, tail);
    }
  }

  /** Decrypting with the key used to encrypt returns the upper-cased input,
      and so does encrypting a decryption. */
  lemma VigenereRoundTrip(text: seq<char>, key: seq<char>)
    ensures Vigenere(Vigenere(text, key, true), key, false) == UpperAll(text)
    ensures Vigenere(Vigenere(text, key, false), key, true) == UpperAll(text)
  {
    RunRoundTrip(text, NormalizeKey(key), 0, true);
    RunRoundTrip(text, NormalizeKey(key), 0, false);
  }

  /** A key with no letters behaves exactly like "KEY". */
  lemma VigenereDefaultKey(text: seq<char>, key: seq<char>, encrypt: bool)
    requires LetterCount(key) == 0
    ensures Vigenere(text, key, encrypt) == Vigenere(text, DefaultKey, encrypt)
  {
    assert Clean(DefaultKey) == DefaultKey;
  }

  /** The space of "A B" is kept and does not use a key letter: "B" is
      shifted by "E", the key letter after the one "A" used, not by "Y". */
  lemma VigenereExample()
    ensures Vigenere("A B", "KEY", true) == "K F"
  {
    DefaultKeyIsNormal();
    RunExample();
  }

  lemma RunExample()
    ensures Run("A B", DefaultKey, 0, true) == "K F"
  {
    ExampleLetters();
    assert Run("B", DefaultKey, 1, true) == "F";
    assert Run(" B", DefaultKey, 1, true) == " F";
  }

  lemma ExampleLetters()
    ensures Out('A', DefaultKey, 0, true) == 'K'
    ensures Out('B', DefaultKey, 1, true) == 'F'
  {
    assert Mod(10, 26) == 10 && Mod(5, 26) == 5;
  }

  lemma DefaultKeyIsNormal()
    ensures NormalizeKey(DefaultKey) == DefaultKey
  {
    assert Clean(DefaultKey) == DefaultKey;
  }
}
