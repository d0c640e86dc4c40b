/** Affine: every letter index x becomes (a*x + b) mod 26, and decryption
    multiplies by the inverse of a found by the sentinel-returning search. */
module Affine {
  import opened Wrappers
  import opened Alphabet
  import opened ModArith

  /** The key "a,b" after `split(",").map(Number)`: None stands for a
      component that is missing or not a number. */
  type AffineKey = (Option<int>, Option<int>)

  /** One character of the upper-cased text; non-letters pass through. */
  function MapChar(c: char, a: int, b: int, aInv: int, encrypt: bool): (r: char)
    ensures IsLetter(r) <==> IsLetter(c)
    ensures !IsLetter(c) ==> r == c
  {
    if !IsLetter(c) then c
    else if encrypt then Letter(Mod(a * Idx(c) + b, 26))
    else Letter(Mod(aInv * (Idx(c) - b), 26))
  }

  function Substitute(text: seq<char>, a: int, b: int, aInv: int, encrypt: bool): (r: seq<char>)
    ensures |r| == |text|
    ensures forall i :: 0 <= i < |text| ==> r[i] == MapChar(Upper(text[i]), a, b, aInv, encrypt)
  {
    seq(|text|, i requires 0 <= i < |text| => MapChar(Upper(text[i]), a, b, aInv, encrypt))
  }

  /** `affine(text, key, isEncrypt)`: a missing or non-numeric component is a
      format error; an `a` whose inverse search returns the sentinel 1 while
      a != 1 is rejected; otherwise one output character per input
      character, non-letters copied. */
  function Affine(text: seq<char>, key: AffineKey, encrypt: bool): (r: Result<seq<char>>)
    ensures key.0.None? || key.1.None? ==> r == Err(InvalidKeyFormat)
    ensures key.0.Some? && key.1.Some? ==>
              (r == Err(NonInvertibleCoefficient) <==> SentinelRejects(key.0.value))
    ensures r.Ok? ==> KeepsLayout(text, r.value)
  {
    if key.0.None? || key.1.None? then Err(InvalidKeyFormat)
    else
      var a, b := key.0.value, key.1.value;
      if SentinelRejects(a) then Err(NonInvertibleCoefficient)
      else Ok(Substitute(text, a, b, ModInverse(a, 26), encrypt))
  }

  /** For 1 <= a <= 25 the key is accepted exactly when gcd(a, 26) = 1; in
      particular a = 13 and every even a are refused. */
  lemma AffineAcceptsIffCoprime(text: seq<char>, a: int, b: int, encrypt: bool)
    requires 1 <= a <= 25
    ensures Affine(text, (Some(a), Some(b)), encrypt).Ok? <==> Gcd(a, 26) == 1
  {
    SentinelRejectsIffNotCoprime(a);
  }

  /** The test is a heuristic: 27 is invertible modulo 26 (it is 1), yet its
      search finds x = 1 and the key is refused. */
  lemma AffineRefuses27(text: seq<char>, b: int, encrypt: bool)
    ensures (27 * 1) % 26 == 1
    ensures Affine(text, (Some(27), Some(b)), encrypt) == Err(NonInvertibleCoefficient)
  {
    assert IsInverse(27, 1, 26);
  }

  /** A negative `a` never passes the truncating test and is always refused,
      even when it is invertible modulo 26. */
  lemma AffineRefusesNegative(text: seq<char>, a: int, b: int, encrypt: bool)
    requires a < 0
    ensures Affine(text, (Some(a), Some(b)), encrypt) == Err(NonInvertibleCoefficient)
  {
    NonPositiveHasNoInverse(a, 26);
  }

  lemma LetterRoundTrip(c: char, a: int, b: int, aInv: int)
    requires IsLetter(c) && (a * aInv) % 26 == 1
    ensures MapChar(MapChar(c, a, b, aInv, true), a, b, aInv, false) == c
    ensures MapChar(MapChar(c, a, b, aInv, false), a, b, aInv, true) == c
  {
    DecryptUndoesEncrypt(Idx(c), a, b, aInv);
    EncryptUndoesDecrypt(Idx(c), a, b, aInv);
    LetterIdx(c);
  }

  lemma DecryptUndoesEncrypt(x: int, a: int, b: int, aInv: int)
    requires 0 <= x < 26 && (a * aInv) % 26 == 1
    ensures Mod(aInv * (Mod(a * x + b, 26) - b), 26) == x
  {
    var p := (a * aInv) / 26;
    assert a * aInv == 26 * p + 1;
    var q := (a * x + b) / 26;
    var e := Mod(a * x + b, 26);
    assert e - b == a * x - 26 * q;
    assert aInv * (e - b) == (a * aInv) * x - 26 * (aInv * q);
    assert (a * aInv) * x == 26 * (p * x) + x;
    ModUnique(aInv * (e - b), 26, p * x - aInv * q, x);
  }

  lemma EncryptUndoesDecrypt(x: int, a: int, b: int, aInv: int)
    requires 0 <= x < 26 && (a * aInv) % 26 == 1
    ensures Mod(a * Mod(aInv * (x - b), 26) + b, 26) == x
  {
    var p := (a * aInv) / 26;
    assert a * aInv == 26 * p + 1;
    var q := (aInv * (x - b)) / 26;
    var d := Mod(aInv * (x - b), 26);
    assert d == aInv * (x - b) - 26 * q;
    assert a * d == (a * aInv) * (x - b) - 26 * (a * q);
    assert (a * aInv) * (x - b) == 26 * (p * (x - b)) + (x - b);
    ModUnique(a * d + b, 26, p * (x - b) - a * q, x);
  }

  /** With an accepted key, decrypting the encryption gives back the
      upper-cased text, and so does encrypting a decryption. */
  lemma AffineRoundTrip(text: seq<char>, key: AffineKey)
    requires Affine(text, key, true).Ok?
    ensures Affine(Affine(text, key, true).value, key, false) == Ok(UpperAll(text))
    ensures Affine(Affine(text, key, false).value, key, true) == Ok(UpperAll(text))
  {
    var a, b := key.0.value, key.1.value;
    var aInv := ModInverse(a, 26);
    AcceptedHasInverse(a);
    forall c | IsLetter(c)
      ensures MapChar(MapChar(c, a, b, aInv, true), a, b, aInv, false) == c
      ensures MapChar(MapChar(c, a, b, aInv, false), a, b, aInv, true) == c
    {
      LetterRoundTrip(c, a, b, aInv);
    }
    var enc := Substitute(text, a, b, aInv, true);
    var dec := Substitute(text, a, b, aInv, false);
    assert Substitute(enc, a, b, aInv, false) == UpperAll(text);
    assert Substitute(dec, a, b, aInv, true) == UpperAll(text);
  }

  /** The key (5, 8) sends A to I: 5 * 0 + 8 = 8. */
  lemma AffineEncryptExample()
    ensures Affine("A", (Some(5), Some(8)), true) == Ok("I")
  {
    CoprimeResidue(5);
    InverseOf5();
    LetterAToI();
    assert Substitute("A", 5, 8, 21, true) == "I";
  }

  /** ... and back: 21 * (8 - 8) = 0. */
  lemma AffineDecryptExample()
    ensures Affine("I", (Some(5), Some(8)), false) == Ok("A")
  {
    CoprimeResidue(5);
    InverseOf5();
    LetterIToA();
    assert Substitute("I", 5, 8, 21, false) == "A";
  }

  lemma LetterAToI()
    ensures MapChar('A', 5, 8, 21, true) == 'I'
  {
    EncryptLetter('A', 5, 8, 21);
    assert Mod(5 * Idx('A') + 8, 26) == 8;
  }

  lemma LetterIToA()
    ensures MapChar('I', 5, 8, 21, false) == 'A'
  {
    DecryptLetter('I', 5, 8, 21);
    assert Mod(21 * (Idx('I') - 8), 26) == 0;
  }

  lemma EncryptLetter(c: char, a: int, b: int, aInv: int)
    requires IsLetter(c)
    ensures MapChar(c, a, b, aInv, true) == Letter(Mod(a * Idx(c) + b, 26))
  {
  }

  lemma DecryptLetter(c: char, a: int, b: int, aInv: int)
    requires IsLetter(c)
    ensures MapChar(c, a, b, aInv, false) == Letter(Mod(aInv * (Idx(c) - b), 26))
  {
  }

  lemma InverseOf5()
    ensures ModInverse(5, 26) == 21
  {
    assert IsInverse(5, 21, 26);
    forall y | 1 <= y < 21
      ensures !IsInverse(5, y, 26)
    {
    }
  }

  /** 13 shares the factor 13 with 26, so (13, 0) is refused. */
  lemma AffineRefuses13(text: seq<char>, encrypt: bool)
    ensures Affine(text, (Some(13), Some(0)), encrypt) == Err(NonInvertibleCoefficient)
  {
    SentinelRejectsIffNotCoprime(13);
    GcdCommonFactor(13, 13);
  }
}
