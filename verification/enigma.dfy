/** A one-rotor Enigma: wheel "Rotor I" and reflector "Reflector B"; the
    rotor steps before each letter, and the path forward, reflect, backward
    makes the transform its own inverse. */
module Enigma {
  import opened Alphabet
  import opened ModArith

  const Rotor: seq<char> := "EKMFLGDQVZNTOWYHXUSPAIBRCJ"
  const Reflector: seq<char> := "YRUHQSLDPXNGOKMIEBFZCWVJAT"

  /** The inverse wiring of Rotor I; only the proofs use it, to show that the
      rotor is a permutation. */
  ghost const RotorInverse: seq<char> := "UWYGADFPVZBECKMTHXSLRINQOJ"

  /** u undoes t at every index from i on: t and u are 26-letter tables and
      u[t[j]] == j. Checked index by index so that it can be evaluated. */
  ghost predicate UndoesFrom(t: seq<char>, u: seq<char>, i: nat)
    requires |t| == 26 && |u| == 26
    decreases 26 - i
  {
    i >= 26 ||
    (IsLetter(t[i]) && IsLetter(u[Idx(t[i])]) && Idx(u[Idx(t[i])]) == i && UndoesFrom(t, u, i + 1))
  }

  ghost predicate NoFixedPointFrom(t: seq<char>, i: nat)
    requires |t| == 26
    decreases 26 - i
  {
    i >= 26 || (IsLetter(t[i]) && Idx(t[i]) != i && NoFixedPointFrom(t, i + 1))
  }

  lemma {:induction false} UndoesAll(t: seq<char>, u: seq<char>, i: nat)
    requires |t| == 26 && |u| == 26 && UndoesFrom(t, u, i)
    ensures forall j :: i <= j < 26 ==>
              IsLetter(t[j]) && IsLetter(u[Idx(t[j])]) && Idx(u[Idx(t[j])]) == j
    decreases 26 - i
  {
    if i < 26 {
      UndoesAll(t, u, i + 1);
    }
  }

  lemma {:induction false} NoFixedPointAll(t: seq<char>, i: nat)
    requires |t| == 26 && NoFixedPointFrom(t, i)
    ensures forall j :: i <= j < 26 ==> IsLetter(t[j]) && Idx(t[j]) != j
    decreases 26 - i
  {
    if i < 26 {
      NoFixedPointAll(t, i + 1);
    }
  }

  // The table checks are evaluated a few indexes at a time, from the end down.
  lemma RotorUndone()
    ensures UndoesFrom(Rotor, RotorInverse, 0)
  {
    assert UndoesFrom("EKMFLGDQVZNTOWYHXUSPAIBRCJ", "UWYGADFPVZBECKMTHXSLRINQOJ", 25);
    assert UndoesFrom("EKMFLGDQVZNTOWYHXUSPAIBRCJ", "UWYGADFPVZBECKMTHXSLRINQOJ", 24);
    assert UndoesFrom("EKMFLGDQVZNTOWYHXUSPAIBRCJ", "UWYGADFPVZBECKMTHXSLRINQOJ", 23);
    assert UndoesFrom("EKMFLGDQVZNTOWYHXUSPAIBRCJ", "UWYGADFPVZBECKMTHXSLRINQOJ", 22);
    assert UndoesFrom("EKMFLGDQVZNTOWYHXUSPAIBRCJ", "UWYGADFPVZBECKMTHXSLRINQOJ", 21);
    assert UndoesFrom("EKMFLGDQVZNTOWYHXUSPAIBRCJ", "UWYGADFPVZBECKMTHXSLRINQOJ", 20);
    assert UndoesFrom("EKMFLGDQVZNTOWYHXUSPAIBRCJ", "UWYGADFPVZBECKMTHXSLRINQOJ", 19);
    assert UndoesFrom("EKMFLGDQVZNTOWYHXUSPAIBRCJ", "UWYGADFPVZBECKMTHXSLRINQOJ", 18);
    assert UndoesFrom("EKMFLGDQVZNTOWYHXUSPAIBRCJ", "UWYGADFPVZBECKMTHXSLRINQOJ", 17);
    assert UndoesFrom("EKMFLGDQVZNTOWYHXUSPAIBRCJ", "UWYGADFPVZBECKMTHXSLRINQOJ", 16);
    assert UndoesFrom("EKMFLGDQVZNTOWYHXUSPAIBRCJ", "UWYGADFPVZBECKMTHXSLRINQOJ", 15);
    assert UndoesFrom("EKMFLGDQVZNTOWYHXUSPAIBRCJ", "UWYGADFPVZBECKMTHXSLRINQOJ", 14);
    assert UndoesFrom("EKMFLGDQVZNTOWYHXUSPAIBRCJ", "UWYGADFPVZBECKMTHXSLRINQOJ", 13);
    assert UndoesFrom("EKMFLGDQVZNTOWYHXUSPAIBRCJ", "UWYGADFPVZBECKMTHXSLRINQOJ", 12);
    assert UndoesFrom("EKMFLGDQVZNTOWYHXUSPAIBRCJ", "UWYGADFPVZBECKMTHXSLRINQOJ", 11);
    assert UndoesFrom("EKMFLGDQVZNTOWYHXUSPAIBRCJ", "UWYGADFPVZBECKMTHXSLRINQOJ", 10);
    assert UndoesFrom("EKMFLGDQVZNTOWYHXUSPAIBRCJ", "UWYGADFPVZBECKMTHXSLRINQOJ", 9);
    assert UndoesFrom("EKMFLGDQVZNTOWYHXUSPAIBRCJ", "UWYGADFPVZBECKMTHXSLRINQOJ", 8);
    assert UndoesFrom("EKMFLGDQVZNTOWYHXUSPAIBRCJ", "UWYGADFPVZBECKMTHXSLRINQOJ", 7);
    assert UndoesFrom("EKMFLGDQVZNTOWYHXUSPAIBRCJ", "UWYGADFPVZBECKMTHXSLRINQOJ", 6);
    assert UndoesFrom("EKMFLGDQVZNTOWYHXUSPAIBRCJ", "UWYGADFPVZBECKMTHXSLRINQOJ", 5);
    assert UndoesFrom("EKMFLGDQVZNTOWYHXUSPAIBRCJ", "UWYGADFPVZBECKMTHXSLRINQOJ", 4);
    assert UndoesFrom("EKMFLGDQVZNTOWYHXUSPAIBRCJ", "UWYGADFPVZBECKMTHXSLRINQOJ", 3);
    assert UndoesFrom("EKMFLGDQVZNTOWYHXUSPAIBRCJ", "UWYGADFPVZBECKMTHXSLRINQOJ", 2);
    assert UndoesFrom("EKMFLGDQVZNTOWYHXUSPAIBRCJ", "UWYGADFPVZBECKMTHXSLRINQOJ", 1);
    assert UndoesFrom("EKMFLGDQVZNTOWYHXUSPAIBRCJ", "UWYGADFPVZBECKMTHXSLRINQOJ", 0);
  }

  lemma InverseUndone()
    ensures UndoesFrom(RotorInverse, Rotor, 0)
  {
    assert UndoesFrom("UWYGADFPVZBECKMTHXSLRINQOJ", "EKMFLGDQVZNTOWYHXUSPAIBRCJ", 25);
    assert UndoesFrom("UWYGADFPVZBECKMTHXSLRINQOJ", "EKMFLGDQVZNTOWYHXUSPAIBRCJ", 24);
    assert UndoesFrom("UWYGADFPVZBECKMTHXSLRINQOJ", "EKMFLGDQVZNTOWYHXUSPAIBRCJ", 23);
    assert UndoesFrom("UWYGADFPVZBECKMTHXSLRINQOJ", "EKMFLGDQVZNTOWYHXUSPAIBRCJ", 22);
    assert UndoesFrom("UWYGADFPVZBECKMTHXSLRINQOJ", "EKMFLGDQVZNTOWYHXUSPAIBRCJ", 21);
    assert UndoesFrom("UWYGADFPVZBECKMTHXSLRINQOJ", "EKMFLGDQVZNTOWYHXUSPAIBRCJ", 20);
    assert UndoesFrom("UWYGADFPVZBECKMTHXSLRINQOJ", "EKMFLGDQVZNTOWYHXUSPAIBRCJ", 19);
    assert UndoesFrom("UWYGADFPVZBECKMTHXSLRINQOJ", "EKMFLGDQVZNTOWYHXUSPAIBRCJ", 18);
    assert UndoesFrom("UWYGADFPVZBECKMTHXSLRINQOJ", "EKMFLGDQVZNTOWYHXUSPAIBRCJ", 17);
    assert UndoesFrom("UWYGADFPVZBECKMTHXSLRINQOJ", "EKMFLGDQVZNTOWYHXUSPAIBRCJ", 16);
    assert UndoesFrom("UWYGADFPVZBECKMTHXSLRINQOJ", "EKMFLGDQVZNTOWYHXUSPAIBRCJ", 15);
    assert UndoesFrom("UWYGADFPVZBECKMTHXSLRINQOJ", "EKMFLGDQVZNTOWYHXUSPAIBRCJ", 14);
    assert UndoesFrom("UWYGADFPVZBECKMTHXSLRINQOJ", "EKMFLGDQVZNTOWYHXUSPAIBRCJ", 13);
    assert UndoesFrom("UWYGADFPVZBECKMTHXSLRINQOJ", "EKMFLGDQVZNTOWYHXUSPAIBRCJ", 12);
    assert UndoesFrom("UWYGADFPVZBECKMTHXSLRINQOJ", "EKMFLGDQVZNTOWYHXUSPAIBRCJ", 11);
    assert UndoesFrom("UWYGADFPVZBECKMTHXSLRINQOJ", "EKMFLGDQVZNTOWYHXUSPAIBRCJ", 10);
    assert UndoesFrom("UWYGADFPVZBECKMTHXSLRINQOJ", "EKMFLGDQVZNTOWYHXUSPAIBRCJ", 9);
    assert UndoesFrom("UWYGADFPVZBECKMTHXSLRINQOJ", "EKMFLGDQVZNTOWYHXUSPAIBRCJ", 8);
    assert UndoesFrom("UWYGADFPVZBECKMTHXSLRINQOJ", "EKMFLGDQVZNTOWYHXUSPAIBRCJ", 7);
    assert UndoesFrom("UWYGADFPVZBECKMTHXSLRINQOJ", "EKMFLGDQVZNTOWYHXUSPAIBRCJ", 6);
    assert UndoesFrom("UWYGADFPVZBECKMTHXSLRINQOJ", "EKMFLGDQVZNTOWYHXUSPAIBRCJ", 5);
    assert UndoesFrom("UWYGADFPVZBECKMTHXSLRINQOJ", "EKMFLGDQVZNTOWYHXUSPAIBRCJ", 4);
    assert UndoesFrom("UWYGADFPVZBECKMTHXSLRINQOJ", "EKMFLGDQVZNTOWYHXUSPAIBRCJ", 3);
    assert UndoesFrom("UWYGADFPVZBECKMTHXSLRINQOJ", "EKMFLGDQVZNTOWYHXUSPAIBRCJ", 2);
    assert UndoesFrom("UWYGADFPVZBECKMTHXSLRINQOJ", "EKMFLGDQVZNTOWYHXUSPAIBRCJ", 1);
    assert UndoesFrom("UWYGADFPVZBECKMTHXSLRINQOJ", "EKMFLGDQVZNTOWYHXUSPAIBRCJ", 0);
  }

  lemma ReflectorUndone()
    ensures UndoesFrom(Reflector, Reflector, 0)
  {
    assert UndoesFrom("YRUHQSLDPXNGOKMIEBFZCWVJAT", "YRUHQSLDPXNGOKMIEBFZCWVJAT", 25);
    assert UndoesFrom("YRUHQSLDPXNGOKMIEBFZCWVJAT", "YRUHQSLDPXNGOKMIEBFZCWVJAT", 24);
    assert UndoesFrom("YRUHQSLDPXNGOKMIEBFZCWVJAT", "YRUHQSLDPXNGOKMIEBFZCWVJAT", 23);
    assert UndoesFrom("YRUHQSLDPXNGOKMIEBFZCWVJAT", "YRUHQSLDPXNGOKMIEBFZCWVJAT", 22);
    assert UndoesFrom("YRUHQSLDPXNGOKMIEBFZCWVJAT", "YRUHQSLDPXNGOKMIEBFZCWVJAT", 21);
    assert UndoesFrom("YRUHQSLDPXNGOKMIEBFZCWVJAT", "YRUHQSLDPXNGOKMIEBFZCWVJAT", 20);
    assert UndoesFrom("YRUHQSLDPXNGOKMIEBFZCWVJAT", "YRUHQSLDPXNGOKMIEBFZCWVJAT", 19);
    assert UndoesFrom("YRUHQSLDPXNGOKMIEBFZCWVJAT", "YRUHQSLDPXNGOKMIEBFZCWVJAT", 18);
    assert UndoesFrom("YRUHQSLDPXNGOKMIEBFZCWVJAT", "YRUHQSLDPXNGOKMIEBFZCWVJAT", 17);
    assert UndoesFrom("YRUHQSLDPXNGOKMIEBFZCWVJAT", "YRUHQSLDPXNGOKMIEBFZCWVJAT", 16);
    assert UndoesFrom("YRUHQSLDPXNGOKMIEBFZCWVJAT", "YRUHQSLDPXNGOKMIEBFZCWVJAT", 15);
    assert UndoesFrom("YRUHQSLDPXNGOKMIEBFZCWVJAT", "YRUHQSLDPXNGOKMIEBFZCWVJAT", 14);
    assert UndoesFrom("YRUHQSLDPXNGOKMIEBFZCWVJAT", "YRUHQSLDPXNGOKMIEBFZCWVJAT", 13);
    assert UndoesFrom("YRUHQSLDPXNGOKMIEBFZCWVJAT", "YRUHQSLDPXNGOKMIEBFZCWVJAT", 12);
    assert UndoesFrom("YRUHQSLDPXNGOKMIEBFZCWVJAT", "YRUHQSLDPXNGOKMIEBFZCWVJAT", 11);
    assert UndoesFrom("YRUHQSLDPXNGOKMIEBFZCWVJAT", "YRUHQSLDPXNGOKMIEBFZCWVJAT", 10);
    assert UndoesFrom("YRUHQSLDPXNGOKMIEBFZCWVJAT", "YRUHQSLDPXNGOKMIEBFZCWVJAT", 9);
    assert UndoesFrom("YRUHQSLDPXNGOKMIEBFZCWVJAT", "YRUHQSLDPXNGOKMIEBFZCWVJAT", 8);
    assert UndoesFrom("YRUHQSLDPXNGOKMIEBFZCWVJAT", "YRUHQSLDPXNGOKMIEBFZCWVJAT", 7);
    assert UndoesFrom("YRUHQSLDPXNGOKMIEBFZCWVJAT", "YRUHQSLDPXNGOKMIEBFZCWVJAT", 6);
    assert UndoesFrom("YRUHQSLDPXNGOKMIEBFZCWVJAT", "YRUHQSLDPXNGOKMIEBFZCWVJAT", 5);
    assert UndoesFrom("YRUHQSLDPXNGOKMIEBFZCWVJAT", "YRUHQSLDPXNGOKMIEBFZCWVJAT", 4);
    assert UndoesFrom("YRUHQSLDPXNGOKMIEBFZCWVJAT", "YRUHQSLDPXNGOKMIEBFZCWVJAT", 3);
    assert UndoesFrom("YRUHQSLDPXNGOKMIEBFZCWVJAT", "YRUHQSLDPXNGOKMIEBFZCWVJAT", 2);
    assert UndoesFrom("YRUHQSLDPXNGOKMIEBFZCWVJAT", "YRUHQSLDPXNGOKMIEBFZCWVJAT", 1);
    assert UndoesFrom("YRUHQSLDPXNGOKMIEBFZCWVJAT", "YRUHQSLDPXNGOKMIEBFZCWVJAT", 0);
  }

  lemma ReflectorFixesNothing()
    ensures NoFixedPointFrom(Reflector, 0)
  {
    assert NoFixedPointFrom("YRUHQSLDPXNGOKMIEBFZCWVJAT", 25);
    assert NoFixedPointFrom("YRUHQSLDPXNGOKMIEBFZCWVJAT", 24);
    assert NoFixedPointFrom("YRUHQSLDPXNGOKMIEBFZCWVJAT", 23);
    assert NoFixedPointFrom("YRUHQSLDPXNGOKMIEBFZCWVJAT", 22);
    assert NoFixedPointFrom("YRUHQSLDPXNGOKMIEBFZCWVJAT", 21);
    assert NoFixedPointFrom("YRUHQSLDPXNGOKMIEBFZCWVJAT", 20);
    assert NoFixedPointFrom("YRUHQSLDPXNGOKMIEBFZCWVJAT", 19);
    assert NoFixedPointFrom("YRUHQSLDPXNGOKMIEBFZCWVJAT", 18);
    assert NoFixedPointFrom("YRUHQSLDPXNGOKMIEBFZCWVJAT", 17);
    assert NoFixedPointFrom("YRUHQSLDPXNGOKMIEBFZCWVJAT", 16);
    assert NoFixedPointFrom("YRUHQSLDPXNGOKMIEBFZCWVJAT", 15);
    assert NoFixedPointFrom("YRUHQSLDPXNGOKMIEBFZCWVJAT", 14);
    assert NoFixedPointFrom("YRUHQSLDPXNGOKMIEBFZCWVJAT", 13);
    assert NoFixedPointFrom("YRUHQSLDPXNGOKMIEBFZCWVJAT", 12);
    assert NoFixedPointFrom("YRUHQSLDPXNGOKMIEBFZCWVJAT", 11);
    assert NoFixedPointFrom("YRUHQSLDPXNGOKMIEBFZCWVJAT", 10);
    assert NoFixedPointFrom("YRUHQSLDPXNGOKMIEBFZCWVJAT", 9);
    assert NoFixedPointFrom("YRUHQSLDPXNGOKMIEBFZCWVJAT", 8);
    assert NoFixedPointFrom("YRUHQSLDPXNGOKMIEBFZCWVJAT", 7);
    assert NoFixedPointFrom("YRUHQSLDPXNGOKMIEBFZCWVJAT", 6);
    assert NoFixedPointFrom("YRUHQSLDPXNGOKMIEBFZCWVJAT", 5);
    assert NoFixedPointFrom("YRUHQSLDPXNGOKMIEBFZCWVJAT", 4);
    assert NoFixedPointFrom("YRUHQSLDPXNGOKMIEBFZCWVJAT", 3);
    assert NoFixedPointFrom("YRUHQSLDPXNGOKMIEBFZCWVJAT", 2);
    assert NoFixedPointFrom("YRUHQSLDPXNGOKMIEBFZCWVJAT", 1);
    assert NoFixedPointFrom("YRUHQSLDPXNGOKMIEBFZCWVJAT", 0);
  }

  /** `indexOf` finds the letter at z at z itself: it occurs nowhere earlier. */
  predicate Located(t: seq<char>, z: int)
    requires 0 <= z < |t|
  {
    IndexOf(t, t[z]) == z
  }

  /** The reflector sends i to a different index that it sends back to i. */
  predicate Paired(t: seq<char>, i: int)
    requires |t| == 26 && AllLetters(t) && 0 <= i < 26
  {
    Idx(t[i]) != i && Idx(t[Idx(t[i])]) == i
  }

  /** A table with a two-sided inverse is a permutation of the alphabet. */
  lemma PermutationFromInverse(t: seq<char>, u: seq<char>)
    requires |t| == 26 && |u| == 26 && UndoesFrom(t, u, 0) && UndoesFrom(u, t, 0)
    ensures AllLetters(t)
    ensures forall z :: 0 <= z < 26 ==> Located(t, z)
    ensures forall x :: 0 <= x < 26 ==> IndexOf(t, Letter(x)) >= 0
  {
    UndoesAll(t, u, 0);
    UndoesAll(u, t, 0);
    forall z | 0 <= z < 26
      ensures Located(t, z)
    {
      assert t[z] in t;
      var k := IndexOf(t, t[z]);
      assert Idx(u[Idx(t[k])]) == k;
    }
    forall x | 0 <= x < 26
      ensures IndexOf(t, Letter(x)) >= 0
    {
      var j := Idx(u[x]);
      assert Idx(t[j]) == x;
      LetterIdx(t[j]);
      assert t[j] in t;
    }
  }

  /** A table that undoes itself and fixes nothing pairs the letters. */
  lemma PairedFromChecks(t: seq<char>)
    requires |t| == 26 && UndoesFrom(t, t, 0) && NoFixedPointFrom(t, 0)
    ensures AllLetters(t)
    ensures forall i :: 0 <= i < 26 ==> Paired(t, i)
  {
    UndoesAll(t, t, 0);
    NoFixedPointAll(t, 0);
  }

  /** Rotor I is a permutation of the alphabet: `indexOf` finds every letter
      in it, each at its only position. */
  lemma RotorIsPermutation()
    ensures |Rotor| == 26 && AllLetters(Rotor)
    ensures forall z :: 0 <= z < 26 ==> Located(Rotor, z)
    ensures forall x :: 0 <= x < 26 ==> IndexOf(Rotor, Letter(x)) >= 0
  {
    RotorUndone();
    InverseUndone();
    PermutationFromInverse(Rotor, RotorInverse);
  }

  /** Reflector B pairs letters: reflecting twice returns the letter, and no
      letter is wired to itself. */
  lemma ReflectorIsFixedPointFreeInvolution()
    ensures |Reflector| == 26 && AllLetters(Reflector)
    ensures forall i :: 0 <= i < 26 ==> Paired(Reflector, i)
  {
    ReflectorUndone();
    ReflectorFixesNothing();
    PairedFromChecks(Reflector);
  }

  /** A rotor wiring and a reflector wiring, each a 26-letter table. */
  datatype Wiring = Wiring(rotor: seq<char>, reflector: seq<char>)

  const Standard: Wiring := Wiring(Rotor, Reflector)

  /** What the machine relies on: the rotor is a permutation of the alphabet
      and the reflector pairs letters, none with itself. */
  predicate Valid(w: Wiring) {
    |w.rotor| == 26 && AllLetters(w.rotor) &&
    (forall z :: 0 <= z < 26 ==> Located(w.rotor, z)) &&
    (forall x :: 0 <= x < 26 ==> IndexOf(w.rotor, Letter(x)) >= 0) &&
    |w.reflector| == 26 && AllLetters(w.reflector) &&
    (forall i :: 0 <= i < 26 ==> Paired(w.reflector, i))
  }


  lemma StandardIsValid()
    ensures Valid(Standard)
  {
    RotorIsPermutation();
    ReflectorIsFixedPointFreeInvolution();
  }

  /** The index of the letter wired to contact z of the rotor. */
  function RotorOut(w: Wiring, z: int): (y: int)
    requires Valid(w) && 0 <= z < 26
    ensures 0 <= y < 26
  {
    Idx(w.rotor[z])
  }

  /** The contact the letter with index y is wired to: `indexOf` in the rotor
      table. */
  function RotorIn(w: Wiring, y: int): (z: int)
    requires Valid(w) && 0 <= y < 26
    ensures 0 <= z < 26
  {
    IndexOf(w.rotor, Letter(y))
  }

  lemma RotorInOut(w: Wiring, z: int)
    requires Valid(w) && 0 <= z < 26
    ensures RotorIn(w, RotorOut(w, z)) == z
  {
    LetterIdx(w.rotor[z]);
    assert Located(w.rotor, z);
  }

  lemma RotorOutIn(w: Wiring, y: int)
    requires Valid(w) && 0 <= y < 26
    ensures RotorOut(w, RotorIn(w, y)) == y
  {
  }

  /** Forward through the rotor: shift by the position, look up the wiring,
      shift back. */
  function Forward(w: Wiring, c: int, pos: int): (r: int)
    requires Valid(w) && 0 <= c < 26 && 0 <= pos < 26
    ensures 0 <= r < 26
  {
    Mod(RotorOut(w, (c + pos) % 26) - pos, 26)
  }

  function Reflect(w: Wiring, i: int): (r: int)
    requires Valid(w) && 0 <= i < 26
    ensures 0 <= r < 26
  {
    Idx(w.reflector[i])
  }

  /** Back through the rotor: shift by the position, find the letter in the
      wiring with `indexOf`, shift back. */
  function Backward(w: Wiring, i: int, pos: int): (r: int)
    requires Valid(w) && 0 <= i < 26 && 0 <= pos < 26
    ensures 0 <= r < 26
  {
    Mod(RotorIn(w, Mod(i + pos, 26)) - pos, 26)
  }

  /** The index a letter index is enciphered to at rotor position pos. */
  function Encipher(w: Wiring, c: int, pos: int): (r: int)
    requires Valid(w) && 0 <= c < 26 && 0 <= pos < 26
    ensures 0 <= r < 26
  {
    Backward(w, Reflect(w, Forward(w, c, pos)), pos)
  }

  /** The backward path through the rotor inverts the forward path. */
  lemma BackwardUndoesForward(w: Wiring, c: int, pos: int)
    requires Valid(w) && 0 <= c < 26 && 0 <= pos < 26
    ensures Backward(w, Forward(w, c, pos), pos) == c
  {
    var z := (c + pos) % 26;
    var y := RotorOut(w, z);
    ModShiftDown(y, pos, 26);
    RotorInOut(w, z);
    ModShiftUp(c, pos, 26);
  }

  lemma ForwardUndoesBackward(w: Wiring, i: int, pos: int)
    requires Valid(w) && 0 <= i < 26 && 0 <= pos < 26
    ensures Forward(w, Backward(w, i, pos), pos) == i
  {
    var y := Mod(i + pos, 26);
    var z := RotorIn(w, y);
    ModShiftDown(z, pos, 26);
    RotorOutIn(w, y);
    ModShiftUp(i, pos, 26);
  }

  /** At a fixed position enciphering is its own inverse. */
  lemma EncipherInvolution(w: Wiring, c: int, pos: int)
    requires Valid(w) && 0 <= c < 26 && 0 <= pos < 26
    ensures Encipher(w, Encipher(w, c, pos), pos) == c
  {
    var f := Forward(w, c, pos);
    assert Paired(w.reflector, f);
    ForwardUndoesBackward(w, Reflect(w, f), pos);
    BackwardUndoesForward(w, c, pos);
  }

  /** No letter is enciphered to itself. */
  lemma EncipherNoFixedPoint(w: Wiring, c: int, pos: int)
    requires Valid(w) && 0 <= c < 26 && 0 <= pos < 26
    ensures Encipher(w, c, pos) != c
  {
    var f := Forward(w, c, pos);
    assert Paired(w.reflector, f);
    ForwardUndoesBackward(w, Reflect(w, f), pos);
  }

  /** The rotor advances by one, wrapping at 26. */
  function Step(pos: nat): (p: nat)
    ensures p < 26 && p == (pos + 1) % 26
  {
    (pos + 1) % 26
  }

  /** The letter an upper-case letter is enciphered to at rotor position pos. */
  function Cipher(w: Wiring, ch: char, pos: nat): (r: char)
    requires Valid(w) && IsLetter(ch) && pos < 26
    ensures IsLetter(r)
  {
    Letter(Encipher(w, Idx(ch), pos))
  }

  /** Enciphering a letter twice at the same position gives it back. */
  lemma CipherInvolution(w: Wiring, ch: char, pos: nat)
    requires Valid(w) && IsLetter(ch) && pos < 26
    ensures Cipher(w, Cipher(w, ch, pos), pos) == ch
  {
    EncipherInvolution(w, Idx(ch), pos);
    LetterIdx(ch);
  }

  lemma CipherNoFixedPoint(w: Wiring, ch: char, pos: nat)
    requires Valid(w) && IsLetter(ch) && pos < 26
    ensures Cipher(w, ch, pos) != ch
  {
    EncipherNoFixedPoint(w, Idx(ch), pos);
  }

  /** The rotor position after reading the upper-cased character ch: one
      step for a letter, none for anything else. */
  function Next(ch: char, pos: nat): (p: nat)
    ensures IsLetter(ch) ==> p == Step(pos)
    ensures !IsLetter(ch) ==> p == pos
  {
    if IsLetter(ch) then Step(pos) else pos
  }

  /** The character written for the upper-cased character ch read at rotor
      position pos: a letter is enciphered after the step, anything else is
      copied. */
  function Out(w: Wiring, ch: char, pos: nat): (r: char)
    requires Valid(w)
    ensures IsLetter(r) <==> IsLetter(ch)
    ensures !IsLetter(ch) ==> r == ch
  {
    if IsLetter(ch) then Cipher(w, ch, Step(pos)) else ch
  }

  /** Reading the written character back at the same position writes the
      original character and steps the rotor the same way. */
  lemma OutInvolution(w: Wiring, c: char, pos: nat)
    requires Valid(w)
    ensures var x := Out(w, Upper(c), pos);
            Upper(x) == x && Next(x, pos) == Next(Upper(c), pos) && Out(w, x, pos) == Upper(c)
  {
    if IsLetter(Upper(c)) {
      CipherInvolution(w, Upper(c), Step(pos));
    }
  }

  /** The loop over the upper-cased text from rotor position pos onward. */
  function Run(w: Wiring, s: seq<char>, pos: nat): (r: seq<char>)
    requires Valid(w)
    ensures KeepsLayout(s, r)
  {
    if s == [] then []
    else
      var ch := Upper(s[0]);
      var rest := Run(w, s[1..], Next(ch, pos));
      KeepsLayoutCons(s, Out(w, ch, pos), rest);
      [Out(w, ch, pos)] + rest
  }

  /** `enigma(text, key)` with the key already parsed to a start position. */
  function Enigma(text: seq<char>, key: nat): (r: seq<char>)
    ensures KeepsLayout(text, r)
  {
    StandardIsValid();
    Run(Standard, text, key)
  }

  /** The rotor position after k steps from pos. */
  function Advance(pos: nat, k: nat): (p: nat)
    ensures k > 0 ==> p < 26
    decreases k
  {
    if k == 0 then pos else Advance(Step(pos), k - 1)
  }

  lemma {:induction false} AdvanceIsMod(pos: nat, k: nat)
    requires k > 0
    ensures Advance(pos, k) == (pos + k) % 26
    decreases k
  {
    if k == 1 {
      assert Advance(pos, 1) == Advance(Step(pos), 0);
    } else {
      AdvanceIsMod(pos, k - 1);
      AdvanceOnce(pos, k - 1);
      StepMod(pos + k - 1);
    }
  }

  /** Stepping a reduced position is reducing the next one. */
  lemma StepMod(x: nat)
    ensures Step(x % 26) == (x + 1) % 26
  {
    var q := x / 26;
    assert x + 1 == (x % 26 + 1) + 26 * q;
    ModAddMultiple(x % 26 + 1, q);
  }

  /** The rotor position in force when the loop reaches index i. */
  function PosAt(s: seq<char>, pos: nat, i: nat): nat
    requires i <= |s|
    decreases i
  {
    if i == 0 then pos else PosAt(s[1..], Next(Upper(s[0]), pos), i - 1)
  }

  /** The character written at index i is the one Out writes for it at the
      position then in force. */
  lemma {:induction false} RunAt(w: Wiring, s: seq<char>, pos: nat, i: nat)
    requires Valid(w) && i < |s|
    ensures Run(w, s, pos)[i] == Out(w, Upper(s[i]), PosAt(s, pos, i))
  {
    var c, tail := s[0], s[1..];
    assert s == [c] + tail;
    var pos' := Next(Upper(c), pos);
    var rest := Run(w, tail, pos');
    RunCons(w, c, tail, pos);
    if i > 0 {
      assert ([Out(w, Upper(c), pos)] + rest)[i] == rest[i - 1];
      assert tail[i - 1] == s[i];
      RunAt(w, tail, pos', i - 1);
      assert PosAt(s, pos, i) == PosAt(tail, pos', i - 1);
      assert Run(w, s, pos)[i] == rest[i - 1];
    }
  }

  /** The position in force at index i is the start position advanced once
      per letter before i. */
  lemma {:induction false} PosAtCountsLetters(s: seq<char>, pos: nat, i: nat)
    requires i <= |s|
    ensures PosAt(s, pos, i) == Advance(pos, LetterCount(s[..i]))
    decreases i
  {
    if i > 0 {
      var pos' := Next(Upper(s[0]), pos);
      PosAtCountsLetters(s[1..], pos', i - 1);
      LetterCountPrefix(s, i);
    }
  }

  lemma {:induction false} AdvanceOnce(pos: nat, k: nat)
    ensures Advance(pos, k + 1) == Step(Advance(pos, k))
    decreases k
  {
    if k > 0 {
      AdvanceOnce(Step(pos), k - 1);
    }
  }

  /** The letter at index i is enciphered at the position reached by one
      step per letter up to and including it (key + 1 + the number of letters
      before it, mod 26, by AdvanceIsMod): the rotor steps before each letter
      and never for anything else. */
  lemma EnigmaAt(text: seq<char>, key: nat, i: nat)
    requires i < |text| && IsLetter(Upper(text[i]))
    ensures Valid(Standard) &&
            Enigma(text, key)[i] == Cipher(Standard, Upper(text[i]), Step(Advance(key, LetterCount(text[..i]))))
  {
    StandardIsValid();
    RunLetterAt(Standard, text, key, i);
  }

  lemma RunLetterAt(w: Wiring, s: seq<char>, pos: nat, i: nat)
    requires Valid(w) && i < |s| && IsLetter(Upper(s[i]))
    ensures Run(w, s, pos)[i] == Cipher(w, Upper(s[i]), Step(Advance(pos, LetterCount(s[..i]))))
  {
    RunAt(w, s, pos, i);
    PosAtCountsLetters(s, pos, i);
  }

  lemma RunNoFixedLetter(w: Wiring, s: seq<char>, pos: nat, i: nat)
    requires Valid(w) && i < |s| && IsLetter(Upper(s[i]))
    ensures Run(w, s, pos)[i] != Upper(s[i])
  {
    RunAt(w, s, pos, i);
    CipherNoFixedPoint(w, Upper(s[i]), Step(PosAt(s, pos, i)));
  }

  /** No letter of the input is enciphered to itself. */
  lemma EnigmaNoFixedLetter(text: seq<char>, key: nat, i: nat)
    requires i < |text| && IsLetter(Upper(text[i]))
    ensures Enigma(text, key)[i] != Upper(text[i])
  {
    StandardIsValid();
    RunNoFixedLetter(Standard, text, key, i);
  }

  /** Run reads the first character and continues after it. */
  lemma RunCons(w: Wiring, c: char, rest: seq<char>, pos: nat)
    requires Valid(w)
    ensures Run(w, [c] + rest, pos) == [Out(w, Upper(c), pos)] + Run(w, rest, Next(Upper(c), pos))
  {
    var s := [c] + rest;
    assert s[0] == c && s[1..] == rest;
  }

  lemma {:induction false} RunInvolution(w: Wiring, s: seq<char>, pos: nat)
    requires Valid(w)
    ensures Run(w, Run(w, s, pos), pos) == UpperAll(s)
  {
    if s != [] {
      var c, tail := s[0], s[1..];
      assert s == [c] + tail;
      var ch := Upper(c);
      var x := Out(w, ch, pos);
      var rest := Run(w, tail, Next(ch, pos));
      RunCons(w, c, tail, pos);
      OutInvolution(w, c, pos);
      RunCons(w, x, rest, pos);
      RunInvolution(w, tail, Next(ch, pos));
      UpperAllCons(c, tail);
    }
  }

  /** Running the machine twice from the same start position returns the
      upper-cased input: the same call both encrypts and decrypts. */
  lemma EnigmaInvolution(text: seq<char>, key: nat)
    ensures Enigma(Enigma(text, key), key) == UpperAll(text)
  {
    StandardIsValid();
    RunInvolution(Standard, text, key);
  }

  lemma {:induction false} RunWraps(w: Wiring, s: seq<char>, pos: nat)
    requires Valid(w)
    ensures Run(w, s, pos) == Run(w, s, pos % 26)
  {
    if s != [] {
      var ch := Upper(s[0]);
      assert Out(w, ch, pos) == Out(w, ch, pos % 26) by {
        assert Step(pos) == Step(pos % 26);
      }
      if !IsLetter(ch) {
        RunWraps(w, s[1..], pos);
      } else {
        assert Next(ch, pos) == Next(ch, pos % 26);
      }
    }
  }

  /** Start positions that differ by a multiple of 26 give the same output. */
  lemma EnigmaKeyWraps(text: seq<char>, key: nat)
    ensures Enigma(text, key) == Enigma(text, key % 26)
  {
    StandardIsValid();
    RunWraps(Standard, text, key);
  }
}
