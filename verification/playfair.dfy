/** Playfair: a 5x5 table built from a keyword (I and J share a cell) and a
    digraph substitution over it, with filler letters separating doubled
    letters and completing an odd tail. */
module Playfair {
  import opened Wrappers
  import opened Alphabet
  import opened ModArith

  /** The i-th letter of the alphabet once J (index 9) is taken out. */
  function SkipJ(i: int): (c: char)
    requires 0 <= i < 25
    ensures IsLetter(c) && c != 'J'
  {
    if i < 9 then Letter(i) else Letter(i + 1)
  }

  /** `alphabet.replace(/J/g, "")`: the alphabet without J, in order,
      that is "ABCDEFGHIKLMNOPQRSTUVWXYZ". */
  const AlphabetNoJ: seq<char> := LettersWithoutJ()

  function LettersWithoutJ(): (s: seq<char>)
    ensures |s| == 25 && forall i :: 0 <= i < 25 ==> s[i] == SkipJ(i)
  {
    seq(25, i requires 0 <= i < 25 => SkipJ(i))
  }

  /** The table's letters: the 25 upper-case letters other than J. */
  predicate TableLetter(c: char) {
    IsLetter(c) && c != 'J'
  }

  lemma AlphabetNoJFacts()
    ensures |AlphabetNoJ| == 25 && Distinct(AlphabetNoJ)
    ensures forall c :: c in AlphabetNoJ <==> TableLetter(c)
  {
    forall i, j | 0 <= i < j < 25
      ensures AlphabetNoJ[i] != AlphabetNoJ[j]
    {
      assert Idx(SkipJ(i)) < Idx(SkipJ(j));
    }
    forall c | TableLetter(c)
      ensures c in AlphabetNoJ
    {
      var i := if c < 'J' then Idx(c) else Idx(c) - 1;
      assert AlphabetNoJ[i] == c;
    }
  }

  /** `s.replace(/J/g, "I")`. */
  function JToI(s: seq<char>): (r: seq<char>)
    ensures |r| == |s|
    ensures forall i :: 0 <= i < |s| ==> r[i] == (if s[i] == 'J' then 'I' else s[i])
  {
    seq(|s|, i requires 0 <= i < |s| => if s[i] == 'J' then 'I' else s[i])
  }

  /** `[...new Set(s)]`: the distinct elements of s in order of first
      occurrence (a Set iterates in insertion order). */
  function Dedup(s: seq<char>): (r: seq<char>)
    ensures Distinct(r)
    ensures forall c :: c in r <==> c in s
  {
    if s == [] then []
    else
      var d := Dedup(s[..|s| - 1]);
      var last := s[|s| - 1];
      assert s == s[..|s| - 1] + [last];
      if last in d then d else d + [last]
  }

  /** The elements of s that do not occur in ex, in their order in s. */
  function Without(s: seq<char>, ex: seq<char>): (r: seq<char>)
    ensures forall c :: c in r <==> c in s && c !in ex
  {
    if s == [] then []
    else
      var w := Without(s[..|s| - 1], ex);
      var last := s[|s| - 1];
      assert s == s[..|s| - 1] + [last];
      if last in ex then w else w + [last]
  }

  lemma {:induction false} DedupOfDistinct(s: seq<char>)
    requires Distinct(s)
    ensures Dedup(s) == s
  {
    if s != [] {
      DedupOfDistinct(s[..|s| - 1]);
    }
  }

  lemma {:induction false} WithoutOfDistinct(s: seq<char>, ex: seq<char>)
    requires Distinct(s)
    ensures Distinct(Without(s, ex))
  {
    if s != [] {
      WithoutOfDistinct(s[..|s| - 1], ex);
    }
  }

  /** Removing duplicates from a + b keeps a's distinct letters first, then
      b's letters that a does not contain. */
  lemma {:induction false} DedupAppend(a: seq<char>, b: seq<char>)
    ensures Dedup(a + b) == Dedup(a) + Dedup(Without(b, a))
  {
    if b == [] {
      assert a + b == a;
    } else {
      var b', last := b[..|b| - 1], b[|b| - 1];
      assert b == b' + [last];
      assert a + b == (a + b') + [last];
      var da, w := Dedup(a), Without(b', a);
      DedupAppend(a, b');
      DedupLast(a + b', last);
      WithoutLast(b', last, a);
      if last in a {
        assert last in da;
      } else {
        DedupLast(w, last);
        assert last !in da;
        AppendUnlessPresent(da, Dedup(w), last);
      }
    }
  }

  /** Appending c unless it is present commutes with a prefix that lacks c. */
  lemma AppendUnlessPresent(p: seq<char>, s: seq<char>, c: char)
    requires c !in p
    ensures (if c in p + s then p + s else p + s + [c]) ==
            p + (if c in s then s else s + [c])
  {
  }

  lemma DedupLast(s: seq<char>, c: char)
    ensures Dedup(s + [c]) == if c in Dedup(s) then Dedup(s) else Dedup(s) + [c]
  {
    var sc := s + [c];
    assert sc[..|sc| - 1] == s;
  }

  /** A character found in s is found at the same place in any extension. */
  lemma IndexOfPrefix(s: seq<char>, t: seq<char>, c: char)
    requires c in s
    ensures IndexOf(s + t, c) == IndexOf(s, c)
  {
    var k := IndexOf(s, c);
    assert (s + t)[k] == c && (s + t)[..k] == s[..k];
  }

  /** The entries of r occur in s in the order r lists them. */
  predicate FirstOrder(s: seq<char>, r: seq<char>) {
    forall i, j :: 0 <= i < j < |r| ==> IndexOf(s, r[i]) < IndexOf(s, r[j])
  }

  /** `[...new Set(s)]` keeps first-occurrence order: an earlier entry of the
      result occurs earlier in s. */
  lemma {:induction false} DedupOrder(s: seq<char>)
    ensures FirstOrder(s, Dedup(s))
  {
    if s != [] {
      var s', last := s[..|s| - 1], s[|s| - 1];
      assert s == s' + [last];
      DedupOrder(s');
      DedupLast(s', last);
      var d := Dedup(s');
      OrderExtend(s', d, last);
      if last !in d {
        OrderAppend(s' + [last], d, last);
      }
    }
  }

  /** Extending s keeps the order of entries that s already holds. */
  lemma OrderExtend(s: seq<char>, d: seq<char>, c: char)
    requires FirstOrder(s, d) && forall x :: x in d ==> x in s
    ensures FirstOrder(s + [c], d)
    ensures forall x :: x in d ==> IndexOf(s + [c], x) < |s|
  {
    forall x | x in d
      ensures IndexOf(s + [c], x) == IndexOf(s, x)
    {
      IndexOfPrefix(s, [c], x);
    }
    forall i, j | 0 <= i < j < |d|
      ensures IndexOf(s + [c], d[i]) < IndexOf(s + [c], d[j])
    {
      assert d[i] in d && d[j] in d;
    }
  }

  /** A new last character of s can follow everything found before it. */
  lemma OrderAppend(s: seq<char>, d: seq<char>, c: char)
    requires s != [] && s[|s| - 1] == c && c !in s[..|s| - 1]
    requires FirstOrder(s, d) && forall x :: x in d ==> IndexOf(s, x) < |s| - 1
    ensures FirstOrder(s, d + [c])
  {
    assert IndexOf(s, c) == |s| - 1;
    var r := d + [c];
    forall i, j | 0 <= i < j < |r|
      ensures IndexOf(s, r[i]) < IndexOf(s, r[j])
    {
      assert r[i] == d[i] && d[i] in d;
      if j < |d| {
        assert r[j] == d[j];
      }
    }
  }

  lemma WithoutLast(s: seq<char>, c: char, ex: seq<char>)
    ensures Without(s + [c], ex) == if c in ex then Without(s, ex) else Without(s, ex) + [c]
  {
    var sc := s + [c];
    assert sc[..|sc| - 1] == s;
  }

  lemma {:induction false} DistinctCard(s: seq<char>)
    requires Distinct(s)
    ensures |set c | c in s| == |s|
  {
    if s != [] {
      var s' := s[..|s| - 1];
      DistinctCard(s');
      assert (set c | c in s) == (set c | c in s') + {s[|s| - 1]};
    }
  }

  /** The keyword as the table sees it: upper-cased, letters only, J as I. */
  function Keyword(key: seq<char>): (kw: seq<char>)
    ensures forall c :: c in kw ==> TableLetter(c)
  {
    JToI(Clean(key))
  }

  /** The 5x5 table, row-major: the distinct letters of the keyword followed
      by the alphabet without J. */
  function Table(key: seq<char>): (t: seq<char>)
    ensures |t| == 25 && Distinct(t)
    ensures forall c :: c in t <==> TableLetter(c)
  {
    AlphabetNoJFacts();
    var t := Dedup(Keyword(key) + AlphabetNoJ);
    assert (set c | c in t) == (set c | c in AlphabetNoJ);
    DistinctCard(t);
    DistinctCard(AlphabetNoJ);
    t
  }

  /** The table lists the keyword's letters in first-occurrence order, then
      the rest of the alphabet (without J) in alphabetical order. */
  lemma TableOrder(key: seq<char>)
    ensures Table(key) == Dedup(Keyword(key)) + Without(AlphabetNoJ, Keyword(key))
  {
    AlphabetNoJFacts();
    DedupAppend(Keyword(key), AlphabetNoJ);
    WithoutOfDistinct(AlphabetNoJ, Keyword(key));
    DedupOfDistinct(Without(AlphabetNoJ, Keyword(key)));
  }

  /** The filler that separates a doubled letter: Q, or X when the letter is Q. */
  function Filler(c: char): (f: char)
    ensures f != c && TableLetter(f)
    ensures f == 'Q' || f == 'X'
  {
    if c == 'Q' then 'X' else 'Q'
  }

  /** Every digraph (positions 2k and 2k+1) holds two different letters. */
  predicate DistinctPairs(s: seq<char>) {
    forall i :: 0 <= i < |s| - 1 && i % 2 == 0 ==> s[i] != s[i + 1]
  }

  /** The encryption pre-pass: read the text two letters at a time; a doubled
      letter gets a filler after its first copy and the second copy starts
      the next digraph; a lone last letter gets a filler too. */
  function Pad(s: seq<char>): (r: seq<char>)
    ensures |r| % 2 == 0 && |s| <= |r|
    ensures DistinctPairs(r)
    ensures forall c :: c in r ==> c in s || c == 'Q' || c == 'X'
    decreases |s|
  {
    if |s| == 0 then []
    else if |s| == 1 then [s[0], Filler(s[0])]
    else if s[0] == s[1] then PairThen(s[0], Filler(s[0]), Pad(s[1..]))
    else PairThen(s[0], s[1], Pad(s[2..]))
  }

  /** The odd tail: a letter left alone at the end is followed by the filler
      chosen for it. */
  lemma PadLoneTail(x: char)
    ensures Pad([x]) == [x, Filler(x)]
  {
  }

  function PairThen(x: char, y: char, rest: seq<char>): (r: seq<char>)
    requires x != y && |rest| % 2 == 0 && DistinctPairs(rest)
    ensures r == [x, y] + rest && DistinctPairs(r)
  {
    var r := [x, y] + rest;
    assert forall i :: 2 <= i < |r| ==> r[i] == rest[i - 2];
    r
  }

  /** Text that already has even length and no doubled digraph is left as is:
      fillers appear only where a digraph would double a letter or at an odd tail. */
  lemma {:induction false} PadKeepsGoodText(s: seq<char>)
    requires |s| % 2 == 0 && DistinctPairs(s)
    ensures Pad(s) == s
  {
    if |s| >= 2 {
      assert s[0] != s[1];
      var rest := s[2..];
      assert DistinctPairs(rest) by {
        forall i | 0 <= i < |rest| - 1 && i % 2 == 0
          ensures rest[i] != rest[i + 1]
        {
          assert rest[i] == s[i + 2] && rest[i + 1] == s[i + 3];
        }
      }
      PadKeepsGoodText(rest);
      assert s == [s[0], s[1]] + rest;
    }
  }

  /** r is s with filler letters (Q or X) inserted: deleting some of r's Q
      and X characters gives s back, every other character kept in order. */
  predicate FillersInserted(s: seq<char>, r: seq<char>)
    decreases |r|
  {
    if r == [] then s == []
    else
      ((r[0] == 'Q' || r[0] == 'X') && FillersInserted(s, r[1..])) ||
      (s != [] && r[0] == s[0] && FillersInserted(s[1..], r[1..]))
  }

  /** The padding only inserts fillers: the text survives in order. */
  lemma {:induction false} PadInsertsFillers(s: seq<char>)
    ensures FillersInserted(s, Pad(s))
    decreases |s|
  {
    if |s| == 1 {
      var r := [s[0], Filler(s[0])];
      assert r[1..] == [Filler(s[0])] && [Filler(s[0])][1..] == [];
      assert FillersInserted(s[1..], [Filler(s[0])]);
    } else if |s| >= 2 {
      var x, f := s[0], Filler(s[0]);
      if s[0] == s[1] {
        var rest := Pad(s[1..]);
        PadInsertsFillers(s[1..]);
        PadDoubledPair(x, s[2..]);
        assert s == [x, x] + s[2..] && s[1..] == [x] + s[2..];
        var r := [x, f] + rest;
        assert r[1..] == [f] + rest && ([f] + rest)[1..] == rest;
        assert FillersInserted(s[1..], [f] + rest);
      } else {
        var y, rest := s[1], Pad(s[2..]);
        PadInsertsFillers(s[2..]);
        PadDistinctPair(x, y, s[2..]);
        assert s == [x, y] + s[2..] && s[1..] == [y] + s[2..] && s[1..][1..] == s[2..];
        var r := [x, y] + rest;
        assert r[1..] == [y] + rest && ([y] + rest)[1..] == rest;
        assert FillersInserted(s[1..], [y] + rest);
      }
    }
  }

  /** `Math.floor(matrix.indexOf(c) / 5)` and `matrix.indexOf(c) % 5`. */
  function Row(t: seq<char>, c: char): (r: int)
    requires |t| == 25 && c in t
    ensures 0 <= r < 5
  {
    IndexOf(t, c) / 5
  }

  function Col(t: seq<char>, c: char): (k: int)
    requires |t| == 25 && c in t
    ensures 0 <= k < 5
  {
    IndexOf(t, c) % 5
  }

  /** `matrix[row * 5 + col]`. */
  function Cell(t: seq<char>, row: int, col: int): (c: char)
    requires |t| == 25 && 0 <= row < 5 && 0 <= col < 5
    ensures c in t
  {
    t[row * 5 + col]
  }

  /** One step right/down (encrypt) or left/up (decrypt), wrapping at 5. */
  function Step(x: int, encrypt: bool): (y: int)
    ensures 0 <= y < 5
  {
    Mod(x + (if encrypt then 1 else -1), 5)
  }

  lemma StepBack(x: int, encrypt: bool)
    requires 0 <= x < 5
    ensures Step(Step(x, encrypt), !encrypt) == x
  {
    ModShiftBack(x, 1, 5);
  }

  /** The digraph rules for one pair: same row shifts columns right (encrypt)
      or left (decrypt), same column shifts rows down or up, otherwise each
      letter takes the other's column. */
  function EncodePair(t: seq<char>, a: char, b: char, encrypt: bool): (r: seq<char>)
    requires |t| == 25 && a in t && b in t
    ensures |r| == 2 && r[0] in t && r[1] in t
  {
    var r1, c1, r2, c2 := Row(t, a), Col(t, a), Row(t, b), Col(t, b);
    if r1 == r2 then [Cell(t, r1, Step(c1, encrypt)), Cell(t, r2, Step(c2, encrypt))]
    else if c1 == c2 then [Cell(t, Step(r1, encrypt), c1), Cell(t, Step(r2, encrypt), c2)]
    else [Cell(t, r1, c2), Cell(t, r2, c1)]
  }

  /** In a table without repeats, the cell at (row, col) is found again at
      exactly that row and column, and every letter sits at its own cell. */
  lemma CellPosition(t: seq<char>, row: int, col: int)
    requires |t| == 25 && Distinct(t) && 0 <= row < 5 && 0 <= col < 5
    ensures Row(t, Cell(t, row, col)) == row && Col(t, Cell(t, row, col)) == col
  {
    IndexOfDistinct(t, row * 5 + col);
  }

  lemma CellOf(t: seq<char>, c: char)
    requires |t| == 25 && c in t
    ensures Cell(t, Row(t, c), Col(t, c)) == c
  {
    var i := IndexOf(t, c);
    assert i == Row(t, c) * 5 + Col(t, c);
  }

  /** Decoding a digraph undoes encoding it, and encoding undoes decoding. */
  lemma PairRoundTrip(t: seq<char>, a: char, b: char, encrypt: bool)
    requires |t| == 25 && Distinct(t) && a in t && b in t
    ensures var e := EncodePair(t, a, b, encrypt);
            EncodePair(t, e[0], e[1], !encrypt) == [a, b]
  {
    var r1, c1, r2, c2 := Row(t, a), Col(t, a), Row(t, b), Col(t, b);
    CellOf(t, a);
    CellOf(t, b);
    if r1 == r2 {
      CellPosition(t, r1, Step(c1, encrypt));
      CellPosition(t, r2, Step(c2, encrypt));
      StepBack(c1, encrypt);
      StepBack(c2, encrypt);
    } else if c1 == c2 {
      CellPosition(t, Step(r1, encrypt), c1);
      CellPosition(t, Step(r2, encrypt), c2);
      StepBack(r1, encrypt);
      StepBack(r2, encrypt);
    } else {
      CellPosition(t, r1, c2);
      CellPosition(t, r2, c1);
    }
  }

  /** Every character of s has a cell in the table t. */
  predicate InTable(t: seq<char>, s: seq<char>) {
    forall c :: c in s ==> c in t
  }

  /** Digraph by digraph over text of even length drawn from the table. */
  function Transform(t: seq<char>, s: seq<char>, encrypt: bool): (r: seq<char>)
    requires |t| == 25 && |s| % 2 == 0 && InTable(t, s)
    ensures |r| == |s| && InTable(t, r)
    decreases |s|
  {
    if s == [] then []
    else
      var e := EncodePair(t, s[0], s[1], encrypt);
      assert s[0] in s && s[1] in s;
      var rest := Transform(t, s[2..], encrypt);
      e + rest
  }

  /** Transform reads the leading digraph and continues after it. */
  lemma TransformCons(t: seq<char>, x: char, y: char, rest: seq<char>, encrypt: bool)
    requires |t| == 25 && x in t && y in t && |rest| % 2 == 0 && InTable(t, rest)
    ensures InTable(t, [x, y] + rest)
    ensures Transform(t, [x, y] + rest, encrypt) ==
            EncodePair(t, x, y, encrypt) + Transform(t, rest, encrypt)
  {
    var s := [x, y] + rest;
    assert s[0] == x && s[1] == y && s[2..] == rest;
  }

  lemma {:induction false} TransformRoundTrip(t: seq<char>, s: seq<char>, encrypt: bool)
    requires |t| == 25 && Distinct(t) && |s| % 2 == 0 && InTable(t, s)
    ensures Transform(t, Transform(t, s, encrypt), !encrypt) == s
    decreases |s|
  {
    if s != [] {
      var x, y, tail := s[0], s[1], s[2..];
      assert x in s && y in s;
      SplitPair(s);
      TransformCons(t, x, y, tail, encrypt);
      var e := EncodePair(t, x, y, encrypt);
      var rest := Transform(t, tail, encrypt);
      assert e == [e[0], e[1]];
      TransformCons(t, e[0], e[1], rest, !encrypt);
      PairRoundTrip(t, x, y, encrypt);
      TransformRoundTrip(t, tail, encrypt);
    }
  }

  /** The text as the table sees it: upper-cased, letters only, J as I. */
  function Prepared(text: seq<char>): (p: seq<char>)
    ensures |p| == LetterCount(text)
    ensures forall c :: c in p ==> TableLetter(c)
  {
    JToI(Clean(text))
  }

  /** The letter at index i of the text lands in the prepared text at the
      index that counts the letters before it, upper-cased and J read as I. */
  lemma PreparedAt(text: seq<char>)
    ensures forall i :: 0 <= i < |text| && IsLetter(Upper(text[i])) ==>
              LetterCount(text[..i]) < |Prepared(text)| &&
              Prepared(text)[LetterCount(text[..i])] == (if Upper(text[i]) == 'J' then 'I' else Upper(text[i]))
  {
    CleanAt(text);
  }

  /** `playfair(text, key, isEncrypt)`: encryption pads and never fails;
      decryption refuses an odd number of letters and inserts nothing. */
  function Playfair(text: seq<char>, key: seq<char>, encrypt: bool): (r: Result<seq<char>>)
    ensures encrypt ==> r.Ok? && |r.value| % 2 == 0 && LetterCount(text) <= |r.value|
    ensures !encrypt ==> (r.Err? <==> LetterCount(text) % 2 == 1)
    ensures !encrypt && r.Ok? ==> |r.value| == LetterCount(text)
    ensures r.Err? ==> r.error == OddLengthCiphertext
    ensures r.Ok? ==> forall c :: c in r.value ==> TableLetter(c)
  {
    var t := Table(key);
    var p := Prepared(text);
    if encrypt then
      var padded := Pad(p);
      assert InTable(t, padded);
      Ok(Transform(t, padded, true))
    else if |p| % 2 != 0 then Err(OddLengthCiphertext)
    else
      assert InTable(t, p);
      Ok(Transform(t, p, false))
  }

  /** Decrypting an encryption with the same key gives back the padded text
      exactly: the letters, J read as I, with the fillers in place. */
  lemma PlayfairRoundTrip(text: seq<char>, key: seq<char>)
    ensures Playfair(Playfair(text, key, true).value, key, false) == Ok(Pad(Prepared(text)))
  {
    var t := Table(key);
    var padded := Pad(Prepared(text));
    var c := Playfair(text, key, true).value;
    assert c == Transform(t, padded, true);
    forall i | 0 <= i < |c|
      ensures TableLetter(c[i])
    {
      assert c[i] in c;
    }
    assert AllLetters(c);
    assert Prepared(c) == c;
    TransformRoundTrip(t, padded, true);
  }

  /** A digraph of two different letters is kept as it is. */
  lemma PadDistinctPair(x: char, y: char, rest: seq<char>)
    requires x != y
    ensures Pad([x, y] + rest) == [x, y] + Pad(rest)
  {
    var s := [x, y] + rest;
    assert s[2..] == rest;
  }

  /** A doubled letter gets the filler after its first copy, and its second
      copy starts the next digraph. */
  lemma PadDoubledPair(x: char, rest: seq<char>)
    ensures Pad([x, x] + rest) == [x, Filler(x)] + Pad([x] + rest)
  {
    var s := [x, x] + rest;
    assert s[1..] == [x] + rest;
  }

  /** "BALLOON": the doubled L is split by Q, the doubled O is not, since
      the second O starts a new digraph. */
  lemma PadExample()
    ensures Pad("BALLOON") == "BALQLOON"
  {
    PadDistinctPair('O', 'N', []);
    PadDistinctPair('L', 'O', "ON");
    PadDoubledPair('L', "OON");
    PadDistinctPair('B', 'A', "LLOON");
    assert "BALLOON" == ['B', 'A'] + "LLOON";
    assert "LLOON" == ['L', 'L'] + "OON";
    assert ['L'] + "OON" == ['L', 'O'] + "ON";
    assert "ON" == ['O', 'N'] + [];
  }
}
