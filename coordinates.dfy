/**
 * Plate-coordinate arithmetic: row letters to numbers and back, well names to
 * (row, column) pairs and back, and (row, column) pairs to a 1-based index in
 * row-major ("row") or column-major ("column") order.
 */
module Coordinates {
  import opened Errors

  const Alphabet: string := "ABCDEFGHIJKLMNOPQRSTUVWXYZ"

  /** The two counting directions the index conversions accept. */
  const RowDirection: string := "row"
  const ColumnDirection: string := "column"

  // ---------------------------------------------------------------------------
  // compute_rows_columns
  // ---------------------------------------------------------------------------

  /**
   * The nearest integer to sqrt(num / den), found by counting up from `r`.
   * r is nearest exactly when (r - 1/2)^2 <= num/den < (r + 1/2)^2, i.e. when
   * den * (2r - 1)^2 <= 4 * num < den * (2r + 1)^2.
   */
  function RoundSqrtFrom(num: nat, den: nat, r: nat): (root: nat)
    requires den >= 1
    requires r == 0 || den * (2 * r - 1) * (2 * r - 1) <= 4 * num
    ensures den * (2 * root + 1) * (2 * root + 1) > 4 * num
    ensures root == 0 || den * (2 * root - 1) * (2 * root - 1) <= 4 * num
    ensures r <= root
    decreases num - r
  {
    if den * (2 * r + 1) * (2 * r + 1) > 4 * num then r
    else
      SquareBound(den, 2 * r + 1);
      assert (2 * r + 1) * (2 * r + 1) == 4 * (r * r) + 4 * r + 1 && r * r >= 0;
      RoundSqrtFrom(num, den, r + 1)
  }

  lemma SquareBound(den: nat, a: nat)
    requires den >= 1
    ensures den * a * a >= a * a
  {
  }

  /** Python's round(sqrt(num / den)) for den >= 1; the half-way case never arises in its callers. */
  function RoundSqrt(num: nat, den: nat): (root: nat)
    requires den >= 1
  {
    RoundSqrtFrom(num, den, 0)
  }

  lemma MulMonotone(den: nat, a: nat, b: nat)
    requires a <= b
    ensures den * a * a <= den * b * b
  {
    assert a * a <= b * b by {
      assert a * a <= a * b;
      assert a * b <= b * b;
    }
  }

  /** A number that brackets sqrt(num / den) in the same way is the rounded root. */
  lemma RoundSqrtUnique(num: nat, den: nat, r: nat)
    requires den >= 1
    requires den * (2 * r + 1) * (2 * r + 1) > 4 * num
    requires r == 0 || den * (2 * r - 1) * (2 * r - 1) <= 4 * num
    ensures RoundSqrt(num, den) == r
  {
    var root := RoundSqrt(num, den);
    if root < r {
      MulMonotone(den, 2 * root + 1, 2 * r - 1);
    } else if root > r {
      MulMonotone(den, 2 * r + 1, 2 * root - 1);
    }
  }

  /**
   * compute_rows_columns: rows = round(2 sqrt(n/6)) = round(sqrt(2n/3)) and
   * columns = round(3 sqrt(n/6)) = round(sqrt(3n/2)). A negative count makes
   * math.sqrt raise ValueError.
   */
  function ComputeRowsColumns(numWells: int): (dims: Result<(nat, nat)>)
    ensures dims.Failure? <==> numWells < 0
  {
    if numWells < 0 then Failure(ValueError)
    else Success((RoundSqrt(2 * numWells, 3), RoundSqrt(3 * numWells, 2)))
  }

  /** A plate of 6k^2 wells has 2k rows and 3k columns (96 -> 8 x 12, 384 -> 16 x 24). */
  lemma RowsColumnsOfStandardPlate(k: nat)
    ensures ComputeRowsColumns(6 * k * k) == Success((2 * k, 3 * k))
  {
    assert 2 * (6 * k * k) == 12 * (k * k) && 3 * (6 * k * k) == 18 * (k * k);
    StandardRows(k);
    StandardColumns(k);
  }

  lemma StandardRows(k: nat)
    ensures RoundSqrt(12 * (k * k), 3) == 2 * k
  {
    var kk := k * k;
    assert 3 * (2 * (2 * k) + 1) * (2 * (2 * k) + 1) == 48 * kk + 24 * k + 3;
    if k > 0 {
      assert 3 * (2 * (2 * k) - 1) * (2 * (2 * k) - 1) == 48 * kk - 24 * k + 3;
    }
    RoundSqrtUnique(12 * kk, 3, 2 * k);
  }

  lemma StandardColumns(k: nat)
    ensures RoundSqrt(18 * (k * k), 2) == 3 * k
  {
    var kk := k * k;
    assert 2 * (2 * (3 * k) + 1) * (2 * (3 * k) + 1) == 72 * kk + 24 * k + 2;
    if k > 0 {
      assert 2 * (2 * (3 * k) - 1) * (2 * (3 * k) - 1) == 72 * kk - 24 * k + 2;
    }
    RoundSqrtUnique(18 * kk, 2, 3 * k);
  }

  /** The well counts of the built-in plates. */
  lemma BuiltinPlateDimensions()
    ensures ComputeRowsColumns(48) == Success((6, 8))
    ensures ComputeRowsColumns(96) == Success((8, 12))
    ensures ComputeRowsColumns(384) == Success((16, 24))
    ensures ComputeRowsColumns(1536) == Success((32, 48))
  {
    RoundSqrtUnique(96, 3, 6);
    RoundSqrtUnique(144, 2, 8);
    RowsColumnsOfStandardPlate(4);
    RowsColumnsOfStandardPlate(8);
    RowsColumnsOfStandardPlate(16);
  }

  /** Eight wells are read as 2 x 3, not as the 2 x 4 or 8 x 1 grids that hold eight wells. */
  lemma EightWellsReadAsTwoByThree()
    ensures ComputeRowsColumns(8) == Success((2, 3))
  {
    RoundSqrtUnique(16, 3, 2);
    RoundSqrtUnique(24, 2, 3);
  }

  /** Any positive well count gives at least one row and one column. */
  lemma DimensionsPositive(numWells: int)
    requires numWells >= 1
    ensures ComputeRowsColumns(numWells).Success?
    ensures ComputeRowsColumns(numWells).value.0 >= 1 && ComputeRowsColumns(numWells).value.1 >= 1
  {
    var twice, thrice: nat := 2 * numWells, 3 * numWells;
    RoundSqrtPositive(twice, 3);
    RoundSqrtPositive(thrice, 2);
  }

  /** The rounded root of a quotient of at least 1/4 is at least 1. */
  lemma RoundSqrtPositive(num: nat, den: nat)
    requires 1 <= den <= 4 * num
    ensures RoundSqrt(num, den) >= 1
  {
    ZeroRootBracket(den, RoundSqrt(num, den));
  }

  lemma ZeroRootBracket(den: int, root: int)
    ensures root != 0 || den * (2 * root + 1) * (2 * root + 1) == den
  {
  }

  // ---------------------------------------------------------------------------
  // Row names
  // ---------------------------------------------------------------------------

  /** `t` occurs in `s` at position `j`. */
  predicate OccursAt(s: string, t: string, j: nat) {
    j + |t| <= |s| && s[j..j + |t|] == t
  }

  lemma OccursAtTail(s: string, t: string, j: nat)
    requires s != [] && j >= 1
    ensures OccursAt(s, t, j) <==> OccursAt(s[1..], t, j - 1)
  {
    if j + |t| <= |s| {
      var u, v := s[j..j + |t|], s[1..][j - 1..j - 1 + |t|];
      forall k | 0 <= k < |u| ensures u[k] == v[k] {
        assert u[k] == s[j + k] && v[k] == s[1..][j - 1 + k];
      }
      assert u == v;
    }
  }

  /** Python's `s.index(t)`: the lowest position where `t` occurs in `s`, or None when it does not occur. */
  function IndexOf(s: string, t: string): (r: Option<nat>)
    ensures r.Some? ==> r.value + |t| <= |s|
  {
    if |t| > |s| then None
    else if s[..|t|] == t then Some(0)
    else
      match IndexOf(s[1..], t)
      case None => None
      case Some(i) => Some(i + 1)
  }

  /** IndexOf finds the first occurrence, and finds none only when there is none. */
  lemma {:induction false} IndexOfCorrect(s: string, t: string)
    ensures IndexOf(s, t).Some? ==> OccursAt(s, t, IndexOf(s, t).value)
    ensures IndexOf(s, t).Some? ==> forall j | 0 <= j < IndexOf(s, t).value :: !OccursAt(s, t, j)
    ensures IndexOf(s, t).None? ==> forall j: nat :: !OccursAt(s, t, j)
  {
    if |t| <= |s| && s[..|t|] != t {
      IndexOfCorrect(s[1..], t);
      forall j: nat | j >= 1 ensures OccursAt(s, t, j) == OccursAt(s[1..], t, j - 1) {
        OccursAtTail(s, t, j);
      }
    }
  }

  /**
   * rowname_to_number: a two-character name XY is 26 * X + Y; any other name is
   * looked up as a substring of the alphabet, plus one, and ValueError when absent.
   */
  function RowNameToNumber(name: string): (r: Result<int>)
    ensures r.Failure? ==> r.error == ValueError
    ensures r.Success? ==> 1 <= r.value <= (if |name| == 2 then 702 else 26)
    decreases |name|
  {
    if |name| == 2 then
      var first :- RowNameToNumber(name[..1]);
      var second :- RowNameToNumber(name[1..]);
      Success(26 * first + second)
    else
      match IndexOf(Alphabet, name)
      case None => Failure(ValueError)
      case Some(i) => Success(i + 1)
  }

  predicate IsUpper(c: char) {
    'A' <= c <= 'Z'
  }

  lemma AlphabetAt(j: nat)
    requires j < 26
    ensures Alphabet[j] as int == 'A' as int + j
  {
  }

  /** A capital letter names the row of its position in the alphabet: A -> 1, Z -> 26. */
  lemma {:induction false} LetterNumber(c: char)
    requires IsUpper(c)
    ensures RowNameToNumber([c]) == Success(c as int - 'A' as int + 1)
  {
    var j := c as int - 'A' as int;
    AlphabetAt(j);
    assert Alphabet[j..j + 1] == [c];
    assert OccursAt(Alphabet, [c], j);
    IndexOfCorrect(Alphabet, [c]);
    var r := IndexOf(Alphabet, [c]);
    assert Alphabet[r.value..r.value + 1][0] == c;
    AlphabetAt(r.value);
  }

  /** A name that is not a substring of the alphabet (a lower-case letter, a digit) raises ValueError. */
  lemma NotALetter(c: char)
    requires !IsUpper(c)
    ensures RowNameToNumber([c]) == Failure(ValueError)
  {
    IndexOfCorrect(Alphabet, [c]);
    var r := IndexOf(Alphabet, [c]);
    if r.Some? {
      assert Alphabet[r.value..r.value + 1][0] == c;
      AlphabetAt(r.value);
    }
  }

  /** A two-letter name XY numbers 26 * X + Y: AA -> 27, AE -> 31. */
  lemma TwoLetterNumber(x: char, y: char)
    requires IsUpper(x) && IsUpper(y)
    ensures RowNameToNumber([x, y]) == Success(26 * (x as int - 'A' as int + 1) + (y as int - 'A' as int + 1))
  {
    assert [x, y][..1] == [x] && [x, y][1..] == [y];
    LetterNumber(x);
    LetterNumber(y);
  }

  lemma RowNameExamples()
    ensures RowNameToNumber("A") == Success(1)
    ensures RowNameToNumber("E") == Success(5)
    ensures RowNameToNumber("AA") == Success(27)
    ensures RowNameToNumber("AE") == Success(31)
  {
    LetterNumber('A');
    LetterNumber('E');
    TwoLetterNumber('A', 'A');
    TwoLetterNumber('A', 'E');
  }

  /**
   * number_to_rowname: above 26 the name of n / 26 followed by the name of n % 26,
   * otherwise the letter at position n - 1, where Python reads a negative
   * position from the end of the alphabet (so n % 26 == 0 gives "Z") and a
   * position below -26 raises IndexError.
   */
  function NumberToRowName(n: int): (r: Result<string>)
    ensures n >= -25 <==> r.Success?
    decreases if n > 26 then n else 0
  {
    if n > 26 then
      Success(NumberToRowName(n / 26).value + NumberToRowName(n % 26).value)
    else if n >= 1 then Success([Alphabet[n - 1]])
    else if n >= -25 then Success([Alphabet[26 + n - 1]])
    else Failure(IndexError)
  }

  /** Every name NumberToRowName produces is a non-empty run of capital letters. */
  lemma {:induction false} RowNameIsUpper(n: int)
    requires n >= -25
    ensures NumberToRowName(n).value != []
    ensures forall i | 0 <= i < |NumberToRowName(n).value| :: IsUpper(NumberToRowName(n).value[i])
    decreases if n > 26 then n else 0
  {
    if n > 26 {
      RowNameIsUpper(n / 26);
      RowNameIsUpper(n % 26);
    } else if n >= 1 {
      AlphabetAt(n - 1);
    } else {
      AlphabetAt(26 + n - 1);
    }
  }

  /** Between 1 and 26 the name is the single letter at that position. */
  lemma SingleLetterName(n: int)
    requires 1 <= n <= 26
    ensures NumberToRowName(n) == Success([Alphabet[n - 1]])
    ensures RowNameToNumber(NumberToRowName(n).value) == Success(n)
  {
    AlphabetAt(n - 1);
    LetterNumber(Alphabet[n - 1]);
  }

  /**
   * For row numbers 1..701 (at most two letters), naming a row and reading the
   * name back gives the number again exactly when the number is at most 26 or
   * not a multiple of 26: 52 is named "BZ", which reads back as 78.
   */
  lemma RowNameRoundTrip(n: int)
    requires 1 <= n <= 701
    ensures RowNameToNumber(NumberToRowName(n).value) == Success(n) <==> (n <= 26 || n % 26 != 0)
  {
    if n <= 26 {
      SingleLetterName(n);
    } else {
      TwoLetterRoundTrip(n);
    }
  }

  lemma TwoLetterRoundTrip(n: int)
    requires 27 <= n <= 701
    ensures RowNameToNumber(NumberToRowName(n).value) == Success(n) <==> n % 26 != 0
  {
    var v := 26 * (n / 26) + if n % 26 == 0 then 26 else n % 26;
    TwoLetterNameNumber(n);
    var r := RowNameToNumber(NumberToRowName(n).value);
    assert r == Success(v);
    TwoLetterValue(n);
    assert r == Success(n) <==> v == n;
  }

  lemma TwoLetterValue(n: int)
    ensures 26 * (n / 26) + (if n % 26 == 0 then 26 else n % 26) == n <==> n % 26 != 0
  {
  }

  /** A two-letter name reads back as 26 times its first letter plus its second, Z counting 26. */
  lemma TwoLetterNameNumber(n: int)
    requires 27 <= n <= 701
    ensures RowNameToNumber(NumberToRowName(n).value) == Success(26 * (n / 26) + if n % 26 == 0 then 26 else n % 26)
  {
    var high, low := n / 26, n % 26;
    var y := if low == 0 then 26 else low;
    TwoLetterName(n);
    LetterPairNumber(high, y);
    var name := NumberToRowName(n).value;
    assert name == [Alphabet[high - 1], Alphabet[y - 1]];
  }

  /** The name made of the letters at positions `x` and `y` numbers 26 * x + y. */
  lemma LetterPairNumber(x: int, y: int)
    requires 1 <= x <= 26 && 1 <= y <= 26
    ensures RowNameToNumber([Alphabet[x - 1], Alphabet[y - 1]]) == Success(26 * x + y)
  {
    AlphabetAt(x - 1);
    AlphabetAt(y - 1);
    LettersNumber(Alphabet[x - 1], Alphabet[y - 1], x, y);
  }

  lemma LettersNumber(c: char, d: char, x: int, y: int)
    requires IsUpper(c) && IsUpper(d)
    requires c as int == 'A' as int + x - 1 && d as int == 'A' as int + y - 1
    ensures RowNameToNumber([c, d]) == Success(26 * x + y)
  {
    TwoLetterNumber(c, d);
  }

  /** From 27 to 701 the name is the letter of n / 26 followed by the letter of n % 26, read as Z for 0. */
  lemma TwoLetterName(n: int)
    requires 27 <= n <= 701
    ensures 1 <= n / 26 <= 26
    ensures NumberToRowName(n).value == [Alphabet[n / 26 - 1], Alphabet[if n % 26 == 0 then 25 else n % 26 - 1]]
  {
    var high, low := n / 26, n % 26;
    assert NumberToRowName(high).value == [Alphabet[high - 1]];
    assert NumberToRowName(low).value == [Alphabet[if low == 0 then 25 else low - 1]];
  }

  /** Every row of a built-in plate (at most 32 rows) reads back from its name. */
  lemma RowNameRoundTripSmall(n: int)
    requires 1 <= n <= 51
    ensures RowNameToNumber(NumberToRowName(n).value) == Success(n)
  {
    RowNameRoundTrip(n);
  }

  lemma RowNameCounterexample()
    ensures NumberToRowName(52) == Success("BZ")
    ensures RowNameToNumber("BZ") == Success(78)
  {
    assert NumberToRowName(2) == Success("B");
    assert NumberToRowName(0) == Success("Z");
    assert NumberToRowName(52).value == "B" + "Z";
    assert |"B" + "Z"| == 2 && "B" + "Z" == "BZ";
    TwoLetterNumber('B', 'Z');
  }

  /** The capital letter at position k of the alphabet, 1 -> A, 26 -> Z. */
  function Letter(k: int): (c: char)
    requires 1 <= k <= 26
    ensures IsUpper(c) && c as int - 'A' as int + 1 == k
  {
    ('A' as int + k - 1) as char
  }

  /**
   * The naming number_to_rowname evidently intends (1 -> A, 26 -> Z, 27 -> AA,
   * 52 -> AZ, 702 -> ZZ): n = 26 * x + y with the last letter y in 1..26.
   */
  function RowName(n: int): (r: string)
    requires 1 <= n <= 702
    ensures |r| == (if n <= 26 then 1 else 2)
  {
    if n <= 26 then [Letter(n)]
    else [Letter((n - 1) / 26), Letter((n - 1) % 26 + 1)]
  }

  /** Every row number of one or two letters reads back from its corrected name. */
  lemma RowNameInverse(n: int)
    requires 1 <= n <= 702
    ensures RowNameToNumber(RowName(n)) == Success(n)
  {
    if n <= 26 {
      LetterNumber(Letter(n));
    } else {
      var x, y := SplitRow(n);
      TwoLetterNumber(Letter(x), Letter(y));
    }
  }

  /** A number from 27 to 702 is 26 * x + y with both x and y in 1..26, y being (n - 1) % 26 + 1. */
  lemma SplitRow(n: int) returns (x: int, y: int)
    requires 27 <= n <= 702
    ensures 1 <= x <= 26 && 1 <= y <= 26 && n == 26 * x + y
    ensures x == (n - 1) / 26 && y == (n - 1) % 26 + 1
  {
    x, y := (n - 1) / 26, (n - 1) % 26 + 1;
  }

  /** Every one-letter name is the corrected name of the number it reads as. */
  lemma RowNameOfLetter(c: char)
    requires IsUpper(c)
    ensures RowNameToNumber([c]) == Success(c as int - 'A' as int + 1)
    ensures RowName(c as int - 'A' as int + 1) == [c]
  {
    LetterNumber(c);
  }

  /** Every two-letter name is the corrected name of the number it reads as. */
  lemma RowNameOfLetters(c: char, d: char)
    requires IsUpper(c) && IsUpper(d)
    ensures RowNameToNumber([c, d]) == Success(26 * (c as int - 'A' as int + 1) + (d as int - 'A' as int + 1))
    ensures RowName(26 * (c as int - 'A' as int + 1) + (d as int - 'A' as int + 1)) == [c, d]
  {
    TwoLetterNumber(c, d);
    DigitsOf(c as int - 'A' as int + 1, d as int - 'A' as int + 1);
  }

  /** The corrected naming agrees with number_to_rowname wherever that one reads back. */
  lemma RowNameAgrees(n: int)
    requires 1 <= n <= 701 && (n <= 26 || n % 26 != 0)
    ensures NumberToRowName(n) == Success(RowName(n))
  {
    if n <= 26 {
      AlphabetAt(n - 1);
    } else {
      var x, y := n / 26, n % 26;
      assert n == 26 * x + y;
      TwoLetterName(n);
      DigitsOf(x, y);
      AlphabetAt(x - 1);
      AlphabetAt(y - 1);
    }
  }

  lemma DigitsOf(x: int, y: int)
    requires 1 <= x <= 26 && 1 <= y <= 26
    ensures (26 * x + y - 1) / 26 == x && (26 * x + y - 1) % 26 == y - 1
  {
  }

  lemma NumberToRowNameExamples()
    ensures NumberToRowName(1) == Success("A")
    ensures NumberToRowName(5) == Success("E")
    ensures NumberToRowName(27) == Success("AA")
    ensures NumberToRowName(31) == Success("AE")
  {
    assert NumberToRowName(1) == Success("A") && NumberToRowName(5) == Success("E");
    assert NumberToRowName(27).value == "A" + "A";
    assert |"A" + "A"| == 2 && "A" + "A" == "AA";
    assert NumberToRowName(31).value == "A" + "E";
    assert |"A" + "E"| == 2 && "A" + "E" == "AE";
  }

  // ---------------------------------------------------------------------------
  // Well names
  // ---------------------------------------------------------------------------

  predicate IsAsciiLetter(c: char) {
    'a' <= c <= 'z' || 'A' <= c <= 'Z'
  }

  predicate IsDigit(c: char) {
    '0' <= c <= '9'
  }

  /** The length of the longest prefix of `s` whose characters all satisfy `p`. */
  function Span(s: string, p: char -> bool): (n: nat)
    ensures n <= |s|
    ensures forall i | 0 <= i < n :: p(s[i])
    ensures n < |s| ==> !p(s[n])
  {
    if s == [] || !p(s[0]) then 0 else 1 + Span(s[1..], p)
  }

  /** A prefix that satisfies `p` throughout, followed by a character that does not, is the span. */
  lemma {:induction false} SpanOfPrefix(a: string, b: string, p: char -> bool)
    requires forall i | 0 <= i < |a| :: p(a[i])
    requires b == [] || !p(b[0])
    ensures Span(a + b, p) == |a|
  {
    if a != [] {
      assert (a + b)[1..] == a[1..] + b;
      SpanOfPrefix(a[1..], b, p);
    } else {
      assert a + b == b;
    }
  }

  function DigitValue(c: char): nat
    requires IsDigit(c)
  {
    c as int - '0' as int
  }

  /** Python's int() of a run of decimal digits; leading zeros are allowed. */
  function DecimalValue(digits: string): nat
    requires forall i | 0 <= i < |digits| :: IsDigit(digits[i])
  {
    if digits == [] then 0
    else 10 * DecimalValue(digits[..|digits| - 1]) + DigitValue(digits[|digits| - 1])
  }

  function DigitChar(d: nat): (c: char)
    requires d < 10
    ensures IsDigit(c) && DigitValue(c) == d
  {
    ('0' as int + d) as char
  }

  /** Python's str() of a natural number: decimal digits without leading zeros. */
  function NatToString(n: nat): (s: string)
    ensures s != []
    ensures forall i | 0 <= i < |s| :: IsDigit(s[i])
  {
    if n < 10 then [DigitChar(n)] else NatToString(n / 10) + [DigitChar(n % 10)]
  }

  /** Python's str() of an integer. */
  function IntToString(n: int): string {
    if n < 0 then "-" + NatToString(-n) else NatToString(n)
  }

  /** Reading a decimal string produced by str() gives the number back. */
  lemma {:induction false} DecimalOfNatToString(n: nat)
    ensures DecimalValue(NatToString(n)) == n
  {
    if n >= 10 {
      DecimalOfNatToString(n / 10);
      var s := NatToString(n);
      assert s[..|s| - 1] == NatToString(n / 10);
    }
  }

  /**
   * wellname_to_coordinates: the name must start with ASCII letters followed by
   * digits (anything after the digits is ignored); otherwise re.match returns
   * None and `.groups()` raises AttributeError. The letters give the row through
   * RowNameToNumber, the digits the column through int().
   */
  function WellNameToCoordinates(wellname: string): (r: Result<(int, int)>)
    ensures r.Success? ==> r.value.1 >= 0
  {
    var nLetters := Span(wellname, IsAsciiLetter);
    var rest := wellname[nLetters..];
    var nDigits := Span(rest, IsDigit);
    if nLetters == 0 || nDigits == 0 then Failure(AttributeError)
    else
      var row :- RowNameToNumber(wellname[..nLetters]);
      Success((row, DecimalValue(rest[..nDigits])))
  }

  /** coordinates_to_wellname: the row's name followed by str() of the column. */
  function CoordinatesToWellName(row: int, column: int): (r: Result<string>)
    ensures r.Success? <==> row >= -25
  {
    var rowName :- NumberToRowName(row);
    Success(rowName + IntToString(column))
  }

  /** A name made of capital letters, then digits, then anything not starting with a digit. */
  lemma ParseWellName(letters: string, digits: string, tail: string)
    requires letters != [] && forall i | 0 <= i < |letters| :: IsUpper(letters[i])
    requires digits != [] && forall i | 0 <= i < |digits| :: IsDigit(digits[i])
    requires tail == [] || !IsDigit(tail[0])
    ensures WellNameToCoordinates(letters + digits + tail) ==
      (var row :- RowNameToNumber(letters); Success((row, DecimalValue(digits))))
  {
    WellNameSpans(letters, digits, tail);
  }

  /** Where the letter run and the digit run of such a name end. */
  lemma WellNameSpans(letters: string, digits: string, tail: string)
    requires forall i | 0 <= i < |letters| :: IsUpper(letters[i])
    requires digits != [] && forall i | 0 <= i < |digits| :: IsDigit(digits[i])
    requires tail == [] || !IsDigit(tail[0])
    ensures Span(letters + digits + tail, IsAsciiLetter) == |letters|
    ensures (letters + digits + tail)[..|letters|] == letters
    ensures (letters + digits + tail)[|letters|..] == digits + tail
    ensures Span(digits + tail, IsDigit) == |digits|
    ensures (digits + tail)[..|digits|] == digits
  {
    var rest := digits + tail;
    assert letters + digits + tail == letters + rest;
    assert forall i | 0 <= i < |letters| :: IsAsciiLetter(letters[i]);
    assert rest[0] == digits[0];
    SpanOfPrefix(letters, rest, IsAsciiLetter);
    SpanOfPrefix(digits, tail, IsDigit);
  }

  /**
   * Reading back a well name gives its coordinates, for every column >= 0 and
   * every row whose name reads back (RowNameRoundTrip).
   */
  lemma CoordinatesRoundTrip(row: int, column: int)
    requires 1 <= row <= 701 && (row <= 26 || row % 26 != 0)
    requires column >= 0
    ensures WellNameToCoordinates(CoordinatesToWellName(row, column).value) == Success((row, column))
  {
    RowNameIsUpper(row);
    RowNameRoundTrip(row);
    var rowName := NumberToRowName(row).value;
    var digits := NatToString(column);
    assert CoordinatesToWellName(row, column).value == rowName + digits + [];
    ParseWellName(rowName, digits, []);
    DecimalOfNatToString(column);
  }

  /** A capital letter followed by digits names (its alphabet position, the digits' value). */
  lemma ParseLetterDigits(c: char, digits: string)
    requires IsUpper(c)
    requires digits != [] && forall i | 0 <= i < |digits| :: IsDigit(digits[i])
    ensures WellNameToCoordinates([c] + digits) == Success((c as int - 'A' as int + 1, DecimalValue(digits)))
  {
    ParseWellName([c], digits, []);
    assert [c] + digits + [] == [c] + digits;
    LetterNumber(c);
  }

  lemma WellNameExampleA1()
    ensures WellNameToCoordinates("A1") == Success((1, 1))
  {
    ParseLetterDigits('A', "1");
    assert ['A'] + "1" == "A1";
  }

  /** Leading zeros in the column are allowed. */
  lemma WellNameExampleC04()
    ensures WellNameToCoordinates("C04") == Success((3, 4))
  {
    ParseLetterDigits('C', "04");
    assert ['C'] + "04" == "C04";
    assert DecimalValue("04") == 10 * DecimalValue("0") + 4;
  }

  lemma WellNameExampleH11()
    ensures WellNameToCoordinates("H11") == Success((8, 11))
  {
    ParseLetterDigits('H', "11");
    assert ['H'] + "11" == "H11";
    assert DecimalValue("11") == 10 * DecimalValue("1") + 1;
  }

  lemma WellNameExampleAC07()
    ensures WellNameToCoordinates("AC07") == Success((29, 7))
  {
    ParseLettersDigits('A', 'C', "07");
    assert ['A', 'C'] + "07" == "AC07";
    assert DecimalValue("07") == 10 * DecimalValue("0") + 7;
  }

  /** Two capital letters followed by digits name (the letters' row number, the digits' value). */
  lemma ParseLettersDigits(x: char, y: char, digits: string)
    requires IsUpper(x) && IsUpper(y)
    requires digits != [] && forall i | 0 <= i < |digits| :: IsDigit(digits[i])
    ensures WellNameToCoordinates([x, y] + digits) ==
      Success((26 * (x as int - 'A' as int + 1) + (y as int - 'A' as int + 1), DecimalValue(digits)))
  {
    ParseWellName([x, y], digits, []);
    assert [x, y] + digits + [] == [x, y] + digits;
    TwoLetterNumber(x, y);
  }

  /** A name that starts with a digit does not match and raises AttributeError. */
  lemma WellNameExampleDigitFirst()
    ensures WellNameToCoordinates("7A") == Failure(AttributeError)
  {
  }

  // ---------------------------------------------------------------------------
  // Linear indices
  // ---------------------------------------------------------------------------

  /** The well-name index formula for a grid of `nRows` x `nColumns`. */
  function GridIndex(row: int, column: int, nRows: int, nColumns: int, direction: string): (r: Result<int>)
    ensures r.Success? <==> IsDirection(direction)
  {
    if direction == RowDirection then Success(column + nColumns * (row - 1))
    else if direction == ColumnDirection then Success(row + nRows * (column - 1))
    else Failure(ValueError)
  }

  /**
   * wellname_to_index: the dimensions are derived from the well count first,
   * then the name is parsed, and only then is the direction checked.
   */
  function WellNameToIndex(wellname: string, numWells: int, direction: string): (r: Result<int>)
    ensures r.Success? ==> direction == RowDirection || direction == ColumnDirection
  {
    var dims :- ComputeRowsColumns(numWells);
    var coords :- WellNameToCoordinates(wellname);
    GridIndex(coords.0, coords.1, dims.0, dims.1, direction)
  }

  /** Python's int(a / b): the quotient truncated toward zero. */
  function TruncDiv(a: int, b: int): int
    requires b > 0
  {
    if a >= 0 then a / b else -((-a) / b)
  }

  /**
   * index_to_row_column on a grid of `nRows` x `nColumns`: the inverse formula,
   * with int(/) truncating and Python's % (which agrees with Dafny's for a
   * positive divisor). A zero dimension raises ZeroDivisionError.
   */
  function GridCell(index: int, nRows: int, nColumns: int, direction: string): (r: Result<(int, int)>)
    ensures r.Success? ==> IsDirection(direction)
  {
    if direction == RowDirection then
      if nColumns <= 0 then Failure(ZeroDivisionError)
      else Success((1 + TruncDiv(index - 1, nColumns), 1 + (index - 1) % nColumns))
    else if direction == ColumnDirection then
      if nRows <= 0 then Failure(ZeroDivisionError)
      else Success((1 + (index - 1) % nRows, 1 + TruncDiv(index - 1, nRows)))
    else Failure(ValueError)
  }

  /** index_to_row_column: the grid dimensions come from the well count. */
  function IndexToRowColumn(index: int, numWells: int, direction: string): (r: Result<(int, int)>)
    ensures r.Success? <==> numWells >= 1 && IsDirection(direction)
    ensures index >= 1 && r.Success? ==> r.value.0 >= 1 && r.value.1 >= 1
  {
    var dims :- ComputeRowsColumns(numWells);
    if numWells >= 1 then
      DimensionsPositive(numWells);
      GridCell(index, dims.0, dims.1, direction)
    else
      EmptyPlateDimensions(numWells);
      GridCell(index, dims.0, dims.1, direction)
  }

  /** A plate of no wells has no rows and no columns. */
  lemma EmptyPlateDimensions(numWells: int)
    requires 0 <= numWells < 1
    ensures ComputeRowsColumns(numWells) == Success((0, 0))
  {
    assert RoundSqrtFrom(0, 3, 0) == 0 && RoundSqrtFrom(0, 2, 0) == 0;
  }

  /**
   * index_to_wellname. Besides the errors of index_to_row_column, a row
   * below -25 cannot be named: a very negative index is an IndexError.
   */
  function IndexToWellName(index: int, numWells: int, direction: string): (r: Result<string>)
    ensures r.Success? <==>
      IndexToRowColumn(index, numWells, direction).Success? && IndexToRowColumn(index, numWells, direction).value.0 >= -25
    ensures IndexToRowColumn(index, numWells, direction).Success? && r.Failure? ==> r.error == IndexError
    ensures r.Success? ==> numWells >= 1 && IsDirection(direction)
    ensures index >= 1 && numWells >= 1 && IsDirection(direction) ==> r.Success?
  {
    var coords :- IndexToRowColumn(index, numWells, direction);
    CoordinatesToWellName(coords.0, coords.1)
  }

  predicate IsDirection(direction: string) {
    direction == RowDirection || direction == ColumnDirection
  }

  /**
   * Every index 1..rows*columns lands inside the grid, and the well-name index
   * formula of that cell gives the index back.
   */
  lemma GridCellInGrid(index: int, nRows: int, nColumns: int, direction: string)
    requires nRows >= 1 && nColumns >= 1 && IsDirection(direction)
    requires 1 <= index <= nRows * nColumns
    ensures GridCell(index, nRows, nColumns, direction).Success?
    ensures var (row, column) := GridCell(index, nRows, nColumns, direction).value;
            1 <= row <= nRows && 1 <= column <= nColumns &&
            GridIndex(row, column, nRows, nColumns, direction) == Success(index)
  {
    if direction == RowDirection {
      CellOfIndex(index, nColumns, nRows);
    } else {
      assert nRows * nColumns == nColumns * nRows;
      CellOfIndex(index, nRows, nColumns);
    }
  }

  /** Index `index` of rows of length `d` (m of them) lies in row 1 + (index-1)/d, at position 1 + (index-1)%d. */
  lemma CellOfIndex(index: int, d: int, m: int)
    requires d >= 1 && 1 <= index <= m * d
    ensures 1 <= 1 + TruncDiv(index - 1, d) <= m
    ensures 1 <= 1 + (index - 1) % d <= d
    ensures (1 + (index - 1) % d) + d * (1 + TruncDiv(index - 1, d) - 1) == index
  {
    var i := index - 1;
    assert TruncDiv(i, d) == i / d;
    DivBelow(i, d, m);
  }

  lemma DivBelow(i: nat, d: nat, m: nat)
    requires d >= 1 && i < m * d
    ensures i / d < m
    ensures d * (i / d) + i % d == i
  {
    if i / d >= m {
      MulLe(d, m, i / d);
      assert false;
    }
  }

  lemma MulLe(d: nat, a: nat, b: nat)
    requires a <= b
    ensures d * a <= d * b
  {
  }

  /** Every cell of the grid is named by exactly one index: the formula, read back, gives the cell. */
  lemma GridIndexInverse(row: int, column: int, nRows: int, nColumns: int, direction: string)
    requires IsDirection(direction)
    requires 1 <= row <= nRows && 1 <= column <= nColumns
    ensures var index := GridIndex(row, column, nRows, nColumns, direction).value;
            1 <= index <= nRows * nColumns &&
            GridCell(index, nRows, nColumns, direction) == Success((row, column))
  {
    if direction == RowDirection {
      QuotientOf(row - 1, column - 1, nColumns, nRows);
      var index := column + nColumns * (row - 1);
      assert TruncDiv(index - 1, nColumns) == row - 1;
    } else {
      QuotientOf(column - 1, row - 1, nRows, nColumns);
      var index := row + nRows * (column - 1);
      assert TruncDiv(index - 1, nRows) == column - 1;
      assert nColumns * nRows == nRows * nColumns;
    }
  }

  lemma QuotientOf(q: nat, r: nat, d: nat, m: nat)
    requires r < d && q < m
    ensures (r + d * q) / d == q && (r + d * q) % d == r
    ensures r + d * q < m * d
  {
    MulLe(d, q, m - 1);
    assert d * (m - 1) == d * m - d;
    var x := r + d * q;
    var k := x / d - q;
    assert d * k == r - x % d;
    if k >= 1 {
      MulLe(d, 1, k);
      assert false;
    } else if k <= -1 {
      assert false;
    }
  }

  /**
   * wellname_to_index(index_to_wellname(i)) == i for every index of the grid,
   * in both directions, on plates whose rows read back from their names.
   */
  lemma WellNameIndexRoundTrip(index: int, numWells: int, direction: string)
    requires numWells >= 1 && IsDirection(direction)
    requires ComputeRowsColumns(numWells).value.0 <= 51
    requires 1 <= index <= ComputeRowsColumns(numWells).value.0 * ComputeRowsColumns(numWells).value.1
    ensures IndexToWellName(index, numWells, direction).Success?
    ensures WellNameToIndex(IndexToWellName(index, numWells, direction).value, numWells, direction) == Success(index)
  {
    DimensionsPositive(numWells);
    var (nRows, nColumns) := ComputeRowsColumns(numWells).value;
    GridCellInGrid(index, nRows, nColumns, direction);
    var (row, column) := GridCell(index, nRows, nColumns, direction).value;
    assert IndexToRowColumn(index, numWells, direction) == Success((row, column));
    RowNameRoundTrip(row);
    CoordinatesRoundTrip(row, column);
  }

  lemma IndexExamples96()
    ensures WellNameToIndex("A5", 96, RowDirection) == Success(5)
    ensures WellNameToIndex("A5", 96, ColumnDirection) == Success(33)
    ensures WellNameToIndex("A5", 96, "diagonal") == Failure(ValueError)
  {
    BuiltinPlateDimensions();
    ParseLetterDigits('A', "5");
    assert ['A'] + "5" == "A5";
  }

  lemma IndexExamplesC6()
    ensures WellNameToIndex("C6", 96, RowDirection) == Success(30)
    ensures WellNameToIndex("C6", 96, ColumnDirection) == Success(43)
    ensures WellNameToIndex("C6", 384, RowDirection) == Success(54)
    ensures WellNameToIndex("C6", 384, ColumnDirection) == Success(83)
  {
    BuiltinPlateDimensions();
    ParseLetterDigits('C', "6");
    assert ['C'] + "6" == "C6";
  }
}
