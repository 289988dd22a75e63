/**
 * The Damm check-digit algorithm of src/lib.rs: a fixed 10x10 operation table
 * (a weakly totally anti-symmetric quasigroup of order 10, with a zero
 * diagonal), the left-to-right fold of a digit string through it (`encode`),
 * and the two operations derived from that fold (`check_sum`, `is_valid`).
 */
module Damm {

  import opened Wrappers

  /** The operation table; `MATRIX[interim][digit]` is the next interim state. */
  const MATRIX: seq<seq<nat>> :=
    [[0, 3, 1, 7, 5, 9, 8, 6, 4, 2],
     [7, 0, 9, 2, 1, 5, 4, 8, 6, 3],
     [4, 2, 0, 6, 8, 7, 1, 3, 5, 9],
     [1, 7, 5, 0, 9, 8, 3, 4, 2, 6],
     [6, 1, 2, 3, 0, 4, 5, 9, 7, 8],
     [3, 6, 7, 4, 2, 0, 9, 5, 8, 1],
     [5, 8, 6, 9, 7, 2, 0, 1, 3, 4],
     [8, 9, 4, 5, 3, 6, 2, 0, 1, 7],
     [9, 4, 3, 8, 6, 1, 7, 2, 0, 5],
     [2, 5, 8, 1, 4, 3, 6, 7, 9, 0]]

  // ---------------------------------------------------------------------------
  // Facts about the table, each discharged by enumerating the ten digits.
  // ---------------------------------------------------------------------------

  /** The table is 10x10 and every cell is a digit, so every lookup stays in bounds. */
  lemma MatrixShape(r: nat, c: nat)
    requires r < 10 && c < 10
    ensures |MATRIX| == 10 && |MATRIX[r]| == 10 && MATRIX[r][c] < 10
  {
  }

  /** Every diagonal cell is 0: appending the interim state itself brings the fold to 0. */
  lemma DiagonalZero(i: nat)
    requires i < 10
    ensures MATRIX[i][i] == 0
  {
  }

  /** Each row is injective: from one interim state, different digits lead to different states. */
  lemma RowInjective(r: nat, a: nat, b: nat)
    requires r < 10 && a < 10 && b < 10
    requires MATRIX[r][a] == MATRIX[r][b]
    ensures a == b
  {
    assert r == 0 || r == 1 || r == 2 || r == 3 || r == 4 || r == 5 || r == 6 || r == 7 || r == 8 || r == 9;
    assert a == 0 || a == 1 || a == 2 || a == 3 || a == 4 || a == 5 || a == 6 || a == 7 || a == 8 || a == 9;
    assert b == 0 || b == 1 || b == 2 || b == 3 || b == 4 || b == 5 || b == 6 || b == 7 || b == 8 || b == 9;
  }

  /** Each row reaches every digit, so with RowInjective each row is a permutation of 0..9. */
  lemma RowSurjective(r: nat, v: nat)
    requires r < 10 && v < 10
    ensures exists c: nat :: c < 10 && MATRIX[r][c] == v
  {
    assert r == 0 || r == 1 || r == 2 || r == 3 || r == 4 || r == 5 || r == 6 || r == 7 || r == 8 || r == 9;
    assert MATRIX[r][0] == v || MATRIX[r][1] == v || MATRIX[r][2] == v || MATRIX[r][3] == v || MATRIX[r][4] == v
        || MATRIX[r][5] == v || MATRIX[r][6] == v || MATRIX[r][7] == v || MATRIX[r][8] == v || MATRIX[r][9] == v;
  }

  /** Each column is injective: the same digit from different interim states leads to different states. */
  lemma ColumnInjective(r: nat, s: nat, c: nat)
    requires r < 10 && s < 10 && c < 10
    requires MATRIX[r][c] == MATRIX[s][c]
    ensures r == s
  {
    assert c == 0 || c == 1 || c == 2 || c == 3 || c == 4 || c == 5 || c == 6 || c == 7 || c == 8 || c == 9;
    assert r == 0 || r == 1 || r == 2 || r == 3 || r == 4 || r == 5 || r == 6 || r == 7 || r == 8 || r == 9;
    assert s == 0 || s == 1 || s == 2 || s == 3 || s == 4 || s == 5 || s == 6 || s == 7 || s == 8 || s == 9;
  }

  /** Each column reaches every digit, so with ColumnInjective each column is a permutation of 0..9. */
  lemma ColumnSurjective(c: nat, v: nat)
    requires c < 10 && v < 10
    ensures exists r: nat :: r < 10 && MATRIX[r][c] == v
  {
    assert c == 0 || c == 1 || c == 2 || c == 3 || c == 4 || c == 5 || c == 6 || c == 7 || c == 8 || c == 9;
    assert MATRIX[0][c] == v || MATRIX[1][c] == v || MATRIX[2][c] == v || MATRIX[3][c] == v || MATRIX[4][c] == v
        || MATRIX[5][c] == v || MATRIX[6][c] == v || MATRIX[7][c] == v || MATRIX[8][c] == v || MATRIX[9][c] == v;
  }

  /**
   * Weak total anti-symmetry: from any interim state k, reading x then y
   * ends in the same state as reading y then x only when x and y are equal.
   * (The strict form, MATRIX[x][y] == MATRIX[y][x] only when x == y, does not
   * hold: MATRIX[0][9] == MATRIX[9][0] == 2.)
   */
  lemma WeaklyTotallyAntiSymmetric(k: nat, x: nat, y: nat)
    requires k < 10 && x < 10 && y < 10
    ensures MATRIX[k][x] < 10 && MATRIX[k][y] < 10
    ensures MATRIX[MATRIX[k][x]][y] == MATRIX[MATRIX[k][y]][x] ==> x == y
  {
    if k < 5 {
      WeaklyTotallyAntiSymmetricLowRows(k, x, y);
    } else {
      WeaklyTotallyAntiSymmetricHighRows(k, x, y);
    }
  }

  /** WeaklyTotallyAntiSymmetric for the interim states 0..4 (the enumeration is split in two to keep each proof small). */
  lemma WeaklyTotallyAntiSymmetricLowRows(k: nat, x: nat, y: nat)
    requires k < 5 && x < 10 && y < 10
    ensures MATRIX[k][x] < 10 && MATRIX[k][y] < 10
    ensures MATRIX[MATRIX[k][x]][y] == MATRIX[MATRIX[k][y]][x] ==> x == y
  {
    assert k == 0 || k == 1 || k == 2 || k == 3 || k == 4;
    assert x == 0 || x == 1 || x == 2 || x == 3 || x == 4 || x == 5 || x == 6 || x == 7 || x == 8 || x == 9;
    assert y == 0 || y == 1 || y == 2 || y == 3 || y == 4 || y == 5 || y == 6 || y == 7 || y == 8 || y == 9;
  }

  /** WeaklyTotallyAntiSymmetric for the interim states 5..9. */
  lemma WeaklyTotallyAntiSymmetricHighRows(k: nat, x: nat, y: nat)
    requires 5 <= k < 10 && x < 10 && y < 10
    ensures MATRIX[k][x] < 10 && MATRIX[k][y] < 10
    ensures MATRIX[MATRIX[k][x]][y] == MATRIX[MATRIX[k][y]][x] ==> x == y
  {
    assert k == 5 || k == 6 || k == 7 || k == 8 || k == 9;
    assert x == 0 || x == 1 || x == 2 || x == 3 || x == 4 || x == 5 || x == 6 || x == 7 || x == 8 || x == 9;
    assert y == 0 || y == 1 || y == 2 || y == 3 || y == 4 || y == 5 || y == 6 || y == 7 || y == 8 || y == 9;
  }

  // ---------------------------------------------------------------------------
  // Characters. Rust's `to_digit(10)` accepts exactly the ASCII digits.
  // ---------------------------------------------------------------------------

  /** `c.to_digit(10)` succeeds: exactly the characters whose index `c - 48` lies in 0..9. */
  predicate IsDigit(c: char)
    ensures IsDigit(c) <==> 0 <= c as int - 48 < 10
  {
    '0' <= c <= '9'
  }

  /** The table index of a digit character: its code point minus 48, the code point of '0'. */
  function DigitValue(c: char): (v: nat)
    requires IsDigit(c)
    ensures v < 10
  {
    c as int - '0' as int
  }

  /** The one-character decimal rendering of a digit, as `format!("{}", digit)` produces it. */
  function DigitChar(d: nat): (c: char)
    requires d < 10
    ensures IsDigit(c) && DigitValue(c) == d
  {
    ('0' as int + d) as char
  }

  predicate AllDigits(s: string) {
    forall i | 0 <= i < |s| :: IsDigit(s[i])
  }

  // ---------------------------------------------------------------------------
  // The fold and `encode`.
  // ---------------------------------------------------------------------------

  /**
   * Folds `s` left to right through MATRIX, starting from the interim state
   * `interim`; None as soon as a character is not a decimal digit.
   */
  function FoldFrom(interim: nat, s: string): (r: Option<nat>)
    requires interim < 10
    ensures r.Some? ==> r.value < 10
    decreases |s|
  {
    if s == [] then Some(interim)
    else
      match FoldFrom(interim, s[..|s| - 1])
      case None => None
      case Some(d) =>
        var c := s[|s| - 1];
        if IsDigit(c) then
          MatrixShape(d, DigitValue(c));
          Some(MATRIX[d][DigitValue(c)])
        else None
  }

  /** What `encode` computes: the fold from the initial interim state 0. */
  function Fold(s: string): (r: Option<nat>)
    ensures r.Some? ==> r.value < 10
  {
    FoldFrom(0, s)
  }

  /** The fold is defined exactly when every character is a decimal digit: no skipping, no partial result. */
  lemma {:induction false} FoldDefinedIff(interim: nat, s: string)
    requires interim < 10
    ensures FoldFrom(interim, s).Some? <==> AllDigits(s)
    decreases |s|
  {
    if s != [] {
      var init := s[..|s| - 1];
      FoldDefinedIff(interim, init);
      assert forall i | 0 <= i < |init| :: init[i] == s[i];
    }
  }

  /** The fold of a digit string extended by one character takes one more table step (or fails on a non-digit). */
  lemma FoldSnoc(interim: nat, s: string, c: char)
    requires interim < 10
    ensures FoldFrom(interim, s).None? ==> FoldFrom(interim, s + [c]) == None
    ensures !IsDigit(c) ==> FoldFrom(interim, s + [c]) == None
    ensures FoldFrom(interim, s).Some? && IsDigit(c) ==>
              FoldFrom(interim, s + [c]) == Some(MATRIX[FoldFrom(interim, s).value][DigitValue(c)])
  {
    assert (s + [c])[..|s|] == s;
  }

  /**
   * `encode`: walks the characters with an interim state that starts at 0 and
   * is replaced by a table lookup per digit; returns None at the first
   * character that is not a decimal digit.
   */
  method Encode(number: string) returns (r: Option<nat>)
    ensures r == Fold(number)
    ensures r.Some? <==> AllDigits(number)
    ensures r.Some? ==> r.value < 10
  {
    FoldDefinedIff(0, number);
    var interim := 0;
    for i := 0 to |number|
      invariant interim < 10
      invariant FoldFrom(0, number[..i]) == Some(interim)
    {
      var c := number[i];
      if IsDigit(c) {
        var index := c as int - 48;
        MatrixShape(interim, index);
        FoldSnoc(0, number[..i], c);
        assert number[..i] + [c] == number[..i + 1];
        interim := MATRIX[interim][index];
      } else {
        return None;
      }
    }
    assert number[..|number|] == number;
    return Some(interim);
  }

  // ---------------------------------------------------------------------------
  // The derived operations.
  // ---------------------------------------------------------------------------

  /**
   * `check_sum`: the input followed by its check digit, or None when the input
   * is not a digit string. The input is kept unchanged as a prefix.
   */
  function CheckSum(number: string): (r: Option<string>)
    ensures r.None? <==> !AllDigits(number)
    ensures r.Some? ==> |r.value| == |number| + 1 && r.value[..|number|] == number
    ensures r.Some? ==> IsDigit(r.value[|number|]) && Some(DigitValue(r.value[|number|])) == Fold(number)
  {
    FoldDefinedIff(0, number);
    match Fold(number)
    case None => None
    case Some(digit) =>
      assert (number + [DigitChar(digit)])[..|number|] == number;
      Some(number + [DigitChar(digit)])
  }

  /**
   * `is_valid`: the fold of the whole string is Some(0). Malformed input and a
   * checksum mismatch both give false.
   */
  predicate IsValid(number: string)
    ensures IsValid(number) <==> AllDigits(number) && Fold(number).Some? && Fold(number).value == 0
  {
    FoldDefinedIff(0, number);
    Fold(number) == Some(0)
  }
}
