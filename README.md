# Damm check digit, modelled in Dafny

A model of `damm-rs`, a Rust library that computes and validates a single
decimal check digit with H. Michael Damm's algorithm. The algorithm uses a
fixed 10x10 operation table that forms a weakly totally anti-symmetric
quasigroup of order 10, with a zero diagonal. The library has three operations:

- `encode` folds a digit string left to right through the table. The interim
  state starts at 0. It returns `None` at the first character that is not a
  decimal digit.
- `check_sum` appends the folded digit to the input text.
- `is_valid` tests whether the fold of the whole string is `Some(0)`.

Files:

- `wrappers.dfy`: module `Wrappers`, the `Option` type that stands for Rust's `Option`.
- `damm.dfy`: module `Damm`. It holds the table `MATRIX` and its enumerated
  facts: shape, zero diagonal, rows and columns that are permutations, and
  weak total anti-symmetry. It also holds the pure left fold `FoldFrom`/`Fold`, the
  imperative `Encode` method proved equal to `Fold`, and `CheckSum` and `IsValid`.
- `damm_properties.dfy`: module `DammProperties`. It holds the fold algebra
  (composition, injectivity in the starting state), the round trip, the
  uniqueness of the check digit, detection of single-digit errors and of
  adjacent transpositions, and the library's worked examples.

Input text is `string` (`seq<char>`). Rust's `char::to_digit(10)` accepts only
the ASCII digits, so it is modelled as `'0' <= c <= '9'`. The table index
`c as usize - 48` becomes `c as int - 48`. It is reached only after the digit
test, so it never underflows. The `usize` results are `nat`. They are proved to
lie in 0..9, so every `MATRIX[interim][index]` lookup is in bounds and the Rust
code cannot panic.

Two points of behaviour worth stating outright:

- Every diagonal cell of the table is 0, not only `MATRIX[0][0]`.
  `DiagonalZero` proves this, and the round trip rests on it.
- `is_valid` returns a plain `bool`. Malformed input gives `false`, just like a
  checksum mismatch; no error is propagated (the contract of `IsValid`). Only `encode` and
  `check_sum` keep the two cases apart, through `None`.

## Model

| member | source | states |
|---|---|---|
| `Damm.MatrixShape` | src/lib.rs:7-16 | the table is 10x10 and every cell is a digit 0..9 |
| `Damm.DiagonalZero` | src/lib.rs:7-16 | `MATRIX[i][i] == 0` for every digit i |
| `Damm.RowInjective` | src/lib.rs:7-16 | in every row, two equal cells are in the same column |
| `Damm.RowSurjective` | src/lib.rs:7-16 | every row contains every digit, so with RowInjective each row is a permutation of 0..9 |
| `Damm.ColumnInjective` | src/lib.rs:7-16 | in every column, two equal cells are in the same row |
| `Damm.ColumnSurjective` | src/lib.rs:7-16 | every column contains every digit, so each column is a permutation of 0..9 |
| `Damm.WeaklyTotallyAntiSymmetric` | src/lib.rs:3-16 | `MATRIX[MATRIX[k][x]][y] == MATRIX[MATRIX[k][y]][x]` implies `x == y`, for all digits k, x, y |
| `Damm.IsDigit` | src/lib.rs:31-37 | `to_digit(10)` succeeds exactly on '0'..'9', the characters whose index `c - 48` lies in 0..9, so the subtraction never underflows |
| `Damm.DigitValue` | src/lib.rs:37 | a digit character's table index is its code point minus that of '0', always 0..9 |
| `Damm.DigitChar` | src/lib.rs:58 | the one-character rendering of a digit is a decimal digit character whose value is that digit |
| `Damm.FoldFrom` | src/lib.rs:28-45 | the fold of a string from any interim state is either None or a digit 0..9, so the next table lookup is in bounds |
| `Damm.Fold` | src/lib.rs:28-45 | the fold from interim state 0 is None or a digit 0..9 |
| `Damm.FoldDefinedIff` | src/lib.rs:30-41 | the fold is Some exactly when every character is a decimal digit: no skipping, no partial result |
| `Damm.FoldSnoc` | src/lib.rs:30-42 | one more character is one more loop iteration: None if the fold already failed or the character is not a digit; otherwise, from the previous state d, `Some(MATRIX[d][c - '0'])` (at interim 0 this is `encode(s + [c])`) |
| `Damm.Encode` | src/lib.rs:28-45 | the loop with its early return computes exactly `Fold(number)`; the result is Some iff the input is all digits, and lies in 0..9 |
| `Damm.CheckSum` | src/lib.rs:57-59 | None exactly for malformed input; otherwise the input unchanged as a prefix, followed by one digit character whose value is `encode(number)` |
| `Damm.IsValid` | src/lib.rs:71-73 | `is_valid(s)` holds iff s is all digits and its fold is 0; malformed input and a checksum mismatch both give false |
| `DammProperties.EmptyInput` | src/lib.rs:29-44 | `encode("")` is Some(0), so the empty string is valid |
| `DammProperties.FoldAppend` | src/lib.rs:30-42 | folding `p + q` folds `q` from the state that `p` ends in, and fails when `p` does |
| `DammProperties.FoldFromInjective` | src/lib.rs:30-42 | reading the same digit string from two interim states that end in the same state means the two starting states were equal |
| `DammProperties.RoundTrip` | src/lib.rs:57-73 | for every digit string s, `check_sum(s)` is Some and `is_valid` accepts it |
| `DammProperties.CheckDigitUnique` | src/lib.rs:57-73 | for every string s and character c, `s + [c]` is valid iff `check_sum(s) == Some(s + [c])`, i.e. s is a digit string and c its check digit |
| `DammProperties.DifferenceSurvivesSuffix` | src/lib.rs:30-42 | two strings with different fold results still differ after the same well-formed suffix |
| `DammProperties.SingleErrorDetected` | src/lib.rs:3-4 | changing any one character of a valid string to a different character makes it invalid |
| `DammProperties.AdjacentTranspositionDetected` | src/lib.rs:3-4 | swapping two adjacent, different characters of a valid string makes it invalid |
| `DammProperties.Example572` | src/lib.rs:80-96 | `encode("572") == Some(4)`, `check_sum("572") == Some("5724")`, `is_valid("5724")` |
| `DammProperties.Example43881234567` | src/lib.rs:82 | `encode("43881234567") == Some(9)` |
| `DammProperties.Example438812345679` | src/lib.rs:88-94 | `check_sum("43881234567") == Some("438812345679")`, that string is valid, and the one with its last digit changed to 0 is not |
| `DammProperties.ExampleMalformed` | src/lib.rs:40 | a non-digit anywhere (`"12a3"`) makes `encode` and `check_sum` None and `is_valid` false |

## Left out

- Rust's `format!` machinery (src/lib.rs:58) is not modelled. Appending the digit is sequence concatenation with the character `'0' + d`.
- UTF-8 decoding of `&str` into `char`s is not modelled. The input is already a sequence of characters.
- The `#[cfg(test)]` module and the doc tests (src/lib.rs:75-97) are not modelled as tests. Their concrete values appear as the example lemmas.
- The library has no I/O, concurrency or floating point.
