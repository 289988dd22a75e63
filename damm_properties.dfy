/**
 * What the Damm scheme promises about src/lib.rs: the round trip between
 * `check_sum` and `is_valid`, and the detection of every single-digit error
 * and every adjacent transposition, derived from the table facts.
 */
module DammProperties {

  import opened Wrappers
  import opened Damm

  /** `encode("")` is Some(0), so the empty string is valid. */
  lemma EmptyInput()
    ensures Fold([]) == Some(0) && IsValid([])
  {
  }

  /** Folding a concatenation folds the second part from where the first one ended. */
  lemma {:induction false} FoldAppend(interim: nat, p: string, q: string)
    requires interim < 10
    ensures FoldFrom(interim, p + q) ==
              match FoldFrom(interim, p)
              case None => None
              case Some(d) => FoldFrom(d, q)
    decreases |q|
  {
    if q == [] {
      assert p + q == p;
    } else {
      var init, c := q[..|q| - 1], q[|q| - 1];
      assert q == init + [c];
      assert p + q == (p + init) + [c];
      FoldAppend(interim, p, init);
      FoldSnoc(interim, p + init, c);
      match FoldFrom(interim, p)
      case None =>
      case Some(d) => FoldSnoc(d, init, c);
    }
  }

  /**
   * Reading the same digit string from two different interim states ends in two
   * different states: the fold is injective in its starting state.
   */
  lemma {:induction false} FoldFromInjective(u: nat, v: nat, q: string)
    requires u < 10 && v < 10
    requires FoldFrom(u, q).Some? && FoldFrom(u, q) == FoldFrom(v, q)
    ensures u == v
    decreases |q|
  {
    if q != [] {
      var init, c := q[..|q| - 1], q[|q| - 1];
      assert q == init + [c];
      FoldSnoc(u, init, c);
      FoldSnoc(v, init, c);
      var du, dv := FoldFrom(u, init).value, FoldFrom(v, init).value;
      ColumnInjective(du, dv, DigitValue(c));
      FoldFromInjective(u, v, init);
    }
  }

  /** Round trip: every digit string followed by its check digit is valid. */
  lemma RoundTrip(s: string)
    requires AllDigits(s)
    ensures CheckSum(s).Some? && IsValid(CheckSum(s).value)
  {
    FoldDefinedIff(0, s);
    var d := Fold(s).value;
    var t := CheckSum(s).value;
    assert t == s + [DigitChar(d)];
    FoldSnoc(0, s, DigitChar(d));
    DiagonalZero(d);
  }

  /** The check digit is the only character that makes the extended string valid. */
  lemma CheckDigitUnique(s: string, c: char)
    ensures IsValid(s + [c]) <==> CheckSum(s) == Some(s + [c])
  {
    FoldSnoc(0, s, c);
    if Fold(s).Some? {
      var d := Fold(s).value;
      DiagonalZero(d);
      if IsValid(s + [c]) {
        RowInjective(d, DigitValue(c), d);
        assert c == DigitChar(d);
      }
    }
  }

  /**
   * Two digit strings that fold to different states still fold to different
   * states after the same suffix (unless the suffix is malformed).
   */
  lemma DifferenceSurvivesSuffix(p1: string, p2: string, q: string)
    requires Fold(p1).Some? && Fold(p2).Some? && Fold(p1) != Fold(p2)
    ensures Fold(p1 + q) == None || Fold(p1 + q) != Fold(p2 + q)
  {
    FoldAppend(0, p1, q);
    FoldAppend(0, p2, q);
    if Fold(p1 + q).Some? && Fold(p1 + q) == Fold(p2 + q) {
      FoldFromInjective(Fold(p1).value, Fold(p2).value, q);
    }
  }

  /** Single-digit error detection: changing one character of a valid string makes it invalid. */
  lemma SingleErrorDetected(s: string, i: nat, c: char)
    requires IsValid(s) && i < |s| && c != s[i]
    ensures !IsValid(s[i := c])
  {
    var t := s[i := c];
    if !IsDigit(c) {
      FoldDefinedIff(0, t);
      assert !IsDigit(t[i]);
    } else {
      var a := s[i];
      var p, q := s[..i], s[i + 1..];
      assert s == (p + [a]) + q;
      assert t == (p + [c]) + q;
      assert AllDigits(p) && IsDigit(a) by {
        FoldDefinedIff(0, s);
        assert forall j | 0 <= j < |p| :: p[j] == s[j];
      }
      FoldDefinedIff(0, p);
      FoldSnoc(0, p, a);
      FoldSnoc(0, p, c);
      if Fold(p + [a]) == Fold(p + [c]) {
        RowInjective(Fold(p).value, DigitValue(a), DigitValue(c));
      }
      DifferenceSurvivesSuffix(p + [a], p + [c], q);
    }
  }

  /** Adjacent transposition detection: swapping two adjacent, different digits of a valid string makes it invalid. */
  lemma AdjacentTranspositionDetected(s: string, i: nat)
    requires IsValid(s) && i + 1 < |s| && s[i] != s[i + 1]
    ensures !IsValid(s[i := s[i + 1]][i + 1 := s[i]])
  {
    var a, b := s[i], s[i + 1];
    var t := s[i := b][i + 1 := a];
    var p, q := s[..i], s[i + 2..];
    assert s == (p + [a] + [b]) + q;
    assert t == (p + [b] + [a]) + q;
    assert AllDigits(p) && IsDigit(a) && IsDigit(b) by {
      FoldDefinedIff(0, s);
      assert forall j | 0 <= j < |p| :: p[j] == s[j];
    }
    FoldDefinedIff(0, p);
    FoldSnoc(0, p, a);
    FoldSnoc(0, p, b);
    FoldSnoc(0, p + [a], b);
    FoldSnoc(0, p + [b], a);
    var k := Fold(p).value;
    if Fold(p + [a] + [b]) == Fold(p + [b] + [a]) {
      WeaklyTotallyAntiSymmetric(k, DigitValue(a), DigitValue(b));
    }
    DifferenceSurvivesSuffix(p + [a] + [b], p + [b] + [a], q);
  }

  // ---------------------------------------------------------------------------
  // The worked examples of the library's documentation and tests.
  // ---------------------------------------------------------------------------

  lemma Example572()
    ensures Fold("572") == Some(4)
    ensures CheckSum("572") == Some("5724")
    ensures IsValid("5724")
  {
    assert Fold("5") == Some(9) by {
      assert "" + ['5'] == "5";
      FoldSnoc(0, "", '5');
    }
    assert Fold("57") == Some(7) by {
      assert "5" + ['7'] == "57";
      FoldSnoc(0, "5", '7');
    }
    assert Fold("572") == Some(4) by {
      assert "57" + ['2'] == "572";
      FoldSnoc(0, "57", '2');
    }
    assert Fold("5724") == Some(0) by {
      assert "572" + ['4'] == "5724";
      FoldSnoc(0, "572", '4');
    }
  }

  /** The first six digits of the second worked example. */
  lemma Example438812()
    ensures Fold("438812") == Some(1)
  {
    assert Fold("4") == Some(5) by {
      assert "" + ['4'] == "4";
      FoldSnoc(0, "", '4');
    }
    assert Fold("43") == Some(4) by {
      assert "4" + ['3'] == "43";
      FoldSnoc(0, "4", '3');
    }
    assert Fold("438") == Some(7) by {
      assert "43" + ['8'] == "438";
      FoldSnoc(0, "43", '8');
    }
    assert Fold("4388") == Some(1) by {
      assert "438" + ['8'] == "4388";
      FoldSnoc(0, "438", '8');
    }
    assert Fold("43881") == Some(0) by {
      assert "4388" + ['1'] == "43881";
      FoldSnoc(0, "4388", '1');
    }
    assert Fold("438812") == Some(1) by {
      assert "43881" + ['2'] == "438812";
      FoldSnoc(0, "43881", '2');
    }
  }

  lemma Example43881234567()
    ensures Fold("43881234567") == Some(9)
  {
    Example438812();
    assert Fold("4388123") == Some(2) by {
      assert "438812" + ['3'] == "4388123";
      FoldSnoc(0, "438812", '3');
    }
    assert Fold("43881234") == Some(8) by {
      assert "4388123" + ['4'] == "43881234";
      FoldSnoc(0, "4388123", '4');
    }
    assert Fold("438812345") == Some(1) by {
      assert "43881234" + ['5'] == "438812345";
      FoldSnoc(0, "43881234", '5');
    }
    assert Fold("4388123456") == Some(4) by {
      assert "438812345" + ['6'] == "4388123456";
      FoldSnoc(0, "438812345", '6');
    }
    assert Fold("43881234567") == Some(9) by {
      assert "4388123456" + ['7'] == "43881234567";
      FoldSnoc(0, "4388123456", '7');
    }
  }

  lemma Example438812345679()
    ensures CheckSum("43881234567") == Some("438812345679")
    ensures IsValid("438812345679")
    ensures !IsValid("438812345670")
  {
    Example43881234567();
    assert "43881234567" + ['9'] == "438812345679";
    FoldSnoc(0, "43881234567", '9');
    assert "43881234567" + ['0'] == "438812345670";
    FoldSnoc(0, "43881234567", '0');
  }

  /** A non-digit character anywhere makes `encode` fail. */
  lemma ExampleMalformed()
    ensures Fold("12a3") == None && CheckSum("12a3") == None && !IsValid("12a3")
  {
    FoldDefinedIff(0, "12a3");
    assert !IsDigit("12a3"[2]);
  }
}
