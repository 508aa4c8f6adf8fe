// Row classification: count the even and odd tokens of one radar row and
// call the row hostile when odd tokens strictly outnumber even ones
// (src/functions.py:67-80).

module Classifier {

  import opened Tokens

  datatype Detection = Hostile | Clear

  /** Number of tokens of `row` whose class is `p`. */
  function Count(row: seq<string>, p: Parity): nat
    decreases |row|
  {
    if row == [] then 0
    else Count(row[..|row| - 1], p) + (if TokenParity(row[|row| - 1]) == Some(p) then 1 else 0)
  }

  /** Every token of the row has a last character once stripped. */
  predicate WellFormed(row: seq<string>)
  {
    forall i :: 0 <= i < |row| ==> TokenParity(row[i]).Some?
  }

  /**
   * The verdict for one time step. `None` is the index error the source raises
   * on a token that strips to nothing.
   */
  function Classify(row: seq<string>): Option<Detection>
  {
    if !WellFormed(row) then None
    else if Count(row, Odd) > Count(row, Even) then Some(Hostile)
    else Some(Clear)
  }

  /**
   * Hostile exactly when more than half of the tokens are odd; clear when at
   * most half are, so a tie (and the empty row) is clear.
   */
  lemma ClassifyMajority(row: seq<string>)
    ensures Classify(row).None? <==> !WellFormed(row)
    ensures Classify(row) == Some(Hostile) <==> WellFormed(row) && 2 * Count(row, Odd) > |row|
    ensures Classify(row) == Some(Clear) <==> WellFormed(row) && 2 * Count(row, Odd) <= |row|
  {
    if WellFormed(row) {
      CountsCoverRow(row);
    }
  }

  /**
   * The inner loop of a time step: every token is stripped and sorted by its
   * last character. `ok` is false when a token strips to nothing, where the
   * source stops with an index error.
   */
  method CountParities(row: seq<string>) returns (ok: bool, odd: nat, even: nat)
    ensures ok == WellFormed(row)
    ensures ok ==> odd == Count(row, Odd) && even == Count(row, Even)
    ensures ok ==> odd + even == |row|
    ensures Classify(row) == if !ok then None else if odd > even then Some(Hostile) else Some(Clear)
  {
    odd, even := 0, 0;
    var i := 0;
    while i < |row|
      invariant 0 <= i <= |row|
      invariant forall k :: 0 <= k < i ==> TokenParity(row[k]).Some?
      invariant odd == Count(row[..i], Odd) && even == Count(row[..i], Even)
      invariant odd + even == i
    {
      var token := Strip(row[i]);
      StripDecidesParity(row[i]);
      if token == [] {
        assert !WellFormed(row) by { assert TokenParity(row[i]).None?; }
        return false, odd, even;
      }
      ghost var done := row[..i + 1];
      assert done[..i] == row[..i] && done[i] == row[i];
      if token[|token| - 1] == '0' {
        even := even + 1;
      } else {
        odd := odd + 1;
      }
      i := i + 1;
    }
    assert row[..i] == row;
    ok := true;
  }

  /** Each token of a well-formed row is counted exactly once, as even or as odd. */
  lemma {:induction false} CountsCoverRow(row: seq<string>)
    requires WellFormed(row)
    ensures Count(row, Odd) + Count(row, Even) == |row|
    decreases |row|
  {
    if row != [] {
      CountsCoverRow(row[..|row| - 1]);
    }
  }

  lemma {:induction false} CountAppend(a: seq<string>, b: seq<string>, p: Parity)
    ensures Count(a + b, p) == Count(a, p) + Count(b, p)
    decreases |b|
  {
    if b == [] {
      assert a + b == a;
    } else {
      var ab := a + b;
      assert ab[..|ab| - 1] == a + b[..|b| - 1];
      assert ab[|ab| - 1] == b[|b| - 1];
      CountAppend(a, b[..|b| - 1], p);
    }
  }

  lemma CountRemove(b: seq<string>, j: int, p: Parity)
    requires 0 <= j < |b|
    ensures Count(b, p) == Count(b[..j] + b[j + 1..], p) + Count([b[j]], p)
  {
    assert b == b[..j] + [b[j]] + b[j + 1..];
    CountAppend(b[..j] + [b[j]], b[j + 1..], p);
    CountAppend(b[..j], [b[j]], p);
    CountAppend(b[..j], b[j + 1..], p);
  }

  lemma MultisetRemove(b: seq<string>, j: int)
    requires 0 <= j < |b|
    ensures multiset(b[..j] + b[j + 1..]) == multiset(b) - multiset{b[j]}
  {
    assert b == b[..j] + [b[j]] + b[j + 1..];
  }

  /** The order of the tokens within a row does not matter to the counts. */
  lemma {:induction false} CountPermutation(a: seq<string>, b: seq<string>, p: Parity)
    requires multiset(a) == multiset(b)
    ensures Count(a, p) == Count(b, p)
    decreases |a|
  {
    if a != [] {
      var x := a[|a| - 1];
      var a' := a[..|a| - 1];
      assert a == a' + [x];
      assert x in multiset(b);
      var j :| 0 <= j < |b| && b[j] == x;
      var b' := b[..j] + b[j + 1..];
      MultisetRemove(b, j);
      assert multiset(a') == multiset(a) - multiset{x};
      CountPermutation(a', b', p);
      CountRemove(b, j, p);
      CountAppend(a', [x], p);
    }
  }

  /** Reordering the tokens of a row never changes its verdict. */
  lemma ClassifyPermutation(a: seq<string>, b: seq<string>)
    requires multiset(a) == multiset(b)
    ensures Classify(a) == Classify(b)
  {
    assert |a| == |multiset(a)| == |b|;
    assert WellFormed(a) <==> WellFormed(b) by {
      forall i | 0 <= i < |b| ensures b[i] in a {
        assert b[i] in multiset(b);
      }
      forall i | 0 <= i < |a| ensures a[i] in b {
        assert a[i] in multiset(a);
      }
    }
    CountPermutation(a, b, Odd);
    CountPermutation(a, b, Even);
  }

  /**
   * Worked examples: two odd tokens against one even is hostile, the reverse is
   * clear, a tie and an empty row are clear, a trailing character other than
   * '0' counts as odd whatever it is, and a blank token is the error case.
   */
  lemma ClassifyExamples()
    ensures Classify(["1111111", "1111111", "0000000"]) == Some(Hostile)
    ensures Classify(["0000000", "0000000", "1111111"]) == Some(Clear)
    ensures Classify(["1111111", "0000000"]) == Some(Clear)
    ensures Classify([]) == Some(Clear)
    ensures Classify([" 0000001 ", "101x"]) == Some(Hostile)
    ensures Classify(["1111111", "  "]) == None
  {
    var one, zero := "1111111", "0000000";
    var none: seq<string> := [];
    assert TokenParity(one) == Some(Odd) && TokenParity(zero) == Some(Even);
    assert Count([one], Odd) == 1 && Count([zero], Odd) == 0 by {
      assert [one][..0] == [zero][..0] == none;
    }
    var r1 := [one, one, zero];
    assert r1[..2][..1] == [one] && Count(r1[..2], Odd) == 2;
    ClassifyMajority(r1);
    var r2 := [zero, zero, one];
    assert r2[..2][..1] == [zero] && Count(r2[..2], Odd) == 0;
    ClassifyMajority(r2);
    var r3 := [one, zero];
    assert r3[..1] == [one];
    ClassifyMajority(r3);
    var a, b := " 0000001 ", "101x";
    assert TokenParity(a) == Some(Odd) by {
      assert a[..|a| - 1] == " 0000001";
    }
    assert TokenParity(b) == Some(Odd);
    var r5 := [a, b];
    assert r5[..1] == [a] && [a][..0] == none;
    ClassifyMajority(r5);
    var r6 := [one, "  "];
    TokenParityNoneIffBlank(r6[1]);
    assert TokenParity(r6[1]) == None;
  }

  lemma {:induction false} CountUniform(row: seq<string>, p: Parity)
    requires forall i :: 0 <= i < |row| ==> TokenParity(row[i]) == Some(p)
    ensures Count(row, p) == |row|
    decreases |row|
  {
    if row != [] {
      CountUniform(row[..|row| - 1], p);
    }
  }

  /** A non-empty row of odd tokens only is hostile; a row of even tokens only is clear. */
  lemma ClassifyUniform(row: seq<string>, p: Parity)
    requires forall i :: 0 <= i < |row| ==> TokenParity(row[i]) == Some(p)
    ensures Classify(row) == if p == Odd && row != [] then Some(Hostile) else Some(Clear)
  {
    CountUniform(row, p);
    CountsCoverRow(row);
  }
}
