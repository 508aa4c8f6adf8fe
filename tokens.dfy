// Radar tokens: whitespace trimming and the last-character parity rule
// applied to every token of a radar row (src/functions.py:71-77).

module Tokens {

  datatype Option<T> = None | Some(value: T)

  /** The two classes a token falls into: last character '0' or anything else. */
  datatype Parity = Even | Odd

  /** The characters Python's `str.strip()` removes: those for which `str.isspace()` holds. */
  const Whitespace: set<char> :=
    {'\t', '\n', '\U{0B}', '\U{0C}', '\r', '\U{1C}', '\U{1D}', '\U{1E}', '\U{1F}', ' ',
     '\U{85}', '\U{A0}', '\U{1680}', '\U{2000}', '\U{2001}', '\U{2002}', '\U{2003}', '\U{2004}',
     '\U{2005}', '\U{2006}', '\U{2007}', '\U{2008}', '\U{2009}', '\U{200A}', '\U{2028}',
     '\U{2029}', '\U{202F}', '\U{205F}', '\U{3000}'}

  predicate IsSpace(c: char)
  {
    c in Whitespace
  }

  /** `t[i..j]` is what stripping `t` leaves: only whitespace outside it, none at its ends. */
  ghost predicate IsStripOf(t: string, i: int, j: int)
  {
    0 <= i <= j <= |t| &&
    (forall k :: 0 <= k < i ==> IsSpace(t[k])) &&
    (forall k :: j <= k < |t| ==> IsSpace(t[k])) &&
    (i < j ==> !IsSpace(t[i]) && !IsSpace(t[j - 1]))
  }

  /** Python's `s.lstrip()`: drops leading whitespace. */
  function TrimLeft(t: string): string
    decreases |t|
  {
    if |t| > 0 && IsSpace(t[0]) then TrimLeft(t[1..]) else t
  }

  /** Python's `s.rstrip()`: drops trailing whitespace. */
  function TrimRight(t: string): string
    decreases |t|
  {
    if |t| > 0 && IsSpace(t[|t| - 1]) then TrimRight(t[..|t| - 1]) else t
  }

  /**
   * Python's `s.strip()`, applied to every token before it is inspected
   * (src/functions.py:72); trimming the right end first gives the same string.
   */
  function Strip(t: string): string
  {
    TrimLeft(TrimRight(t))
  }

  /** `TrimLeft` removes a run of whitespace from the front and stops at the first other character. */
  lemma {:induction false} TrimLeftIsSuffix(t: string)
    ensures var r := TrimLeft(t);
            |r| <= |t| && r == t[|t| - |r|..] &&
            (forall k :: 0 <= k < |t| - |r| ==> IsSpace(t[k])) &&
            (r == [] || !IsSpace(r[0]))
    decreases |t|
  {
    if |t| > 0 && IsSpace(t[0]) {
      TrimLeftIsSuffix(t[1..]);
      var r := TrimLeft(t);
      assert r == TrimLeft(t[1..]);
      forall k | 0 <= k < |t| - |r|
        ensures IsSpace(t[k])
      {
        if k > 0 { assert t[k] == t[1..][k - 1]; }
      }
    }
  }

  /** `TrimRight` removes a run of whitespace from the back and stops at the last other character. */
  lemma {:induction false} TrimRightIsPrefix(t: string)
    ensures var r := TrimRight(t);
            |r| <= |t| && r == t[..|r|] &&
            (forall k :: |r| <= k < |t| ==> IsSpace(t[k])) &&
            (r == [] || !IsSpace(r[|r| - 1]))
    decreases |t|
  {
    if |t| > 0 && IsSpace(t[|t| - 1]) {
      var t' := t[..|t| - 1];
      TrimRightIsPrefix(t');
      var r := TrimRight(t);
      assert r == TrimRight(t');
      forall k | |r| <= k < |t|
        ensures IsSpace(t[k])
      {
        if k < |t| - 1 { assert t[k] == t'[k]; }
      }
    }
  }

  /** What `Strip` leaves is the slice of `t` between its leading and trailing whitespace. */
  lemma StripIsSlice(t: string)
    ensures var r := TrimRight(t);
            var i := |r| - |Strip(t)|;
            0 <= i && IsStripOf(t, i, |r|) && Strip(t) == t[i..|r|]
  {
    var r := TrimRight(t);
    TrimRightIsPrefix(t);
    TrimLeftIsSuffix(r);
    var s := TrimLeft(r);
    var i := |r| - |s|;
    assert s == t[i..|r|];
    forall k | 0 <= k < i
      ensures IsSpace(t[k])
    {
      assert t[k] == r[k];
    }
    if s != [] {
      assert t[i] == s[0] && t[|r| - 1] == r[|r| - 1];
    }
  }

  /** Stripping is fully determined: only one slice of `t` satisfies `IsStripOf`. */
  lemma StripSliceUnique(t: string, i: int, j: int, i': int, j': int)
    requires IsStripOf(t, i, j) && IsStripOf(t, i', j')
    ensures t[i..j] == t[i'..j']
  {
  }

  function ParityOf(c: char): Parity
  {
    if c == '0' then Even else Odd
  }

  /** The last character of `t` that is not whitespace, if any. */
  function LastNonSpace(t: string): Option<char>
    decreases |t|
  {
    if t == [] then None
    else if IsSpace(t[|t| - 1]) then LastNonSpace(t[..|t| - 1])
    else Some(t[|t| - 1])
  }

  /**
   * The class a token contributes to its row: '0' as its last non-whitespace
   * character makes it even, every other character (not only '1') makes it odd.
   * A token with no such character is `None`: the source fails on it with an
   * index error.
   */
  function TokenParity(t: string): Option<Parity>
  {
    match LastNonSpace(t)
    case None => None
    case Some(c) => Some(ParityOf(c))
  }

  /** Right-trimming stops exactly at the last non-whitespace character. */
  lemma {:induction false} TrimRightEndsAtLastNonSpace(t: string)
    ensures TrimRight(t) == [] <==> LastNonSpace(t).None?
    ensures TrimRight(t) != [] ==> LastNonSpace(t) == Some(TrimRight(t)[|TrimRight(t)| - 1])
    decreases |t|
  {
    if |t| > 0 && IsSpace(t[|t| - 1]) {
      TrimRightEndsAtLastNonSpace(t[..|t| - 1]);
    }
  }

  /** Left-trimming a string that ends in a non-whitespace character keeps that character last. */
  lemma {:induction false} TrimLeftKeepsLast(s: string)
    requires s != [] && !IsSpace(s[|s| - 1])
    ensures TrimLeft(s) != [] && TrimLeft(s)[|TrimLeft(s)| - 1] == s[|s| - 1]
    decreases |s|
  {
    if IsSpace(s[0]) {
      assert |s| > 1;
      assert s[1..][|s| - 2] == s[|s| - 1];
      TrimLeftKeepsLast(s[1..]);
    }
  }

  /**
   * Stripping a token and reading its last character, as the source does,
   * agrees with `TokenParity`: the stripped token is empty exactly when the
   * token has no class, and otherwise its last character decides the class.
   */
  lemma StripDecidesParity(t: string)
    ensures Strip(t) == [] <==> TokenParity(t).None?
    ensures Strip(t) != [] ==> TokenParity(t) == Some(ParityOf(Strip(t)[|Strip(t)| - 1]))
  {
    var r := TrimRight(t);
    TrimRightEndsAtLastNonSpace(t);
    if r != [] {
      TrimRightIsPrefix(t);
      TrimLeftKeepsLast(r);
    }
  }

  /** A token has no class exactly when it is blank (empty or all whitespace). */
  lemma {:induction false} TokenParityNoneIffBlank(t: string)
    ensures TokenParity(t).None? <==> forall k :: 0 <= k < |t| ==> IsSpace(t[k])
    decreases |t|
  {
    if t != [] {
      var t' := t[..|t| - 1];
      TokenParityNoneIffBlank(t');
      assert forall k :: 0 <= k < |t'| ==> t'[k] == t[k];
    }
  }

  /** Trailing whitespace never changes a token's class. */
  lemma {:induction false} TokenParityIgnoresTrailingSpace(t: string, w: string)
    requires forall k :: 0 <= k < |w| ==> IsSpace(w[k])
    ensures TokenParity(t + w) == TokenParity(t)
    decreases |w|
  {
    if w == [] {
      assert t + w == t;
    } else {
      assert (t + w)[..|t + w| - 1] == t + w[..|w| - 1];
      TokenParityIgnoresTrailingSpace(t, w[..|w| - 1]);
    }
  }
}
