/**
  Removing surrounding whitespace, for a caller-chosen notion of whitespace:
  JavaScript's `String.prototype.trim` and Python's `str.strip()` differ only
  in which characters count as space.
 */
module Trimming {

  /** Every character of `s` is space. */
  predicate AllSpace(s: string, isSpace: char -> bool) {
    forall i :: 0 <= i < |s| ==> isSpace(s[i])
  }

  /** Neither the first nor the last character of `s` is space. */
  predicate Trimmed(s: string, isSpace: char -> bool) {
    |s| == 0 || (!isSpace(s[0]) && !isSpace(s[|s| - 1]))
  }

  /** `s` without its leading space. */
  function TrimStart(s: string, isSpace: char -> bool): string
    decreases |s|
  {
    if |s| > 0 && isSpace(s[0]) then TrimStart(s[1..], isSpace) else s
  }

  /** What `TrimStart` removes is a run of space, and what it keeps does not start with space. */
  lemma {:induction false} TrimStartSpec(s: string, isSpace: char -> bool)
    ensures var r := TrimStart(s, isSpace);
            && |r| <= |s| && r == s[|s| - |r|..]
            && AllSpace(s[..|s| - |r|], isSpace)
            && (|r| > 0 ==> !isSpace(r[0]))
    decreases |s|
  {
    if |s| > 0 && isSpace(s[0]) {
      TrimStartSpec(s[1..], isSpace);
      var r := TrimStart(s, isSpace);
      assert s[..|s| - |r|] == [s[0]] + s[1..][..|s| - 1 - |r|];
    }
  }

  /** `s` without its trailing space. */
  function TrimEnd(s: string, isSpace: char -> bool): string
    decreases |s|
  {
    if |s| > 0 && isSpace(s[|s| - 1]) then TrimEnd(s[..|s| - 1], isSpace) else s
  }

  /** What `TrimEnd` removes is a run of space, and what it keeps does not end with space. */
  lemma {:induction false} TrimEndSpec(s: string, isSpace: char -> bool)
    ensures var r := TrimEnd(s, isSpace);
            && |r| <= |s| && r == s[..|r|]
            && AllSpace(s[|r|..], isSpace)
            && (|r| > 0 ==> !isSpace(r[|r| - 1]))
    decreases |s|
  {
    if |s| > 0 && isSpace(s[|s| - 1]) {
      TrimEndSpec(s[..|s| - 1], isSpace);
      var r := TrimEnd(s, isSpace);
      assert s[|r|..] == s[..|s| - 1][|r|..] + [s[|s| - 1]];
    }
  }

  /** `s` without its leading and trailing space. */
  function Trim(s: string, isSpace: char -> bool): (r: string)
    ensures Trimmed(r, isSpace)
  {
    TrimStartSpec(s, isSpace);
    TrimEndSpec(TrimStart(s, isSpace), isSpace);
    TrimEnd(TrimStart(s, isSpace), isSpace)
  }

  /** Trimming leaves an infix of the input flanked by space only. */
  lemma TrimIsInfix(s: string, isSpace: char -> bool)
    ensures exists i, j :: 0 <= i <= j <= |s| && Trim(s, isSpace) == s[i..j]
                           && AllSpace(s[..i], isSpace) && AllSpace(s[j..], isSpace)
  {
    var a := TrimStart(s, isSpace);
    var r := TrimEnd(a, isSpace);
    TrimStartSpec(s, isSpace);
    TrimEndSpec(a, isSpace);
    var i := |s| - |a|;
    var j := i + |r|;
    assert r == s[i..j];
    assert s[j..] == a[|r|..];
  }

  /** Trimming yields the empty string exactly when the input is all space. */
  lemma TrimEmptyIff(s: string, isSpace: char -> bool)
    ensures Trim(s, isSpace) == [] <==> AllSpace(s, isSpace)
  {
    var a := TrimStart(s, isSpace);
    TrimStartSpec(s, isSpace);
    TrimEndSpec(a, isSpace);
    if Trim(s, isSpace) == [] {
      assert s == s[..|s| - |a|] + a;
    }
  }

  /** A string with no surrounding space is its own trim. */
  lemma TrimOfTrimmed(s: string, isSpace: char -> bool)
    requires Trimmed(s, isSpace)
    ensures Trim(s, isSpace) == s
  {
  }

  /** Trimming twice is trimming once. */
  lemma TrimIdempotent(s: string, isSpace: char -> bool)
    ensures Trim(Trim(s, isSpace), isSpace) == Trim(s, isSpace)
  {
    TrimOfTrimmed(Trim(s, isSpace), isSpace);
  }
}
