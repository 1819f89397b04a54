/** The parts of Go's `strings` and `unicode` packages and of Go's string
    comparison that the lobby relies on. */
module Text {

  /** The characters `unicode.IsSpace` accepts: the Latin-1 spaces and the
      other characters with the Unicode White_Space property. */
  const SpaceChars: set<char> := {
    '\t', '\n', '\U{0B}', '\U{0C}', '\r', ' ', '\U{85}', '\U{A0}', '\U{1680}',
    '\U{2000}', '\U{2001}', '\U{2002}', '\U{2003}', '\U{2004}', '\U{2005}',
    '\U{2006}', '\U{2007}', '\U{2008}', '\U{2009}', '\U{200A}',
    '\U{2028}', '\U{2029}', '\U{202F}', '\U{205F}', '\U{3000}'
  }

  /** `unicode.IsSpace`. */
  predicate IsSpace(c: char)
  {
    c in SpaceChars
  }

  /** Drops the leading white space of `s`. */
  function TrimLeft(s: string): (r: string)
    ensures |r| <= |s| && r == s[|s| - |r|..]
    ensures forall i :: 0 <= i < |s| - |r| ==> IsSpace(s[i])
    ensures |r| > 0 ==> !IsSpace(r[0])
  {
    if |s| > 0 && IsSpace(s[0]) then
      var r := TrimLeft(s[1..]);
      assert s[1..][|s| - 1 - |r|..] == s[|s| - |r|..];
      assert forall i :: 1 <= i < |s| - |r| ==> s[i] == s[1..][i - 1];
      r
    else s
  }

  /** Drops the trailing white space of `s`. */
  function TrimRight(s: string): (r: string)
    ensures |r| <= |s| && r == s[..|r|]
    ensures forall i :: |r| <= i < |s| ==> IsSpace(s[i])
    ensures |r| > 0 ==> !IsSpace(r[|r| - 1])
  {
    if |s| > 0 && IsSpace(s[|s| - 1]) then TrimRight(s[..|s| - 1]) else s
  }

  /** `strings.TrimSpace`. */
  function TrimSpace(s: string): (r: string)
    ensures |r| > 0 ==> !IsSpace(r[0]) && !IsSpace(r[|r| - 1])
    ensures exists i :: CutFrom(s, r, i)
  {
    TrimSpaceCut(s);
    TrimRight(TrimLeft(s))
  }

  /** `TrimSpace` cuts out the run that starts after the leading white space. */
  lemma TrimSpaceCut(s: string)
    ensures CutFrom(s, TrimRight(TrimLeft(s)), |s| - |TrimLeft(s)|)
  {
    var l := TrimLeft(s);
    CutOfCuts(s, l, TrimRight(l), |s| - |l|);
  }

  /** Cutting leading white space off `s` and then trailing white space off
      the rest is one cut of `s`. */
  lemma CutOfCuts(s: string, l: string, r: string, i: int)
    requires 0 <= i <= |s| && l == s[i..] && |r| <= |l| && r == l[..|r|]
    requires forall k :: 0 <= k < i ==> IsSpace(s[k])
    requires forall k :: |r| <= k < |l| ==> IsSpace(l[k])
    ensures CutFrom(s, r, i)
  {
    forall k | i + |r| <= k < |s|
      ensures IsSpace(s[k])
    {
      assert s[k] == l[k - i];
    }
  }

  /** `r` is the run of `s` starting at `i`, and everything of `s` around
      it is white space. */
  predicate CutFrom(s: string, r: string, i: int)
  {
    && 0 <= i <= |s| - |r|
    && r == s[i..i + |r|]
    && (forall k :: 0 <= k < i ==> IsSpace(s[k]))
    && (forall k :: i + |r| <= k < |s| ==> IsSpace(s[k]))
  }

  /** A string is its own `TrimSpace` exactly when it neither starts nor
      ends with white space. */
  lemma TrimmedIff(s: string)
    ensures s == TrimSpace(s) <==> |s| == 0 || (!IsSpace(s[0]) && !IsSpace(s[|s| - 1]))
  {
  }

  predicate IsUpper(c: char)
  {
    'A' <= c <= 'Z'
  }

  /** `unicode.ToLower` restricted to ASCII. */
  function LowerChar(c: char): (r: char)
    ensures !IsUpper(r)
    ensures !IsUpper(c) ==> r == c
    ensures IsUpper(c) ==> r as int == c as int + ('a' as int - 'A' as int)
  {
    if IsUpper(c) then (c as int + 32) as char else c
  }

  /** No ASCII upper-case letter occurs in `s`. */
  predicate IsLower(s: string)
  {
    forall i :: 0 <= i < |s| ==> !IsUpper(s[i])
  }

  /** `strings.ToLower` restricted to ASCII: same length, every letter
      lower-cased, every other character kept; a lower-case string is a
      fixed point. */
  function ToLower(s: string): (r: string)
    ensures |r| == |s|
    ensures IsLower(r)
    ensures forall i :: 0 <= i < |s| && !IsUpper(s[i]) ==> r[i] == s[i]
    ensures forall i :: 0 <= i < |s| && IsUpper(s[i]) ==> r[i] as int == s[i] as int + ('a' as int - 'A' as int)
    ensures IsLower(s) ==> r == s
  {
    seq(|s|, i requires 0 <= i < |s| => LowerChar(s[i]))
  }

  /** `a` sorts before `b` at position `k`: the two agree on their first `k`
      characters, and there `a` has ended while `b` goes on, or `a` carries
      the smaller character. */
  predicate LessAt(a: string, b: string, k: int)
  {
    0 <= k <= |a| && k < |b| && a[..k] == b[..k] && (k == |a| || a[k] < b[k])
  }

  /** With equal first characters, a difference one position further on in
      the strings is a difference at the tails. */
  lemma LessAtShift(a: string, b: string)
    ensures |a| > 0 && |b| > 0 && a[0] == b[0] ==>
      && (forall k :: 0 < k && LessAt(a, b, k) ==> LessAt(a[1..], b[1..], k - 1))
      && (forall k :: LessAt(a[1..], b[1..], k) ==> LessAt(a, b, k + 1))
  {
    if |a| > 0 && |b| > 0 && a[0] == b[0] {
      forall k | 0 < k && LessAt(a, b, k)
        ensures LessAt(a[1..], b[1..], k - 1)
      {
        assert a[1..][..k - 1] == a[..k][1..];
        assert b[1..][..k - 1] == b[..k][1..];
      }
      forall k | LessAt(a[1..], b[1..], k)
        ensures LessAt(a, b, k + 1)
      {
        assert a[..k + 1] == [a[0]] + a[1..][..k];
        assert b[..k + 1] == [b[0]] + b[1..][..k];
      }
    }
  }

  /** Go's `a < b` on strings: byte-wise lexicographic order of the UTF-8
      encodings, which is the lexicographic order of the code points
      (`StrLessFirstDifference`). */
  predicate StrLess(a: string, b: string): (lt: bool)
    ensures lt ==> a != b
    ensures lt ==> |b| > 0
  {
    |b| > 0 && (|a| == 0 || a[0] < b[0] || (a[0] == b[0] && StrLess(a[1..], b[1..])))
  }

  /** `a < b` exactly when, at the first position where the strings differ,
      `a` has ended or carries the smaller character. */
  lemma {:induction false} StrLessFirstDifference(a: string, b: string)
    ensures StrLess(a, b) <==> exists k :: LessAt(a, b, k)
    decreases |a|
  {
    LessAtShift(a, b);
    if |a| > 0 && |b| > 0 && a[0] == b[0] {
      StrLessFirstDifference(a[1..], b[1..]);
    } else if |b| > 0 && (|a| == 0 || a[0] < b[0]) {
      assert LessAt(a, b, 0);
    }
  }

  lemma {:induction false} StrLessIrreflexive(a: string)
    ensures !StrLess(a, a)
  {
    if |a| > 0 {
      StrLessIrreflexive(a[1..]);
    }
  }

  lemma {:induction false} StrLessTransitive(a: string, b: string, c: string)
    requires StrLess(a, b) && StrLess(b, c)
    ensures StrLess(a, c)
  {
    if |a| > 0 && a[0] == b[0] && b[0] == c[0] {
      StrLessTransitive(a[1..], b[1..], c[1..]);
    }
  }

  /** Any two distinct strings are ordered one way or the other. */
  lemma {:induction false} StrLessTotal(a: string, b: string)
    ensures a == b || StrLess(a, b) || StrLess(b, a)
  {
    if |a| > 0 && |b| > 0 && a[0] == b[0] {
      StrLessTotal(a[1..], b[1..]);
      if a[1..] == b[1..] {
        assert a == [a[0]] + a[1..] && b == [b[0]] + b[1..];
      }
    }
  }

  lemma {:induction false} StrLessAsymmetric(a: string, b: string)
    requires StrLess(a, b)
    ensures !StrLess(b, a)
  {
    if |a| > 0 && a[0] == b[0] {
      StrLessAsymmetric(a[1..], b[1..]);
    }
  }
}
