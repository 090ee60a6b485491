/** String building blocks shared by the formatters: decimal rendering,
    Python's `str.join`, `str.replace`, slicing off a trailing separator and
    the code-point order Python uses to sort strings. */
module Text {

  predicate IsDigit(c: char) {
    '0' <= c <= '9'
  }

  predicate AllDigits(s: string) {
    forall i :: 0 <= i < |s| ==> IsDigit(s[i])
  }

  function DigitChar(d: nat): (c: char)
    requires d < 10
    ensures IsDigit(c)
  {
    ('0' as int + d) as char
  }

  function DigitValue(c: char): (d: nat)
    requires IsDigit(c)
    ensures d < 10
  {
    c as int - '0' as int
  }

  /** Value of a string of decimal digits (the empty string reads as 0). */
  function ParseNat(s: string): nat
    requires AllDigits(s)
  {
    if |s| == 0 then 0 else ParseNat(s[..|s| - 1]) * 10 + DigitValue(s[|s| - 1])
  }

  /** Python's `str(n)` for a natural number: decimal, no leading zero. */
  function NatToString(n: nat): (s: string)
    ensures 0 < |s|
    ensures AllDigits(s)
    ensures |s| == 1 <==> n < 10
    ensures 1 < |s| ==> s[0] != '0'
    decreases n
  {
    if n < 10 then [DigitChar(n)]
    else
      var head := NatToString(n / 10);
      assert |head| == 1 ==> head == [DigitChar(n / 10)];
      head + [DigitChar(n % 10)]
  }

  /** Reading back the rendering of `n` gives `n`. */
  lemma {:induction false} ParseNatToString(n: nat)
    ensures ParseNat(NatToString(n)) == n
    decreases n
  {
    if n >= 10 {
      var s := NatToString(n);
      assert s[..|s| - 1] == NatToString(n / 10);
      ParseNatToString(n / 10);
    }
  }

  /** The `%02d` / `{:02d}` rendering of a number below 100. */
  function Pad2(n: nat): (s: string)
    requires n < 100
    ensures |s| == 2 && AllDigits(s)
    ensures ParseNat(s) == n
  {
    var s := [DigitChar(n / 10), DigitChar(n % 10)];
    assert s[..1] == [DigitChar(n / 10)];
    assert s[..1][..0] == [];
    assert ParseNat(s[..1]) == n / 10;
    s
  }

  /** Python's `sep.join(parts)`. */
  function Join(sep: string, parts: seq<string>): string
  {
    if |parts| == 0 then ""
    else if |parts| == 1 then parts[0]
    else parts[0] + sep + Join(sep, parts[1..])
  }

  /** What a loop doing `acc += part + sep` for every part builds. */
  function Terminated(sep: string, parts: seq<string>): string
  {
    if |parts| == 0 then "" else parts[0] + sep + Terminated(sep, parts[1..])
  }

  /** `if s: s = s[:-2]`, the source's removal of a trailing `", "`. */
  function DropTrailingPair(s: string): string
  {
    if |s| == 0 then s else if |s| < 2 then "" else s[..|s| - 2]
  }

  lemma {:induction false} TerminatedIsJoinThenSep(sep: string, parts: seq<string>)
    requires 0 < |parts|
    ensures Terminated(sep, parts) == Join(sep, parts) + sep
    decreases |parts|
  {
    if |parts| > 1 {
      TerminatedIsJoinThenSep(sep, parts[1..]);
    }
  }

  /** Appending a two-character separator after every part and then cutting
      the last two characters is the same as joining with that separator. */
  lemma DropTrailingPairOfTerminated(sep: string, parts: seq<string>)
    requires |sep| == 2 && 0 < |parts|
    ensures DropTrailingPair(Terminated(sep, parts)) == Join(sep, parts)
  {
    TerminatedIsJoinThenSep(sep, parts);
    var t := Terminated(sep, parts);
    assert t[..|t| - 2] == Join(sep, parts);
  }

  /** The string a loop doing `acc += piece` builds. */
  function Concat(pieces: seq<string>): string
  {
    if |pieces| == 0 then "" else pieces[0] + Concat(pieces[1..])
  }

  /** Pieces that each end in `sep` concatenate to the parts terminated by
      `sep`. */
  lemma {:induction false} ConcatOfSuffixedPieces(sep: string, parts: seq<string>, pieces: seq<string>)
    requires |pieces| == |parts|
    requires forall i :: 0 <= i < |pieces| ==> pieces[i] == parts[i] + sep
    ensures Concat(pieces) == Terminated(sep, parts)
    decreases |parts|
  {
    if |parts| > 0 {
      ConcatOfSuffixedPieces(sep, parts[1..], pieces[1..]);
    }
  }

  /** Python's `s.replace(pat, rep)`: left to right, non-overlapping. */
  function Replace(s: string, pat: string, rep: string): string
    requires 0 < |pat|
    decreases |s|
  {
    if |s| < |pat| then s
    else if s[..|pat|] == pat then rep + Replace(s[|pat|..], pat, rep)
    else [s[0]] + Replace(s[1..], pat, rep)
  }

  /** A prefix free of the pattern's first character is copied unchanged. */
  lemma {:induction false} ReplaceSkipsPrefix(p: string, rest: string, pat: string, rep: string)
    requires 0 < |pat|
    requires forall i :: 0 <= i < |p| ==> p[i] != pat[0]
    ensures Replace(p + rest, pat, rep) == p + Replace(rest, pat, rep)
    decreases |p|
  {
    if |p| > 0 {
      var s := p + rest;
      if |s| >= |pat| {
        assert s[0] == p[0];
        assert s[..|pat|][0] != pat[0];
        assert Replace(s, pat, rep) == [s[0]] + Replace(s[1..], pat, rep);
        assert s[1..] == p[1..] + rest;
        ReplaceSkipsPrefix(p[1..], rest, pat, rep);
        assert Replace(s[1..], pat, rep) == p[1..] + Replace(rest, pat, rep);
        assert [s[0]] + (p[1..] + Replace(rest, pat, rep)) == p + Replace(rest, pat, rep);
      } else {
        assert Replace(rest, pat, rep) == rest;
        assert Replace(s, pat, rep) == s;
      }
    } else {
      assert p + rest == rest;
    }
  }

  /** First position of `c` in `s`, or `|s|` when absent. */
  function IndexOf(s: string, c: char): (k: nat)
    ensures k <= |s|
    ensures k < |s| ==> s[k] == c
    ensures forall i :: 0 <= i < k ==> s[i] != c
  {
    if |s| == 0 then 0 else if s[0] == c then 0 else 1 + IndexOf(s[1..], c)
  }

  /** Python's `<` on `str`: code point by code point, a proper prefix first. */
  predicate LexLess(a: string, b: string)
  {
    if |a| == 0 then 0 < |b|
    else if |b| == 0 then false
    else if a[0] != b[0] then a[0] < b[0]
    else LexLess(a[1..], b[1..])
  }

  lemma {:induction false} LexLessIrreflexive(a: string)
    ensures !LexLess(a, a)
    decreases |a|
  {
    if |a| > 0 {
      LexLessIrreflexive(a[1..]);
    }
  }

  lemma {:induction false} LexLessTransitive(a: string, b: string, c: string)
    requires LexLess(a, b) && LexLess(b, c)
    ensures LexLess(a, c)
    decreases |a|
  {
    if |a| > 0 && a[0] == b[0] && b[0] == c[0] {
      LexLessTransitive(a[1..], b[1..], c[1..]);
    }
  }

  lemma {:induction false} LexLessTotal(a: string, b: string)
    requires a != b
    ensures LexLess(a, b) || LexLess(b, a)
    decreases |a|
  {
    if |a| > 0 && |b| > 0 && a[0] == b[0] {
      assert a == [a[0]] + a[1..];
      assert b == [b[0]] + b[1..];
      LexLessTotal(a[1..], b[1..]);
    }
  }
}
