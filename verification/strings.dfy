/** String helpers shared by the report formatter, the URL validator, the
    analyzer's messages and the cell-value coercion: occurrence search,
    left-to-right non-overlapping replacement (Python's `str.replace`),
    joining, and decimal rendering/parsing of natural numbers. */
module Strings {

  import opened Wrappers

  /** `p` occurs in `s` starting at index `i`. */
  predicate OccursAt(s: string, p: string, i: int) {
    0 <= i && i + |p| <= |s| && s[i..i + |p|] == p
  }

  /** `p` occurs somewhere in `s`. */
  predicate Contains(s: string, p: string) {
    exists i :: 0 <= i <= |s| - |p| && OccursAt(s, p, i)
  }

  /** Python's `s.replace(pat, rep)`: scanning left to right, every
      non-overlapping occurrence of `pat` is replaced by `rep`. */
  function ReplaceAll(s: string, pat: string, rep: string): string
    requires |pat| > 0
    decreases |s|
  {
    if |s| < |pat| then s
    else if pat <= s then rep + ReplaceAll(s[|pat|..], pat, rep)
    else [s[0]] + ReplaceAll(s[1..], pat, rep)
  }

  /** The number of replacements `ReplaceAll` performs. */
  function CountReplaced(s: string, pat: string): nat
    requires |pat| > 0
    decreases |s|
  {
    if |s| < |pat| then 0
    else if pat <= s then 1 + CountReplaced(s[|pat|..], pat)
    else CountReplaced(s[1..], pat)
  }

  lemma OccursAtShift(s: string, p: string, i: int, d: nat)
    requires d <= |s| && 0 <= i
    ensures OccursAt(s[d..], p, i) <==> OccursAt(s, p, i + d)
  {
    if 0 <= i && i + |p| <= |s| - d {
      assert s[d..][i..i + |p|] == s[i + d..i + d + |p|];
    }
  }

  /** No replacement happens exactly when the pattern does not occur. */
  lemma {:induction false} CountZeroIff(s: string, pat: string)
    requires |pat| > 0
    ensures CountReplaced(s, pat) == 0 <==> !Contains(s, pat)
    decreases |s|
  {
    if |s| < |pat| {
      forall i | OccursAt(s, pat, i) ensures false { }
    } else if pat <= s {
      assert OccursAt(s, pat, 0);
    } else {
      CountZeroIff(s[1..], pat);
      if Contains(s, pat) {
        var i :| 0 <= i <= |s| - |pat| && OccursAt(s, pat, i);
        assert i != 0;
        OccursAtShift(s, pat, i - 1, 1);
        assert OccursAt(s[1..], pat, i - 1);
      }
      if Contains(s[1..], pat) {
        var i :| 0 <= i <= |s[1..]| - |pat| && OccursAt(s[1..], pat, i);
        OccursAtShift(s, pat, i, 1);
      }
    }
  }

  /** Replacement changes the length by the size difference once per
      replaced occurrence. */
  lemma {:induction false} ReplaceAllLength(s: string, pat: string, rep: string)
    requires |pat| > 0
    ensures |ReplaceAll(s, pat, rep)| == |s| + CountReplaced(s, pat) * (|rep| - |pat|)
    decreases |s|
  {
    var d := |rep| - |pat|;
    if |s| < |pat| {
      assert CountReplaced(s, pat) == 0;
    } else if pat <= s {
      var rest := s[|pat|..];
      ReplaceAllLength(rest, pat, rep);
      var c := CountReplaced(rest, pat);
      assert CountReplaced(s, pat) == 1 + c;
      assert |ReplaceAll(s, pat, rep)| == |rep| + |rest| + c * d;
      MulSucc(c, d);
    } else {
      ReplaceAllLength(s[1..], pat, rep);
      assert CountReplaced(s, pat) == CountReplaced(s[1..], pat);
    }
  }

  lemma MulSucc(c: int, d: int)
    ensures (1 + c) * d == d + c * d
  {
  }

  /** Text without the pattern comes back unchanged. */
  lemma {:induction false} ReplaceAllAbsent(s: string, pat: string, rep: string)
    requires |pat| > 0
    requires !Contains(s, pat)
    ensures ReplaceAll(s, pat, rep) == s
    decreases |s|
  {
    if |s| < |pat| {
    } else {
      assert !OccursAt(s, pat, 0);
      forall i | OccursAt(s[1..], pat, i) ensures false {
        OccursAtShift(s, pat, i, 1);
      }
      ReplaceAllAbsent(s[1..], pat, rep);
      assert [s[0]] + s[1..] == s;
    }
  }

  /** No occurrence of `pat` in `u + v` starts in `u` and ends in `v`. */
  predicate NoStraddle(u: string, v: string, pat: string) {
    forall j :: 0 <= j < |u| < j + |pat| ==> !OccursAt(u + v, pat, j)
  }

  lemma NoStraddleShift(u: string, v: string, pat: string, d: nat)
    requires d <= |u| && NoStraddle(u, v, pat)
    ensures NoStraddle(u[d..], v, pat)
  {
    var s := u + v;
    assert u[d..] + v == s[d..];
    forall j | 0 <= j < |u[d..]| < j + |pat| ensures !OccursAt(u[d..] + v, pat, j) {
      OccursAtShift(s, pat, j, d);
    }
  }

  /** Replacement works piece by piece when no occurrence of the pattern
      straddles the boundary between the pieces. */
  lemma {:induction false} ReplaceAllConcat(u: string, v: string, pat: string, rep: string)
    requires |pat| > 0
    requires NoStraddle(u, v, pat)
    ensures ReplaceAll(u + v, pat, rep) == ReplaceAll(u, pat, rep) + ReplaceAll(v, pat, rep)
    decreases |u|
  {
    var s := u + v;
    if |u| == 0 {
      assert s == v;
    } else if |s| < |pat| {
      ReplaceAllAbsentShort(v, pat, rep);
      ReplaceAllAbsentShort(u, pat, rep);
    } else if pat <= s {
      ReplaceAllConcatMatch(u, v, pat, rep);
    } else {
      assert |u| >= |pat| ==> u[..|pat|] == s[..|pat|];
      ReplaceAllConcatStep(u, v, pat, rep);
    }
  }

  lemma {:induction false} ReplaceAllConcatMatch(u: string, v: string, pat: string, rep: string)
    requires |pat| > 0 && |u| > 0
    requires NoStraddle(u, v, pat)
    requires pat <= u + v
    ensures ReplaceAll(u + v, pat, rep) == ReplaceAll(u, pat, rep) + ReplaceAll(v, pat, rep)
    decreases |u|, 0
  {
    var s := u + v;
    assert OccursAt(s, pat, 0);
    assert |pat| <= |u|;
    assert u[..|pat|] == s[..|pat|];
    assert pat <= u;
    NoStraddleShift(u, v, pat, |pat|);
    ReplaceAllConcat(u[|pat|..], v, pat, rep);
    assert s[|pat|..] == u[|pat|..] + v;
  }

  lemma {:induction false} ReplaceAllConcatStep(u: string, v: string, pat: string, rep: string)
    requires |pat| > 0 && |u| > 0 && |u + v| >= |pat|
    requires NoStraddle(u, v, pat)
    requires !(pat <= u + v) && !(pat <= u)
    ensures ReplaceAll(u + v, pat, rep) == ReplaceAll(u, pat, rep) + ReplaceAll(v, pat, rep)
    decreases |u|, 0
  {
    var s := u + v;
    var tail := u[1..];
    NoStraddleShift(u, v, pat, 1);
    ReplaceAllConcat(tail, v, pat, rep);
    assert s[1..] == tail + v;
    assert s[0] == u[0];
    ReplaceAllHead(s, pat, rep);
    ReplaceAllHead(u, pat, rep);
    assert [u[0]] + (ReplaceAll(tail, pat, rep) + ReplaceAll(v, pat, rep))
        == ([u[0]] + ReplaceAll(tail, pat, rep)) + ReplaceAll(v, pat, rep);
  }

  /** Unless the text starts with the pattern, its first character is
      copied. */
  lemma ReplaceAllHead(u: string, pat: string, rep: string)
    requires |pat| > 0 && |u| > 0 && !(pat <= u)
    ensures ReplaceAll(u, pat, rep) == [u[0]] + ReplaceAll(u[1..], pat, rep)
  {
    if |u| < |pat| {
      ReplaceAllAbsentShort(u[1..], pat, rep);
      assert u == [u[0]] + u[1..];
    }
  }

  /** Text shorter than the pattern comes back unchanged. */
  lemma ReplaceAllAbsentShort(s: string, pat: string, rep: string)
    requires 0 < |pat| && |s| < |pat|
    ensures ReplaceAll(s, pat, rep) == s
  {
  }

  /** When the replacement is longer than the pattern, the text comes back
      unchanged exactly when the pattern does not occur, and it never
      shrinks. */
  lemma ReplaceAllGrowsIff(s: string, pat: string, rep: string)
    requires 0 < |pat| < |rep|
    ensures |ReplaceAll(s, pat, rep)| >= |s|
    ensures ReplaceAll(s, pat, rep) == s || |ReplaceAll(s, pat, rep)| > |s|
    ensures ReplaceAll(s, pat, rep) == s <==> !Contains(s, pat)
  {
    ReplaceAllLength(s, pat, rep);
    CountZeroIff(s, pat);
    var c := CountReplaced(s, pat);
    var d := |rep| - |pat|;
    PositiveProduct(c, d);
    if !Contains(s, pat) {
      ReplaceAllAbsent(s, pat, rep);
    } else {
      assert |ReplaceAll(s, pat, rep)| > |s|;
    }
  }

  lemma PositiveProduct(c: nat, d: int)
    requires d > 0
    ensures c * d >= 0
    ensures c > 0 ==> c * d > 0
  {
  }

  /** Python's `sep.join(xs)`. */
  function Join(xs: seq<string>, sep: string): string {
    if |xs| == 0 then ""
    else if |xs| == 1 then xs[0]
    else xs[0] + sep + Join(xs[1..], sep)
  }

  /** Concatenation of a sequence of strings. */
  function Concat(xs: seq<string>): string {
    if |xs| == 0 then "" else xs[0] + Concat(xs[1..])
  }

  /** Sum of the lengths of a sequence of strings. */
  function TotalLength(xs: seq<string>): nat {
    if |xs| == 0 then 0 else |xs[0]| + TotalLength(xs[1..])
  }

  /** Each piece of a concatenation sits at the offset given by the lengths
      of the pieces before it. */
  lemma {:induction false} ConcatPieceAt(xs: seq<string>, k: nat)
    requires k < |xs|
    ensures |Concat(xs)| == TotalLength(xs)
    ensures OccursAt(Concat(xs), xs[k], TotalLength(xs[..k]))
  {
    if k == 0 {
      ConcatLength(xs);
      assert xs[..0] == [];
      assert Concat(xs)[0..|xs[0]|] == xs[0];
    } else {
      ConcatPieceAt(xs[1..], k - 1);
      ConcatLength(xs);
      assert xs[1..][..k - 1] == xs[..k][1..];
      var off := TotalLength(xs[1..][..k - 1]);
      assert TotalLength(xs[..k]) == |xs[0]| + off;
      assert xs[1..][k - 1] == xs[k];
      OccursAtShift(Concat(xs), xs[k], off, |xs[0]|);
      assert Concat(xs)[|xs[0]|..] == Concat(xs[1..]);
    }
  }

  lemma {:induction false} ConcatLength(xs: seq<string>)
    ensures |Concat(xs)| == TotalLength(xs)
  {
    if |xs| > 0 {
      ConcatLength(xs[1..]);
    }
  }

  predicate IsDigit(c: char) {
    '0' <= c <= '9'
  }

  /** Decimal rendering of a natural number, as Python's `str(n)`. */
  function NatToString(n: nat): (s: string)
    ensures |s| > 0
    ensures forall i :: 0 <= i < |s| ==> IsDigit(s[i])
    ensures |s| > 1 ==> s[0] != '0'
    decreases n
  {
    if n < 10 then [Digit(n)] else NatToString(n / 10) + [Digit(n % 10)]
  }

  function Digit(d: nat): (c: char)
    requires d < 10
    ensures IsDigit(c) && (c as int) - ('0' as int) == d
  {
    (('0' as int) + d) as char
  }

  /** Value of a string made only of decimal digits. */
  function DigitsValue(s: string): nat
    requires forall i :: 0 <= i < |s| ==> IsDigit(s[i])
  {
    if |s| == 0 then 0
    else
      assert IsDigit(s[|s| - 1]);
      10 * DigitsValue(s[..|s| - 1]) + ((s[|s| - 1] as int) - ('0' as int))
  }

  /** Parses a non-empty string of decimal digits; anything else is None. */
  function ParseNat(s: string): (r: Option<nat>)
    ensures r.Some? <==> |s| > 0 && forall i :: 0 <= i < |s| ==> IsDigit(s[i])
  {
    if |s| > 0 && forall i :: 0 <= i < |s| ==> IsDigit(s[i]) then Some(DigitsValue(s)) else None
  }

  /** Rendering then parsing gives the number back. */
  lemma {:induction false} ParseNatToString(n: nat)
    ensures ParseNat(NatToString(n)) == Some(n)
    decreases n
  {
    var s := NatToString(n);
    if n < 10 {
      assert s[..0] == [];
    } else {
      ParseNatToString(n / 10);
      var p := NatToString(n / 10);
      assert s[..|s| - 1] == p;
      assert DigitsValue(p) == n / 10;
      assert DigitsValue(s) == 10 * (n / 10) + n % 10;
    }
  }

}
