/**
 * The handful of Go `strings` and `strconv` operations the firewall relies on,
 * each characterised by its contract rather than by its body.
 */
module Strings {
  import opened Wrappers

  /** `sub` occurs in `s` starting at byte index `i`. */
  predicate OccursAt(s: string, sub: string, i: nat) {
    i + |sub| <= |s| && s[i..i + |sub|] == sub
  }

  lemma OccursAtTail(s: string, sub: string, i: nat)
    requires s != []
    ensures OccursAt(s[1..], sub, i) <==> OccursAt(s, sub, i + 1)
  {
    if i + 1 + |sub| <= |s| {
      assert s[1..][i..i + |sub|] == s[i + 1..i + 1 + |sub|];
    }
  }

  /** strings.Index: the first index at which `sub` occurs in `s`, None when it does not occur. */
  function IndexOf(s: string, sub: string): (r: Option<nat>)
    ensures r.Some? ==> OccursAt(s, sub, r.value)
    ensures r.Some? ==> forall j: nat :: j < r.value ==> !OccursAt(s, sub, j)
    ensures r.None? ==> forall j: nat :: !OccursAt(s, sub, j)
    decreases |s|
  {
    if OccursAt(s, sub, 0) then Some(0)
    else if s == [] then None
    else
      var r := IndexOf(s[1..], sub);
      forall j: nat | j > 0 ensures OccursAt(s[1..], sub, j - 1) <==> OccursAt(s, sub, j) {
        OccursAtTail(s, sub, j - 1);
      }
      match r
      case None => None
      case Some(k) => Some(k + 1)
  }

  /** strings.Contains: whether `sub` occurs anywhere in `s`. */
  function Contains(s: string, sub: string): (b: bool)
    ensures b <==> exists i: nat :: OccursAt(s, sub, i)
  {
    IndexOf(s, sub).Some?
  }

  /** `sub` occurs in `s` at `i` and nowhere before. */
  predicate FirstOccurrence(s: string, sub: string, i: nat) {
    OccursAt(s, sub, i) && forall j: nat :: j < i ==> !OccursAt(s, sub, j)
  }

  /**
   * strings.Replace(s, target, replacement, 1): the first occurrence of
   * `target`, as strings.Index finds it, is replaced; a string without
   * `target` comes back unchanged.
   */
  function ReplaceFirst(s: string, target: string, replacement: string): (r: string)
    ensures IndexOf(s, target).None? ==> r == s
    ensures IndexOf(s, target).Some? ==> |r| == |s| - |target| + |replacement|
  {
    match IndexOf(s, target)
    case None => s
    case Some(i) => s[..i] + replacement + s[i + |target|..]
  }

  /** strings.Index finds the first occurrence, wherever it is. */
  lemma {:induction false} IndexOfFirst(s: string, sub: string, i: nat)
    requires FirstOccurrence(s, sub, i)
    ensures IndexOf(s, sub) == Some(i)
    decreases |s|
  {
    if i > 0 {
      assert !OccursAt(s, sub, 0);
      OccursAtTail(s, sub, i - 1);
      forall j: nat | j < i - 1
        ensures !OccursAt(s[1..], sub, j)
      {
        OccursAtTail(s, sub, j);
      }
      IndexOfFirst(s[1..], sub, i - 1);
    }
  }

  /**
   * The replacement happens at the first occurrence and nowhere else: the
   * text before it and everything after it, later occurrences included, are
   * kept as written.
   */
  lemma ReplaceFirstAtFirst(s: string, target: string, replacement: string)
    ensures (forall i: nat :: !OccursAt(s, target, i)) ==> ReplaceFirst(s, target, replacement) == s
    ensures forall i: nat {:trigger FirstOccurrence(s, target, i)} :: FirstOccurrence(s, target, i) ==>
      ReplaceFirst(s, target, replacement) == s[..i] + replacement + s[i + |target|..]
  {
    forall i: nat | FirstOccurrence(s, target, i)
      ensures IndexOf(s, target) == Some(i)
    {
      IndexOfFirst(s, target, i);
    }
  }

  /** strings.TrimRight(s, [c]): `s` with every trailing `c` removed. */
  function TrimRight(s: string, c: char): (r: string)
    ensures r <= s
    ensures r == [] || r[|r| - 1] != c
    ensures forall i :: |r| <= i < |s| ==> s[i] == c
    decreases |s|
  {
    if s != [] && s[|s| - 1] == c then TrimRight(s[..|s| - 1], c) else s
  }

  predicate IsDigit(c: char) {
    '0' <= c <= '9'
  }

  predicate AllDigits(s: string) {
    forall i :: 0 <= i < |s| ==> IsDigit(s[i])
  }

  function DigitValue(c: char): (d: nat)
    requires IsDigit(c)
    ensures d < 10
  {
    (c as int) - ('0' as int)
  }

  function DigitChar(d: nat): (c: char)
    requires d < 10
    ensures IsDigit(c) && DigitValue(c) == d
  {
    (('0' as int) + d) as char
  }

  /** The value of a string of decimal digits, most significant first. */
  function DecimalValue(s: string): nat
    requires AllDigits(s)
    decreases |s|
  {
    if s == [] then 0 else DecimalValue(s[..|s| - 1]) * 10 + DigitValue(s[|s| - 1])
  }

  /** strconv.Itoa / `%d` for a non-negative number: decimal digits without a leading zero. */
  function FormatNat(n: nat): (s: string)
    ensures s != [] && AllDigits(s)
    ensures |s| > 1 ==> s[0] != '0'
    decreases n
  {
    if n < 10 then [DigitChar(n)] else FormatNat(n / 10) + [DigitChar(n % 10)]
  }

  /** Reading back what FormatNat printed gives the number again. */
  lemma {:induction false} DecimalValueFormatNat(n: nat)
    ensures DecimalValue(FormatNat(n)) == n
    decreases n
  {
    if n >= 10 {
      var s := FormatNat(n);
      assert s[..|s| - 1] == FormatNat(n / 10);
      DecimalValueFormatNat(n / 10);
    }
  }

  /** strconv.Itoa for any int: a minus sign before the digits of a negative number. */
  function FormatInt(n: int): (s: string)
    ensures s != []
    ensures (s[0] == '-') <==> n < 0
    ensures n < 0 ==> AllDigits(s[1..]) && DecimalValue(s[1..]) == -n
    ensures n >= 0 ==> AllDigits(s) && DecimalValue(s) == n
  {
    if n < 0 then
      DecimalValueFormatNat(-n);
      assert ("-" + FormatNat(-n))[1..] == FormatNat(-n);
      "-" + FormatNat(-n)
    else
      DecimalValueFormatNat(n);
      FormatNat(n)
  }
}
