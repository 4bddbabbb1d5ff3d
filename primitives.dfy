/**
 * Values shared by the whole model: optional values, identifiers drawn from
 * the store's id oracle, clock readings and ASCII case folding.
 */
module Primitives {

  datatype Option<+T> = None | Some(value: T) {
    /** `x ?? d` of TypeScript, where None stands for null or undefined. */
    function GetOr(default: T): T {
      if Some? then value else default
    }
  }

  /** A `new Date()` reading, in milliseconds. Only the order of readings matters. */
  type Time = int

  /** Record ids, Discord ids and role ids are all strings. */
  type Id = string

  function DigitChar(d: nat): (c: char)
    requires d < 10
    ensures '0' <= c <= '9'
  {
    (('0' as int) + d) as char
  }

  predicate IsDigit(c: char) {
    '0' <= c <= '9'
  }

  /** The decimal numeral of n. */
  function Numeral(n: nat): (s: string)
    ensures |s| >= 1 && (n >= 10 ==> |s| >= 2)
    ensures forall i :: 0 <= i < |s| ==> IsDigit(s[i])
  {
    if n < 10 then [DigitChar(n)] else Numeral(n / 10) + [DigitChar(n % 10)]
  }

  /**
   * The id the store's oracle hands out as its n-th identifier; it stands for
   * `randomUUID()`, whose only use is to be distinct from every id before it.
   */
  function SerialId(n: nat): (id: Id)
    ensures |id| >= 1 && forall i :: 0 <= i < |id| ==> IsDigit(id[i])
  {
    Numeral(n)
  }

  /** Distinct serial numbers give distinct ids, so the oracle never repeats itself. */
  lemma {:induction false} SerialIdInjective(a: nat, b: nat)
    requires SerialId(a) == SerialId(b)
    ensures a == b
  {
    NumeralInjective(a, b);
  }

  lemma {:induction false} NumeralInjective(a: nat, b: nat)
    requires Numeral(a) == Numeral(b)
    ensures a == b
  {
    var s := Numeral(a);
    if a < 10 && b < 10 {
      assert s[0] == DigitChar(a) && s[0] == DigitChar(b);
    } else if a >= 10 && b >= 10 {
      assert s == Numeral(a / 10) + [DigitChar(a % 10)];
      assert s == Numeral(b / 10) + [DigitChar(b % 10)];
      assert s[|s| - 1] == DigitChar(a % 10) == DigitChar(b % 10);
      assert Numeral(a / 10) == s[..|s| - 1] == Numeral(b / 10);
      NumeralInjective(a / 10, b / 10);
    }
  }

  /** ASCII case folding, the part of `toLowerCase` this model keeps. */
  function LowerChar(c: char): char {
    if 'A' <= c <= 'Z' then ((c as int) - ('A' as int) + ('a' as int)) as char else c
  }

  /**
   * `toLowerCase` on ASCII: the length is unchanged, no upper-case ASCII
   * letter is left, and every character that is not one is kept.
   */
  function AsciiLower(s: string): (r: string)
    ensures |r| == |s|
    ensures forall i :: 0 <= i < |s| ==> r[i] == LowerChar(s[i])
    ensures forall i :: 0 <= i < |s| ==> !('A' <= r[i] <= 'Z')
    ensures forall i :: 0 <= i < |s| && !('A' <= s[i] <= 'Z') ==> r[i] == s[i]
  {
    if s == [] then [] else [LowerChar(s[0])] + AsciiLower(s[1..])
  }

  /** `a.toLowerCase() === b.toLowerCase()` restricted to ASCII letters. */
  predicate SameIgnoringCase(a: string, b: string): (r: bool)
    ensures r <==> |a| == |b| && forall i :: 0 <= i < |a| ==> LowerChar(a[i]) == LowerChar(b[i])
  {
    AsciiLower(a) == AsciiLower(b)
  }

  /** Two strings that differ only in the case of ASCII letters match each other. */
  lemma {:induction false} SameIgnoringCaseOfUpper(s: string)
    ensures SameIgnoringCase(s, AsciiUpper(s))
  {
    if s != [] {
      SameIgnoringCaseOfUpper(s[1..]);
      assert AsciiUpper(s) == [UpperChar(s[0])] + AsciiUpper(s[1..]);
    }
  }

  function UpperChar(c: char): char {
    if 'a' <= c <= 'z' then ((c as int) - ('a' as int) + ('A' as int)) as char else c
  }

  function AsciiUpper(s: string): (r: string)
    ensures |r| == |s|
  {
    if s == [] then [] else [UpperChar(s[0])] + AsciiUpper(s[1..])
  }

  /** `r` keeps some of the elements of `s`, in the order `s` has them: what a `filter` returns. */
  ghost predicate IsSubsequence<T>(r: seq<T>, s: seq<T>)
    decreases |s|
  {
    if r == [] then true
    else if s == [] then false
    else (r[0] == s[0] && IsSubsequence(r[1..], s[1..])) || IsSubsequence(r, s[1..])
  }

  /** Putting more elements in front of `s` keeps every subsequence of it. */
  lemma {:induction false} SubsequenceOfLonger<T>(r: seq<T>, b: seq<T>, s: seq<T>)
    requires IsSubsequence(r, s)
    ensures IsSubsequence(r, b + s)
  {
    if b == [] {
      assert b + s == s;
    } else if r != [] {
      SubsequenceOfLonger(r, b[1..], s);
      assert (b + s)[1..] == b[1..] + s;
    }
  }

  /** Subsequences of two parts concatenate to a subsequence of the whole. */
  lemma {:induction false} SubsequenceConcat<T>(a: seq<T>, b: seq<T>, c: seq<T>, d: seq<T>)
    requires IsSubsequence(a, b) && IsSubsequence(c, d)
    ensures IsSubsequence(a + c, b + d)
    decreases |b|
  {
    if a == [] {
      assert a + c == c;
      SubsequenceOfLonger(c, b, d);
    } else {
      assert (a + c)[0] == a[0] && (a + c)[1..] == a[1..] + c;
      assert (b + d)[0] == b[0] && (b + d)[1..] == b[1..] + d;
      if a[0] == b[0] && IsSubsequence(a[1..], b[1..]) {
        SubsequenceConcat(a[1..], b[1..], c, d);
      } else {
        SubsequenceConcat(a, b[1..], c, d);
      }
    }
  }
}
