/**
 * Character and string helpers that stand in for the parts of Python's string
 * library that `ozpcenter/auth/pkiauth.py` uses: `\w`, `str.lower`,
 * `str.replace`, slicing, `in`, `str(int)` and the repository's own
 * `utils.find_between`.
 *
 * Characters are treated as ASCII: `\w` is `[A-Za-z0-9_]` and lowercasing only
 * maps `A`..`Z` to `a`..`z`.
 */
module Text {
  import opened Wrappers

  /** Python's `\w`, restricted to ASCII. */
  predicate IsWordChar(c: char)
    ensures IsWordChar(c) ==> c != ',' && c != ' ' && c != '/'
  {
    ('a' <= c <= 'z') || ('A' <= c <= 'Z') || ('0' <= c <= '9') || c == '_'
  }

  predicate IsUpper(c: char) {
    'A' <= c <= 'Z'
  }

  predicate IsDigit(c: char) {
    '0' <= c <= '9'
  }

  /** `c.lower()` for an ASCII character; every other character is left alone. */
  function LowerChar(c: char): (r: char)
    ensures !IsUpper(r)
    ensures !IsUpper(c) ==> r == c
    ensures IsUpper(c) ==> r as int == c as int + 32
  {
    if IsUpper(c) then (c as int + 32) as char else c
  }

  /** `s.lower()`. */
  function Lower(s: string): (r: string)
    ensures |r| == |s|
    ensures forall i :: 0 <= i < |s| ==> r[i] == LowerChar(s[i])
  {
    seq(|s|, i requires 0 <= i < |s| => LowerChar(s[i]))
  }

  /** `s.replace(from, to)` for single characters. */
  function ReplaceChar(s: string, from: char, to: char): (r: string)
    ensures |r| == |s|
    ensures forall i :: 0 <= i < |s| ==> r[i] == (if s[i] == from then to else s[i])
  {
    seq(|s|, i requires 0 <= i < |s| => if s[i] == from then to else s[i])
  }

  /** `s.replace(c, "")`: every occurrence of `c` dropped, the rest kept in order. */
  function RemoveChar(s: string, c: char): (r: string)
    ensures c !in r
    ensures forall x :: x in r ==> x in s
    ensures c !in s ==> r == s
    ensures |r| <= |s|
  {
    if s == [] then []
    else (if s[0] == c then [] else [s[0]]) + RemoveChar(s[1..], c)
  }

  /** Dropping a character distributes over concatenation. */
  lemma {:induction false} RemoveCharConcat(x: string, y: string, c: char)
    ensures RemoveChar(x + y, c) == RemoveChar(x, c) + RemoveChar(y, c)
  {
    if x == [] {
      assert x + y == y;
    } else {
      var head := if x[0] == c then [] else [x[0]];
      assert (x + y)[0] == x[0] && (x + y)[1..] == x[1..] + y;
      RemoveCharConcat(x[1..], y, c);
      calc {
        RemoveChar(x + y, c);
        head + RemoveChar(x[1..] + y, c);
        head + (RemoveChar(x[1..], c) + RemoveChar(y, c));
        (head + RemoveChar(x[1..], c)) + RemoveChar(y, c);
      }
    }
  }

  lemma RemoveCharKeeps(x: char, c: char)
    requires x != c
    ensures RemoveChar([x], c) == [x]
  {
    assert [x][1..] == [];
  }

  /** The slice `s[0:n]`: the first `n` characters, or all of `s` when it is shorter. */
  function Truncate(s: string, n: nat): (r: string)
    ensures r <= s
    ensures |r| == if |s| <= n then |s| else n
  {
    if |s| <= n then s else s[..n]
  }

  /** `pat` occurs in `s` starting at index `k`. */
  predicate OccursAt(s: string, pat: string, k: nat) {
    k + |pat| <= |s| && s[k..k + |pat|] == pat
  }

  /** The first index at or after `start` where `pat` occurs in `s` (`s.find(pat, start)`). */
  function IndexOfFrom(s: string, pat: string, start: nat): (r: Option<nat>)
    ensures r.Some? ==> start <= r.value && OccursAt(s, pat, r.value)
    ensures r.Some? ==> forall k :: start <= k < r.value ==> !OccursAt(s, pat, k)
    ensures r.None? ==> forall k :: start <= k <= |s| ==> !OccursAt(s, pat, k)
    decreases |s| - start
  {
    if start + |pat| > |s| then None
    else if OccursAt(s, pat, start) then Some(start)
    else IndexOfFrom(s, pat, start + 1)
  }

  /** `s.find(pat)`: the first index where `pat` occurs, if any. */
  function IndexOf(s: string, pat: string): (r: Option<nat>)
    ensures r.Some? ==> OccursAt(s, pat, r.value)
    ensures r.Some? ==> forall k :: 0 <= k < r.value ==> !OccursAt(s, pat, k)
    ensures r.None? <==> forall k :: 0 <= k <= |s| ==> !OccursAt(s, pat, k)
  {
    IndexOfFrom(s, pat, 0)
  }

  /** Python's `pat in s` for strings: `pat` occurs somewhere in `s`. */
  predicate Contains(s: string, pat: string)
    ensures Contains(s, pat) <==> exists k :: 0 <= k <= |s| && OccursAt(s, pat, k)
  {
    IndexOf(s, pat).Some?
  }

  /**
   * `utils.find_between(s, first, last)`, whose source is not part of this
   * model: the text that follows the first occurrence of `first`, up to the
   * first occurrence of `last` after it, or up to the end of `s` when `last`
   * does not follow. The caller only uses it when `first` occurs in `s`.
   */
  function FindBetween(s: string, first: string, last: string): (r: string)
    requires Contains(s, first) && last != ""
    ensures r <= s[IndexOf(s, first).value + |first|..]
    ensures forall k :: 0 <= k <= |r| ==> !OccursAt(r, last, k)
  {
    var rest := s[IndexOf(s, first).value + |first|..];
    match IndexOf(rest, last)
    case Some(j) =>
      forall k | 0 <= k <= j && OccursAt(rest[..j], last, k) ensures false {
        assert rest[..j][k..k + |last|] == rest[k..k + |last|];
        assert OccursAt(rest, last, k) && k < j;
      }
      rest[..j]
    case None => rest
  }

  function DigitChar(d: nat): (c: char)
    requires d < 10
    ensures IsDigit(c)
  {
    ('0' as int + d) as char
  }

  function DigitValue(c: char): (d: nat)
    requires IsDigit(c)
    ensures d < 10
  {
    c as int - '0' as int
  }

  predicate AllDigits(s: string) {
    forall i :: 0 <= i < |s| ==> IsDigit(s[i])
  }

  /** `str(n)` for a non-negative integer: decimal digits with no leading zero. */
  function NatToDecimal(n: nat): (r: string)
    ensures |r| >= 1 && AllDigits(r)
    ensures r[0] == '0' ==> n == 0
    decreases n
  {
    if n < 10 then [DigitChar(n)] else NatToDecimal(n / 10) + [DigitChar(n % 10)]
  }

  /** The number a string of decimal digits denotes (`int(s)`). */
  function DecimalValue(s: string): nat
    requires AllDigits(s)
  {
    if s == [] then 0 else DecimalValue(s[..|s| - 1]) * 10 + DigitValue(s[|s| - 1])
  }

  /** Reading back the decimal form of `n` gives `n`. */
  lemma {:induction false} DecimalRoundTrip(n: nat)
    ensures DecimalValue(NatToDecimal(n)) == n
  {
    if n >= 10 {
      DecimalRoundTrip(n / 10);
      var s := NatToDecimal(n);
      assert s[..|s| - 1] == NatToDecimal(n / 10);
    }
  }
}
