/** The Python string operations the upload path code relies on:
    `s.split(c)` with an explicit one-character separator, `c.join(parts)`,
    `s.count(c)` and `s.endswith(t)`, as well as decimal digits. */
module Text {
  /** `s.count(c)`. */
  function Count(s: string, c: char): nat {
    if s == [] then 0 else (if s[0] == c then 1 else 0) + Count(s[1..], c)
  }

  /** `s.split(c)`: the pieces between the occurrences of c, one more than
      there are occurrences, none containing c. */
  function Split(s: string, c: char): (r: seq<string>)
    ensures |r| == Count(s, c) + 1
    ensures forall i :: 0 <= i < |r| ==> c !in r[i]
  {
    if s == [] then [[]]
    else
      var rest := Split(s[1..], c);
      if s[0] == c then [[]] + rest
      else
        assert forall i :: 1 <= i < |rest| ==> ([[s[0]] + rest[0]] + rest[1..])[i] == rest[i];
        [[s[0]] + rest[0]] + rest[1..]
  }

  /** `c.join(ps)`. */
  function Join(ps: seq<string>, c: char): string {
    if ps == [] then []
    else if |ps| == 1 then ps[0]
    else ps[0] + [c] + Join(ps[1..], c)
  }

  /** The last element of a non-empty sequence, `xs[-1]`. */
  function Last<T>(xs: seq<T>): T
    requires xs != []
  {
    xs[|xs| - 1]
  }

  /** `s.endswith(t)`. */
  predicate EndsWith(s: string, t: string) {
    |t| <= |s| && s[|s| - |t|..] == t
  }

  /** Splitting a string without the separator gives the string itself. */
  lemma {:induction false} SplitNone(s: string, c: char)
    requires c !in s
    ensures Split(s, c) == [s]
  {
    if s != [] {
      assert s == [s[0]] + s[1..];
      SplitNone(s[1..], c);
    }
  }

  /** Splitting at a separator splits both sides independently. */
  lemma {:induction false} SplitConcat(x: string, y: string, c: char)
    ensures Split(x + [c] + y, c) == Split(x, c) + Split(y, c)
  {
    if x == [] {
      assert (x + [c] + y)[1..] == y;
    } else {
      assert (x + [c] + y)[1..] == x[1..] + [c] + y;
      SplitConcat(x[1..], y, c);
    }
  }

  /** Joining the pieces of a split gives back the string. */
  lemma {:induction false} JoinSplit(s: string, c: char)
    ensures Join(Split(s, c), c) == s
  {
    if s != [] {
      var rest := Split(s[1..], c);
      JoinSplit(s[1..], c);
      if s[0] == c {
        assert Split(s, c) == [[]] + rest;
        assert ([[]] + rest)[1..] == rest;
      } else {
        var r := Split(s, c);
        assert r == [[s[0]] + rest[0]] + rest[1..];
        if |rest| > 1 {
          assert r[1..] == rest[1..];
          assert Join(rest, c) == rest[0] + [c] + Join(rest[1..], c);
        }
      }
    }
  }

  /** The character of a decimal digit. */
  function DigitChar(d: nat): (ch: char)
    requires d < 10
    ensures '0' <= ch <= '9'
  {
    "0123456789"[d]
  }

  /** Decimal digits are not separators of the upload paths. */
  predicate IsDigits(s: string) {
    forall i :: 0 <= i < |s| ==> '0' <= s[i] <= '9'
  }

  /** `str(n)`: the decimal digits of n. */
  function Decimal(n: nat): (r: string)
    ensures r != [] && IsDigits(r)
  {
    if n < 10 then [DigitChar(n)] else Decimal(n / 10) + [DigitChar(n % 10)]
  }

  /** The lowest w decimal digits of n, zero-padded: `%0wd` for n below
      10 to the w. */
  function Fixed(n: nat, w: nat): (r: string)
    ensures |r| == w && IsDigits(r)
  {
    if w == 0 then [] else Fixed(n / 10, w - 1) + [DigitChar(n % 10)]
  }

  /** A string of digits contains none of the given non-digit characters. */
  lemma DigitsAvoid(s: string, c: char)
    requires IsDigits(s) && !('0' <= c <= '9')
    ensures c !in s
  {
  }
}
