/**
 * The JavaScript string and array built-ins the core relies on:
 * `Array.prototype.join`, `String.prototype.split('')`, `Array.prototype.reverse`
 * and the decimal rendering of an index inside a template literal.
 */
module Text {

  /** `parts.join(sep)`: the parts with `sep` between neighbours, "" for no parts. */
  function Join(parts: seq<string>, sep: string): (r: string)
    ensures |parts| == 0 ==> r == ""
    ensures |parts| == 1 ==> r == parts[0]
    ensures |parts| >= 1 ==> parts[0] <= r
    decreases |parts|
  {
    if |parts| == 0 then ""
    else if |parts| == 1 then parts[0]
    else parts[0] + sep + Join(parts[1..], sep)
  }

  /** `parts.join('')`. */
  function Concat(parts: seq<string>): string
  {
    Join(parts, "")
  }

  /** `s.split('')`: one single-character string per character. */
  function Chars(s: string): (r: seq<string>)
    ensures |r| == |s|
    ensures forall i :: 0 <= i < |s| ==> r[i] == [s[i]]
  {
    seq(|s|, i requires 0 <= i < |s| => [s[i]])
  }

  /** `[...s].reverse()`. */
  function Reverse<T>(s: seq<T>): (r: seq<T>)
    ensures |r| == |s|
    ensures forall i :: 0 <= i < |s| ==> r[i] == s[|s| - 1 - i]
    decreases |s|
  {
    if s == [] then [] else Reverse(s[1..]) + [s[0]]
  }

  lemma ReverseReverse<T>(s: seq<T>)
    ensures Reverse(Reverse(s)) == s
  {
    var r := Reverse(Reverse(s));
    assert |r| == |s|;
    forall i | 0 <= i < |s| ensures r[i] == s[i] {
      assert r[i] == Reverse(s)[|s| - 1 - i];
    }
  }

  /** A sequence that is `s` read backwards is `Reverse(s)`. */
  lemma ReverseOf<T>(s: seq<T>, r: seq<T>)
    requires |r| == |s|
    requires forall i :: 0 <= i < |s| ==> r[i] == s[|s| - 1 - i]
    ensures r == Reverse(s)
  {
  }

  /** Joining with "" and then splitting into characters gives the pieces back
      when every piece is one character long. */
  lemma {:induction false} ConcatOfSingles(d: seq<string>)
    requires forall i :: 0 <= i < |d| ==> |d[i]| == 1
    ensures |Concat(d)| == |d|
    ensures forall i :: 0 <= i < |d| ==> Concat(d)[i] == d[i][0]
    decreases |d|
  {
    if |d| > 1 {
      ConcatOfSingles(d[1..]);
      assert Concat(d) == d[0] + Concat(d[1..]);
    }
  }

  lemma CharsOfConcat(d: seq<string>)
    requires forall i :: 0 <= i < |d| ==> |d[i]| == 1
    ensures Chars(Concat(d)) == d
  {
    ConcatOfSingles(d);
    var r := Chars(Concat(d));
    forall i | 0 <= i < |d| ensures r[i] == d[i] {
      assert r[i] == [d[i][0]];
    }
  }

  lemma {:induction false} ConcatOfChars(s: string)
    ensures Concat(Chars(s)) == s
    decreases |s|
  {
    if |s| > 1 {
      ConcatOfChars(s[1..]);
      assert Chars(s)[1..] == Chars(s[1..]);
      assert Concat(Chars(s)) == [s[0]] + "" + Concat(Chars(s[1..]));
    } else if |s| == 1 {
      assert Concat(Chars(s)) == [s[0]];
    }
  }

  /** The number a string of decimal digits denotes, most significant first. */
  function DigitsValue(s: string): nat
    requires forall i :: 0 <= i < |s| ==> '0' <= s[i] <= '9'
  {
    if s == [] then 0
    else DigitsValue(s[..|s| - 1]) * 10 + (s[|s| - 1] as int - '0' as int)
  }

  /** The decimal digits of `n`, as `${n}` renders a non-negative index:
      they denote `n` and carry no leading zero. */
  function NatToString(n: nat): (r: string)
    ensures |r| >= 1
    ensures forall i :: 0 <= i < |r| ==> '0' <= r[i] <= '9'
    ensures DigitsValue(r) == n
    ensures |r| > 1 ==> r[0] != '0'
  {
    var digit := ['0' + (n % 10) as char];
    if n < 10 then digit
    else
      var high := NatToString(n / 10);
      assert (high + digit)[..|high|] == high;
      high + digit
  }

  /** Distinct numbers get distinct renderings. */
  lemma NatToStringInjective(m: nat, n: nat)
    requires NatToString(m) == NatToString(n)
    ensures m == n
  {
  }
}
