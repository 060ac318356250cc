/** The PHP string built-ins the adapter relies on: `explode` with a
    one-character delimiter, `implode`, and the `%d` conversion of `sprintf`.
    Strings are sequences of characters (PHP's are byte strings; nothing in
    the adapter depends on the difference). */
module PhpStrings {

  /** `implode(glue, pieces)`: the pieces joined, in order, with `glue`
      between neighbours. No pieces give the empty string. */
  function Implode(glue: string, pieces: seq<string>): (s: string)
    ensures |pieces| == 0 ==> s == ""
    ensures |pieces| == 1 ==> s == pieces[0]
    decreases |pieces|
  {
    if |pieces| == 0 then ""
    else if |pieces| == 1 then pieces[0]
    else pieces[0] + glue + Implode(glue, pieces[1..])
  }

  /** `explode(sep, s)` for a one-character delimiter: the maximal
      delimiter-free runs of `s`, left to right. It always yields at least
      one piece: `explode(',', '')` is `['']`. */
  function Explode(sep: char, s: string): (pieces: seq<string>)
    ensures |pieces| >= 1
    ensures forall i :: 0 <= i < |pieces| ==> sep !in pieces[i]
    ensures forall i :: 0 <= i < |pieces| ==> |pieces[i]| <= |s|
    decreases |s|
  {
    if s == [] then [""]
    else
      var rest := Explode(sep, s[1..]);
      if s[0] == sep then [""] + rest
      else [[s[0]] + rest[0]] + rest[1..]
  }

  /** There is one more piece than there are delimiters. */
  lemma {:induction false} ExplodeCount(sep: char, s: string)
    ensures |Explode(sep, s)| == multiset(s)[sep] + 1
    decreases |s|
  {
    if s != [] {
      assert s == [s[0]] + s[1..];
      assert multiset(s) == multiset([s[0]]) + multiset(s[1..]);
      ExplodeCount(sep, s[1..]);
    }
  }

  lemma {:induction false} ImplodeCons(glue: string, x: string, rest: seq<string>)
    requires |rest| >= 1
    ensures Implode(glue, [x + rest[0]] + rest[1..]) == x + Implode(glue, rest)
  {
    var ps := [x + rest[0]] + rest[1..];
    if |rest| > 1 {
      assert ps[1..] == rest[1..];
    }
  }

  /** Joining the pieces again with the delimiter gives back the input:
      `explode` loses nothing. */
  lemma {:induction false} ImplodeExplode(sep: char, s: string)
    ensures Implode([sep], Explode(sep, s)) == s
    decreases |s|
  {
    if s != [] {
      var rest := Explode(sep, s[1..]);
      ImplodeExplode(sep, s[1..]);
      if s[0] == sep {
        assert ([""] + rest)[1..] == rest;
      } else {
        ImplodeCons([sep], [s[0]], rest);
      }
      assert s == [s[0]] + s[1..];
    }
  }

  /** A string without the delimiter is a single piece. */
  lemma {:induction false} ExplodeWithoutSeparator(sep: char, s: string)
    requires sep !in s
    ensures Explode(sep, s) == [s]
    decreases |s|
  {
    if s != [] {
      ExplodeWithoutSeparator(sep, s[1..]);
      assert s == [s[0]] + s[1..];
    }
  }

  lemma {:induction false} ExplodeAfterFirstPiece(sep: char, x: string, t: string)
    requires sep !in x
    ensures Explode(sep, x + [sep] + t) == [x] + Explode(sep, t)
    decreases |x|
  {
    var s := x + [sep] + t;
    if x == [] {
      assert s[1..] == t;
    } else {
      assert s[1..] == x[1..] + [sep] + t;
      ExplodeAfterFirstPiece(sep, x[1..], t);
      assert [s[0]] + x[1..] == x;
    }
  }

  /** Conversely, delimiter-free pieces joined with the delimiter are split
      back into exactly those pieces: the pieces of `explode` are the only
      delimiter-free decomposition of its input. */
  lemma {:induction false} ExplodeImplode(sep: char, pieces: seq<string>)
    requires |pieces| >= 1
    requires forall i :: 0 <= i < |pieces| ==> sep !in pieces[i]
    ensures Explode(sep, Implode([sep], pieces)) == pieces
    decreases |pieces|
  {
    if |pieces| == 1 {
      ExplodeWithoutSeparator(sep, pieces[0]);
    } else {
      ExplodeImplode(sep, pieces[1..]);
      ExplodeAfterFirstPiece(sep, pieces[0], Implode([sep], pieces[1..]));
      assert [pieces[0]] + pieces[1..] == pieces;
    }
  }

  /** The joined text starts with the first piece and ends with the last. */
  lemma {:induction false} ImplodeEnds(glue: string, pieces: seq<string>)
    requires |pieces| >= 1
    ensures var s, first, last := Implode(glue, pieces), pieces[0], pieces[|pieces| - 1];
            && |s| >= |first| && s[..|first|] == first
            && |s| >= |last| && s[|s| - |last|..] == last
    decreases |pieces|
  {
    if |pieces| > 1 {
      ImplodeEnds(glue, pieces[1..]);
    }
  }

  /** Appending one piece adds the glue and that piece at the end. */
  lemma {:induction false} ImplodeSnoc(glue: string, pieces: seq<string>, last: string)
    requires |pieces| >= 1
    ensures Implode(glue, pieces + [last]) == Implode(glue, pieces) + glue + last
    decreases |pieces|
  {
    if |pieces| > 1 {
      assert (pieces + [last])[1..] == pieces[1..] + [last];
      ImplodeSnoc(glue, pieces[1..], last);
    }
  }

  predicate IsDigit(c: char)
  {
    '0' <= c <= '9'
  }

  predicate AllDigits(s: string)
  {
    forall i :: 0 <= i < |s| ==> IsDigit(s[i])
  }

  function DigitChar(d: nat): (c: char)
    requires d < 10
    ensures IsDigit(c) && c as int - '0' as int == d
  {
    ('0' as int + d) as char
  }

  /** The decimal digits of a natural number, most significant first,
      without leading zeros. */
  function Digits(n: nat): (r: string)
    ensures |r| >= 1 && AllDigits(r)
    ensures r[0] == '0' ==> n == 0
    decreases n
  {
    if n < 10 then [DigitChar(n)]
    else Digits(n / 10) + [DigitChar(n % 10)]
  }

  /** The number a string of decimal digits denotes. */
  function DigitsValue(s: string): nat
    requires AllDigits(s)
    decreases |s|
  {
    if s == [] then 0
    else DigitsValue(s[..|s| - 1]) * 10 + (s[|s| - 1] as int - '0' as int)
  }

  lemma {:induction false} DigitsValueOfDigits(n: nat)
    ensures DigitsValue(Digits(n)) == n
    decreases n
  {
    if n >= 10 {
      var r := Digits(n);
      assert r[..|r| - 1] == Digits(n / 10);
      DigitsValueOfDigits(n / 10);
    }
  }

  /** `sprintf('%d', n)`: an optional minus sign followed by the digits
      of the magnitude. */
  function FormatDecimal(n: int): (r: string)
    ensures |r| >= 1
    ensures ' ' !in r && '\'' !in r
  {
    if n < 0 then "-" + Digits(-n) else Digits(n)
  }

  /** Reads back what `FormatDecimal` writes. */
  function ParseDecimal(s: string): int
    requires |s| >= 1
    requires s[0] == '-' ==> AllDigits(s[1..])
    requires s[0] != '-' ==> AllDigits(s)
  {
    if s[0] == '-' then -(DigitsValue(s[1..]) as int) else DigitsValue(s)
  }

  /** The `%d` text of a number denotes that number, so different numbers
      are never printed alike. */
  lemma ParseFormatDecimal(n: int)
    ensures var r := FormatDecimal(n);
            (r[0] == '-' ==> AllDigits(r[1..])) && (r[0] != '-' ==> AllDigits(r)) &&
            ParseDecimal(r) == n
  {
    var r := FormatDecimal(n);
    if n < 0 {
      assert r[1..] == Digits(-n);
      DigitsValueOfDigits(-n);
    } else {
      DigitsValueOfDigits(n);
    }
  }
}
