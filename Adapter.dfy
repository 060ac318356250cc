/** The PostgreSQL dialect adapter (class `Quibble\Postgresql\Adapter`):
    the SQL fragments it writes for the generic database layer, and its
    decoder from PostgreSQL's brace-delimited array text to nested lists. */
module Postgresql {
  import opened PhpStrings

  // ---------------------------------------------------------------------
  // Values the adapter handles
  // ---------------------------------------------------------------------

  /** A PHP value that may be `null`. */
  datatype Option<T> = None | Some(value: T)

  /** What `stringToArray` returns: the string itself, or a list whose
      elements were decoded in turn. */
  datatype PgValue = Leaf(text: string) | Arr(items: seq<PgValue>)

  /** The `$values` argument of `any`: a PHP array of values or a single
      (non-array) value. */
  datatype AnyValues<V> = List(elems: seq<V>) | Scalar(elem: V)

  /** The quantity constants of the generic adapter; any other value
      passed as `$quantity` is `Other`. */
  datatype Quantity = Second | Minute | Hour | Day | Week | Month | Year | Other

  // ---------------------------------------------------------------------
  // any
  // ---------------------------------------------------------------------

  /** `$values` after the `is_array` test: a scalar becomes a one-element
      list, an array is used as it is. */
  function ValueList<V>(values: AnyValues<V>): (vs: seq<V>)
    ensures values.Scalar? ==> vs == [values.elem]
    ensures values.List? ==> vs == values.elems
  {
    match values
    case List(elems) => elems
    case Scalar(elem) => [elem]
  }

  /** One clause `<placeholder> = ANY(<key>)`, the placeholder being the
      parent adapter's `values([$value])` glued together with `''`. */
  function AnyClause<V>(key: string, value: V, placeholders: seq<V> -> seq<string>): (c: string)
    ensures var tail := " = ANY(" + key + ")";
            && |c| >= |tail|
            && c[..|c| - |tail|] == Implode("", placeholders([value]))
            && c[|c| - |tail|..] == tail
  {
    Implode("", placeholders([value])) + " = ANY(" + key + ")"
  }

  /** The clauses for the values, one per value, in input order. */
  function AnyClauses<V>(key: string, vs: seq<V>, placeholders: seq<V> -> seq<string>): (cs: seq<string>)
    ensures |cs| == |vs|
    ensures forall i :: 0 <= i < |vs| ==> cs[i] == AnyClause(key, vs[i], placeholders)
  {
    seq(|vs|, i requires 0 <= i < |vs| => AnyClause(key, vs[i], placeholders))
  }

  /** The text `any` returns for a list of values: the clauses joined with
      ` OR ` inside one pair of parentheses. */
  function AnyDisjunction<V>(key: string, vs: seq<V>, placeholders: seq<V> -> seq<string>): (sql: string)
    ensures |sql| >= 2 && sql[0] == '(' && sql[|sql| - 1] == ')'
    ensures vs == [] <==> sql == "()"
  {
    "(" + Implode(" OR ", AnyClauses(key, vs, placeholders)) + ")"
  }

  /** `Adapter::any`: collects one clause per value in `els`, then wraps
      their disjunction in parentheses. `placeholders` stands for the parent
      adapter's `values()`. */
  method Any<V>(key: string, values: AnyValues<V>, placeholders: seq<V> -> seq<string>)
    returns (sql: string)
    ensures sql == AnyDisjunction(key, ValueList(values), placeholders)
    ensures |sql| >= 2 && sql[0] == '(' && sql[|sql| - 1] == ')'
  {
    var vs := ValueList(values);
    var els: seq<string> := [];
    for i := 0 to |vs|
      invariant |els| == i
      invariant forall k :: 0 <= k < i ==> els[k] == AnyClause(key, vs[k], placeholders)
    {
      els := els + [Implode("", placeholders([vs[i]])) + " = ANY(" + key + ")"];
    }
    assert els == AnyClauses(key, vs, placeholders);
    sql := "(" + Implode(" OR ", els) + ")";
  }

  /** A single non-array value gives the same text as the list holding
      just that value. */
  lemma AnyScalarIsSingletonList<V>(key: string, v: V, placeholders: seq<V> -> seq<string>)
    ensures AnyDisjunction(key, ValueList(Scalar(v)), placeholders)
         == AnyDisjunction(key, ValueList(List([v])), placeholders)
  {
  }

  /** No values give the empty parentheses `()`. */
  lemma AnyOfNothing<V>(key: string, placeholders: seq<V> -> seq<string>)
    ensures AnyDisjunction(key, [], placeholders) == "()"
  {
  }

  /** One value gives its clause in parentheses, with no ` OR `. */
  lemma AnyOfOne<V>(key: string, v: V, placeholders: seq<V> -> seq<string>)
    ensures AnyDisjunction(key, [v], placeholders) == "(" + AnyClause(key, v, placeholders) + ")"
  {
  }

  lemma AnyClausesSnoc<V>(key: string, vs: seq<V>, v: V, placeholders: seq<V> -> seq<string>)
    ensures AnyClauses(key, vs + [v], placeholders)
         == AnyClauses(key, vs, placeholders) + [AnyClause(key, v, placeholders)]
  {
  }

  /** Each further value adds ` OR ` and its own clause just before the
      closing parenthesis, so the clauses appear in input order. */
  lemma AnyAppend<V>(key: string, vs: seq<V>, v: V, placeholders: seq<V> -> seq<string>)
    requires |vs| >= 1
    ensures var before := AnyDisjunction(key, vs, placeholders);
            AnyDisjunction(key, vs + [v], placeholders)
            == before[..|before| - 1] + " OR " + AnyClause(key, v, placeholders) + ")"
  {
    var cs, c := AnyClauses(key, vs, placeholders), AnyClause(key, v, placeholders);
    var joined := Implode(" OR ", cs);
    var before := AnyDisjunction(key, vs, placeholders);
    assert before[..|before| - 1] == "(" + joined;
    AnyClausesSnoc(key, vs, v, placeholders);
    ImplodeSnoc(" OR ", cs, c);
  }

  // ---------------------------------------------------------------------
  // interval
  // ---------------------------------------------------------------------

  /** The unit word `$what` chosen by the `switch`; it stays `null`, which
      prints as the empty string, for an unknown quantity. */
  function UnitWord(q: Quantity): (w: string)
    ensures w == "" <==> q == Other
    ensures forall i :: 0 <= i < |w| ==> 'a' <= w[i] <= 'z'
  {
    match q
    case Second => "second"
    case Minute => "minute"
    case Hour => "hour"
    case Day => "day"
    case Week => "week"
    case Month => "month"
    case Year => "year"
    case Other => ""
  }

  /** `Adapter::interval`: the literal `'<amount> <unit>'::interval`. */
  function Interval(q: Quantity, amount: int): (sql: string)
    ensures |sql| >= 14
    ensures sql[0] == '\'' && sql[|sql| - 11..] == "'::interval"
    ensures sql[1..|sql| - 11] == FormatDecimal(amount) + " " + UnitWord(q)
  {
    "'" + FormatDecimal(amount) + " " + UnitWord(q) + "'::interval"
  }

  lemma UnitWordInjective(q1: Quantity, q2: Quantity)
    requires UnitWord(q1) == UnitWord(q2)
    ensures q1 == q2
  {
    var w := UnitWord(q1);
    if q1 != Other {
      assert w[0] == UnitWord(q2)[0];
      assert |w| == |UnitWord(q2)|;
    }
  }

  /** In `a + " " + u` with a space-free `a`, the first space stands right
      after `a`. */
  lemma FirstSpaceAfter(a: string, u: string)
    requires ' ' !in a
    ensures (a + " " + u)[|a|] == ' '
    ensures forall k :: 0 <= k < |a| ==> (a + " " + u)[k] != ' '
  {
    forall k | 0 <= k < |a|
      ensures (a + " " + u)[k] != ' '
    {
      assert (a + " " + u)[k] == a[k];
    }
  }

  /** Two strings that each start with a space-free part followed by a
      space are equal only if those parts and the rests are equal. */
  lemma SplitAtFirstSpace(a1: string, u1: string, a2: string, u2: string)
    requires ' ' !in a1 && ' ' !in a2
    requires a1 + " " + u1 == a2 + " " + u2
    ensures a1 == a2 && u1 == u2
  {
    var s := a1 + " " + u1;
    FirstSpaceAfter(a1, u1);
    FirstSpaceAfter(a2, u2);
    assert |a1| == |a2|;
    assert a1 == s[..|a1|] == a2;
    assert u1 == s[|a1| + 1..] == u2;
  }

  /** Different quantities or amounts always give different interval
      literals: the literal determines both. */
  lemma IntervalDeterminesArguments(q1: Quantity, n1: int, q2: Quantity, n2: int)
    ensures Interval(q1, n1) == Interval(q2, n2) <==> q1 == q2 && n1 == n2
  {
    if Interval(q1, n1) == Interval(q2, n2) {
      SplitAtFirstSpace(FormatDecimal(n1), UnitWord(q1), FormatDecimal(n2), UnitWord(q2));
      UnitWordInjective(q1, q2);
      ParseFormatDecimal(n1);
      ParseFormatDecimal(n2);
    }
  }

  // ---------------------------------------------------------------------
  // lastInsertId and random
  // ---------------------------------------------------------------------

  /** The sequence name `"{$object}_id_seq"` that `lastInsertId` hands to
      the generic adapter; a `null` object interpolates as nothing. */
  function SequenceName(obj: Option<string>): (name: string)
    ensures |name| >= 7 && name[|name| - 7..] == "_id_seq"
  {
    match obj
    case None => "_id_seq"
    case Some(o) => o + "_id_seq"
  }

  /** The object name is the sequence name without its suffix, and a
      `null` object gives the same name as the empty one. */
  lemma SequenceNameRecoversObject(obj: Option<string>)
    ensures var name := SequenceName(obj);
            name[..|name| - 7] == (if obj.Some? then obj.value else "")
    ensures SequenceName(None) == SequenceName(Some(""))
  {
  }

  /** `Adapter::random`: PostgreSQL's random-number expression. */
  function Random(): (sql: string)
    ensures sql == "RANDOM()"
  {
    "RANDOM()"
  }

  // ---------------------------------------------------------------------
  // stringToArray
  // ---------------------------------------------------------------------

  /** `preg_match("@^{.*?}$@", s)`: a `{`, then characters other than a
      newline, then `}`, at the end of the string or just before a final
      newline (PCRE's `$` matches there too). */
  predicate LooksLikeArray(s: string)
    ensures LooksLikeArray(s) ==> |s| >= 2 && s[0] == '{' && s[|s| - 1] in {'}', '\n'}
    ensures '\n' !in s ==> (LooksLikeArray(s) <==> |s| >= 2 && s[0] == '{' && s[|s| - 1] == '}')
  {
    && |s| >= 2
    && s[0] == '{'
    && (|| (s[|s| - 1] == '}' && '\n' !in s[1..|s| - 1])
        || (|s| >= 3 && s[|s| - 1] == '\n' && s[|s| - 2] == '}' && '\n' !in s[1..|s| - 2]))
  }

  /** `substr($string, 1, -1)`: the string without its first and last
      character. */
  function Interior(s: string): (t: string)
    requires |s| >= 2
    ensures |t| == |s| - 2
    ensures forall i :: 0 <= i < |t| ==> t[i] == s[i + 1]
  {
    s[1..|s| - 1]
  }

  /** `Adapter::stringToArray`: a string that does not look like an array
      is returned unchanged; otherwise the interior is split on every comma
      and each piece is decoded in turn. */
  function StringToArray(s: string): (v: PgValue)
    ensures v.Leaf? <==> !LooksLikeArray(s)
    ensures v.Leaf? ==> v.text == s
    decreases |s|
  {
    if !LooksLikeArray(s) then Leaf(s)
    else
      var pieces := Explode(',', Interior(s));
      Arr(seq(|pieces|, i requires 0 <= i < |pieces| => StringToArray(pieces[i])))
  }

  /** The imperative shape of `stringToArray`: `$parts` starts as the pieces
      of the interior and is overwritten element by element with their
      decodings. */
  method DecodeArrayText(s: string) returns (v: PgValue)
    ensures v == StringToArray(s)
    decreases |s|
  {
    if !LooksLikeArray(s) {
      return Leaf(s);
    }
    var pieces := Explode(',', s[1..|s| - 1]);
    var parts := new PgValue[|pieces|](i requires 0 <= i < |pieces| => Leaf(pieces[i]));
    var i := 0;
    while i < parts.Length
      invariant 0 <= i <= parts.Length == |pieces|
      invariant forall k :: 0 <= k < i ==> parts[k] == StringToArray(pieces[k])
      invariant forall k :: i <= k < parts.Length ==> parts[k] == Leaf(pieces[k])
    {
      var decoded := DecodeArrayText(pieces[i]);
      parts[i] := decoded;
      i := i + 1;
    }
    v := Arr(parts[..]);
  }

  /** Strings shorter than two characters come back unchanged. */
  lemma ShortStringIsLeaf(s: string)
    requires |s| < 2
    ensures StringToArray(s) == Leaf(s)
  {
  }

  /** Every piece handed to the recursive call is strictly shorter than
      the string being decoded. */
  lemma PiecesAreShorter(s: string)
    requires LooksLikeArray(s)
    ensures forall p :: p in Explode(',', Interior(s)) ==> |p| < |s|
  {
  }

  /** An array-like string decodes to one element per comma-free piece of
      its interior, left to right: for ANY comma-free pieces that join with
      commas to the interior, the elements are their decodings. */
  lemma {:induction false} DecodeByPieces(s: string, pieces: seq<string>)
    requires LooksLikeArray(s)
    requires |pieces| >= 1
    requires forall i :: 0 <= i < |pieces| ==> ',' !in pieces[i]
    requires Implode(",", pieces) == Interior(s)
    ensures StringToArray(s).Arr?
    ensures |StringToArray(s).items| == |pieces|
    ensures forall i :: 0 <= i < |pieces| ==> StringToArray(s).items[i] == StringToArray(pieces[i])
  {
    ExplodeImplode(',', pieces);
  }

  /** A decoded array has one element more than its interior has commas,
      and the pieces it was decoded from join back to the interior. */
  lemma {:induction false} ElementCount(s: string)
    requires LooksLikeArray(s)
    ensures var pieces := Explode(',', Interior(s));
            && StringToArray(s).Arr?
            && |StringToArray(s).items| == multiset(Interior(s))[','] + 1
            && Implode(",", pieces) == Interior(s)
  {
    ExplodeCount(',', Interior(s));
    ImplodeExplode(',', Interior(s));
  }

  /** `{}` is a list holding one empty string, not an empty list. */
  lemma {:induction false} EmptyBracesGiveOneEmptyString()
    ensures StringToArray("{}") == Arr([Leaf("")])
  {
    DecodeByPieces("{}", [""]);
  }

  /** The split does not respect nesting: a nested array containing a
      comma falls apart into leaves that keep the stray braces. */
  lemma {:induction false} NestedCommaSplitsNaively()
    ensures StringToArray("{{1,2},3}") == Arr([Leaf("{1"), Leaf("2}"), Leaf("3")])
  {
    var pieces := ["{1", "2}", "3"];
    assert pieces[1..][1..] == ["3"];
    assert Implode(",", pieces[1..]) == "2},3";
    assert Implode(",", pieces) == "{1,2},3";
    DecodeByPieces("{{1,2},3}", pieces);
  }

  /** A nested array without commas is decoded as a sub-list. */
  lemma {:induction false} CommaFreeNestingDecodes()
    ensures StringToArray("{{a},b}") == Arr([Arr([Leaf("a")]), Leaf("b")])
  {
    assert ["{a}", "b"][1..] == ["b"];
    DecodeByPieces("{{a},b}", ["{a}", "b"]);
    DecodeByPieces("{a}", ["a"]);
    var items := StringToArray("{{a},b}").items;
    assert items[0] == Arr([Leaf("a")]);
    assert items[1] == Leaf("b");
    assert items == [Arr([Leaf("a")]), Leaf("b")];
  }

  /** Because `$` also matches before a final newline, `"{a}\n"` counts as
      an array, and `substr` then strips the newline instead of the brace. */
  lemma {:induction false} TrailingNewlineKeepsBrace()
    ensures StringToArray("{a}\n") == Arr([Leaf("a}")])
  {
    DecodeByPieces("{a}\n", ["a}"]);
  }

  /** Writes a decoded value back as text: leaves as they are, lists as
      their elements joined with commas between braces. The adapter has no
      such operation; it serves only to state `DecodeIsLossless`. */
  function ArrayToText(v: PgValue): string
    decreases v
  {
    match v
    case Leaf(t) => t
    case Arr(items) =>
      "{" + Implode(",", seq(|items|, i requires 0 <= i < |items| => ArrayToText(items[i]))) + "}"
  }

  /** Decoding loses nothing: unless the pattern matched only through a
      final newline, writing the decoded value back gives the input. */
  lemma {:induction false} DecodeIsLossless(s: string)
    requires !LooksLikeArray(s) || s[|s| - 1] == '}'
    ensures ArrayToText(StringToArray(s)) == s
    decreases |s|
  {
    if LooksLikeArray(s) {
      var inner := Interior(s);
      var pieces := Explode(',', inner);
      var items := StringToArray(s).items;
      assert '\n' !in inner;
      forall i | 0 <= i < |pieces|
        ensures ArrayToText(items[i]) == pieces[i]
      {
        NoNewlineInPieces(inner, i);
        DecodeIsLossless(pieces[i]);
      }
      assert seq(|items|, i requires 0 <= i < |items| => ArrayToText(items[i])) == pieces;
      ImplodeExplode(',', inner);
      assert s == "{" + inner + "}";
    }
  }

  lemma NoNewlineInPieces(inner: string, i: int)
    requires '\n' !in inner
    requires 0 <= i < |Explode(',', inner)|
    ensures '\n' !in Explode(',', inner)[i]
  {
    ImplodeExplode(',', inner);
    ImplodePieceIn(",", Explode(',', inner), i);
    assert '\n' !in multiset(inner);
  }

  /** Every character of a piece occurs in the joined text. */
  lemma {:induction false} ImplodePieceIn(glue: string, pieces: seq<string>, i: int)
    requires 0 <= i < |pieces|
    ensures multiset(pieces[i]) <= multiset(Implode(glue, pieces))
    decreases |pieces|
  {
    if |pieces| > 1 && i > 0 {
      ImplodePieceIn(glue, pieces[1..], i - 1);
    }
  }
}
