# PostgreSQL adapter of the Quibble database layer, in Dafny

This project models `Quibble\Postgresql\Adapter`. That class is the PostgreSQL
dialect of a generic PHP database layer and does two jobs:

- It writes SQL fragments for the generic layer:
  - `any` builds an existence-in-set test: a parenthesised `OR` of
    `<placeholder> = ANY(<key>)` clauses.
  - `interval` builds an interval literal `'<n> <unit>'::interval`.
  - `lastInsertId` builds the sequence name `<object>_id_seq`.
  - `random` returns the expression `RANDOM()`.
- `stringToArray` decodes PostgreSQL's brace-delimited array text into nested
  PHP arrays.

The model lives in two modules:

- `PhpStrings` (`PhpStrings.dfy`) holds the PHP built-ins the adapter uses.
  `explode` is modelled for a one-character delimiter. `implode` and the `%d`
  conversion of `sprintf` are modelled too. Each comes with its inverse:
  `implode` undoes `explode`, and `ParseDecimal` reads back `FormatDecimal`.
- `Postgresql` (`Adapter.dfy`) holds the adapter itself.

## How `stringToArray` is modelled

The decoder is modelled as the code is written, quirks included:

- The guard is the PCRE pattern `@^{.*?}$@`. It is modelled exactly:
  - `.` does not match a newline.
  - `$` also matches just before a final newline.
- A string that fails the guard is returned unchanged (`Leaf`).
- For a string that passes, the first and last characters are cut off
  (`substr($s, 1, -1)`). The rest is split on every comma (`explode`), with no
  notion of nesting. Each piece is decoded in turn.
- Consequences, each proved as a lemma:
  - `{}` gives a one-element list holding the empty string.
  - `{{1,2},3}` gives three leaves.
  - `{a}` followed by a newline gives `["a}"]`.

`StringToArray` is the function. `DecodeArrayText` is the method with the
source's shape: it fills an array with the raw pieces, then overwrites each
piece with its decoding in a loop. It is proved to compute `StringToArray`.

The adapter has no encoder, no error path for malformed input and no
depth-aware split, and neither does the model. `ArrayToText`, which writes a
decoded value back as text, has no counterpart in the adapter. It exists only
to state `DecodeIsLossless`: decoding and then writing back returns the input,
for every input except one that matched only because of a final newline.

## Model

| member | source | states |
|---|---|---|
| Postgresql.ValueList | src/Adapter.php:37-39 | a non-array `$values` becomes the one-element list holding it; an array is used unchanged |
| Postgresql.AnyClause | src/Adapter.php:41-45 | a clause is the parent's placeholders for `[value]` glued with `''`, followed by ` = ANY(<key>)` |
| Postgresql.AnyClauses | src/Adapter.php:40-46 | one clause per value, same count, clause i is `values([v_i])` glued with `''`, then ` = ANY(key)`, in input order |
| Postgresql.AnyDisjunction | src/Adapter.php:47 | the result is wrapped in `(` and `)`, and it is `()` exactly when there are no values |
| Postgresql.Any | src/Adapter.php:34-48 | the loop that appends to `els` yields exactly the disjunction of the clauses of the value list; the result is wrapped in `(` and `)` |
| Postgresql.AnyScalarIsSingletonList | src/Adapter.php:37-39 | a scalar argument gives the same SQL as the list `[scalar]` |
| Postgresql.AnyOfNothing | src/Adapter.php:47 | an empty value list gives `()` |
| Postgresql.AnyOfOne | src/Adapter.php:40-47 | a single value gives its clause in parentheses, with no ` OR ` |
| Postgresql.AnyAppend | src/Adapter.php:40-47 | adding a value at the end inserts ` OR ` and its clause just before the closing parenthesis, so clauses keep input order |
| Postgresql.UnitWord | src/Adapter.php:52-61 | the unit is empty exactly for an unknown quantity; otherwise it is a lower-case word |
| Postgresql.UnitWordInjective | src/Adapter.php:53-61 | the seven known quantities have seven distinct unit words |
| Postgresql.Interval | src/Adapter.php:50-63 | the literal is a quote, the `%d` amount, one space, the unit and `'::interval` |
| Postgresql.IntervalDeterminesArguments | src/Adapter.php:50-63 | two interval literals are equal if and only if their quantities and their amounts are equal |
| PhpStrings.Digits | src/Adapter.php:62 | the decimal digits of a natural number: non-empty, digits only, no leading zero |
| PhpStrings.DigitsValueOfDigits | src/Adapter.php:62 | the digits written for n denote n |
| PhpStrings.FormatDecimal | src/Adapter.php:62 | `%d` output is non-empty and contains neither a space nor a quote |
| PhpStrings.ParseFormatDecimal | src/Adapter.php:62 | `%d` output is a well-formed decimal that reads back as the same integer |
| Postgresql.SequenceName | src/Adapter.php:65-68 | the name handed to the parent always ends in `_id_seq` |
| Postgresql.SequenceNameRecoversObject | src/Adapter.php:67 | the part before `_id_seq` is the object name; a `null` object gives the same name as the empty string |
| Postgresql.Random | src/Adapter.php:70-73 | the random-value expression is the constant `RANDOM()` |
| PhpStrings.Implode | src/Adapter.php:47 | `implode` of no pieces is the empty string; of one piece, that piece |
| PhpStrings.ImplodeEnds | src/Adapter.php:47 | the joined text starts with the first piece and ends with the last |
| PhpStrings.Explode | src/Adapter.php:87 | `explode` yields at least one piece; no piece contains the delimiter; no piece is longer than the input |
| PhpStrings.ExplodeCount | src/Adapter.php:87 | `explode` yields one piece more than the input has delimiters |
| PhpStrings.ImplodeExplode | src/Adapter.php:87 | joining the pieces with the delimiter gives back the input |
| PhpStrings.ExplodeImplode | src/Adapter.php:87 | delimiter-free pieces joined with the delimiter split back into exactly those pieces |
| PhpStrings.ImplodeSnoc | src/Adapter.php:47 | appending a piece to a non-empty list appends the glue and that piece to the joined text |
| Postgresql.LooksLikeArray | src/Adapter.php:84 | a matching string starts with `{` and ends with `}` or a newline; for a newline-free string the pattern holds exactly when it starts with `{`, ends with `}` and has at least two characters |
| Postgresql.Interior | src/Adapter.php:87 | `substr($s, 1, -1)` is two characters shorter and holds the characters of `s` shifted by one |
| Postgresql.StringToArray | src/Adapter.php:82-92 | the result is a leaf if and only if the input fails the pattern, and that leaf is the input itself |
| Postgresql.DecodeArrayText | src/Adapter.php:82-92 | the loop that overwrites `$parts` in place computes `StringToArray` |
| Postgresql.ShortStringIsLeaf | src/Adapter.php:84-86 | a string shorter than two characters is returned unchanged |
| Postgresql.PiecesAreShorter | src/Adapter.php:87-90 | every piece decoded recursively is strictly shorter than its parent string |
| Postgresql.DecodeByPieces | src/Adapter.php:87-91 | for any comma-free pieces that join with commas to the interior, the result has one element per piece, left to right, each the decoding of its piece |
| Postgresql.ElementCount | src/Adapter.php:87-91 | a decoded array has one element more than its interior has commas, and its pieces join back to the interior |
| Postgresql.EmptyBracesGiveOneEmptyString | src/Adapter.php:87 | `{}` decodes to a one-element list holding the empty string |
| Postgresql.NestedCommaSplitsNaively | src/Adapter.php:87-90 | `{{1,2},3}` decodes to the three leaves `{1`, `2}`, `3` |
| Postgresql.CommaFreeNestingDecodes | src/Adapter.php:87-90 | `{{a},b}` decodes to a nested list `[["a"], "b"]` |
| Postgresql.TrailingNewlineKeepsBrace | src/Adapter.php:84-87 | `{a}` plus a final newline passes the pattern and decodes to `["a}"]` |
| Postgresql.DecodeIsLossless | src/Adapter.php:82-92 | decoding and writing back with braces and commas returns the input, unless it matched only through a final newline |

## Left out

- The constructor (src/Adapter.php:20-32) only prefixes `pgsql:` to the DSN and opens a PDO connection through the parent class. That is I/O.
- `src/Now.php` passes the constant `NOW()` to the parent class `Dabble\Now`. That class is not part of this model.
- The parent's `values()` is not part of this model. `Any` takes it as the parameter `placeholders`, a function from a list of values to a list of strings.
- The `&$bind` parameter of `any` is never touched by the code shown, so the model has no bind accumulator.
- `parent::lastInsertId` is a driver call. Only the sequence name passed to it (`SequenceName`) is modelled.
- `Quantity` is an enumeration with an `Other` case. The parent's constant values are not part of this model, so PHP's loose `==` comparison in `switch` between those constants and other values is not modelled.
- `interval` takes `$amount` as an integer. PHP's coercion of other types by `%d` is not modelled.
- PHP strings are byte strings; the model uses sequences of characters. Only `\n` is treated as a newline, which is PCRE's default.
- Recursion depth in `stringToArray` is unbounded, in the model as in the code. Stack exhaustion is not modelled.
- `StringToArray` takes a string. Calls with non-string arguments are not modelled.
- `DecodeArrayText` replaces PHP's by-reference `foreach` over `$parts` with a fresh Dafny array that the loop overwrites index by index. Reference aliasing left over after a by-reference `foreach` is not modelled.
