/**
  The JavaScript values the filter component reads: record fields that hold
  text or numbers, the coercions JavaScript applies to them, and the parts of
  the runtime whose behaviour is taken as given (case mapping, regular
  expressions, number parsing).
 */
module JsValues {

  datatype Option<T> = None | Some(value: T)

  /** A field value of a record. Numbers are integers in this model. */
  datatype Value = Str(s: string) | Num(n: int)

  /** A record of the collection: its named attributes. A key that is absent reads `undefined`. */
  type Record = map<string, Value>

  /**
    The runtime services the component calls and that this model does not define:
    - `lowerCase`: `String.prototype.toLowerCase`;
    - `compileRegExp`: `new RegExp(pattern)`, `None` when the constructor throws,
      otherwise the compiled expression's `test` as a predicate on text;
    - `toNumber`: `Number(text)`, `None` when the result is `NaN`.
   */
  datatype Host = Host(
    lowerCase: string -> string,
    compileRegExp: string -> Option<string -> bool>,
    toNumber: string -> Option<int>)

  function Digit(d: nat): (c: char)
    requires d < 10
    ensures '0' <= c <= '9'
  {
    "0123456789"[d]
  }

  /** The decimal numeral of a natural number, most significant digit first. */
  function DecimalDigits(n: nat): (s: string)
    ensures |s| > 0
    ensures forall k :: 0 <= k < |s| ==> '0' <= s[k] <= '9'
    ensures s[0] == '0' ==> n == 0
  {
    if n < 10 then [Digit(n)] else DecimalDigits(n / 10) + [Digit(n % 10)]
  }

  /** The number a string of decimal digits denotes, read from the left. */
  function DecimalValue(s: string): (v: nat)
    requires forall k :: 0 <= k < |s| ==> '0' <= s[k] <= '9'
  {
    if s == [] then 0 else 10 * DecimalValue(s[..|s| - 1]) + ((s[|s| - 1] as int) - ('0' as int))
  }

  /**
    `Number.prototype.toString()` on an integer: an optional minus sign, then
    the decimal numeral, with no leading zero except for the number zero itself.
   */
  function NumberToString(n: int): (s: string)
    ensures |s| > 0
    ensures (s[0] == '-') <==> n < 0
    ensures s[0] == '0' ==> n == 0 && s == "0"
    ensures n < 0 ==> |s| >= 2 && '1' <= s[1] <= '9'
    ensures n >= 0 ==> forall k :: 0 <= k < |s| ==> '0' <= s[k] <= '9'
    ensures n < 0 ==> forall k :: 1 <= k < |s| ==> '0' <= s[k] <= '9'
  {
    if n < 0 then "-" + DecimalDigits(-n) else DecimalDigits(n)
  }

  /** Reading back the numeral `DecimalDigits` writes gives the number again. */
  lemma {:induction false} DecimalRoundTrip(n: nat)
    ensures DecimalValue(DecimalDigits(n)) == n
  {
    var s := DecimalDigits(n);
    if n >= 10 {
      DecimalRoundTrip(n / 10);
      assert s[..|s| - 1] == DecimalDigits(n / 10);
    }
  }

  /**
    `NumberToString` writes the number itself: after the sign of a negative
    number, the digits read back as its magnitude.
   */
  lemma NumberToStringRoundTrip(n: int)
    ensures n >= 0 ==> DecimalValue(NumberToString(n)) == n
    ensures n < 0 ==> DecimalValue(NumberToString(n)[1..]) == -n
  {
    if n < 0 {
      DecimalRoundTrip(-n);
      assert NumberToString(n)[1..] == DecimalDigits(-n);
    } else {
      DecimalRoundTrip(n);
    }
  }

  /**
    The text JavaScript makes of `record[field]` when a string is needed
    (`String(x)`, and `x.toString()` for a value that has the method):
    text stays as it is, a number is written in decimal, a missing field reads "undefined".
   */
  function FieldText(r: Record, field: string): (t: string)
    ensures field !in r ==> t == "undefined"
    ensures field in r && r[field].Str? ==> t == r[field].s
    ensures field in r && r[field].Num? ==> t == NumberToString(r[field].n)
  {
    if field !in r then "undefined"
    else match r[field]
      case Str(s) => s
      case Num(n) => NumberToString(n)
  }

  /**
    The text `contains` tests for a number field denotes the number: its
    digits read back as the number, after a minus sign when it is negative.
   */
  lemma FieldTextOfNumber(r: Record, field: string)
    requires field in r && r[field].Num?
    ensures r[field].n >= 0 ==> DecimalValue(FieldText(r, field)) == r[field].n
    ensures r[field].n < 0 ==> FieldText(r, field)[0] == '-'
    ensures r[field].n < 0 ==> DecimalValue(FieldText(r, field)[1..]) == -r[field].n
  {
    NumberToStringRoundTrip(r[field].n);
  }

  /**
    The number a relational comparison (`<`, `<=`, `>`, `>=`) makes of
    `record[field]`: a number as it is, text through `Number(text)`, a missing
    field (`undefined`) as `NaN`. `None` stands for `NaN`.
   */
  function FieldNumber(h: Host, r: Record, field: string): (x: Option<int>)
    ensures field !in r ==> x.None?
    ensures field in r && r[field].Num? ==> x == Some(r[field].n)
  {
    if field !in r then None
    else match r[field]
      case Num(n) => Some(n)
      case Str(s) => h.toNumber(s)
  }

  /** `needle` starts at position `i` of `hay`. */
  predicate OccursAt(hay: string, needle: string, i: int)
  {
    0 <= i <= |hay| - |needle| && hay[i..i + |needle|] == needle
  }

  /** `hay.includes(needle)`: `needle` occurs in `hay` at some position. */
  predicate Includes(hay: string, needle: string)
    ensures Includes(hay, needle) ==> |needle| <= |hay|
    ensures needle == [] ==> Includes(hay, needle)
    decreases |hay|
  {
    needle <= hay || (hay != [] && Includes(hay[1..], needle))
  }

  /** `Includes` is exactly "there is a position where `needle` starts in `hay`". */
  lemma {:induction false} IncludesIffOccurs(hay: string, needle: string)
    ensures Includes(hay, needle) <==> exists i :: OccursAt(hay, needle, i)
  {
    if needle <= hay {
      assert OccursAt(hay, needle, 0);
    } else if hay == [] {
    } else {
      IncludesIffOccurs(hay[1..], needle);
      var tail := hay[1..];
      if Includes(tail, needle) {
        var i :| OccursAt(tail, needle, i);
        assert hay[i + 1..i + 1 + |needle|] == tail[i..i + |needle|];
        assert OccursAt(hay, needle, i + 1);
      }
      if exists i :: OccursAt(hay, needle, i) {
        var i :| OccursAt(hay, needle, i);
        assert i != 0;
        assert tail[i - 1..i - 1 + |needle|] == hay[i..i + |needle|];
        assert OccursAt(tail, needle, i - 1);
      }
    }
  }
}
