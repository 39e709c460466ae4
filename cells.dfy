/** The optional value used for the nullable fields of the table's state. */
module Wrappers {

  datatype Option<+T> = None | Some(value: T)
}

/**
 Cell values and rows, as the table's comparator and row-key logic see them.

 A row is a record from field name to value; a field it does not have reads as
 JavaScript's `undefined`, which the table treats exactly like `null`.
 */
module Cells {

  /** A cell value, tagged the way the comparator distinguishes values:
      null or undefined, a string, a number, or anything else (kept as the text
      that JavaScript's `String()` gives for it). */
  datatype Value = Null | Str(s: string) | Num(n: int) | Other(text: string)

  /** A row identity: any value that is not null or undefined. */
  type Key = v: Value | !v.Null? witness Num(0)

  type Row = map<string, Value>

  /** `row[field]`, with a missing field read as undefined. */
  function Cell(row: Row, field: string): Value
  {
    if field in row then row[field] else Null
  }

  predicate IsTextual(v: Value)
  {
    v.Str? || v.Other?
  }

  function DigitChar(d: nat): char
    requires d < 10
  {
    "0123456789"[d]
  }

  /** The decimal digits of a natural number, most significant first. */
  function Digits(n: nat): (r: string)
    ensures |r| >= 1
    ensures forall k :: 0 <= k < |r| ==> '0' <= r[k] <= '9'
    ensures r[0] == '0' <==> n == 0
    ensures n == 0 ==> r == "0"
    decreases n
  {
    if n < 10 then
      DigitCharValue(n);
      [DigitChar(n)]
    else
      Digits(n / 10) + [DigitChar(n % 10)]
  }

  /** The value of a decimal digit character. */
  function DigitValue(c: char): nat
    requires '0' <= c <= '9'
  {
    c as int - '0' as int
  }

  predicate AllDigits(s: string)
  {
    forall k :: 0 <= k < |s| ==> '0' <= s[k] <= '9'
  }

  /** The number a string of decimal digits denotes, read from the most
      significant digit on: each further digit multiplies the value so far by ten. */
  function DecimalValue(s: string): nat
    requires AllDigits(s)
  {
    if s == [] then 0 else 10 * DecimalValue(s[..|s| - 1]) + DigitValue(s[|s| - 1])
  }

  lemma DigitCharValue(d: nat)
    requires d < 10
    ensures DigitValue(DigitChar(d)) == d
  {
    assert "0123456789"[d] == ('0' as int + d) as char;
  }

  /** The digits of `n` denote `n`. */
  lemma {:induction false} DigitsValue(n: nat)
    ensures DecimalValue(Digits(n)) == n
    decreases n
  {
    if n < 10 {
      DigitCharValue(n);
      assert Digits(n)[..0] == [];
    } else {
      var s := Digits(n / 10);
      DigitsValue(n / 10);
      DigitCharValue(n % 10);
      assert (s + [DigitChar(n % 10)])[..|s|] == s;
    }
  }

  /** `String(n)` for an integral number: a `-` exactly for a negative number,
      then the decimal digits of its magnitude. */
  function NumberText(n: int): (r: string)
    ensures |r| >= 1
    ensures r[0] == '-' <==> n < 0
    ensures forall k :: 0 < k < |r| ==> '0' <= r[k] <= '9'
    ensures n >= 0 ==> AllDigits(r) && DecimalValue(r) == n
    ensures n < 0 ==> AllDigits(r[1..]) && DecimalValue(r[1..]) == -n
    ensures n >= 0 ==> (r[0] == '0' ==> r == "0")
    ensures n < 0 ==> |r| >= 2 && r[1] != '0'
  {
    if n < 0 then
      DigitsValue(-n);
      assert ("-" + Digits(-n))[1..] == Digits(-n);
      "-" + Digits(-n)
    else
      DigitsValue(n);
      Digits(n)
  }

  /** `String(v)` for a value that is not null or undefined. */
  function Text(v: Value): string
    requires !v.Null?
  {
    match v
    case Str(s) => s
    case Num(n) => NumberText(n)
    case Other(t) => t
  }

  /** The string comparison the table uses in place of `localeCompare`:
      lexicographic order on code points (Unicode scalar values), giving -1, 0 or 1. */
  function LexCompare(a: string, b: string): (r: int)
    ensures -1 <= r <= 1
    ensures r == 0 <==> a == b
    ensures a == [] ==> r <= 0
  {
    if a == [] && b == [] then 0
    else if a == [] then -1
    else if b == [] then 1
    else if a[0] < b[0] then -1
    else if a[0] > b[0] then 1
    else LexCompare(a[1..], b[1..])
  }

  lemma {:induction false} LexAntisymmetric(a: string, b: string)
    ensures LexCompare(a, b) == -LexCompare(b, a)
  {
    if a != [] && b != [] && a[0] == b[0] {
      LexAntisymmetric(a[1..], b[1..]);
    }
  }

  lemma {:induction false} LexTransitive(a: string, b: string, c: string)
    requires LexCompare(a, b) <= 0 && LexCompare(b, c) <= 0
    ensures LexCompare(a, c) <= 0
  {
    if a != [] && b != [] && c != [] && a[0] == b[0] && b[0] == c[0] {
      LexTransitive(a[1..], b[1..], c[1..]);
    }
  }
}
