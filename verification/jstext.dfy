/**
 * JavaScript scalar values as they appear in page rows and upload records,
 * and the small string operations the logbook applies to them: `String(n)` for
 * integers and `String.prototype.split` / `Array.prototype.join` on one
 * separator character.
 */
module JsText {

  /** A scalar cell or record entry: a string, an integer-valued number or a boolean. */
  datatype Value = Str(s: string) | Num(n: int) | Bool(b: bool)

  predicate IsDigit(c: char) { '0' <= c <= '9' }

  function DigitChar(d: nat): (c: char)
    requires d < 10
    ensures IsDigit(c) && c as int - '0' as int == d
  {
    ('0' as int + d) as char
  }

  /** Decimal digits of `n` without leading zeros, as `Number.prototype.toString()` gives them. */
  function NatToString(n: nat): (s: string)
    ensures |s| >= 1 && IsDigit(s[0])
  {
    if n < 10 then [DigitChar(n)] else NatToString(n / 10) + [DigitChar(n % 10)]
  }

  lemma {:induction false} NatToStringDigits(n: nat)
    ensures forall i :: 0 <= i < |NatToString(n)| ==> IsDigit(NatToString(n)[i])
  {
    if n >= 10 {
      NatToStringDigits(n / 10);
    }
  }

  /** `String(n)` for an integer-valued number. */
  function IntToString(n: int): (s: string)
    ensures |s| >= 1
  {
    if n < 0 then "-" + NatToString(-n) else NatToString(n)
  }

  /** The number a string of decimal digits denotes. */
  function DigitsValue(s: string): int
  {
    if s == [] then 0 else 10 * DigitsValue(s[..|s| - 1]) + (s[|s| - 1] as int - '0' as int)
  }

  lemma {:induction false} DigitsValueOfNatToString(n: nat)
    ensures DigitsValue(NatToString(n)) == n
  {
    if n >= 10 {
      var s := NatToString(n);
      assert s[..|s| - 1] == NatToString(n / 10);
      DigitsValueOfNatToString(n / 10);
    }
  }

  /** Distinct integers print differently, so `prefix + String(id)` keys never collide. */
  lemma IntToStringInjective(a: int, b: int)
    requires IntToString(a) == IntToString(b)
    ensures a == b
  {
    assert (IntToString(a)[0] == '-') == (a < 0);
    assert (IntToString(b)[0] == '-') == (b < 0);
    if a < 0 {
      assert NatToString(-a) == IntToString(a)[1..] == IntToString(b)[1..] == NatToString(-b);
      DigitsValueOfNatToString(-a);
      DigitsValueOfNatToString(-b);
    } else {
      assert NatToString(a) == NatToString(b);
      DigitsValueOfNatToString(a);
      DigitsValueOfNatToString(b);
    }
  }

  /**
   * `String(v)` for a scalar value: a string is shown as is, a boolean as
   * `true`/`false`, and a number as its decimal text, which starts with `-`
   * exactly when the number is negative and whose digits read back as its magnitude.
   */
  function ToText(v: Value): (t: string)
    ensures v.Str? ==> t == v.s
    ensures v.Bool? ==> t == (if v.b then "true" else "false")
    ensures v.Num? ==> t == IntToString(v.n)
    ensures v.Num? ==> (t[0] == '-' <==> v.n < 0)
    ensures v.Num? ==> DigitsValue(if v.n < 0 then t[1..] else t) == (if v.n < 0 then -v.n else v.n)
  {
    match v
    case Str(s) => s
    case Num(n) =>
      var m := if n < 0 then -n else n;
      DigitsValueOfNatToString(m);
      assert n < 0 ==> IntToString(n)[1..] == NatToString(m);
      IntToString(n)
    case Bool(b) => if b then "true" else "false"
  }

  /** `s.split(sep)` for a one-character separator: always at least one field. */
  function Split(s: string, sep: char): (fields: seq<string>)
    ensures |fields| >= 1
  {
    if s == [] then [""]
    else if s[0] == sep then [""] + Split(s[1..], sep)
    else
      var rest := Split(s[1..], sep);
      [[s[0]] + rest[0]] + rest[1..]
  }

  /** `fields.join(sep)`. */
  function Join(fields: seq<string>, sep: char): string
    requires |fields| >= 1
  {
    if |fields| == 1 then fields[0] else fields[0] + [sep] + Join(fields[1..], sep)
  }

  predicate NoSeparator(fields: seq<string>, sep: char)
  {
    forall i :: 0 <= i < |fields| ==> sep !in fields[i]
  }

  lemma {:induction false} SplitFieldsHaveNoSeparator(s: string, sep: char)
    ensures NoSeparator(Split(s, sep), sep)
  {
    if s != [] {
      SplitFieldsHaveNoSeparator(s[1..], sep);
    }
  }

  lemma {:induction false} JoinSplit(s: string, sep: char)
    ensures Join(Split(s, sep), sep) == s
  {
    if s != [] {
      JoinSplit(s[1..], sep);
      var rest := Split(s[1..], sep);
      if s[0] != sep && |rest| > 1 {
        assert Split(s, sep)[1..] == rest[1..];
      }
    }
  }

  /** Splitting the join of separator-free fields gives the fields back. */
  lemma {:induction false} SplitJoin(fields: seq<string>, sep: char)
    requires |fields| >= 1 && NoSeparator(fields, sep)
    ensures Split(Join(fields, sep), sep) == fields
  {
    if |fields| == 1 {
      SplitOfPlain(fields[0], sep);
    } else {
      SplitJoin(fields[1..], sep);
      SplitPrefix(fields[0], Join(fields[1..], sep), sep);
      assert [fields[0]] + fields[1..] == fields;
    }
  }

  lemma {:induction false} SplitOfPlain(f: string, sep: char)
    requires sep !in f
    ensures Split(f, sep) == [f]
  {
    if f != [] {
      SplitOfPlain(f[1..], sep);
      assert [f[0]] + f[1..] == f;
    }
  }

  lemma {:induction false} SplitPrefix(f: string, rest: string, sep: char)
    requires sep !in f
    ensures Split(f + [sep] + rest, sep) == [f] + Split(rest, sep)
  {
    if f == [] {
      assert f + [sep] + rest == [sep] + rest;
      assert ([sep] + rest)[1..] == rest;
    } else {
      assert (f + [sep] + rest)[1..] == f[1..] + [sep] + rest;
      SplitPrefix(f[1..], rest, sep);
      assert [f[0]] + f[1..] == f;
    }
  }
}
