/**
 * Values shared by every part of the ingester model: optional values, the
 * success/failure outcome of an operation that throws in the source, a parsed
 * CSV row, JavaScript truthiness of a CSV cell, decimal digits, and the
 * separator-based split/join used by the route-set column.
 */
module Common {

  datatype Option<+T> = None | Some(value: T) {
    /** `x || d` on a value that is either set or undefined. */
    function GetOr(default: T): T {
      if Some? then value else default
    }
  }

  /** The outcome of an operation that either returns normally or throws. */
  datatype Outcome<+E> = Pass | Fail(error: E)

  /** The value of an operation that either returns a value or throws. */
  datatype Result<+R, +E> = Ok(value: R) | Err(error: E)

  /** One row of a GTFS CSV file: column name to cell text. */
  type Row = map<string, string>

  /** The parsed files of a GTFS schedule, by file name. */
  type GtfsData = map<string, seq<Row>>

  /** The rows of a file, none when the file is absent (`data[name] || []`). */
  function FileRows(data: GtfsData, name: string): seq<Row> {
    if name in data then data[name] else []
  }

  /** A CSV cell as the source reads it: an absent column and an empty cell are both falsy. */
  function Field(row: Row, key: string): Option<string> {
    if key in row && row[key] != "" then Some(row[key]) else None
  }

  /** `a || b` on two optional strings. */
  function OrElse(a: Option<string>, b: Option<string>): Option<string> {
    if a.Some? then a else b
  }

  /** `filter(Boolean)` on a list of optional values: the values that are set, in order. */
  function Present<T>(xs: seq<Option<T>>): seq<T>
    decreases |xs|
  {
    if |xs| == 0 then []
    else Present(xs[..|xs| - 1]) + (if xs[|xs| - 1].Some? then [xs[|xs| - 1].value] else [])
  }

  /** A value is present exactly when some position holds it. */
  lemma {:induction false} PresentMembership<T>(xs: seq<Option<T>>, e: T)
    ensures e in Present(xs) <==> exists k :: 0 <= k < |xs| && xs[k] == Some(e)
    decreases |xs|
  {
    if |xs| > 0 {
      var init := xs[..|xs| - 1];
      PresentMembership(init, e);
      if exists k :: 0 <= k < |xs| && xs[k] == Some(e) {
        var k :| 0 <= k < |xs| && xs[k] == Some(e);
        if k < |xs| - 1 {
          assert init[k] == xs[k];
        }
      }
      if exists k :: 0 <= k < |init| && init[k] == Some(e) {
        var k :| 0 <= k < |init| && init[k] == Some(e);
        assert xs[k] == init[k];
      }
    }
  }

  // ---------------------------------------------------------------------
  // Decimal digits

  predicate IsDigit(c: char) {
    '0' <= c <= '9'
  }

  predicate AllDigits(s: string) {
    forall i :: 0 <= i < |s| ==> IsDigit(s[i])
  }

  function DigitValue(c: char): nat
    requires IsDigit(c)
  {
    (c as int) - ('0' as int)
  }

  function DigitChar(n: nat): char
    requires n < 10
  {
    ('0' as int + n) as char
  }

  /** The decimal text of a natural number, as JavaScript's `String(n)` writes it. */
  function NatToString(n: nat): string
    decreases n
  {
    if n < 10 then [DigitChar(n)] else NatToString(n / 10) + [DigitChar(n % 10)]
  }

  /** The value of a string of decimal digits. */
  function DigitsValue(s: string): nat
    requires AllDigits(s)
    decreases |s|
  {
    if s == [] then 0 else DigitsValue(s[..|s| - 1]) * 10 + DigitValue(s[|s| - 1])
  }

  /** Reading back the decimal text of a number gives the number. */
  lemma {:induction false} NatToStringRoundTrip(n: nat)
    ensures AllDigits(NatToString(n)) && 1 <= |NatToString(n)|
    ensures DigitsValue(NatToString(n)) == n
    decreases n
  {
    var s := NatToString(n);
    if n >= 10 {
      NatToStringRoundTrip(n / 10);
      var p := NatToString(n / 10);
      assert s[..|s| - 1] == p;
    }
  }

  /** Numbers from 1000 to 9999 are written with exactly four digits. */
  lemma FourDigitNumber(n: nat)
    requires 1000 <= n <= 9999
    ensures |NatToString(n)| == 4
  {
    var a := n / 10;
    var b := a / 10;
    var c := b / 10;
    assert 1 <= c <= 9 && 10 <= b && 100 <= a;
    assert NatToString(c) == [DigitChar(c)];
    assert |NatToString(b)| == 2;
    assert |NatToString(a)| == 3;
  }

  /** `String(n).padStart(2, '0')` for a number below 100. */
  function Pad2(n: nat): string
    requires n < 100
  {
    if n < 10 then "0" + NatToString(n) else NatToString(n)
  }

  lemma Pad2RoundTrip(n: nat)
    requires n < 100
    ensures |Pad2(n)| == 2 && AllDigits(Pad2(n)) && DigitsValue(Pad2(n)) == n
  {
    var s := Pad2(n);
    if n < 10 {
      assert s == ['0', DigitChar(n)];
      assert s[..1] == ['0'];
      assert ['0'][..0] == [];
      assert DigitsValue(['0']) == 0;
    } else {
      assert NatToString(n / 10) == [DigitChar(n / 10)];
      assert s == [DigitChar(n / 10), DigitChar(n % 10)];
      assert s[..1] == [DigitChar(n / 10)];
      assert [DigitChar(n / 10)][..0] == [];
      assert DigitsValue(s[..1]) == n / 10;
      assert DigitsValue(s) == DigitsValue(s[..1]) * 10 + DigitValue(s[1]);
    }
  }

  // ---------------------------------------------------------------------
  // Split and join on a one-character separator

  /** `parts.join(sep)`. */
  function Join(parts: seq<string>, sep: char): string
  {
    if |parts| == 0 then ""
    else if |parts| == 1 then parts[0]
    else parts[0] + [sep] + Join(parts[1..], sep)
  }

  function FirstIndexOf(s: string, c: char): (i: nat)
    requires c in s
    ensures i < |s| && s[i] == c && c !in s[..i]
  {
    if s[0] == c then 0 else 1 + FirstIndexOf(s[1..], c)
  }

  /** `s.split(sep)`: the pieces between separators, empty pieces included. */
  function Split(s: string, sep: char): (r: seq<string>)
    ensures |r| >= 1
    decreases |s|
  {
    if sep !in s then [s]
    else
      var i := FirstIndexOf(s, sep);
      [s[..i]] + Split(s[i + 1..], sep)
  }

  /** Splitting a join gives the parts back when no part contains the separator. */
  lemma {:induction false} SplitJoin(parts: seq<string>, sep: char)
    requires |parts| >= 1
    requires forall k :: 0 <= k < |parts| ==> sep !in parts[k]
    ensures Split(Join(parts, sep), sep) == parts
    decreases |parts|
  {
    if |parts| > 1 {
      var rest := Join(parts[1..], sep);
      var s := parts[0] + [sep] + rest;
      assert s[|parts[0]|] == sep;
      assert s[..|parts[0]|] == parts[0];
      assert FirstIndexOf(s, sep) == |parts[0]|;
      assert s[|parts[0]| + 1..] == rest;
      SplitJoin(parts[1..], sep);
    }
  }
}
