/** Cell ids "x-y" and the composite intervention key "cellId-typeId"
    (src/App.tsx:192, 260, 557-574), with JavaScript's `String.split` and
    `Array.join` on a one-character separator. */
module CellIds {

  predicate IsDigit(ch: char) { '0' <= ch <= '9' }

  predicate AllDigits(s: string) { forall i :: 0 <= i < |s| ==> IsDigit(s[i]) }

  function DigitChar(d: nat): (ch: char)
    requires d < 10
    ensures IsDigit(ch) && ch as int - '0' as int == d
  {
    ('0' as int + d) as char
  }

  /** Decimal rendering of a non-negative integer, as `${n}` does. */
  function NatToString(n: nat): (s: string)
    ensures |s| > 0 && AllDigits(s)
  {
    if n < 10 then [DigitChar(n)] else NatToString(n / 10) + [DigitChar(n % 10)]
  }

  /** Value of a string of decimal digits (the inverse of NatToString). */
  function DigitsValue(s: string): nat
    requires AllDigits(s)
  {
    if |s| == 0 then 0
    else DigitsValue(s[..|s| - 1]) * 10 + (s[|s| - 1] as int - '0' as int)
  }

  lemma {:induction false} DigitsValueOfNatToString(n: nat)
    ensures DigitsValue(NatToString(n)) == n
  {
    if n >= 10 {
      var s := NatToString(n);
      assert s[..|s| - 1] == NatToString(n / 10);
      DigitsValueOfNatToString(n / 10);
    }
  }

  lemma NatToStringInjective(a: nat, b: nat)
    ensures NatToString(a) == NatToString(b) ==> a == b
  {
    DigitsValueOfNatToString(a);
    DigitsValueOfNatToString(b);
  }

  /** `s.split(d)`: always at least one part; no part contains `d`. */
  function Split(s: string, d: char): (parts: seq<string>)
    ensures |parts| >= 1
    ensures forall k :: 0 <= k < |parts| ==> d !in parts[k]
  {
    if |s| == 0 then [""]
    else if s[0] == d then [""] + Split(s[1..], d)
    else
      var rest := Split(s[1..], d);
      [[s[0]] + rest[0]] + rest[1..]
  }

  /** `parts.join(d)`. */
  function Join(parts: seq<string>, d: char): string
  {
    if |parts| == 0 then ""
    else if |parts| == 1 then parts[0]
    else parts[0] + [d] + Join(parts[1..], d)
  }

  /** Joining the parts of a split gives the string back. */
  lemma {:induction false} JoinSplit(s: string, d: char)
    ensures Join(Split(s, d), d) == s
  {
    if |s| > 0 {
      JoinSplit(s[1..], d);
      var rest := Split(s[1..], d);
      if s[0] == d {
        assert Split(s, d)[1..] == rest;
        assert s == [d] + s[1..];
      } else {
        var parts := Split(s, d);
        assert parts[1..] == rest[1..];
        if |rest| == 1 {
          assert s == [s[0]] + rest[0];
        } else {
          assert Join(rest, d) == rest[0] + [d] + Join(rest[1..], d);
          assert s == [s[0]] + s[1..];
        }
      }
    }
  }

  /** Splitting a join of separator-free parts gives the parts back. */
  lemma {:induction false} SplitJoin(parts: seq<string>, d: char)
    requires |parts| >= 1
    requires forall k :: 0 <= k < |parts| ==> d !in parts[k]
    ensures Split(Join(parts, d), d) == parts
  {
    if |parts| == 1 {
      SplitPlain(parts[0], d);
    } else {
      SplitJoin(parts[1..], d);
      SplitAfterPlain(parts[0], Join(parts[1..], d), d);
      assert parts == [parts[0]] + parts[1..];
    }
  }

  lemma {:induction false} SplitPlain(a: string, d: char)
    requires d !in a
    ensures Split(a, d) == [a]
  {
    if |a| > 0 {
      SplitPlain(a[1..], d);
      assert a == [a[0]] + a[1..];
    }
  }

  /** A separator-free prefix followed by the separator is split off as one part. */
  lemma {:induction false} SplitAfterPlain(a: string, b: string, d: char)
    requires d !in a
    ensures Split(a + [d] + b, d) == [a] + Split(b, d)
  {
    if |a| == 0 {
      assert a + [d] + b == [d] + b;
      assert ([d] + b)[1..] == b;
    } else {
      SplitAfterPlain(a[1..], b, d);
      assert (a + [d] + b)[1..] == a[1..] + [d] + b;
      assert a == [a[0]] + a[1..];
    }
  }

  /** Id of the cell at column x, row y: `${x}-${y}`. */
  function CellId(x: nat, y: nat): string
  {
    NatToString(x) + "-" + NatToString(y)
  }

  lemma SplitCellId(x: nat, y: nat)
    ensures Split(CellId(x, y), '-') == [NatToString(x), NatToString(y)]
  {
    assert '-' !in NatToString(x) && '-' !in NatToString(y) by {
      assert !IsDigit('-');
    }
    SplitAfterPlain(NatToString(x), NatToString(y), '-');
    SplitPlain(NatToString(y), '-');
  }

  /** Distinct positions have distinct ids. */
  lemma CellIdInjective(x1: nat, y1: nat, x2: nat, y2: nat)
    ensures CellId(x1, y1) == CellId(x2, y2) ==> x1 == x2 && y1 == y2
  {
    SplitCellId(x1, y1);
    SplitCellId(x2, y2);
    NatToStringInjective(x1, x2);
    NatToStringInjective(y1, y2);
  }

  /** Key of a placed intervention: `${cell.id}-${intervention.id}`. */
  function PlacedKey(cellId: string, typeId: string): string
  {
    cellId + "-" + typeId
  }

  /** The parse of a key done by the remove handler: with three or more
      parts the first two form the cell id and the rest, rejoined with '-',
      the type id; otherwise the first part is the cell id. */
  function ParseKey(key: string): (string, string)
  {
    var parts := Split(key, '-');
    if |parts| >= 3 then (parts[0] + "-" + parts[1], Join(parts[2..], '-'))
    else (parts[0], Join(parts[1..], '-'))
  }

  /** Parsing a key built from a cell id and any type id (even one that
      contains '-', or is empty) recovers both. */
  lemma KeyRoundTrip(x: nat, y: nat, typeId: string)
    ensures ParseKey(PlacedKey(CellId(x, y), typeId)) == (CellId(x, y), typeId)
  {
    var sx, sy := NatToString(x), NatToString(y);
    assert '-' !in sx && '-' !in sy by {
      assert !IsDigit('-');
    }
    assert PlacedKey(CellId(x, y), typeId) == sx + ['-'] + (sy + ['-'] + typeId);
    SplitAfterPlain(sx, sy + ['-'] + typeId, '-');
    SplitAfterPlain(sy, typeId, '-');
    var parts := Split(PlacedKey(CellId(x, y), typeId), '-');
    assert parts == [sx] + ([sy] + Split(typeId, '-'));
    assert parts[2..] == Split(typeId, '-');
    JoinSplit(typeId, '-');
  }
}
