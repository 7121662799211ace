/**
 `JSON.stringify` on a matrix of integers, the form in which the quiz hands a
 matrix to Python (`np.array(<JSON>)`). An integer is written as in section 6
 of RFC 8259: an optional minus sign followed by decimal digits without
 leading zeros; a row and the matrix are arrays as in section 5, with the
 elements separated by commas and no whitespace. A parser for exactly this
 subset of JSON is the inverse that shows nothing is lost or ambiguous.
 */
module Json {
  import opened Results
  import opened Text

  predicate IsDigit(c: char) {
    '0' <= c <= '9'
  }

  /** The character of a decimal digit. */
  function DigitChar(d: nat): (c: char)
    requires d < 10
    ensures IsDigit(c)
  {
    (d + '0' as int) as char
  }

  /** The value of a digit character. */
  function DigitValue(c: char): (d: nat)
    requires IsDigit(c)
    ensures d < 10 && DigitChar(d) == c
  {
    (c as int - '0' as int)
  }

  predicate AllDigits(s: string) {
    forall i :: 0 <= i < |s| ==> IsDigit(s[i])
  }

  /** The decimal digits of `n`, most significant first, without leading
      zeros. */
  function NatToString(n: nat): (s: string)
    ensures |s| >= 1 && AllDigits(s)
    ensures s[0] == '0' <==> n == 0
    ensures n == 0 ==> s == "0"
  {
    if n < 10 then [DigitChar(n)] else NatToString(n / 10) + [DigitChar(n % 10)]
  }

  /** `String(n)` for an integer `n`, which is what `JSON.stringify` writes
      for it. */
  function IntToString(n: int): (s: string)
    ensures |s| >= 1 && (s[0] == '-' || IsDigit(s[0]))
    ensures s[0] == '-' <==> n < 0
  {
    if n < 0 then "-" + NatToString(-n) else NatToString(n)
  }

  /** The elements of `row`, written as integers and separated by commas. */
  function JoinInts(row: seq<int>): (s: string)
    ensures |row| == 0 <==> |s| == 0
  {
    if |row| == 0 then ""
    else if |row| == 1 then IntToString(row[0])
    else IntToString(row[0]) + "," + JoinInts(row[1..])
  }

  /** `JSON.stringify(row)` for an array of integers. */
  function JsonRow(row: seq<int>): (s: string)
    ensures |s| >= 2 && s[0] == '[' && s[|s| - 1] == ']'
  {
    "[" + JoinInts(row) + "]"
  }

  /** The rows of `m`, each written as a JSON array and separated by commas. */
  function JoinRows(m: seq<seq<int>>): (s: string)
    ensures |m| == 0 <==> |s| == 0
  {
    if |m| == 0 then ""
    else if |m| == 1 then JsonRow(m[0])
    else JsonRow(m[0]) + "," + JoinRows(m[1..])
  }

  /** `JSON.stringify(matrix)` for an array of arrays of integers. */
  function JsonMatrix(m: seq<seq<int>>): (s: string)
    ensures |s| >= 2 && s[0] == '[' && s[|s| - 1] == ']'
  {
    "[" + JoinRows(m) + "]"
  }

  // ---------------------------------------------------------------------
  // The characters the JSON text is made of

  /** The characters of an array of arrays of integers: digits, the minus
      sign, commas and square brackets. */
  predicate JsonChar(c: char) {
    IsDigit(c) || c == '-' || c == ',' || c == '[' || c == ']'
  }

  predicate AllJsonChars(s: string) {
    forall i :: 0 <= i < |s| ==> JsonChar(s[i])
  }

  lemma JsonCharsConcat(a: string, b: string)
    requires AllJsonChars(a) && AllJsonChars(b)
    ensures AllJsonChars(a + b)
  {
    forall i | 0 <= i < |a + b|
      ensures JsonChar((a + b)[i])
    {
      if i >= |a| {
        assert (a + b)[i] == b[i - |a|];
      }
    }
  }

  lemma IntToStringChars(n: int)
    ensures AllJsonChars(IntToString(n))
  {
    if n < 0 {
      var d := NatToString(-n);
      assert AllJsonChars(d);
      JsonCharsConcat("-", d);
    }
  }

  lemma {:induction false} JoinIntsChars(row: seq<int>)
    ensures AllJsonChars(JoinInts(row))
    decreases |row|
  {
    if |row| > 0 {
      var head := IntToString(row[0]);
      IntToStringChars(row[0]);
      if |row| > 1 {
        JoinIntsChars(row[1..]);
        JsonCharsConcat(head, ",");
        JsonCharsConcat(head + ",", JoinInts(row[1..]));
      }
    }
  }

  lemma JsonRowChars(row: seq<int>)
    ensures AllJsonChars(JsonRow(row))
  {
    JoinIntsChars(row);
    JsonCharsConcat("[", JoinInts(row));
    JsonCharsConcat("[" + JoinInts(row), "]");
  }

  lemma {:induction false} JoinRowsChars(m: seq<seq<int>>)
    ensures AllJsonChars(JoinRows(m))
    decreases |m|
  {
    if |m| > 0 {
      JsonRowChars(m[0]);
      if |m| > 1 {
        JoinRowsChars(m[1..]);
        JsonCharsConcat(JsonRow(m[0]), ",");
        JsonCharsConcat(JsonRow(m[0]) + ",", JoinRows(m[1..]));
      }
    }
  }

  /** The JSON text of a matrix uses only digits, `-`, `,`, `[` and `]`: in
      particular it has no whitespace and no line break. */
  lemma JsonMatrixChars(m: seq<seq<int>>)
    ensures AllJsonChars(JsonMatrix(m))
    ensures '\n' !in JsonMatrix(m)
  {
    JoinRowsChars(m);
    JsonCharsConcat("[", JoinRows(m));
    JsonCharsConcat("[" + JoinRows(m), "]");
  }

  // ---------------------------------------------------------------------
  // The inverse: a parser for arrays of arrays of integers

  /** The number of leading digits of `s`. */
  function DigitRun(s: string): (k: nat)
    ensures k <= |s| && AllDigits(s[..k])
    ensures k < |s| ==> !IsDigit(s[k])
  {
    if |s| > 0 && IsDigit(s[0]) then 1 + DigitRun(s[1..]) else 0
  }

  /** The value of a string of decimal digits. */
  function DigitsValue(s: string): nat
    requires AllDigits(s)
  {
    if |s| == 0 then 0 else DigitsValue(s[..|s| - 1]) * 10 + DigitValue(s[|s| - 1])
  }

  /** Reads a non-negative JSON integer at the start of `s`: a single `0`, or
      a non-zero digit followed by as many digits as there are. Returns the
      value and the text after it. */
  function ParseNat(s: string): (r: Option<(nat, string)>)
    ensures r.Some? ==> |r.value.1| < |s| && r.value.1 == s[|s| - |r.value.1|..]
  {
    if |s| == 0 || !IsDigit(s[0]) then None
    else if s[0] == '0' then Some((0, s[1..]))
    else
      var k := DigitRun(s);
      Some((DigitsValue(s[..k]), s[k..]))
  }

  /** Reads a JSON integer (an optional minus sign, then `ParseNat`). */
  function ParseInt(s: string): (r: Option<(int, string)>)
    ensures r.Some? ==> |r.value.1| < |s| && r.value.1 == s[|s| - |r.value.1|..]
  {
    if |s| > 0 && s[0] == '-' then
      match ParseNat(s[1..])
      case None => None
      case Some((n, rest)) => Some((-(n as int), rest))
    else
      match ParseNat(s)
      case None => None
      case Some((n, rest)) => Some((n as int, rest))
  }

  /** Reads `n1,n2,...,nk]`: the elements of a non-empty array of integers
      and its closing bracket. */
  function ParseIntItems(s: string): (r: Option<(seq<int>, string)>)
    ensures r.Some? ==> |r.value.1| < |s| && r.value.1 == s[|s| - |r.value.1|..]
    decreases |s|
  {
    match ParseInt(s)
    case None => None
    case Some((n, rest)) =>
      if |rest| > 0 && rest[0] == ']' then Some(([n], rest[1..]))
      else if |rest| > 0 && rest[0] == ',' then
        match ParseIntItems(rest[1..])
        case None => None
        case Some((ns, rest2)) => Some(([n] + ns, rest2))
      else None
  }

  /** Reads a JSON array of integers. */
  function ParseRow(s: string): (r: Option<(seq<int>, string)>)
    ensures r.Some? ==> |r.value.1| < |s| && r.value.1 == s[|s| - |r.value.1|..]
  {
    if |s| >= 2 && s[0] == '[' && s[1] == ']' then Some(([], s[2..]))
    else if |s| > 0 && s[0] == '[' then ParseIntItems(s[1..])
    else None
  }

  /** Reads `r1,r2,...,rk]`: the rows of a non-empty matrix and its closing
      bracket. */
  function ParseRowItems(s: string): (r: Option<(seq<seq<int>>, string)>)
    ensures r.Some? ==> |r.value.1| < |s| && r.value.1 == s[|s| - |r.value.1|..]
    decreases |s|
  {
    match ParseRow(s)
    case None => None
    case Some((row, rest)) =>
      if |rest| > 0 && rest[0] == ']' then Some(([row], rest[1..]))
      else if |rest| > 0 && rest[0] == ',' then
        match ParseRowItems(rest[1..])
        case None => None
        case Some((rows, rest2)) => Some(([row] + rows, rest2))
      else None
  }

  /** Reads a whole text that is a JSON array of arrays of integers. */
  function ParseMatrix(s: string): (r: Option<seq<seq<int>>>)
  {
    if s == "[]" then Some([])
    else if |s| > 0 && s[0] == '[' then
      match ParseRowItems(s[1..])
      case Some((m, rest)) => if rest == "" then Some(m) else None
      case None => None
    else None
  }

  // ---------------------------------------------------------------------
  // Round trip

  /** Reading back the digits of `n` gives `n`. */
  lemma {:induction false} NatDigitsValue(n: nat)
    ensures DigitsValue(NatToString(n)) == n
  {
    var s := NatToString(n);
    if n >= 10 {
      NatDigitsValue(n / 10);
      assert s[..|s| - 1] == NatToString(n / 10);
    }
  }

  /** The digit run of a digit string followed by a non-digit is the whole
      digit string. */
  lemma {:induction false} DigitRunOf(d: string, rest: string)
    requires AllDigits(d)
    requires |rest| == 0 || !IsDigit(rest[0])
    ensures DigitRun(d + rest) == |d|
  {
    if |d| > 0 {
      assert (d + rest)[1..] == d[1..] + rest;
      DigitRunOf(d[1..], rest);
    } else {
      assert d + rest == rest;
    }
  }

  /** `ParseNat` reads back `NatToString(n)` and stops where it ends. */
  lemma ParseNatOf(n: nat, rest: string)
    requires |rest| == 0 || !IsDigit(rest[0])
    ensures ParseNat(NatToString(n) + rest) == Some((n, rest))
  {
    var d := NatToString(n);
    var s := d + rest;
    assert s[0] == d[0];
    if n == 0 {
      assert s[1..] == rest;
    } else {
      DigitRunOf(d, rest);
      assert s[..|d|] == d && s[|d|..] == rest;
      NatDigitsValue(n);
    }
  }

  /** `ParseInt` reads back `IntToString(n)` and stops where it ends. */
  lemma ParseIntOf(n: int, rest: string)
    requires |rest| == 0 || !IsDigit(rest[0])
    ensures ParseInt(IntToString(n) + rest) == Some((n, rest))
  {
    if n < 0 {
      ParseNegativeOf(n, rest);
    } else {
      assert (IntToString(n) + rest)[0] == IntToString(n)[0];
      ParseNatOf(n, rest);
    }
  }

  lemma ParseNegativeOf(n: int, rest: string)
    requires n < 0
    requires |rest| == 0 || !IsDigit(rest[0])
    ensures ParseInt(IntToString(n) + rest) == Some((n, rest))
  {
    var k: nat := -n;
    var s := IntToString(n) + rest;
    MinusSplit(NatToString(k), rest);
    ParseNatOf(k, rest);
    assert ParseNat(s[1..]) == Some((k, rest));
  }

  lemma MinusSplit(d: string, rest: string)
    ensures ("-" + d + rest)[0] == '-' && ("-" + d + rest)[1..] == d + rest
  {
  }

  /** `ParseIntItems` reads back the elements written by `JoinInts` and the
      closing bracket. */
  lemma {:induction false} ParseIntItemsOf(row: seq<int>, rest: string)
    requires |row| > 0
    ensures ParseIntItems(JoinInts(row) + "]" + rest) == Some((row, rest))
  {
    if |row| == 1 {
      LastIntItem(row, rest);
    } else {
      ParseIntItemsOf(row[1..], rest);
      NextIntItem(row, rest);
    }
  }

  lemma LastIntItem(row: seq<int>, rest: string)
    requires |row| == 1
    ensures ParseIntItems(JoinInts(row) + "]" + rest) == Some((row, rest))
  {
    AppendAssoc(IntToString(row[0]), "]", rest);
    ParseIntOf(row[0], "]" + rest);
    assert ("]" + rest)[1..] == rest;
    assert row == [row[0]];
  }

  lemma NextIntItem(row: seq<int>, rest: string)
    requires |row| > 1
    requires ParseIntItems(JoinInts(row[1..]) + "]" + rest) == Some((row[1..], rest))
    ensures ParseIntItems(JoinInts(row) + "]" + rest) == Some((row, rest))
  {
    var tail := JoinInts(row[1..]) + "]" + rest;
    IntItemsSplit(IntToString(row[0]), JoinInts(row[1..]), rest);
    ParseIntOf(row[0], "," + tail);
    assert ("," + tail)[1..] == tail;
    assert [row[0]] + row[1..] == row;
  }

  lemma IntItemsSplit(head: string, more: string, rest: string)
    ensures head + "," + more + "]" + rest == head + ("," + (more + "]" + rest))
  {
  }

  /** `ParseRow` reads back `JsonRow(row)`. */
  lemma ParseRowOf(row: seq<int>, rest: string)
    ensures ParseRow(JsonRow(row) + rest) == Some((row, rest))
  {
    var s := JsonRow(row) + rest;
    if |row| == 0 {
      assert JsonRow(row) == "[]";
      assert s[0] == '[' && s[1] == ']' && s[2..] == rest;
    } else {
      RowSplit(JoinInts(row), rest);
      assert s[1..] == JoinInts(row) + "]" + rest;
      assert s[1] == IntToString(row[0])[0];
      ParseIntItemsOf(row, rest);
    }
  }

  lemma RowSplit(items: string, rest: string)
    ensures "[" + items + "]" + rest == "[" + (items + "]" + rest)
    ensures |items| > 0 ==> ("[" + items + "]" + rest)[1] == items[0]
  {
  }

  /** `ParseRowItems` reads back the rows written by `JoinRows` and the
      closing bracket. */
  lemma {:induction false} ParseRowItemsOf(m: seq<seq<int>>, rest: string)
    requires |m| > 0
    ensures ParseRowItems(JoinRows(m) + "]" + rest) == Some((m, rest))
  {
    if |m| == 1 {
      AppendAssoc(JsonRow(m[0]), "]", rest);
      LastRowItem(m[0], rest);
      assert m == [m[0]];
    } else {
      ParseRowItemsOf(m[1..], rest);
      NextRowItems(m, rest);
    }
  }

  lemma NextRowItems(m: seq<seq<int>>, rest: string)
    requires |m| > 1
    requires ParseRowItems(JoinRows(m[1..]) + "]" + rest) == Some((m[1..], rest))
    ensures ParseRowItems(JoinRows(m) + "]" + rest) == Some((m, rest))
  {
    var tail := JoinRows(m[1..]) + "]" + rest;
    IntItemsSplit(JsonRow(m[0]), JoinRows(m[1..]), rest);
    NextRowItem(m[0], tail);
    assert [m[0]] + m[1..] == m;
  }

  lemma LastRowItem(row: seq<int>, rest: string)
    ensures ParseRowItems(JsonRow(row) + ("]" + rest)) == Some(([row], rest))
  {
    ParseRowOf(row, "]" + rest);
    assert ("]" + rest)[1..] == rest;
  }

  lemma NextRowItem(row: seq<int>, tail: string)
    ensures ParseRowItems(tail).Some? ==>
      ParseRowItems(JsonRow(row) + ("," + tail)) == Some(([row] + ParseRowItems(tail).value.0, ParseRowItems(tail).value.1))
  {
    ParseRowOf(row, "," + tail);
    assert ("," + tail)[1..] == tail;
  }

  /** Reading back the JSON text of a matrix gives the matrix. */
  lemma ParseJsonMatrix(m: seq<seq<int>>)
    ensures ParseMatrix(JsonMatrix(m)) == Some(m)
  {
    var s := JsonMatrix(m);
    if |m| == 0 {
      assert s == "[]";
    } else {
      RowSplit(JoinRows(m), "");
      assert s + "" == s;
      assert s[1..] == JoinRows(m) + "]" + "";
      assert |s| > 2;
      ParseRowItemsOf(m, "");
    }
  }

  /** Different matrices are written differently. */
  lemma JsonMatrixInjective(m1: seq<seq<int>>, m2: seq<seq<int>>)
    requires JsonMatrix(m1) == JsonMatrix(m2)
    ensures m1 == m2
  {
    ParseJsonMatrix(m1);
    ParseJsonMatrix(m2);
  }
}
