/** The text round trip behind a task's `children` list: the store renders
    the child ids as one comma-joined string (GROUP_CONCAT of integer ids,
    NULL when there are none), and the handler splits that string on ','
    and runs JavaScript's parseInt over every piece. */
module Wire {
  import opened Wrappers

  /** A JavaScript number as parseInt produces it: an integer, or NaN. */
  datatype JsNumber = Num(value: int) | NaN

  predicate IsDigit(c: char) {
    '0' <= c <= '9'
  }

  predicate AllDigits(s: string) {
    forall i :: 0 <= i < |s| ==> IsDigit(s[i])
  }

  function DigitChar(d: nat): (c: char)
    requires d < 10
    ensures IsDigit(c)
  {
    (('0' as int) + d) as char
  }

  function DigitValue(c: char): (d: nat)
    requires IsDigit(c)
    ensures d < 10 && DigitChar(d) == c
  {
    (c as int) - ('0' as int)
  }

  /** Decimal text of a non-negative integer, as SQLite renders an INTEGER
      value when it concatenates it into text. */
  function Decimal(n: nat): (r: string)
    ensures |r| > 0 && AllDigits(r)
    ensures r[0] == '0' ==> n == 0
  {
    if n < 10 then [DigitChar(n)] else Decimal(n / 10) + [DigitChar(n % 10)]
  }

  /** The value of a string of decimal digits, most significant first. */
  function DigitsValue(s: string): nat
    requires AllDigits(s)
  {
    if |s| == 0 then 0 else 10 * DigitsValue(s[..|s| - 1]) + DigitValue(s[|s| - 1])
  }

  lemma {:induction false} DecimalValue(n: nat)
    ensures DigitsValue(Decimal(n)) == n
  {
    if n >= 10 {
      var d := Decimal(n);
      assert d[..|d| - 1] == Decimal(n / 10);
      DecimalValue(n / 10);
    }
  }

  /** Length of the longest prefix of `s` made of decimal digits. */
  function DigitRun(s: string): (k: nat)
    ensures k <= |s|
    ensures AllDigits(s[..k])
    ensures k < |s| ==> !IsDigit(s[k])
  {
    if |s| == 0 || !IsDigit(s[0]) then 0
    else
      var k := DigitRun(s[1..]);
      assert s[..k + 1] == [s[0]] + s[1..][..k];
      k + 1
  }

  /** JavaScript `parseInt(s)` with no radix, for text without leading
      white space: an optional sign, then the longest run of decimal digits;
      NaN when that run is empty. */
  function ParseInt(s: string): (r: JsNumber)
    ensures |s| == 0 ==> r == NaN
    ensures |s| > 0 && AllDigits(s) ==> r == Num(DigitsValue(s))
    ensures |s| > 0 && !IsDigit(s[0]) && s[0] != '-' && s[0] != '+' ==> r == NaN
  {
    if |s| > 0 && (s[0] == '-' || s[0] == '+') then
      var k := DigitRun(s[1..]);
      if k == 0 then NaN
      else if s[0] == '-' then Num(-(DigitsValue(s[1..][..k]) as int))
      else Num(DigitsValue(s[1..][..k]))
    else
      var k := DigitRun(s);
      assert AllDigits(s) ==> k == |s|;
      assert s[..|s|] == s;
      if k == 0 then NaN else Num(DigitsValue(s[..k]))
  }

  /** The pieces of `xs` separated by `sep` (Array.prototype.join). */
  function Join(xs: seq<string>, sep: char): string {
    if |xs| == 0 then ""
    else if |xs| == 1 then xs[0]
    else xs[0] + [sep] + Join(xs[1..], sep)
  }

  /** `String.prototype.split` on a one-character separator: the empty
      string gives one empty piece, and adjacent separators give empty
      pieces between them. */
  function Split(s: string, sep: char): (r: seq<string>)
    ensures |r| > 0
    ensures forall i :: 0 <= i < |r| ==> sep !in r[i]
    ensures Join(r, sep) == s
  {
    if |s| == 0 then [""]
    else if s[0] == sep then
      var rest := Split(s[1..], sep);
      assert s == [sep] + s[1..];
      [""] + rest
    else
      var rest := Split(s[1..], sep);
      var r := [[s[0]] + rest[0]] + rest[1..];
      assert s == [s[0]] + s[1..];
      assert Join(r, sep) == s by {
        if |rest| > 1 {
          assert Join(rest, sep) == rest[0] + [sep] + Join(rest[1..], sep);
          assert r[1..] == rest[1..];
        }
      }
      r
  }

  /** Splitting a separator-free prefix off: the prefix is the first piece. */
  lemma {:induction false} SplitAfter(a: string, b: string, sep: char)
    requires sep !in a
    ensures Split(a + [sep] + b, sep) == [a] + Split(b, sep)
    decreases |a|
  {
    if |a| == 0 {
      assert a + [sep] + b == [sep] + b;
      assert ([sep] + b)[1..] == b;
    } else {
      SplitAfter(a[1..], b, sep);
      assert (a + [sep] + b)[1..] == a[1..] + [sep] + b;
      assert [a[0]] + a[1..] == a;
    }
  }

  lemma {:induction false} SplitWhole(a: string, sep: char)
    requires sep !in a
    ensures Split(a, sep) == [a]
    decreases |a|
  {
    if |a| > 0 {
      SplitWhole(a[1..], sep);
      assert [a[0]] + a[1..] == a;
    }
  }

  /** Splitting a join of separator-free pieces gives the pieces back. */
  lemma {:induction false} SplitJoin(xs: seq<string>, sep: char)
    requires |xs| > 0
    requires forall i :: 0 <= i < |xs| ==> sep !in xs[i]
    ensures Split(Join(xs, sep), sep) == xs
    decreases |xs|
  {
    if |xs| == 1 {
      SplitWhole(xs[0], sep);
    } else {
      SplitAfter(xs[0], Join(xs[1..], sep), sep);
      SplitJoin(xs[1..], sep);
      assert xs == [xs[0]] + xs[1..];
    }
  }

  function Decimals(ids: seq<nat>): (r: seq<string>)
    ensures |r| == |ids|
    ensures forall i :: 0 <= i < |ids| ==> r[i] == Decimal(ids[i])
  {
    seq(|ids|, i requires 0 <= i < |ids| => Decimal(ids[i]))
  }

  /** The GROUP_CONCAT aggregate over child ids: NULL over no rows,
      otherwise the ids' decimal texts joined by the default separator ','. */
  function GroupConcat(ids: seq<nat>): (r: Option<string>)
    ensures r.None? <==> |ids| == 0
    ensures r.Some? ==> Split(r.value, ',') == Decimals(ids)
  {
    if |ids| == 0 then None
    else
      var pieces := Decimals(ids);
      assert forall i :: 0 <= i < |pieces| ==> ',' !in pieces[i] by {
        forall i | 0 <= i < |pieces|
          ensures ',' !in pieces[i]
        {
          assert AllDigits(pieces[i]);
        }
      }
      SplitJoin(pieces, ',');
      Some(Join(pieces, ','))
  }

  /** The handler's decoding of the `children_list` column: a NULL or empty
      string (both falsy in JavaScript) gives [], anything else is split on
      ',' and every piece passed through parseInt. */
  function ParseChildrenList(column: Option<string>): (r: seq<JsNumber>)
    ensures column.None? ==> r == []
  {
    match column
    case None => []
    case Some(text) =>
      if |text| == 0 then []
      else
        var pieces := Split(text, ',');
        seq(|pieces|, i requires 0 <= i < |pieces| => ParseInt(pieces[i]))
  }

  /** The ids as JavaScript numbers. */
  function Nums(ids: seq<nat>): (r: seq<JsNumber>)
    ensures |r| == |ids|
    ensures forall i :: 0 <= i < |ids| ==> r[i] == Num(ids[i])
  {
    seq(|ids|, i requires 0 <= i < |ids| => Num(ids[i]))
  }

  lemma {:induction false} JoinStartsWith(xs: seq<string>, sep: char)
    requires |xs| > 0
    ensures |Join(xs, sep)| >= |xs[0]|
  {
  }

  /** Decoding what GROUP_CONCAT produced gives back exactly the child ids,
      in the same order, and [] for no children. */
  lemma {:induction false} ChildrenListRoundTrip(ids: seq<nat>)
    ensures ParseChildrenList(GroupConcat(ids)) == Nums(ids)
  {
    if |ids| > 0 {
      var pieces := Decimals(ids);
      forall i | 0 <= i < |pieces|
        ensures ',' !in pieces[i]
      {
        assert AllDigits(pieces[i]);
      }
      SplitJoin(pieces, ',');
      JoinStartsWith(pieces, ',');
      var r := ParseChildrenList(GroupConcat(ids));
      assert |r| == |ids|;
      forall i | 0 <= i < |ids|
        ensures r[i] == Num(ids[i])
      {
        DecimalValue(ids[i]);
      }
    }
  }
}
