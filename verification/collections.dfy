/** Sequence utilities the queries are built from: filtering a table scan,
    ordering rows by an integer key (ORDER BY on a timestamp), and the
    byte-wise order SQLite's BINARY collation puts on names. */
module Collections {

  /** The elements of `s` satisfying `p`, in scan order (a WHERE clause). */
  function Filter<T(==,!new)>(s: seq<T>, p: T -> bool): (r: seq<T>)
    ensures forall x :: x in r <==> x in s && p(x)
    ensures forall x :: multiset(r)[x] == if p(x) then multiset(s)[x] else 0
    ensures |r| <= |s|
  {
    if |s| == 0 then []
    else
      assert s == [s[0]] + s[1..];
      if p(s[0]) then [s[0]] + Filter(s[1..], p) else Filter(s[1..], p)
  }

  /** A filter every element passes returns the sequence unchanged. */
  lemma {:induction false} FilterAll<T(!new)>(s: seq<T>, p: T -> bool)
    requires forall x :: x in s ==> p(x)
    ensures Filter(s, p) == s
    decreases |s|
  {
    if |s| > 0 {
      assert p(s[0]);
      FilterAll(s[1..], p);
      assert s == [s[0]] + s[1..];
    }
  }

  /** One step of the scan: the head is kept exactly when it passes. */
  lemma FilterStep<T(!new)>(s: seq<T>, p: T -> bool)
    requires |s| > 0
    ensures Filter(s, p) == (if p(s[0]) then [s[0]] else []) + Filter(s[1..], p)
  {
    if !p(s[0]) {
      assert Filter(s, p) == Filter(s[1..], p);
    }
  }

  /** A row appended to the table is appended to the selection exactly when
      it passes the filter. */
  lemma {:induction false} FilterAppend<T(!new)>(s: seq<T>, x: T, p: T -> bool)
    ensures Filter(s + [x], p) == Filter(s, p) + (if p(x) then [x] else [])
    decreases |s|
  {
    if |s| == 0 {
      assert [x][1..] == [];
      FilterStep([x], p);
    } else {
      var t := s + [x];
      assert t[0] == s[0] && t[1..] == s[1..] + [x];
      var head := if p(s[0]) then [s[0]] else [];
      var tail := if p(x) then [x] else [];
      var rest := Filter(s[1..], p);
      assert Filter(t, p) == head + (rest + tail) by {
        FilterStep(t, p);
        FilterAppend(s[1..], x, p);
      }
      assert Filter(s, p) == head + rest by {
        FilterStep(s, p);
      }
      ConcatAssoc(head, rest, tail);
    }
  }

  lemma ConcatAssoc<T>(a: seq<T>, b: seq<T>, c: seq<T>)
    ensures a + (b + c) == (a + b) + c
  {
  }

  /** `s` is ordered by non-decreasing `key`. */
  ghost predicate SortedBy<T>(s: seq<T>, key: T -> int) {
    forall i, j :: 0 <= i < j < |s| ==> key(s[i]) <= key(s[j])
  }

  /** An element keyed no later than every element of a sorted sequence
      may go in front. */
  lemma PrependSortedBy<T>(h: T, rest: seq<T>, key: T -> int)
    requires SortedBy(rest, key)
    requires forall y :: y in rest ==> key(h) <= key(y)
    ensures SortedBy([h] + rest, key)
  {
    var r := [h] + rest;
    forall i, j | 0 <= i < j < |r|
      ensures key(r[i]) <= key(r[j])
    {
      assert r[j] == rest[j - 1];
      if i > 0 {
        assert r[i] == rest[i - 1];
      }
    }
  }

  /** Inserts `x` into a sequence already ordered by `key`. */
  function InsertBy<T(==)>(x: T, s: seq<T>, key: T -> int): (r: seq<T>)
    requires SortedBy(s, key)
    ensures SortedBy(r, key)
    ensures multiset(r) == multiset(s) + multiset{x}
  {
    if |s| == 0 then [x]
    else if key(x) <= key(s[0]) then
      SortedHead(s, key);
      PrependSortedBy(x, s, key);
      [x] + s
    else
      SortedHead(s, key);
      var rest := InsertBy(x, s[1..], key);
      BoundAfterInsert(s[0], x, s[1..], rest, key);
      PrependSortedBy(s[0], rest, key);
      ConsMultiset(s, rest, x);
      [s[0]] + rest
  }

  /** The head of a sorted sequence bounds it, and its tail stays sorted. */
  lemma SortedHead<T>(s: seq<T>, key: T -> int)
    requires |s| > 0 && SortedBy(s, key)
    ensures SortedBy(s[1..], key)
    ensures forall y :: y in s ==> key(s[0]) <= key(y)
  {
    var tail := s[1..];
    forall i, j | 0 <= i < j < |tail|
      ensures key(tail[i]) <= key(tail[j])
    {
      assert tail[i] == s[i + 1] && tail[j] == s[j + 1];
    }
    forall y | y in s
      ensures key(s[0]) <= key(y)
    {
      var j :| 0 <= j < |s| && s[j] == y;
    }
  }

  /** Putting the head back in front of `x` inserted into the tail gives the
      whole sequence with `x` added. */
  lemma ConsMultiset<T>(s: seq<T>, rest: seq<T>, x: T)
    requires |s| > 0
    requires multiset(rest) == multiset(s[1..]) + multiset{x}
    ensures multiset([s[0]] + rest) == multiset(s) + multiset{x}
  {
    assert s == [s[0]] + s[1..];
  }

  /** A lower bound of `tail` and of `x` bounds `tail` with `x` inserted. */
  lemma BoundAfterInsert<T>(h: T, x: T, tail: seq<T>, rest: seq<T>, key: T -> int)
    requires multiset(rest) == multiset(tail) + multiset{x}
    requires key(h) <= key(x)
    requires forall y :: y in tail ==> key(h) <= key(y)
    ensures forall y :: y in rest ==> key(h) <= key(y)
  {
    forall y | y in rest
      ensures key(h) <= key(y)
    {
      assert y in multiset(rest);
      if y != x {
        assert y in multiset(tail);
      }
    }
  }

  /** The rows of `s` ordered by non-decreasing `key` (ORDER BY ... ASC; a
      descending order is an ascending one on the negated key). */
  function SortBy<T(==)>(s: seq<T>, key: T -> int): (r: seq<T>)
    ensures SortedBy(r, key)
    ensures multiset(r) == multiset(s)
    ensures |r| == |s|
  {
    if |s| == 0 then []
    else
      assert s == [s[0]] + s[1..];
      InsertBy(s[0], SortBy(s[1..], key), key)
  }

  /** `a` sorts no later than `b` under code-point lexicographic order, which
      is the order SQLite's BINARY collation gives UTF-8 text: a proper
      prefix sorts first. */
  predicate LexLe(a: string, b: string)
    decreases |a|
  {
    |a| == 0 || (|b| > 0 && (a[0] < b[0] || (a[0] == b[0] && LexLe(a[1..], b[1..]))))
  }

  lemma {:induction false} LexLeTotal(a: string, b: string)
    ensures LexLe(a, b) || LexLe(b, a)
    decreases |a|
  {
    if |a| > 0 && |b| > 0 && a[0] == b[0] {
      LexLeTotal(a[1..], b[1..]);
    }
  }

  lemma {:induction false} LexLeTransitive(a: string, b: string, c: string)
    requires LexLe(a, b) && LexLe(b, c)
    ensures LexLe(a, c)
    decreases |a|
  {
    if |a| > 0 && a[0] == b[0] && b[0] == c[0] {
      LexLeTransitive(a[1..], b[1..], c[1..]);
    }
  }

  lemma {:induction false} LexLeAntisymmetric(a: string, b: string)
    requires LexLe(a, b) && LexLe(b, a)
    ensures a == b
    decreases |a|
  {
    if |a| > 0 {
      LexLeAntisymmetric(a[1..], b[1..]);
      assert a == [a[0]] + a[1..] && b == [b[0]] + b[1..];
    }
  }

  ghost predicate NamesSorted(s: seq<string>) {
    forall i, j :: 0 <= i < j < |s| ==> LexLe(s[i], s[j])
  }

  /** A name no later than every name of a sorted list may go in front. */
  lemma PrependSorted(h: string, rest: seq<string>)
    requires NamesSorted(rest)
    requires forall y :: y in rest ==> LexLe(h, y)
    ensures NamesSorted([h] + rest)
  {
    var r := [h] + rest;
    forall i, j | 0 <= i < j < |r|
      ensures LexLe(r[i], r[j])
    {
      assert r[j] == rest[j - 1];
      if i > 0 {
        assert r[i] == rest[i - 1];
      }
    }
  }

  /** Inserts `x` into a name list already in collation order. */
  function InsertName(x: string, s: seq<string>): (r: seq<string>)
    requires NamesSorted(s)
    ensures NamesSorted(r)
    ensures multiset(r) == multiset(s) + multiset{x}
  {
    if |s| == 0 then [x]
    else if LexLe(x, s[0]) then
      assert forall y :: y in s ==> LexLe(x, y) by {
        forall y | y in s
          ensures LexLe(x, y)
        {
          var j :| 0 <= j < |s| && s[j] == y;
          if j > 0 { LexLeTransitive(x, s[0], s[j]); }
        }
      }
      PrependSorted(x, s);
      [x] + s
    else
      assert s == [s[0]] + s[1..];
      LexLeTotal(x, s[0]);
      var rest := InsertName(x, s[1..]);
      assert forall y :: y in rest ==> LexLe(s[0], y) by {
        forall y | y in rest
          ensures LexLe(s[0], y)
        {
          assert y in multiset(rest);
          if y != x {
            assert y in multiset(s[1..]);
          }
        }
      }
      PrependSorted(s[0], rest);
      [s[0]] + rest
  }

  /** The names of `s` in collation order (ORDER BY name). */
  function SortNames(s: seq<string>): (r: seq<string>)
    ensures NamesSorted(r)
    ensures multiset(r) == multiset(s)
    ensures |r| == |s|
  {
    if |s| == 0 then []
    else
      assert s == [s[0]] + s[1..];
      InsertName(s[0], SortNames(s[1..]))
  }
}
