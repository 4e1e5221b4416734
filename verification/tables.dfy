/** Sequence operations shared by the two in-memory tables: the `WHERE`
    filter, `COUNT(*)`, `ORDER BY ... DESC` and `LIMIT ? OFFSET ?` of the
    SQLite queries the store issues. A table is a sequence of rows in
    insertion order. */
module Tables {

  /** `WHERE p`: the rows satisfying `p`, in table order. */
  function Where<T>(s: seq<T>, p: T -> bool): (r: seq<T>)
    ensures |r| <= |s|
    ensures forall x :: x in r ==> p(x) && x in s
    ensures forall x :: x in s && p(x) ==> x in r
    decreases |s|
  {
    if |s| == 0 then []
    else if p(s[0]) then [s[0]] + Where(s[1..], p)
    else Where(s[1..], p)
  }

  /** Filtering a table built row by row: a new row is kept, after the rows
      kept before it, exactly when it satisfies `p`; so the filter keeps
      table order. */
  lemma {:induction false} WhereAppend<T>(s: seq<T>, x: T, p: T -> bool)
    ensures Where(s + [x], p) == Where(s, p) + (if p(x) then [x] else [])
    decreases |s|
  {
    if |s| == 0 {
      assert s + [x] == [x];
      assert [x][1..] == [];
    } else {
      assert (s + [x])[0] == s[0];
      assert (s + [x])[1..] == s[1..] + [x];
      WhereAppend(s[1..], x, p);
    }
  }

  /** `SELECT COUNT(*) ... WHERE p`. */
  function CountWhere<T>(s: seq<T>, p: T -> bool): (n: nat)
    ensures n <= |s|
    decreases |s|
  {
    if |s| == 0 then 0
    else (if p(s[0]) then 1 else 0) + CountWhere(s[1..], p)
  }

  /** The count is the size of the filtered table. */
  lemma {:induction false} CountIsWhereLength<T>(s: seq<T>, p: T -> bool)
    ensures CountWhere(s, p) == |Where(s, p)|
    decreases |s|
  {
    if |s| > 0 {
      CountIsWhereLength(s[1..], p);
    }
  }

  /** Counting over a table built row by row adds up. */
  lemma {:induction false} CountWhereAppend<T>(s: seq<T>, x: T, p: T -> bool)
    ensures CountWhere(s + [x], p) == CountWhere(s, p) + (if p(x) then 1 else 0)
    decreases |s|
  {
    if |s| > 0 {
      assert (s + [x])[1..] == s[1..] + [x];
      CountWhereAppend(s[1..], x, p);
    } else {
      assert s + [x] == [x];
    }
  }

  /** Counting one more row of a prefix. */
  lemma CountPrefixStep<T>(s: seq<T>, i: nat, p: T -> bool)
    requires i < |s|
    ensures CountWhere(s[..i + 1], p) == CountWhere(s[..i], p) + (if p(s[i]) then 1 else 0)
  {
    assert s[..i + 1] == s[..i] + [s[i]];
    CountWhereAppend(s[..i], s[i], p);
  }

  /** A two-level sort key: `ORDER BY major DESC, minor DESC`. */
  datatype Key = Key(major: int, minor: int)

  /** `a` may come before `b` in a descending order. */
  predicate KeyAtLeast(a: Key, b: Key) {
    a.major > b.major || (a.major == b.major && a.minor >= b.minor)
  }

  predicate SortedDesc<T>(s: seq<T>, key: T -> Key) {
    forall i, j :: 0 <= i < j < |s| ==> KeyAtLeast(key(s[i]), key(s[j]))
  }

  /** Puts `x` in front of the first row whose key is not above its own, so
      among equal keys the earlier row stays first. */
  function Insert<T>(x: T, s: seq<T>, key: T -> Key): (r: seq<T>)
    ensures |r| == |s| + 1
    ensures multiset(r) == multiset(s) + multiset{x}
    decreases |s|
  {
    if |s| == 0 || KeyAtLeast(key(x), key(s[0])) then [x] + s
    else
      assert s == [s[0]] + s[1..];
      [s[0]] + Insert(x, s[1..], key)
  }

  /** A stable descending sort. SQLite leaves the order of rows with equal
      keys open; this model keeps them in table order. */
  function SortDesc<T>(s: seq<T>, key: T -> Key): (r: seq<T>)
    ensures |r| == |s|
    ensures multiset(r) == multiset(s)
    decreases |s|
  {
    if |s| == 0 then []
    else
      assert s == [s[0]] + s[1..];
      Insert(s[0], SortDesc(s[1..], key), key)
  }

  /** Sequences that are permutations of each other hold the same rows. */
  lemma SameMembers<T>(a: seq<T>, b: seq<T>)
    requires multiset(a) == multiset(b)
    ensures forall x :: x in a <==> x in b
  {
    forall x ensures x in a <==> x in b {
      assert x in a <==> x in multiset(a);
      assert x in b <==> x in multiset(b);
    }
  }

  lemma {:induction false} InsertSorted<T>(x: T, s: seq<T>, key: T -> Key)
    requires SortedDesc(s, key)
    ensures SortedDesc(Insert(x, s, key), key)
    decreases |s|
  {
    if |s| > 0 && !KeyAtLeast(key(x), key(s[0])) {
      var rest := Insert(x, s[1..], key);
      InsertSorted(x, s[1..], key);
      assert multiset(rest) == multiset(s[1..]) + multiset{x};
      var r := [s[0]] + rest;
      forall i, j | 0 <= i < j < |r| ensures KeyAtLeast(key(r[i]), key(r[j])) {
        if i == 0 {
          assert r[j] in multiset(rest) by {
            assert r[j] == rest[j - 1];
          }
          if r[j] != x {
            assert r[j] in multiset(s[1..]);
            var k :| 0 <= k < |s[1..]| && s[1..][k] == r[j];
            assert s[k + 1] == r[j];
          }
        } else {
          assert r[i] == rest[i - 1] && r[j] == rest[j - 1];
        }
      }
    }
  }

  /** The sort yields a descending order. */
  lemma {:induction false} SortDescSorted<T>(s: seq<T>, key: T -> Key)
    ensures SortedDesc(SortDesc(s, key), key)
    decreases |s|
  {
    if |s| > 0 {
      SortDescSorted(s[1..], key);
      InsertSorted(s[0], SortDesc(s[1..], key), key);
    }
  }

  /** A table already in descending order comes back as it is: the sort
      only moves rows that are out of order. */
  lemma {:induction false} SortDescOfSorted<T>(s: seq<T>, key: T -> Key)
    requires SortedDesc(s, key)
    ensures SortDesc(s, key) == s
    decreases |s|
  {
    if |s| > 0 {
      assert SortedDesc(s[1..], key);
      SortDescOfSorted(s[1..], key);
      assert s == [s[0]] + s[1..];
    }
  }

  /** Where `OFFSET o` starts: SQLite reads a negative offset as zero. */
  function Start(offset: int): (a: nat)
    ensures offset >= 0 ==> a == offset
  {
    if offset < 0 then 0 else offset
  }

  /** `LIMIT limit OFFSET offset`. A negative limit means no limit. */
  function Window<T>(s: seq<T>, limit: int, offset: int): (r: seq<T>)
    ensures Start(offset) >= |s| ==> r == []
    ensures Start(offset) < |s| && (limit < 0 || Start(offset) + limit >= |s|)
      ==> r == s[Start(offset)..]
    ensures Start(offset) < |s| && 0 <= limit && Start(offset) + limit < |s|
      ==> r == s[Start(offset)..Start(offset) + limit]
  {
    var a := Start(offset);
    if a >= |s| then []
    else if limit < 0 || a + limit >= |s| then s[a..]
    else s[a..a + limit]
  }

  /** Item `i` of the page at offset `o` is row `o + i`. */
  lemma WindowAt<T>(s: seq<T>, n: nat, o: nat, i: nat)
    requires i < n && o + i < |s|
    ensures var w := Window(s, n, o); i < |w| && w[i] == s[o + i]
  {
    assert Start(o) == o;
  }

  /** A page of an ordered result is in order and holds only rows of it. */
  lemma WindowOfSorted<T>(s: seq<T>, key: T -> Key, limit: int, offset: int)
    requires SortedDesc(s, key)
    ensures SortedDesc(Window(s, limit, offset), key)
    ensures forall x :: x in Window(s, limit, offset) ==> x in s
  {
    var w := Window(s, limit, offset);
    var a := Start(offset);
    assert forall i :: 0 <= i < |w| ==> w[i] == s[a + i];
  }

  /** Two consecutive pages of `n` rows make one page of `2n` rows: paging
      neither skips nor repeats a row. */
  lemma PagesTile<T>(s: seq<T>, n: nat, o: nat)
    requires n > 0
    ensures Window(s, n, o) + Window(s, n, o + n) == Window(s, 2 * n, o)
  {
    assert Start(o) == o && Start(o + n) == o + n;
    if o + n >= |s| {
      assert Window(s, n, o + n) == [];
    } else if o + 2 * n >= |s| {
      assert Window(s, n, o) == s[o..o + n];
      assert Window(s, n, o + n) == s[o + n..];
      assert Window(s, 2 * n, o) == s[o..];
      assert s[o..] == s[o..o + n] + s[o + n..];
    } else {
      assert Window(s, n, o) == s[o..o + n];
      assert Window(s, n, o + n) == s[o + n..o + 2 * n];
      assert Window(s, 2 * n, o) == s[o..o + 2 * n];
      assert s[o..o + 2 * n] == s[o..o + n] + s[o + n..o + 2 * n];
    }
  }

  /** With `n` rows a page, every row is on page `q` (counted from 0) for
      some `q`. */
  lemma RowOnPage<T>(s: seq<T>, n: nat, k: nat) returns (q: nat)
    requires n > 0 && k < |s|
    ensures s[k] in Window(s, n, q * n)
  {
    q := k / n;
    PageOfRow(s, n, k);
  }

  /** With `n` rows a page, row `k` of the ordered result is row `k % n` of
      page `k / n` (counted from 0). */
  lemma PageOfRow<T>(s: seq<T>, n: nat, k: nat)
    requires n > 0 && k < |s|
    ensures var w := Window(s, n, (k / n) * n); k % n < |w| && w[k % n] == s[k]
  {
    var q := k / n;
    var r := k % n;
    var o := q * n;
    assert o + r == k && 0 <= r < n;
    assert Start(o) == o;
    var w := Window(s, n, o);
    if o + n >= |s| {
      assert w == s[o..];
    } else {
      assert w == s[o..o + n];
    }
    assert w[r] == s[o + r];
  }
}
