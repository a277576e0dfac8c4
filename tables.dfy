/** Generic queries over a table held as a sequence of rows in storage order. */
module Tables {
  import opened Wrappers

  /** `findFirst`: the first row satisfying `p`. */
  function FindFirst<T>(rows: seq<T>, p: T -> bool): (r: Option<T>)
    ensures r.Some? ==> r.value in rows && p(r.value)
    ensures r.None? <==> forall x | x in rows :: !p(x)
    ensures r.Some? && p(rows[0]) ==> r.value == rows[0]
  {
    if |rows| == 0 then None
    else if p(rows[0]) then Some(rows[0])
    else FindFirst(rows[1..], p)
  }

  /** `findMany` with a `where` clause: the rows satisfying `p`, order kept. */
  function Filter<T>(rows: seq<T>, p: T -> bool): (r: seq<T>)
    ensures |r| <= |rows|
    ensures forall x | x in r :: x in rows && p(x)
    ensures forall x | x in rows && p(x) :: x in r
  {
    if |rows| == 0 then []
    else (if p(rows[0]) then [rows[0]] else []) + Filter(rows[1..], p)
  }

  /** `a` is `b` with some elements dropped, order kept. */
  predicate SubsequenceOf<T(==)>(a: seq<T>, b: seq<T>)
    decreases |b|
  {
    if |a| == 0 then true
    else if |b| == 0 then false
    else (a[0] == b[0] && SubsequenceOf(a[1..], b[1..])) || SubsequenceOf(a, b[1..])
  }

  lemma {:induction false} SubsequenceOfSelf<T>(s: seq<T>)
    ensures SubsequenceOf(s, s)
    decreases |s|
  {
    if |s| > 0 {
      SubsequenceOfSelf(s[1..]);
    }
  }

  lemma {:induction false} FilterIsSubsequence<T>(rows: seq<T>, p: T -> bool)
    ensures SubsequenceOf(Filter(rows, p), rows)
    decreases |rows|
  {
    if |rows| > 0 {
      FilterIsSubsequence(rows[1..], p);
      var rest := Filter(rows[1..], p);
      assert Filter(rows, p) == (if p(rows[0]) then [rows[0]] else []) + rest;
      var r := Filter(rows, p);
      if p(rows[0]) {
        assert r[0] == rows[0] && r[1..] == rest;
      } else {
        assert r == rest;
      }
    }
  }

  /** Filtering twice is filtering once by the conjunction. */
  lemma {:induction false} FilterTwice<T>(rows: seq<T>, p: T -> bool, q: T -> bool, both: T -> bool)
    requires forall x :: both(x) == (p(x) && q(x))
    ensures Filter(Filter(rows, p), q) == Filter(rows, both)
    decreases |rows|
  {
    if |rows| > 0 {
      FilterTwice(rows[1..], p, q, both);
      var head := if p(rows[0]) then [rows[0]] else [];
      assert Filter(rows, p) == head + Filter(rows[1..], p);
      FilterConcat(head, Filter(rows[1..], p), q);
      if p(rows[0]) {
        assert Filter(head, q) == if q(rows[0]) then [rows[0]] else [] by {
          assert head[1..] == [];
        }
      }
    }
  }

  lemma {:induction false} FilterConcat<T>(a: seq<T>, b: seq<T>, p: T -> bool)
    ensures Filter(a + b, p) == Filter(a, p) + Filter(b, p)
    decreases |a|
  {
    if |a| > 0 {
      FilterConcat(a[1..], b, p);
      assert (a + b)[1..] == a[1..] + b;
    } else {
      assert a + b == b;
    }
  }

  /** How many copies of `x` a filter keeps: all of them or none. */
  lemma {:induction false} FilterCount<T>(rows: seq<T>, p: T -> bool, x: T)
    ensures multiset(Filter(rows, p))[x] == if p(x) then multiset(rows)[x] else 0
    decreases |rows|
  {
    if |rows| > 0 {
      FilterCount(rows[1..], p, x);
      assert rows == [rows[0]] + rows[1..];
      assert multiset(rows) == multiset([rows[0]]) + multiset(rows[1..]);
    }
  }

  /** Filtering two permutations of each other gives permutations of each other. */
  lemma FilterPermutation<T>(a: seq<T>, b: seq<T>, p: T -> bool)
    requires multiset(a) == multiset(b)
    ensures multiset(Filter(a, p)) == multiset(Filter(b, p))
  {
    var fa, fb := multiset(Filter(a, p)), multiset(Filter(b, p));
    forall x
      ensures fa[x] == fb[x]
    {
      FilterCount(a, p, x);
      FilterCount(b, p, x);
    }
    MultisetExt(fa, fb);
  }

  lemma MultisetExt<T>(fa: multiset<T>, fb: multiset<T>)
    requires forall x :: fa[x] == fb[x]
    ensures fa == fb
  {
  }

  /** Every row has a distinct key. */
  predicate UniqueBy<T, K(==)>(rows: seq<T>, key: T -> K) {
    forall i, j | 0 <= i < j < |rows| :: key(rows[i]) != key(rows[j])
  }

  /** Appending a row whose key is new keeps the keys distinct. */
  lemma UniqueByAppend<T, K>(rows: seq<T>, x: T, key: T -> K)
    requires UniqueBy(rows, key)
    requires forall y | y in rows :: key(y) != key(x)
    ensures UniqueBy(rows + [x], key)
  {
    var s := rows + [x];
    forall i, j | 0 <= i < j < |s|
      ensures key(s[i]) != key(s[j])
    {
      if j == |rows| {
        assert s[i] in rows;
      }
    }
  }

  /** Replacing rows by rows with the same keys keeps the keys distinct. */
  lemma UniqueBySameKeys<T, K>(rows: seq<T>, other: seq<T>, key: T -> K)
    requires UniqueBy(rows, key)
    requires |other| == |rows|
    requires forall i | 0 <= i < |rows| :: key(other[i]) == key(rows[i])
    ensures UniqueBy(other, key)
  {
  }

  /** `delete` / `deleteMany` by a key: every row with key `k` removed, order kept. */
  function RemoveKey<T, K(==)>(rows: seq<T>, key: T -> K, k: K): (r: seq<T>)
    ensures |r| <= |rows|
    ensures forall x | x in r :: x in rows && key(x) != k
    ensures forall x | x in rows && key(x) != k :: x in r
  {
    if |rows| == 0 then []
    else (if key(rows[0]) == k then [] else [rows[0]]) + RemoveKey(rows[1..], key, k)
  }

  /** With distinct keys, removing a present key removes exactly one row, at its position. */
  lemma {:induction false} RemoveUniqueKey<T, K>(rows: seq<T>, key: T -> K, i: nat)
    requires UniqueBy(rows, key)
    requires i < |rows|
    ensures RemoveKey(rows, key, key(rows[i])) == rows[..i] + rows[i + 1..]
    decreases |rows|
  {
    if i == 0 {
      RemoveFirstKey(rows, key);
    } else {
      var k := key(rows[i]);
      var tail := rows[1..];
      UniqueByTail(rows, key);
      assert tail[i - 1] == rows[i];
      RemoveUniqueKey(tail, key, i - 1);
      assert key(rows[0]) != key(rows[i]);
      calc {
        RemoveKey(rows, key, k);
        [rows[0]] + RemoveKey(tail, key, k);
        [rows[0]] + (tail[..i - 1] + tail[i..]);
        { assert tail[..i - 1] == rows[1..i]; assert tail[i..] == rows[i + 1..]; }
        [rows[0]] + (rows[1..i] + rows[i + 1..]);
        ([rows[0]] + rows[1..i]) + rows[i + 1..];
        { assert [rows[0]] + rows[1..i] == rows[..i]; }
        rows[..i] + rows[i + 1..];
      }
    }
  }

  /** Dropping the first row keeps the keys distinct. */
  lemma UniqueByTail<T, K>(rows: seq<T>, key: T -> K)
    requires UniqueBy(rows, key)
    requires 0 < |rows|
    ensures UniqueBy(rows[1..], key)
  {
    forall i, j | 0 <= i < j < |rows[1..]| ensures key(rows[1..][i]) != key(rows[1..][j]) {
      assert rows[1..][i] == rows[i + 1] && rows[1..][j] == rows[j + 1];
    }
  }

  /** With distinct keys, removing the first row's key removes just that row. */
  lemma RemoveFirstKey<T, K>(rows: seq<T>, key: T -> K)
    requires UniqueBy(rows, key)
    requires 0 < |rows|
    ensures RemoveKey(rows, key, key(rows[0])) == rows[1..]
  {
    var k := key(rows[0]);
    forall x | x in rows[1..] ensures key(x) != k {
      var j :| 0 <= j < |rows[1..]| && rows[1..][j] == x;
      assert rows[j + 1] == x;
    }
    NoKey(rows[1..], key, k);
  }

  /** Removing a key no row has changes nothing. */
  lemma {:induction false} NoKey<T, K>(rows: seq<T>, key: T -> K, k: K)
    requires forall x | x in rows :: key(x) != k
    ensures RemoveKey(rows, key, k) == rows
    decreases |rows|
  {
    if |rows| > 0 {
      NoKey(rows[1..], key, k);
      assert [rows[0]] + rows[1..] == rows;
    }
  }

  /** Removing rows keeps the remaining keys distinct. */
  lemma {:induction false} UniqueByRemove<T, K, L>(rows: seq<T>, key: T -> K, drop: T -> L, l: L)
    requires UniqueBy(rows, key)
    ensures UniqueBy(RemoveKey(rows, drop, l), key)
    decreases |rows|
  {
    if |rows| > 0 {
      assert UniqueBy(rows[1..], key);
      UniqueByRemove(rows[1..], key, drop, l);
      var rest := RemoveKey(rows[1..], drop, l);
      if drop(rows[0]) != l {
        var s := [rows[0]] + rest;
        forall i, j | 0 <= i < j < |s|
          ensures key(s[i]) != key(s[j])
        {
          if i == 0 {
            assert s[j] in rest;
            var m :| 0 <= m < |rows[1..]| && rows[1..][m] == s[j];
            assert rows[m + 1] == s[j];
          } else {
            assert s[i] == rest[i - 1] && s[j] == rest[j - 1];
          }
        }
      }
    }
  }
}
