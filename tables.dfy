/** Generic operations on a table held as a sequence of rows: lookup through a unique
    column, the set of values a column takes, filtering (`where`), counting, paging
    (`skip`/`take`) and ordering newest first (`orderBy: { createdAt: 'desc' }`).
    Columns are passed as named functions such as `Schema.LinkToken`. */
module Tables {
  import opened Common

  /** The values column `key` takes in table `s`. */
  ghost function Keys<T, K>(s: seq<T>, key: T -> K): set<K> {
    set x | x in s :: key(x)
  }

  /** No two rows share a value in column `key` (a unique index). */
  ghost predicate Distinct<T, K>(s: seq<T>, key: T -> K) {
    forall i, j :: 0 <= i < |s| && 0 <= j < |s| && key(s[i]) == key(s[j]) ==> i == j
  }

  /** `findUnique({ where: { key: k } })`: the position of the row whose column
      `key` equals `k`, if there is one. */
  function IndexOf<T, K(==)>(s: seq<T>, key: T -> K, k: K): (r: Option<nat>)
    ensures r.Some? ==> r.value < |s| && key(s[r.value]) == k
    ensures r.None? <==> k !in Keys(s, key)
  {
    if s == [] then None
    else if key(s[0]) == k then Some(0)
    else
      match IndexOf(s[1..], key, k)
      case None =>
        assert forall x | x in s :: x == s[0] || x in s[1..];
        None
      case Some(i) => Some(i + 1)
  }

  /** Under a unique index, the lookup finds exactly the row that holds the value. */
  lemma IndexOfDistinct<T, K>(s: seq<T>, key: T -> K, i: nat)
    requires Distinct(s, key) && i < |s|
    ensures IndexOf(s, key, key(s[i])) == Some(i)
  {
  }

  /** Under a unique index, two rows with the same value are the same row. */
  lemma SameKeySameRow<T, K>(s: seq<T>, key: T -> K, x: T, y: T)
    requires Distinct(s, key) && x in s && y in s && key(x) == key(y)
    ensures x == y
  {
    var i :| 0 <= i < |s| && s[i] == x;
    var j :| 0 <= j < |s| && s[j] == y;
  }

  lemma KeysAppend<T, K>(s: seq<T>, x: T, key: T -> K)
    ensures Keys(s + [x], key) == Keys(s, key) + {key(x)}
  {
    assert forall y | y in s + [x] :: y in s || y == x;
  }

  /** Inserting a row with a fresh value keeps the index unique. */
  lemma DistinctAppend<T, K>(s: seq<T>, x: T, key: T -> K)
    requires Distinct(s, key) && key(x) !in Keys(s, key)
    ensures Distinct(s + [x], key)
    ensures Keys(s + [x], key) == Keys(s, key) + {key(x)}
  {
    KeysAppend(s, x, key);
    var t := s + [x];
    forall i, j | 0 <= i < |t| && 0 <= j < |t| && key(t[i]) == key(t[j])
      ensures i == j
    {
      if i < |s| { assert t[i] in s; }
      if j < |s| { assert t[j] in s; }
    }
  }

  /** Rewriting rows without touching column `key` keeps its values and its uniqueness. */
  lemma DistinctSameKeys<T, K>(s: seq<T>, t: seq<T>, key: T -> K)
    requires |s| == |t|
    requires forall i :: 0 <= i < |s| ==> key(s[i]) == key(t[i])
    ensures Distinct(s, key) ==> Distinct(t, key)
    ensures Keys(s, key) == Keys(t, key)
  {
    forall k | k in Keys(s, key) ensures k in Keys(t, key) {
      var x :| x in s && key(x) == k;
      var i :| 0 <= i < |s| && s[i] == x;
      assert t[i] in t;
    }
    forall k | k in Keys(t, key) ensures k in Keys(s, key) {
      var x :| x in t && key(x) == k;
      var i :| 0 <= i < |t| && t[i] == x;
      assert s[i] in s;
    }
  }

  /** `where`: the rows satisfying `p`, in table order. */
  function Where<T>(s: seq<T>, p: T -> bool): (r: seq<T>)
    ensures |r| <= |s|
    ensures forall x | x in r :: x in s && p(x)
    ensures forall x | x in s && p(x) :: x in r
  {
    if s == [] then []
    else
      assert forall x | x in s :: x == s[0] || x in s[1..];
      (if p(s[0]) then [s[0]] else []) + Where(s[1..], p)
  }

  lemma {:induction false} WhereAppend<T>(a: seq<T>, b: seq<T>, p: T -> bool)
    ensures Where(a + b, p) == Where(a, p) + Where(b, p)
  {
    if a != [] {
      assert (a + b)[0] == a[0];
      assert (a + b)[1..] == a[1..] + b;
      WhereAppend(a[1..], b, p);
    } else {
      assert a + b == b;
    }
  }

  /** Below the first row a unique index stays unique, and no later row repeats the
      first row's value. */
  lemma DistinctTail<T, K>(s: seq<T>, key: T -> K)
    requires s != [] && Distinct(s, key)
    ensures Distinct(s[1..], key)
    ensures forall x | x in s[1..] :: key(x) != key(s[0])
  {
    var rest := s[1..];
    forall i, j | 0 <= i < |rest| && 0 <= j < |rest| && key(rest[i]) == key(rest[j])
      ensures i == j
    {
      assert rest[i] == s[i + 1] && rest[j] == s[j + 1];
    }
    forall x | x in rest ensures key(x) != key(s[0]) {
      var n :| 0 <= n < |rest| && rest[n] == x;
      assert s[n + 1] == x;
    }
  }

  /** Filtering keeps a unique index unique. */
  lemma {:induction false} WhereDistinct<T, K>(s: seq<T>, p: T -> bool, key: T -> K)
    ensures Distinct(s, key) ==> Distinct(Where(s, p), key)
  {
    if s != [] && Distinct(s, key) {
      var rest := Where(s[1..], p);
      assert Distinct(s[1..], key) by {
        forall i, j | 0 <= i < |s[1..]| && 0 <= j < |s[1..]| && key(s[1..][i]) == key(s[1..][j])
          ensures i == j
        {
          assert s[1..][i] == s[i + 1] && s[1..][j] == s[j + 1];
        }
      }
      WhereDistinct(s[1..], p, key);
      if p(s[0]) {
        var r := [s[0]] + rest;
        forall i, j | 0 <= i < |r| && 0 <= j < |r| && key(r[i]) == key(r[j])
          ensures i == j
        {
          forall m | 0 < m < |r| ensures key(r[m]) != key(s[0]) {
            assert r[m] in rest;
            assert r[m] in s[1..];
            var n :| 0 <= n < |s[1..]| && s[1..][n] == r[m];
            assert s[n + 1] == r[m];
          }
        }
      }
    }
  }

  /** `count({ where })`. */
  function Count<T>(s: seq<T>, p: T -> bool): (n: nat)
    ensures n <= |s|
  {
    |Where(s, p)|
  }

  lemma CountAppend<T>(a: seq<T>, b: seq<T>, p: T -> bool)
    ensures Count(a + b, p) == Count(a, p) + Count(b, p)
  {
    WhereAppend(a, b, p);
  }

  /** No row satisfies `p`: nothing is counted. */
  lemma {:induction false} CountNone<T>(s: seq<T>, p: T -> bool)
    requires forall x | x in s :: !p(x)
    ensures Count(s, p) == 0
  {
    if s != [] {
      assert s[0] in s;
      assert forall x | x in s[1..] :: x in s;
      CountNone(s[1..], p);
    }
  }

  /** The `meta` block of a paginated answer: the number of matching rows, and the
      `skip` and `take` that were applied. */
  datatype PageMeta = PageMeta(total: nat, skip: nat, take: nat)

  /** `skip`/`take`: at most `take` rows, starting at position `skip`. */
  function Page<T>(s: seq<T>, skip: nat, take: nat): (r: seq<T>)
    ensures |r| == if skip >= |s| then 0 else Min(take, |s| - skip)
    ensures forall i :: 0 <= i < |r| ==> skip + i < |s| && r[i] == s[skip + i]
  {
    if skip >= |s| then [] else s[skip..skip + Min(take, |s| - skip)]
  }

  /** Ordered by a timestamp column, newest first. */
  ghost predicate NewestFirst<T>(s: seq<T>, stamp: T -> nat) {
    forall i, j :: 0 <= i < j < |s| ==> stamp(s[i]) >= stamp(s[j])
  }

  function InsertNewestFirst<T>(x: T, s: seq<T>, stamp: T -> nat): (r: seq<T>)
    ensures multiset(r) == multiset(s) + multiset{x}
  {
    if s == [] || stamp(x) >= stamp(s[0]) then [x] + s
    else
      assert s == [s[0]] + s[1..];
      [s[0]] + InsertNewestFirst(x, s[1..], stamp)
  }

  lemma InsertMember<T>(x: T, s: seq<T>, stamp: T -> nat, y: T)
    requires y in InsertNewestFirst(x, s, stamp)
    ensures y == x || y in s
  {
    assert y in multiset(InsertNewestFirst(x, s, stamp));
  }

  lemma NewestFirstTail<T>(s: seq<T>, stamp: T -> nat)
    requires s != [] && NewestFirst(s, stamp)
    ensures NewestFirst(s[1..], stamp)
    ensures forall y | y in s[1..] :: stamp(y) <= stamp(s[0])
  {
    forall i, j | 0 <= i < j < |s[1..]| ensures stamp(s[1..][i]) >= stamp(s[1..][j]) {
      assert s[1..][i] == s[i + 1] && s[1..][j] == s[j + 1];
    }
    forall y | y in s[1..] ensures stamp(y) <= stamp(s[0]) {
      var n :| 0 <= n < |s[1..]| && s[1..][n] == y;
      assert s[n + 1] == y;
    }
  }

  lemma ConsNewestFirst<T>(h: T, t: seq<T>, stamp: T -> nat)
    requires NewestFirst(t, stamp)
    requires forall y | y in t :: stamp(y) <= stamp(h)
    ensures NewestFirst([h] + t, stamp)
  {
    var r := [h] + t;
    forall i, j | 0 <= i < j < |r| ensures stamp(r[i]) >= stamp(r[j]) {
      assert r[j] == t[j - 1];
      if i == 0 { assert r[j] in t; } else { assert r[i] == t[i - 1]; }
    }
  }

  lemma {:induction false} InsertKeepsOrder<T>(x: T, s: seq<T>, stamp: T -> nat)
    requires NewestFirst(s, stamp)
    ensures NewestFirst(InsertNewestFirst(x, s, stamp), stamp)
  {
    if s == [] {
    } else if stamp(x) >= stamp(s[0]) {
      forall y | y in s ensures stamp(y) <= stamp(x) {
        var n :| 0 <= n < |s| && s[n] == y;
      }
      ConsNewestFirst(x, s, stamp);
    } else {
      NewestFirstTail(s, stamp);
      var rest := InsertNewestFirst(x, s[1..], stamp);
      InsertKeepsOrder(x, s[1..], stamp);
      forall y | y in rest ensures stamp(y) <= stamp(s[0]) {
        InsertMember(x, s[1..], stamp, y);
      }
      ConsNewestFirst(s[0], rest, stamp);
    }
  }

  /** The rows of `s`, ordered newest first (rows with equal stamps in a fixed order). */
  function SortNewestFirst<T>(s: seq<T>, stamp: T -> nat): (r: seq<T>)
    ensures NewestFirst(r, stamp)
    ensures multiset(r) == multiset(s)
    ensures |r| == |s|
  {
    if s == [] then []
    else
      assert s == [s[0]] + s[1..];
      var sorted := SortNewestFirst(s[1..], stamp);
      InsertKeepsOrder(s[0], sorted, stamp);
      InsertNewestFirst(s[0], sorted, stamp)
  }

  /** A page of the rows ordered newest first is ordered too, and holds only rows of `s`. */
  lemma NewestPage<T>(s: seq<T>, stamp: T -> nat, skip: nat, take: nat)
    ensures var page := Page(SortNewestFirst(s, stamp), skip, take);
      NewestFirst(page, stamp) && forall x | x in page :: x in s
  {
    var ordered := SortNewestFirst(s, stamp);
    var page := Page(ordered, skip, take);
    forall x | x in page ensures x in s {
      SortedMembers(s, stamp, x);
    }
    forall i, j | 0 <= i < j < |page| ensures stamp(page[i]) >= stamp(page[j]) {
      assert page[i] == ordered[skip + i] && page[j] == ordered[skip + j];
    }
  }

  /** Row `i` of `page` is row `skip + i` of `ordered`. */
  ghost predicate WindowOf<T>(page: seq<T>, ordered: seq<T>, skip: nat) {
    forall i :: 0 <= i < |page| ==> skip + i < |ordered| && page[i] == ordered[skip + i]
  }

  /** `orderBy: { createdAt: 'desc' }` followed by `skip`/`take`: the window at `skip` of
      the rows ordered newest first. */
  function NewestWindow<T>(s: seq<T>, stamp: T -> nat, skip: nat, take: nat): (page: seq<T>)
    ensures |page| == if skip >= |s| then 0 else Min(take, |s| - skip)
    ensures WindowOf(page, SortNewestFirst(s, stamp), skip)
    ensures NewestFirst(page, stamp)
    ensures forall x | x in page :: x in s
  {
    NewestPage(s, stamp, skip, take);
    Page(SortNewestFirst(s, stamp), skip, take)
  }

  /** Sorting neither adds nor drops rows. */
  lemma SortedMembers<T>(s: seq<T>, stamp: T -> nat, x: T)
    ensures x in SortNewestFirst(s, stamp) <==> x in s
  {
    var r := SortNewestFirst(s, stamp);
    assert x in r <==> x in multiset(r);
    assert x in s <==> x in multiset(s);
  }
}
