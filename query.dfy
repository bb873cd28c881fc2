/**
 * The four frame operations the dashboard's pages are built from, over a
 * table given as a sequence of rows:
 *   - `frame[mask]`            -> Keep
 *   - `frame[mask].iloc[0]`    -> FirstWhere, FirstWithKey
 *   - `frame.sort_values(col)` -> SortBy
 *   - `series.unique()`        -> Unique
 */
module Query {
  import opened Wrappers

  /** `sub` is obtained from `s` by deleting elements; the order of the rest is kept. */
  predicate IsSubsequence<T(==)>(sub: seq<T>, s: seq<T>)
    decreases |s|
  {
    sub == [] ||
    (s != [] &&
     ((sub[0] == s[0] && IsSubsequence(sub[1..], s[1..])) || IsSubsequence(sub, s[1..])))
  }

  lemma {:induction false} SubsequenceTransitive<T>(a: seq<T>, b: seq<T>, c: seq<T>)
    requires IsSubsequence(a, b) && IsSubsequence(b, c)
    ensures IsSubsequence(a, c)
    decreases |c|
  {
    if a == [] {
    } else if b[0] == c[0] && IsSubsequence(b[1..], c[1..]) {
      if a[0] == b[0] && IsSubsequence(a[1..], b[1..]) {
        SubsequenceTransitive(a[1..], b[1..], c[1..]);
      } else {
        SubsequenceTransitive(a, b[1..], c[1..]);
      }
    } else {
      SubsequenceTransitive(a, b, c[1..]);
    }
  }

  lemma {:induction false} SubsequenceReflexive<T>(s: seq<T>)
    ensures IsSubsequence(s, s)
  {
    if s != [] {
      SubsequenceReflexive(s[1..]);
    }
  }

  // ---------------------------------------------------------------------
  // Boolean-mask selection

  /**
   * `frame[mask]`: the rows satisfying `p`, each as often as in `s`, in
   * table order. What that means is stated by `KeepSelects` below.
   */
  function Keep<R>(s: seq<R>, p: R -> bool): (r: seq<R>)
    ensures |r| <= |s|
  {
    if s == [] then []
    else (if p(s[0]) then [s[0]] else []) + Keep(s[1..], p)
  }

  /** Every selected row satisfies the mask. */
  lemma {:induction false} KeepSatisfies<R>(s: seq<R>, p: R -> bool)
    ensures forall i :: 0 <= i < |Keep(s, p)| ==> p(Keep(s, p)[i])
  {
    if s != [] {
      KeepSatisfies(s[1..], p);
      var rest := Keep(s[1..], p);
      if p(s[0]) {
        assert Keep(s, p) == [s[0]] + rest;
      } else {
        assert Keep(s, p) == rest;
      }
    }
  }

  /** A row occurs in the selection as often as in the table if it satisfies the mask, else never. */
  lemma {:induction false} KeepCounts<R(!new)>(s: seq<R>, p: R -> bool)
    ensures forall x :: multiset(Keep(s, p))[x] == if p(x) then multiset(s)[x] else 0
  {
    if s != [] {
      KeepCounts(s[1..], p);
      var head := if p(s[0]) then [s[0]] else [];
      assert s == [s[0]] + s[1..];
      assert multiset(Keep(s, p)) == multiset(head) + multiset(Keep(s[1..], p));
    }
  }

  /** The selection keeps the table's order. */
  lemma {:induction false} KeepIsSubsequence<R>(s: seq<R>, p: R -> bool)
    ensures IsSubsequence(Keep(s, p), s)
  {
    if s != [] {
      KeepIsSubsequence(s[1..], p);
      var rest := Keep(s[1..], p);
      if p(s[0]) {
        assert Keep(s, p)[0] == s[0] && Keep(s, p)[1..] == rest;
      } else {
        assert Keep(s, p) == rest;
      }
    }
  }

  /**
   * The contract of `frame[mask]`: exactly the rows satisfying the mask,
   * each as often as in the table, as a subsequence of the table.
   */
  lemma KeepSelects<R(!new)>(s: seq<R>, p: R -> bool)
    ensures forall i :: 0 <= i < |Keep(s, p)| ==> p(Keep(s, p)[i])
    ensures forall x :: x in Keep(s, p) <==> x in s && p(x)
    ensures forall x :: multiset(Keep(s, p))[x] == if p(x) then multiset(s)[x] else 0
    ensures IsSubsequence(Keep(s, p), s)
  {
    KeepSatisfies(s, p);
    KeepCounts(s, p);
    KeepIsSubsequence(s, p);
    forall x
      ensures x in Keep(s, p) <==> x in s && p(x)
    {
      assert x in Keep(s, p) <==> x in multiset(Keep(s, p));
      assert x in s <==> x in multiset(s);
    }
  }

  /** The selection's size grows by one exactly for a head row that satisfies the mask. */
  lemma KeepLength<R(!new)>(s: seq<R>, p: R -> bool)
    requires s != []
    ensures |Keep(s, p)| == (if p(s[0]) then 1 else 0) + |Keep(s[1..], p)|
  {
  }

  /** Selecting rows that all satisfy the mask changes nothing. */
  lemma {:induction false} KeepAll<R(!new)>(s: seq<R>, p: R -> bool)
    requires forall i :: 0 <= i < |s| ==> p(s[i])
    ensures Keep(s, p) == s
  {
    if s != [] {
      assert forall i :: 0 <= i < |s[1..]| ==> s[1..][i] == s[i + 1];
      KeepAll(s[1..], p);
      assert s == [s[0]] + s[1..];
    }
  }

  /** Selecting from rows none of which satisfies the mask yields nothing. */
  lemma {:induction false} KeepNone<R>(s: seq<R>, p: R -> bool)
    requires forall i :: 0 <= i < |s| ==> !p(s[i])
    ensures Keep(s, p) == []
  {
    if s != [] {
      assert forall i :: 0 <= i < |s[1..]| ==> s[1..][i] == s[i + 1];
      KeepNone(s[1..], p);
    }
  }

  /** Applying the same mask twice selects what applying it once does. */
  lemma KeepIdempotent<R(!new)>(s: seq<R>, p: R -> bool)
    ensures Keep(Keep(s, p), p) == Keep(s, p)
  {
    KeepSatisfies(s, p);
    KeepAll(Keep(s, p), p);
  }

  /** A selection from a table sorted by `key` is itself sorted by `key`. */
  lemma {:induction false} KeepPreservesSorted<R(!new)>(s: seq<R>, p: R -> bool, key: R -> int)
    requires SortedBy(s, key)
    ensures SortedBy(Keep(s, p), key)
  {
    if s != [] {
      SortedTail(s, multiset(s) - multiset{s[0]}, key);
      KeepPreservesSorted(s[1..], p, key);
      var rest := Keep(s[1..], p);
      KeepSelects(s[1..], p);
      if p(s[0]) {
        assert Keep(s, p) == [s[0]] + rest;
        assert rest != [] ==> rest[0] in s[1..];
        if rest != [] {
          var j :| 0 <= j < |s[1..]| && s[1..][j] == rest[0];
          assert s[j + 1] == rest[0];
        }
        ConsSorted(s[0], rest, key);
      } else {
        assert Keep(s, p) == rest;
      }
    }
  }

  // ---------------------------------------------------------------------
  // First match

  /** `k` is the position of the first row of `s` satisfying `p`. */
  predicate IsFirstMatch<R>(s: seq<R>, p: R -> bool, k: int) {
    0 <= k < |s| && p(s[k]) && forall j :: 0 <= j < k ==> !p(s[j])
  }

  /** The head of a selection is the table's first row satisfying the mask. */
  lemma {:induction false} KeepHead<R(!new)>(s: seq<R>, p: R -> bool)
    ensures Keep(s, p) != [] ==> exists k :: IsFirstMatch(s, p, k) && Keep(s, p)[0] == s[k]
  {
    if s != [] {
      var rest := Keep(s[1..], p);
      if p(s[0]) {
        assert Keep(s, p) == [s[0]] + rest;
        assert IsFirstMatch(s, p, 0);
      } else {
        assert Keep(s, p) == rest;
        KeepHead(s[1..], p);
        if rest != [] {
          var k :| IsFirstMatch(s[1..], p, k) && rest[0] == s[1..][k];
          forall j | 0 <= j < k + 1
            ensures !p(s[j])
          {
            if j > 0 {
              assert s[j] == s[1..][j - 1];
            }
          }
          assert IsFirstMatch(s, p, k + 1);
        }
      }
    }
  }

  /**
   * `frame[mask].iloc[0]`: the first row satisfying `p`. `None` stands for
   * the IndexError `.iloc[0]` raises on an empty selection; several matches
   * are not an error.
   */
  function FirstWhere<R(==,!new)>(s: seq<R>, p: R -> bool): (r: Option<R>)
    ensures r.None? <==> forall i :: 0 <= i < |s| ==> !p(s[i])
    ensures r.Some? ==> exists k :: IsFirstMatch(s, p, k) && s[k] == r.value
  {
    KeepSelects(s, p);
    KeepHead(s, p);
    var matches := Keep(s, p);
    if matches == [] then None else Some(matches[0])
  }

  /** Some row of `s` has `name` in its key column. */
  predicate HasKey<R>(s: seq<R>, key: R -> string, name: string) {
    exists i :: 0 <= i < |s| && key(s[i]) == name
  }

  /** `v` is the first row of `s` whose key column equals `name`. */
  predicate IsFirstWithKey<R(==)>(s: seq<R>, key: R -> string, name: string, v: R) {
    exists k :: 0 <= k < |s| && s[k] == v && key(v) == name &&
      forall j :: 0 <= j < k ==> key(s[j]) != name
  }

  /** `frame[frame[col] == name].iloc[0]` for the key column `key`. */
  function FirstWithKey<R(==,!new)>(s: seq<R>, key: R -> string, name: string): (r: Option<R>)
    ensures r.None? <==> !HasKey(s, key, name)
    ensures r.Some? ==> IsFirstWithKey(s, key, name, r.value)
  {
    FirstWhere(s, (row: R) => key(row) == name)
  }

  /** `frame[frame[col] == name]` for the key column `key`. */
  function RowsWithKey<R(==,!new)>(s: seq<R>, key: R -> string, name: string): (r: seq<R>)
    ensures forall i :: 0 <= i < |r| ==> key(r[i]) == name
    ensures forall x :: multiset(r)[x] == if key(x) == name then multiset(s)[x] else 0
    ensures IsSubsequence(r, s)
    ensures r == [] <==> !HasKey(s, key, name)
  {
    var matches := (row: R) => key(row) == name;
    KeepSelects(s, matches);
    var r := Keep(s, matches);
    assert r != [] ==> r[0] in r;
    r
  }

  // ---------------------------------------------------------------------
  // Sorting

  /** `s` is in non-decreasing order of `key`. */
  predicate SortedBy<R>(s: seq<R>, key: R -> int) {
    forall i, j :: 0 <= i < j < |s| ==> key(s[i]) <= key(s[j])
  }

  /** A row no later than the head of a sorted sequence can go in front of it. */
  lemma ConsSorted<R>(x: R, s: seq<R>, key: R -> int)
    requires SortedBy(s, key)
    requires s != [] ==> key(x) <= key(s[0])
    ensures SortedBy([x] + s, key)
  {
    forall i, j | 0 <= i < j < |[x] + s|
      ensures key(([x] + s)[i]) <= key(([x] + s)[j])
    {
      if i == 0 && j > 1 {
        assert key(s[0]) <= key(s[j - 1]);
      }
    }
  }

  /** Puts `x` in front of the first row whose key is not smaller than its own. */
  function InsertBy<R(==)>(x: R, s: seq<R>, key: R -> int): (r: seq<R>)
    ensures |r| == |s| + 1
    ensures multiset(r) == multiset(s) + multiset{x}
  {
    if s == [] then [x]
    else if key(x) <= key(s[0]) then [x] + s
    else
      assert s == [s[0]] + s[1..];
      [s[0]] + InsertBy(x, s[1..], key)
  }

  /** Inserting into a sorted sequence keeps it sorted; the new head is `x` or the old one. */
  lemma {:induction false} InsertBySorted<R>(x: R, s: seq<R>, key: R -> int)
    requires SortedBy(s, key)
    ensures SortedBy(InsertBy(x, s, key), key)
    ensures InsertBy(x, s, key)[0] == x || InsertBy(x, s, key)[0] == s[0]
  {
    if s == [] {
    } else if key(x) <= key(s[0]) {
      ConsSorted(x, s, key);
    } else {
      var rest := InsertBy(x, s[1..], key);
      assert SortedBy(s[1..], key) by {
        forall i, j | 0 <= i < j < |s[1..]|
          ensures key(s[1..][i]) <= key(s[1..][j])
        {
          assert s[1..][i] == s[i + 1] && s[1..][j] == s[j + 1];
        }
      }
      InsertBySorted(x, s[1..], key);
      assert key(s[0]) <= key(rest[0]);
      ConsSorted(s[0], rest, key);
    }
  }

  /**
   * `frame.sort_values(col)`: the rows of `s` rearranged into non-decreasing
   * order of `key`. pandas promises no order among rows with equal keys, so
   * the contract says nothing about it either.
   */
  function SortBy<R(==)>(s: seq<R>, key: R -> int): (r: seq<R>)
    ensures SortedBy(r, key)
    ensures multiset(r) == multiset(s)
  {
    if s == [] then []
    else
      assert s == [s[0]] + s[1..];
      InsertBySorted(s[0], SortBy(s[1..], key), key);
      InsertBy(s[0], SortBy(s[1..], key), key)
  }

  /**
   * Two arrangements of the same rows that are both sorted by `key` agree on
   * the key at every position: only rows with equal keys can trade places.
   */
  lemma {:induction false} SortedPermutationsAgreeOnKeys<R(!new)>(a: seq<R>, b: seq<R>, key: R -> int)
    requires SortedBy(a, key) && SortedBy(b, key)
    requires multiset(a) == multiset(b)
    ensures |a| == |b|
    ensures forall i :: 0 <= i < |a| ==> key(a[i]) == key(b[i])
    decreases |a|
  {
    assert |a| == |multiset(a)| == |multiset(b)| == |b|;
    if a != [] {
      var m := MatchHead(a, b, key);
      var rest := b[..m] + b[m + 1..];
      RemoveKeepsSorted(b, m, key);
      SortedTail(a, multiset(rest), key);
      SortedPermutationsAgreeOnKeys(a[1..], rest, key);
      KeysAfterRemoval(a, b, m, key);
    }
  }

  /** Where `a`'s first row sits in `b`; it carries the smallest key of both. */
  lemma MatchHead<R(!new)>(a: seq<R>, b: seq<R>, key: R -> int) returns (m: int)
    requires SortedBy(a, key) && SortedBy(b, key)
    requires multiset(a) == multiset(b) && a != []
    ensures 0 <= m < |b| && b[m] == a[0]
    ensures key(a[0]) == key(b[0]) == key(b[m])
  {
    assert a[0] in multiset(b);
    m :| 0 <= m < |b| && b[m] == a[0];
    assert b[0] in multiset(a);
    var k :| 0 <= k < |a| && a[k] == b[0];
    assert key(a[0]) <= key(a[k]);
    assert key(b[0]) <= key(b[m]);
  }

  /** Removing one row from a sorted sequence leaves it sorted, with one copy of that row fewer. */
  lemma RemoveKeepsSorted<R>(b: seq<R>, m: int, key: R -> int)
    requires SortedBy(b, key) && 0 <= m < |b|
    ensures SortedBy(b[..m] + b[m + 1..], key)
    ensures multiset(b[..m] + b[m + 1..]) == multiset(b) - multiset{b[m]}
  {
    var rest := b[..m] + b[m + 1..];
    assert b == b[..m] + [b[m]] + b[m + 1..];
    assert forall j :: 0 <= j < |rest| ==> rest[j] == if j < m then b[j] else b[j + 1];
  }

  /** The tail of a sorted sequence is sorted and holds all but its head. */
  lemma SortedTail<R>(a: seq<R>, rest: multiset<R>, key: R -> int)
    requires SortedBy(a, key) && a != []
    requires rest == multiset(a) - multiset{a[0]}
    ensures SortedBy(a[1..], key)
    ensures multiset(a[1..]) == rest
  {
    assert a == [a[0]] + a[1..];
    forall i, j | 0 <= i < j < |a| - 1
      ensures key(a[1..][i]) <= key(a[1..][j])
    {
      assert a[1..][i] == a[i + 1] && a[1..][j] == a[j + 1];
    }
  }

  /** The inductive step: `a`'s tail agrees with `b` less `b[m]`, and `b[m]` has `b[0]`'s key. */
  lemma KeysAfterRemoval<R>(a: seq<R>, b: seq<R>, m: int, key: R -> int)
    requires SortedBy(b, key) && 0 <= m < |b| && |a| == |b|
    requires key(a[0]) == key(b[0]) == key(b[m])
    requires |a[1..]| == |b[..m] + b[m + 1..]|
    requires forall i :: 0 <= i < |a[1..]| ==> key(a[1..][i]) == key((b[..m] + b[m + 1..])[i])
    ensures forall i :: 0 <= i < |a| ==> key(a[i]) == key(b[i])
  {
    var rest := b[..m] + b[m + 1..];
    forall i | 0 < i < |a|
      ensures key(a[i]) == key(b[i])
    {
      assert key(a[i]) == key(a[1..][i - 1]) == key(rest[i - 1]);
      if i <= m {
        assert rest[i - 1] == b[i - 1];
        assert key(b[0]) <= key(b[i - 1]) <= key(b[i]) <= key(b[m]);
      } else {
        assert rest[i - 1] == b[i];
      }
    }
  }

  // ---------------------------------------------------------------------
  // Columns and de-duplication

  /** `frame[col]` for a string column given by `key`, in table order. */
  function Column<R>(s: seq<R>, key: R -> string): (r: seq<string>)
    ensures |r| == |s|
    ensures forall i :: 0 <= i < |s| ==> r[i] == key(s[i])
    ensures forall t :: t in r <==> HasKey(s, key, t)
  {
    var r := seq(|s|, i requires 0 <= i < |s| => key(s[i]));
    assert forall i :: 0 <= i < |s| ==> r[i] == key(s[i]);
    r
  }

  /** No value occurs twice in `s`. */
  predicate Distinct<T(==)>(s: seq<T>) {
    forall i, j :: 0 <= i < j < |s| ==> s[i] != s[j]
  }

  /** The position of the first occurrence of `x` in `s`. */
  function FirstIndex<T(==)>(s: seq<T>, x: T): (k: nat)
    requires x in s
    ensures k < |s| && s[k] == x && x !in s[..k]
  {
    if s[0] == x then 0
    else
      assert s[1..][..FirstIndex(s[1..], x)] == s[1..1 + FirstIndex(s[1..], x)];
      1 + FirstIndex(s[1..], x)
  }

  /** Appending an element does not move the first occurrence of an earlier value. */
  lemma FirstIndexAppend<T>(s: seq<T>, e: T, x: T)
    requires x in s
    ensures FirstIndex(s + [e], x) == FirstIndex(s, x)
  {
    var k, k' := FirstIndex(s, x), FirstIndex(s + [e], x);
    assert (s + [e])[..k] == s[..k];
    assert (s + [e])[k] == x;
    assert k' <= |s|;
    assert (s + [e])[..k'] == s[..k'];
  }

  /** Every value of `r` occurs in `s`, and `r` lists them in order of first appearance in `s`. */
  predicate InFirstAppearanceOrder<T(==)>(s: seq<T>, r: seq<T>) {
    && (forall i :: 0 <= i < |r| ==> r[i] in s)
    && forall i, j :: 0 <= i < j < |r| ==> FirstIndex(s, r[i]) < FirstIndex(s, r[j])
  }

  /**
   * `series.unique()`: every value of `s` exactly once, in the order of
   * its first appearance in `s`.
   */
  function Unique<T(==,!new)>(s: seq<T>): (r: seq<T>)
    ensures forall x :: x in r <==> x in s
    ensures Distinct(r)
    ensures InFirstAppearanceOrder(s, r)
    decreases |s|
  {
    if s == [] then []
    else
      var init, last := s[..|s| - 1], s[|s| - 1];
      assert s == init + [last];
      var u := Unique(init);
      UniqueAppendOrder(init, last, u);
      if last in init then u else u + [last]
  }

  /** How the first-appearance order of `init` carries over to `init + [last]`. */
  lemma UniqueAppendOrder<T(!new)>(init: seq<T>, last: T, u: seq<T>)
    requires forall x :: x in u <==> x in init
    requires forall i, j :: 0 <= i < j < |u| ==> FirstIndex(init, u[i]) < FirstIndex(init, u[j])
    ensures forall i, j :: 0 <= i < j < |u| ==>
      FirstIndex(init + [last], u[i]) < FirstIndex(init + [last], u[j])
    ensures last !in init ==> forall i :: 0 <= i < |u| ==>
      FirstIndex(init + [last], u[i]) < FirstIndex(init + [last], last)
  {
    forall i | 0 <= i < |u|
      ensures FirstIndex(init + [last], u[i]) == FirstIndex(init, u[i])
    {
      assert u[i] in u;
      FirstIndexAppend(init, last, u[i]);
    }
    if last !in init {
      var k := FirstIndex(init + [last], last);
      assert (init + [last])[|init|] == last;
      assert forall j :: 0 <= j < |init| ==> (init + [last])[j] == init[j];
      assert k == |init|;
    }
  }

  /**
   * Two sequences with the same values, each once, both in first-appearance
   * order of `s`, are equal.
   */
  lemma {:induction false} FirstAppearanceOrderUnique<T(!new)>(s: seq<T>, a: seq<T>, b: seq<T>)
    requires forall x :: x in a <==> x in b
    requires Distinct(a) && Distinct(b)
    requires InFirstAppearanceOrder(s, a) && InFirstAppearanceOrder(s, b)
    ensures a == b
    decreases |a|
  {
    assert |b| > 0 ==> b[0] in a;
    if a != [] {
      assert a[0] in a && b[0] in b;
      var m :| 0 <= m < |b| && b[m] == a[0];
      var k :| 0 <= k < |a| && a[k] == b[0];
      assert a[0] == b[0];
      forall x
        ensures x in a[1..] <==> x in b[1..]
      {
        assert x in a[1..] <==> x in a && x != a[0];
        assert x in b[1..] <==> x in b && x != b[0];
      }
      FirstAppearanceOrderUnique(s, a[1..], b[1..]);
      assert a == [a[0]] + a[1..] && b == [b[0]] + b[1..];
    }
  }

  /** `Unique(s)` is the one sequence with the values of `s`, each once, in first-appearance order. */
  lemma UniqueCharacterized<T(!new)>(s: seq<T>, r: seq<T>)
    ensures r == Unique(s) <==>
      (forall x :: x in r <==> x in s) && Distinct(r) && InFirstAppearanceOrder(s, r)
  {
    if (forall x :: x in r <==> x in s) && Distinct(r) && InFirstAppearanceOrder(s, r) {
      FirstAppearanceOrderUnique(s, r, Unique(s));
    }
  }
}
