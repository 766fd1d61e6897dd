/** What the handlers ask of a table, over a table held as a sequence of rows in
    insertion order: `.filter(...).first()`, `.filter(...).all()`, deleting a row,
    primary-key uniqueness, and the key SQLite gives a new row. */
module Query {
  import opened Wrappers

  /** Index of the first row satisfying `p`, in table order. */
  function First<T>(s: seq<T>, p: T -> bool): (r: Option<nat>)
    ensures r.Some? ==> r.value < |s| && p(s[r.value])
    ensures r.Some? ==> forall j :: 0 <= j < r.value ==> !p(s[j])
    ensures r.None? <==> forall j :: 0 <= j < |s| ==> !p(s[j])
  {
    if s == [] then None
    else if p(s[0]) then Some(0)
    else match First(s[1..], p)
      case None => None
      case Some(i) => Some(i + 1)
  }

  /** The rows satisfying `p`, in table order. */
  function Where<T(==)>(s: seq<T>, p: T -> bool): (r: seq<T>)
    ensures |r| <= |s|
    ensures forall i :: 0 <= i < |r| ==> p(r[i]) && r[i] in s
    ensures forall j :: 0 <= j < |s| && p(s[j]) ==> s[j] in r
  {
    if s == [] then [] else (if p(s[0]) then [s[0]] else []) + Where(s[1..], p)
  }

  /** The table without the row at index `i`; the other rows keep their order. */
  function RemoveAt<T>(s: seq<T>, i: nat): (r: seq<T>)
    requires i < |s|
    ensures |r| == |s| - 1
    ensures forall j :: 0 <= j < i ==> r[j] == s[j]
    ensures forall j :: i <= j < |r| ==> r[j] == s[j + 1]
  {
    s[..i] + s[i + 1..]
  }

  /** No two rows share a key. */
  ghost predicate Distinct<T, K>(s: seq<T>, key: T -> K)
  {
    forall i, j :: 0 <= i < j < |s| ==> key(s[i]) != key(s[j])
  }

  /** The largest key in a non-empty table. */
  function MaxKey<T>(s: seq<T>, key: T -> int): (m: int)
    requires |s| > 0
    ensures forall i :: 0 <= i < |s| ==> key(s[i]) <= m
    ensures exists i :: 0 <= i < |s| && key(s[i]) == m
  {
    if |s| == 1 then key(s[0])
    else
      var m := MaxKey(s[1..], key);
      assert forall i :: 1 <= i < |s| ==> s[i] == s[1..][i - 1];
      if key(s[0]) > m then key(s[0]) else m
  }

  /** SQLite's key for a new row of an INTEGER PRIMARY KEY table: one more than the
      largest key present, or 1 for an empty table. It is never a key already in use. */
  function NextId<T>(s: seq<T>, key: T -> int): (id: int)
    ensures forall i :: 0 <= i < |s| ==> key(s[i]) < id
    ensures s == [] ==> id == 1
    ensures s != [] ==> exists i :: 0 <= i < |s| && key(s[i]) == id - 1
  {
    if s == [] then 1 else MaxKey(s, key) + 1
  }

  /** The first row `First` finds is the head of what `Where` returns. */
  lemma {:induction false} FirstIsHeadOfWhere<T>(s: seq<T>, p: T -> bool)
    ensures First(s, p).None? <==> Where(s, p) == []
    ensures First(s, p).Some? ==> Where(s, p)[0] == s[First(s, p).value]
  {
    if s != [] && !p(s[0]) {
      FirstIsHeadOfWhere(s[1..], p);
    }
  }

  /** A row appended to a table where no row satisfied `p` is the first that does. */
  lemma {:induction false} FirstAppended<T>(s: seq<T>, x: T, p: T -> bool)
    requires forall j :: 0 <= j < |s| ==> !p(s[j])
    requires p(x)
    ensures First(s + [x], p) == Some(|s|)
  {
    if s == [] {
      assert s + [x] == [x];
    } else {
      assert (s + [x])[1..] == s[1..] + [x];
      FirstAppended(s[1..], x, p);
    }
  }

  /** Filtering distributes over concatenation: table order is kept. */
  lemma {:induction false} WhereAppend<T>(a: seq<T>, b: seq<T>, p: T -> bool)
    ensures Where(a + b, p) == Where(a, p) + Where(b, p)
  {
    if a == [] {
      assert a + b == b;
    } else {
      assert (a + b)[0] == a[0];
      assert (a + b)[1..] == a[1..] + b;
      WhereAppend(a[1..], b, p);
    }
  }

  /** When exactly one row satisfies `p`, `Where` returns that row alone. */
  lemma {:induction false} WhereSingle<T>(s: seq<T>, p: T -> bool, i: nat)
    requires i < |s| && p(s[i])
    requires forall j :: 0 <= j < |s| && j != i ==> !p(s[j])
    ensures Where(s, p) == [s[i]]
  {
    if i == 0 {
      assert Where(s[1..], p) == [] by {
        forall j | 0 <= j < |s[1..]| ensures !p(s[1..][j]) {
          assert s[1..][j] == s[j + 1];
        }
        WhereNone(s[1..], p);
      }
    } else {
      forall j | 0 <= j < |s[1..]| && j != i - 1 ensures !p(s[1..][j]) {
        assert s[1..][j] == s[j + 1];
      }
      WhereSingle(s[1..], p, i - 1);
    }
  }

  /** Deleting the first row that satisfies `p` removes the head of the `Where` result
      and leaves the others in order. */
  lemma {:induction false} WhereRemoveFirst<T>(s: seq<T>, p: T -> bool)
    requires First(s, p).Some?
    ensures Where(RemoveAt(s, First(s, p).value), p) == Where(s, p)[1..]
  {
    var i := First(s, p).value;
    if i == 0 {
      assert RemoveAt(s, 0) == s[1..];
    } else {
      assert RemoveAt(s, i) == [s[0]] + RemoveAt(s[1..], i - 1);
      assert First(s[1..], p) == Some(i - 1);
      WhereRemoveFirst(s[1..], p);
    }
  }

  /** Filters that agree on every row select the same rows. */
  lemma {:induction false} WhereSame<T>(s: seq<T>, p: T -> bool, q: T -> bool)
    requires forall j :: 0 <= j < |s| ==> p(s[j]) == q(s[j])
    ensures Where(s, p) == Where(s, q)
  {
    if s != [] {
      WhereSame(s[1..], p, q);
    }
  }

  lemma {:induction false} WhereNone<T>(s: seq<T>, p: T -> bool)
    requires forall j :: 0 <= j < |s| ==> !p(s[j])
    ensures Where(s, p) == []
  {
    if s != [] {
      WhereNone(s[1..], p);
    }
  }

  /** Appending a row with a fresh key keeps the keys distinct. */
  lemma DistinctAppend<T, K>(s: seq<T>, x: T, key: T -> K)
    requires Distinct(s, key)
    requires forall i :: 0 <= i < |s| ==> key(s[i]) != key(x)
    ensures Distinct(s + [x], key)
  {
  }

  /** Deleting a row keeps the keys distinct. */
  lemma DistinctRemoveAt<T, K>(s: seq<T>, i: nat, key: T -> K)
    requires i < |s| && Distinct(s, key)
    ensures Distinct(RemoveAt(s, i), key)
  {
    var r := RemoveAt(s, i);
    forall a, b | 0 <= a < b < |r| ensures key(r[a]) != key(r[b]) {
      var a' := if a < i then a else a + 1;
      var b' := if b < i then b else b + 1;
      assert r[a] == s[a'] && r[b] == s[b'];
    }
  }
}
