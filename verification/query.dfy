/**
 * The `findMany` queries of the routes: select the rows a filter keeps and
 * order them by a key. The database does this; here a loop over the keys
 * builds the ordered list by insertion.
 */
module Query {

  /** Keys never decrease along `s`. */
  ghost predicate SortedBy(s: seq<int>, key: int -> int) {
    forall i, j :: 0 <= i < j < |s| ==> key(s[i]) <= key(s[j])
  }

  /** No id occurs twice in `s`. */
  ghost predicate NoDuplicates(s: seq<int>) {
    forall x :: multiset(s)[x] <= 1
  }

  /** Inserts `x` into `s` in front of the first element with a larger or equal key. */
  function Insert(s: seq<int>, x: int, key: int -> int): (r: seq<int>)
    ensures multiset(r) == multiset(s) + multiset{x}
    decreases |s|
  {
    if s == [] || key(x) <= key(s[0]) then
      [x] + s
    else
      assert s == [s[0]] + s[1..];
      [s[0]] + Insert(s[1..], x, key)
  }

  /** Insertion keeps a sorted list sorted. */
  lemma {:induction false} InsertKeepsSorted(s: seq<int>, x: int, key: int -> int)
    requires SortedBy(s, key)
    ensures SortedBy(Insert(s, x, key), key)
    decreases |s|
  {
    if s != [] && key(x) > key(s[0]) {
      var tail := Insert(s[1..], x, key);
      InsertKeepsSorted(s[1..], x, key);
      forall y | y in tail
        ensures key(s[0]) <= key(y)
      {
        assert y in multiset(tail);
        if y != x {
          assert y in multiset(s[1..]);
          assert y in s[1..];
        }
      }
    }
  }

  /** Inserting an id not yet present adds exactly that id, once. */
  lemma InsertFresh(s: seq<int>, x: int, key: int -> int)
    requires NoDuplicates(s) && x !in s
    ensures NoDuplicates(Insert(s, x, key))
    ensures forall y :: y in Insert(s, x, key) <==> y in s || y == x
  {
    var r := Insert(s, x, key);
    forall y ensures y in r <==> y in s || y == x {
      assert y in r <==> y in multiset(r);
      assert y in s <==> y in multiset(s);
    }
  }

  /**
   * The ids in `lo..hi` (exclusive of `hi`) that `keep` accepts, each once,
   * ordered by `key`. Table keys come from an autoincrement counter, so a
   * scan of that range visits every row.
   */
  method SelectSorted(lo: int, hi: int, keep: int -> bool, key: int -> int) returns (r: seq<int>)
    ensures SortedBy(r, key)
    ensures NoDuplicates(r)
    ensures forall y :: y in r <==> lo <= y < hi && keep(y)
  {
    r := [];
    var id := lo;
    while id < hi
      invariant SortedBy(r, key)
      invariant NoDuplicates(r)
      invariant forall y :: y in r <==> lo <= y < id && y < hi && keep(y)
      decreases hi - id
    {
      if keep(id) {
        InsertKeepsSorted(r, id, key);
        InsertFresh(r, id, key);
        r := Insert(r, id, key);
      }
      id := id + 1;
    }
  }
}
