/** Keyset paging: `WHERE key > cursor ORDER BY key ASC LIMIT 10`, and the walk of a client that passes
    the last key of each full page as the next cursor. */
module Paging {

  const PAGE_SIZE := 10

  /** The order of the database's text columns. */
  type Order = (string, string) -> bool

  /** A strict total order with the empty text first; any collation of the database that tells different
      texts apart is one. */
  ghost predicate Collation(less: Order) {
    && (forall a :: !less(a, a))
    && (forall a, b, c :: less(a, b) && less(b, c) ==> less(a, c))
    && (forall a, b :: a != b ==> less(a, b) || less(b, a))
    && (forall a :: a != "" ==> less("", a))
  }

  /** The order by code point, as the "C" collation has it. */
  predicate LexLess(a: string, b: string) {
    if b == "" then false
    else if a == "" then true
    else a[0] < b[0] || (a[0] == b[0] && LexLess(a[1..], b[1..]))
  }

  lemma {:induction false} LexTransitive(a: string, b: string, c: string)
    requires LexLess(a, b) && LexLess(b, c)
    ensures LexLess(a, c)
  {
    if a != "" && a[0] == b[0] == c[0] {
      LexTransitive(a[1..], b[1..], c[1..]);
    }
  }

  lemma {:induction false} LexTotal(a: string, b: string)
    ensures a == b || LexLess(a, b) || LexLess(b, a)
    ensures a == b ==> !LexLess(a, b)
  {
    if a != "" && b != "" {
      LexTotal(a[1..], b[1..]);
      assert a == [a[0]] + a[1..] && b == [b[0]] + b[1..];
    }
  }

  lemma LexIsCollation()
    ensures Collation(LexLess)
  {
    forall a: string, b: string, c: string | LexLess(a, b) && LexLess(b, c) ensures LexLess(a, c) {
      LexTransitive(a, b, c);
    }
    forall a: string, b: string ensures (a != b ==> LexLess(a, b) || LexLess(b, a)) && !LexLess(a, a) {
      LexTotal(a, b);
      LexTotal(a, a);
    }
  }

  // ---------------------------------------------------------------- ORDER BY

  /** The key column of a table's rows, by row ID. */
  type Keys = map<int, string>

  /** Rows with the same key come in the order of their IDs. */
  predicate Before(less: Order, keys: Keys, a: int, b: int)
    requires a in keys && b in keys
  {
    less(keys[a], keys[b]) || (keys[a] == keys[b] && a < b)
  }

  predicate IsFirst(less: Order, keys: Keys, m: int) {
    m in keys && forall x | x in keys && x != m :: Before(less, keys, m, x)
  }

  lemma SmallerMap(a: Keys, b: Keys)
    requires a.Keys < b.Keys
    ensures |a| < |b|
  {
    assert b.Keys == a.Keys + (b.Keys - a.Keys);
    assert b.Keys - a.Keys != {};
  }

  lemma AnElement<T>(ids: set<T>) returns (x: T)
    requires ids != {}
    ensures x in ids
  {
    x :| x in ids;
  }

  lemma {:induction false} FirstExists(less: Order, keys: Keys)
    requires Collation(less) && keys != map[]
    ensures exists m :: IsFirst(less, keys, m)
    decreases |keys|
  {
    var x := AnElement(keys.Keys);
    var rest := keys - {x};
    if rest == map[] {
      assert forall y | y in keys && y != x :: y in rest;
      assert IsFirst(less, keys, x);
    } else {
      SmallerMap(rest, keys);
      FirstExists(less, rest);
      var m :| IsFirst(less, rest, m);
      assert forall y | y in keys && y != x :: y in rest;
      assert IsFirst(less, keys, if Before(less, keys, x, m) then x else m);
    }
  }

  /** The row IDs in the order of their keys. */
  function SortIDs(less: Order, keys: Keys): seq<int>
    requires Collation(less)
    decreases |keys|
  {
    if keys == map[] then [] else
    FirstExists(less, keys);
    var m :| m in keys && IsFirst(less, keys, m);
    SmallerMap(keys - {m}, keys);
    [m] + SortIDs(less, keys - {m})
  }

  ghost predicate Sorted(less: Order, keys: Keys, ids: seq<int>) {
    && (forall i | 0 <= i < |ids| :: ids[i] in keys)
    && (forall i, j | 0 <= i < j < |ids| :: Before(less, keys, ids[i], ids[j]))
  }

  /** Every row once, each before all that follow it. */
  lemma {:induction false} SortIDsSorts(less: Order, keys: Keys)
    requires Collation(less)
    ensures Sorted(less, keys, SortIDs(less, keys)) && forall id :: id in SortIDs(less, keys) <==> id in keys
    decreases |keys|
  {
    if keys != map[] {
      var ids := SortIDs(less, keys);
      var m := ids[0];
      var rest := keys - {m};
      SmallerMap(rest, keys);
      SortIDsSorts(less, rest);
      assert ids[1..] == SortIDs(less, rest);
      assert forall i | 1 <= i < |ids| :: ids[i] == ids[1..][i - 1] && ids[1..][i - 1] in rest;
      assert ids == [m] + ids[1..];
    }
  }

  lemma BeforeIsAsymmetric(less: Order, keys: Keys, a: int, b: int)
    requires Collation(less) && a in keys && b in keys
    ensures !(Before(less, keys, a, b) && Before(less, keys, b, a))
  {
  }

  lemma HeadIsFirst(less: Order, keys: Keys, ids: seq<int>, id: int)
    requires Collation(less) && Sorted(less, keys, ids) && id in ids
    ensures id == ids[0] || (id in ids[1..] && Before(less, keys, ids[0], id))
    ensures ids[0] !in ids[1..]
  {
  }

  ghost predicate AllOccurIn(a: seq<int>, b: seq<int>) {
    forall i | 0 <= i < |a| :: a[i] in b
  }

  /** Sorted rows are determined by which rows they are. */
  lemma {:induction false} SortedUnique(less: Order, keys: Keys, a: seq<int>, b: seq<int>)
    requires Collation(less) && Sorted(less, keys, a) && Sorted(less, keys, b)
    requires AllOccurIn(a, b) && AllOccurIn(b, a)
    ensures a == b
  {
    assert a != [] ==> a[0] in b;
    assert b != [] ==> b[0] in a;
    if a != [] {
      HeadIsFirst(less, keys, b, a[0]);
      HeadIsFirst(less, keys, a, b[0]);
      BeforeIsAsymmetric(less, keys, a[0], b[0]);
      assert a == [a[0]] + a[1..] && b == [b[0]] + b[1..];
      forall i | 0 <= i < |a| - 1 ensures a[1..][i] in b[1..] {
        assert a[i + 1] in b && a[i + 1] in a[1..];
      }
      forall i | 0 <= i < |b| - 1 ensures b[1..][i] in a[1..] {
        assert b[i + 1] in a && b[i + 1] in b[1..];
      }
      SortedUnique(less, keys, a[1..], b[1..]);
    }
  }

  // ---------------------------------------------------------------- WHERE and LIMIT

  function KeysAt(keys: Keys, ids: seq<int>): (s: seq<string>)
    requires forall i | 0 <= i < |ids| :: ids[i] in keys
    ensures |s| == |ids| && forall i | 0 <= i < |ids| :: s[i] == keys[ids[i]]
  {
    seq(|ids|, i requires 0 <= i < |ids| => keys[ids[i]])
  }

  function Take<T>(s: seq<T>, n: nat): seq<T> { if n < |s| then s[..n] else s }

  /** The empty cursor selects every row. */
  function Select(less: Order, keys: Keys, cursor: string): Keys {
    if cursor == "" then keys else map id | id in keys && less(cursor, keys[id]) :: keys[id]
  }

  function PageIDs(less: Order, keys: Keys, cursor: string): seq<int>
    requires Collation(less)
  {
    Take(SortIDs(less, Select(less, keys, cursor)), PAGE_SIZE)
  }

  /** All keys in order, with repetitions. */
  ghost function Listing(less: Order, keys: Keys): seq<string>
    requires Collation(less)
  {
    SortIDsSorts(less, keys);
    KeysAt(keys, SortIDs(less, keys))
  }

  ghost function Page(less: Order, keys: Keys, cursor: string): seq<string>
    requires Collation(less)
  {
    Take(Listing(less, Select(less, keys, cursor)), PAGE_SIZE)
  }

  /** The keys of a page are those of its rows. */
  lemma PageOfIDs(less: Order, keys: Keys, cursor: string)
    requires Collation(less)
    ensures var ids := PageIDs(less, keys, cursor);
            (forall i | 0 <= i < |ids| :: ids[i] in keys) && Page(less, keys, cursor) == KeysAt(keys, ids)
  {
    SortIDsSorts(less, Select(less, keys, cursor));
  }

  /** A row that the cursor does not exclude. */
  ghost predicate Behind(less: Order, keys: Keys, cursor: string, id: int) {
    id in keys && (cursor == "" || less(cursor, keys[id]))
  }

  /** The rows of a page: ten at most of those behind the cursor, each before the next, and no other of
      them before any of these; fewer than ten only when there are no others. */
  ghost predicate IsPage(less: Order, keys: Keys, cursor: string, rows: seq<int>) {
    && |rows| <= 10
    && (forall i | 0 <= i < |rows| :: Behind(less, keys, cursor, rows[i]))
    && (forall i, j | 0 <= i < j < |rows| :: Before(less, keys, rows[i], rows[j]))
    && (forall id | Behind(less, keys, cursor, id) && id !in rows ::
          |rows| == 10 && forall i | 0 <= i < 10 :: Before(less, keys, rows[i], id))
  }

  lemma PageIsPage(less: Order, keys: Keys, cursor: string)
    requires Collation(less)
    ensures IsPage(less, keys, cursor, PageIDs(less, keys, cursor))
  {
    hide Collation, SortIDs;
    var some := Select(less, keys, cursor);
    var ids, rows := SortIDs(less, some), PageIDs(less, keys, cursor);
    SortIDsSorts(less, some);
    assert rows == ids[..|rows|];
    forall id | Behind(less, keys, cursor, id) && id !in rows
      ensures |rows| == 10 && forall i | 0 <= i < 10 :: Before(less, keys, rows[i], id)
    {
      assert id in ids;
      var k :| 0 <= k < |ids| && ids[k] == id;
      assert |rows| <= k;
    }
  }

  ghost predicate KeysAscend(less: Order, s: seq<string>) {
    forall i, j | 0 <= i < j < |s| :: !less(s[j], s[i])
  }

  lemma ListingAscends(less: Order, keys: Keys)
    requires Collation(less)
    ensures KeysAscend(less, Listing(less, keys))
  {
    var ids := SortIDs(less, keys);
    SortIDsSorts(less, keys);
    forall i, j | 0 <= i < j < |ids| ensures !less(keys[ids[j]], keys[ids[i]]) {
      assert Before(less, keys, ids[i], ids[j]);
    }
  }

  /** In ascending keys those behind a cursor are a suffix. */
  lemma CursorCuts(less: Order, s: seq<string>, cursor: string) returns (from: nat)
    requires Collation(less) && KeysAscend(less, s)
    ensures from <= |s| && forall i | 0 <= i < |s| :: less(cursor, s[i]) <==> from <= i
  {
    from := 0;
    while from < |s| && !less(cursor, s[from])
      invariant from <= |s| && forall i | 0 <= i < from :: !less(cursor, s[i])
    {
      from := from + 1;
    }
    forall i | from <= i < |s| ensures less(cursor, s[i]) {
      assert i == from || !less(s[i], s[from]);
    }
  }

  /** Selecting before sorting gives the same suffix. */
  lemma SelectedRows(less: Order, keys: Keys, cursor: string, from: nat)
    requires Collation(less) && cursor != "" && from <= |SortIDs(less, keys)|
    requires Sorted(less, keys, SortIDs(less, keys))
    requires forall i | 0 <= i < |SortIDs(less, keys)| :: less(cursor, keys[SortIDs(less, keys)[i]]) <==> from <= i
    ensures SortIDs(less, Select(less, keys, cursor)) == SortIDs(less, keys)[from..]
  {
    hide Collation, Before, SortIDs;
    var ids, some := SortIDs(less, keys), Select(less, keys, cursor);
    SortIDsSorts(less, keys);
    SortIDsSorts(less, some);
    var tail, chosen := ids[from..], SortIDs(less, some);
    forall i | 0 <= i < |tail| ensures tail[i] in chosen {
      assert tail[i] == ids[from + i] && tail[i] in some;
    }
    forall i | 0 <= i < |chosen| ensures chosen[i] in tail {
      var id := chosen[i];
      assert id in some && id in ids;
      var k :| 0 <= k < |ids| && ids[k] == id;
      assert tail[k - from] == id;
    }
    SortedSelect(less, keys, cursor, chosen);
    SortedUnique(less, keys, tail, chosen);
  }

  lemma SelectedIDs(less: Order, keys: Keys, cursor: string, from: nat)
    requires Collation(less) && cursor != "" && from <= |Listing(less, keys)|
    requires forall i | 0 <= i < |Listing(less, keys)| :: less(cursor, Listing(less, keys)[i]) <==> from <= i
    ensures Listing(less, Select(less, keys, cursor)) == Listing(less, keys)[from..]
  {
    hide Collation, SortIDs, Sorted;
    SortIDsSorts(less, keys);
    SortIDsSorts(less, Select(less, keys, cursor));
    var ids := SortIDs(less, keys);
    assert forall i | 0 <= i < |ids| :: Listing(less, keys)[i] == keys[ids[i]];
    SelectedRows(less, keys, cursor, from);
  }

  lemma SortedSelect(less: Order, keys: Keys, cursor: string, ids: seq<int>)
    requires Sorted(less, Select(less, keys, cursor), ids)
    ensures Sorted(less, keys, ids)
  {
  }

  /** The rows behind the cursor are a suffix of the listing, and a page is the first ten of them. */
  lemma PageIsSlice(less: Order, keys: Keys, cursor: string) returns (from: nat)
    requires Collation(less)
    ensures var all := Listing(less, keys);
            && KeysAscend(less, all)
            && from <= |all| && Page(less, keys, cursor) == Take(all[from..], PAGE_SIZE)
            && (cursor == "" ==> from == 0)
            && (cursor != "" ==> forall i | 0 <= i < |all| :: less(cursor, all[i]) <==> from <= i)
  {
    hide Listing, Collation;
    ListingAscends(less, keys);
    from := 0;
    if cursor != "" {
      from := CursorCuts(less, Listing(less, keys), cursor);
      SelectedIDs(less, keys, cursor, from);
    } else {
      assert Listing(less, keys)[0..] == Listing(less, keys);
    }
  }

  // ---------------------------------------------------------------- sizes

  lemma {:induction false} SortIDsLength(less: Order, keys: Keys)
    requires Collation(less)
    ensures |SortIDs(less, keys)| == |keys|
    decreases |keys|
  {
    if keys != map[] {
      SortIDsSorts(less, keys);
      var m := SortIDs(less, keys)[0];
      assert m in keys.Keys;
      assert (keys - {m}).Keys == keys.Keys - {m};
      SmallerMap(keys - {m}, keys);
      SortIDsLength(less, keys - {m});
    }
  }

  lemma ListingLength(less: Order, keys: Keys)
    requires Collation(less)
    ensures |Listing(less, keys)| == |keys|
  {
    SortIDsLength(less, keys);
  }
}
