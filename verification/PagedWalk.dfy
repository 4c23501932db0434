/** The walk of a client over the pages: the first request carries no cursor, every later one the last
    key of the page before, until a page comes back short. */
module PagedWalk {
  import opened Paging

  /** No two rows share a key. */
  predicate Unique(keys: Keys) {
    forall a, b | a in keys && b in keys && a != b :: keys[a] != keys[b]
  }

  predicate Lists(keys: Keys, key: string) {
    exists id | id in keys :: keys[id] == key
  }

  function Cursor(pages: seq<seq<string>>, i: nat): string
    requires i <= |pages|
  {
    if i == 0 || pages[i - 1] == [] then "" else pages[i - 1][|pages[i - 1]| - 1]
  }

  /** `tables[i]` is the table when page i is asked for. */
  ghost predicate Walk(less: Order, tables: seq<Keys>, pages: seq<seq<string>>)
    requires Collation(less)
  {
    && |tables| == |pages| > 0
    && (forall i | 0 <= i < |pages| :: pages[i] == Page(less, tables[i], Cursor(pages, i)))
    && (forall i | 0 <= i < |pages| - 1 :: |pages[i]| == PAGE_SIZE)
  }

  predicate Completed(pages: seq<seq<string>>) {
    pages != [] && |pages[|pages| - 1]| < PAGE_SIZE
  }

  /** Everything the client has been given. */
  function Flat(pages: seq<seq<string>>): seq<string> {
    if pages == [] then [] else Flat(pages[..|pages| - 1]) + pages[|pages| - 1]
  }

  ghost predicate Increasing(less: Order, s: seq<string>) {
    forall i, j | 0 <= i < j < |s| :: less(s[i], s[j])
  }

  lemma WalkPage(less: Order, tables: seq<Keys>, pages: seq<seq<string>>, i: nat)
    requires Collation(less) && Walk(less, tables, pages) && i < |pages|
    ensures |tables| == |pages| && pages[i] == Page(less, tables[i], Cursor(pages, i))
    ensures i < |pages| - 1 ==> |pages[i]| == PAGE_SIZE
  {
  }

  // ---------------------------------------------------------------- one page

  lemma UniqueListing(less: Order, keys: Keys)
    requires Collation(less) && Unique(keys)
    ensures Increasing(less, Listing(less, keys))
  {
    var ids := SortIDs(less, keys);
    SortIDsSorts(less, keys);
    forall i, j | 0 <= i < j < |ids| ensures less(keys[ids[i]], keys[ids[j]]) {
      assert Before(less, keys, ids[i], ids[j]) && !Before(less, keys, ids[j], ids[j]);
    }
  }

  lemma ListingLists(less: Order, keys: Keys, key: string)
    requires Collation(less)
    ensures key in Listing(less, keys) <==> Lists(keys, key)
  {
    var ids := SortIDs(less, keys);
    SortIDsSorts(less, keys);
    if Lists(keys, key) {
      var id :| id in keys && keys[id] == key;
      assert id in ids;
      var i :| 0 <= i < |ids| && ids[i] == id;
      assert Listing(less, keys)[i] == key;
    }
    if key in Listing(less, keys) {
      var i :| 0 <= i < |ids| && Listing(less, keys)[i] == key;
      var id := ids[i];
      assert id in ids && keys[id] == key;
    }
  }

  /** A page is increasing and lies behind its cursor; a key behind the cursor is on the page or behind
      the whole of a full page. */
  lemma PageFacts(less: Order, keys: Keys, cursor: string, key: string)
    requires Collation(less) && Unique(keys)
    ensures var page := Page(less, keys, cursor);
            && Increasing(less, page) && |page| <= PAGE_SIZE
            && (cursor != "" ==> forall k | 0 <= k < |page| :: less(cursor, page[k]))
            && (Lists(keys, key) && (cursor == "" || less(cursor, key)) ==>
                  key in page || (|page| == PAGE_SIZE && less(page[PAGE_SIZE - 1], key)))
  {
    hide Page, Listing;
    UniqueListing(less, keys);
    ListingLists(less, keys, key);
    var from := PageIsSlice(less, keys, cursor);
    var all, page := Listing(less, keys), Page(less, keys, cursor);
    assert forall k | 0 <= k < |page| :: page[k] == all[from + k];
    if Lists(keys, key) && (cursor == "" || less(cursor, key)) {
      var i :| 0 <= i < |all| && all[i] == key;
      assert from <= i;
      if i - from < |page| {
        assert page[i - from] == key;
      }
    }
  }

  lemma NothingBeforeEmpty(less: Order, a: string)
    requires Collation(less)
    ensures !less(a, "")
  {
    assert a != "" ==> less("", a);
    assert less(a, "") && less("", a) ==> less(a, a);
  }

  // ---------------------------------------------------------------- tables that change between the requests

  /** A row that is there at every one of the first n requests. */
  predicate PresentThroughout(tables: seq<Keys>, n: nat, key: string)
    requires n <= |tables|
  {
    forall i | 0 <= i < n :: Lists(tables[i], key)
  }

  lemma IncreasingConcat(less: Order, a: seq<string>, b: seq<string>, cursor: string)
    requires Collation(less) && Increasing(less, a) && Increasing(less, b)
    requires a != [] ==> a[|a| - 1] == cursor && forall k | 0 <= k < |b| :: less(cursor, b[k])
    ensures Increasing(less, a + b)
  {
  }

  /** What has been returned is increasing and ends with the cursor. */
  lemma {:induction false} WalkIncreases(less: Order, tables: seq<Keys>, pages: seq<seq<string>>, n: nat)
    requires Collation(less) && Walk(less, tables, pages) && 0 < n <= |pages| == |tables|
    requires forall i | 0 <= i < |tables| :: Unique(tables[i])
    ensures var s := Flat(pages[..n]);
            Increasing(less, s) && (pages[n - 1] != [] ==> s != [] && s[|s| - 1] == Cursor(pages, n))
  {
    hide Page, Unique, Lists, Collation, Increasing, Walk;
    var cursor, page, before := Cursor(pages, n - 1), pages[n - 1], Flat(pages[..n - 1]);
    WalkPage(less, tables, pages, n - 1);
    PageFacts(less, tables[n - 1], cursor, "");
    if n > 1 {
      WalkIncreases(less, tables, pages, n - 1);
      WalkPage(less, tables, pages, n - 2);
      FullPageCursor(less, tables[n - 2], pages, n - 1);
    }
    IncreasingConcat(less, before, page, cursor);
    assert Flat(pages[..n]) == before + page by {
      assert pages[..n][..n - 1] == pages[..n - 1];
    }
  }

  /** What was there throughout has been returned or lies behind the cursor. */
  lemma {:induction false} WalkCovers(less: Order, tables: seq<Keys>, pages: seq<seq<string>>, n: nat, key: string)
    requires Collation(less) && Walk(less, tables, pages) && 0 < n <= |pages| == |tables|
    requires forall i | 0 <= i < |tables| :: Unique(tables[i])
    requires PresentThroughout(tables, n, key)
    ensures key in Flat(pages[..n]) || (|pages[n - 1]| == PAGE_SIZE && less(Cursor(pages, n), key))
  {
    hide Page, Unique, Lists, Collation, Increasing, Walk;
    var cursor := Cursor(pages, n - 1);
    WalkPage(less, tables, pages, n - 1);
    assert Flat(pages[..n]) == Flat(pages[..n - 1]) + pages[n - 1] by {
      assert pages[..n][..n - 1] == pages[..n - 1];
    }
    PageFacts(less, tables[n - 1], cursor, key);
    if n > 1 {
      WalkCovers(less, tables, pages, n - 1, key);
    }
  }

  lemma FullPageCursor(less: Order, keys: Keys, pages: seq<seq<string>>, i: nat)
    requires Collation(less) && Unique(keys) && 0 < i <= |pages| && |pages[i - 1]| == PAGE_SIZE
    requires pages[i - 1] == Page(less, keys, Cursor(pages, i - 1))
    ensures Cursor(pages, i) != ""
  {
    PageFacts(less, keys, Cursor(pages, i - 1), "");
    NothingBeforeEmpty(less, pages[i - 1][0]);
    assert less(pages[i - 1][0], pages[i - 1][PAGE_SIZE - 1]);
  }

  /** With any changes between the requests: the names come in strictly increasing order, so none twice,
      and a completed walk has returned every row that was there throughout. */
  lemma WalkUnderChange(less: Order, tables: seq<Keys>, pages: seq<seq<string>>)
    requires Collation(less) && Walk(less, tables, pages)
    requires forall i | 0 <= i < |tables| :: Unique(tables[i])
    ensures Increasing(less, Flat(pages))
    ensures Completed(pages) ==> forall key | PresentThroughout(tables, |tables|, key) :: key in Flat(pages)
  {
    hide Page, Unique, Collation, PresentThroughout, Increasing;
    assert pages[..|pages|] == pages;
    WalkIncreases(less, tables, pages, |pages|);
    forall key | PresentThroughout(tables, |tables|, key) && Completed(pages) ensures key in Flat(pages) {
      WalkCovers(less, tables, pages, |pages|, key);
    }
  }

  // ---------------------------------------------------------------- a table that does not change

  ghost predicate StaticWalk(less: Order, keys: Keys, pages: seq<seq<string>>)
    requires Collation(less)
  {
    Walk(less, seq(|pages|, i => keys), pages)
  }

  lemma StaticPage(less: Order, keys: Keys, pages: seq<seq<string>>, i: nat)
    requires Collation(less) && StaticWalk(less, keys, pages) && i < |pages|
    ensures pages[i] == Page(less, keys, Cursor(pages, i)) && (i < |pages| - 1 ==> |pages[i]| == PAGE_SIZE)
  {
  }

  /** No page boundary falls between two rows with the same key, and the tenth row has a key that can
      serve as a cursor. */
  predicate Walkable(all: seq<string>) {
    && (forall b | 0 < b < |all| && b % PAGE_SIZE == 0 :: all[b - 1] != all[b])
    && (PAGE_SIZE <= |all| ==> all[PAGE_SIZE - 1] != "")
  }

  function Slice(all: seq<string>, i: nat): seq<string>
    requires PAGE_SIZE * i <= |all|
  {
    Take(all[PAGE_SIZE * i..], PAGE_SIZE)
  }

  function Slices(all: seq<string>, n: nat): (pages: seq<seq<string>>)
    requires n > 0 ==> PAGE_SIZE * (n - 1) <= |all|
    ensures |pages| == n && forall i | 0 <= i < n :: pages[i] == Slice(all, i)
  {
    seq(n, i requires 0 <= i < n => Slice(all, i))
  }

  lemma {:induction false} FlatSlices(all: seq<string>, n: nat)
    requires n > 0 ==> PAGE_SIZE * (n - 1) <= |all|
    ensures Flat(Slices(all, n)) == Take(all, PAGE_SIZE * n)
  {
    if n > 0 {
      FlatSlices(all, n - 1);
      assert Slices(all, n)[..n - 1] == Slices(all, n - 1);
      assert Take(all, PAGE_SIZE * n) == all[..PAGE_SIZE * (n - 1)] + Slice(all, n - 1);
      assert Take(all, PAGE_SIZE * (n - 1)) == all[..PAGE_SIZE * (n - 1)];
    }
  }

  /** In a walkable listing the cursor of a full page leads to the page behind it. */
  lemma NextSlice(less: Order, keys: Keys, i: nat)
    requires Collation(less) && Walkable(Listing(less, keys)) && 0 < i && PAGE_SIZE * i <= |Listing(less, keys)|
    ensures var all := Listing(less, keys);
            Page(less, keys, all[PAGE_SIZE * i - 1]) == Slice(all, i)
  {
    hide Page, Listing;
    var all, b := Listing(less, keys), PAGE_SIZE * i;
    var c := all[b - 1];
    var from := PageIsSlice(less, keys, c);
    assert c == all[PAGE_SIZE - 1] || !less(c, all[PAGE_SIZE - 1]);
    assert c != "";
    assert !less(c, all[b - 1]);
    assert b < |all| ==> !less(all[b], c) && all[b] != c;
    assert from == b;
  }

  /** A walkable table is walked completely, in ⌊n/10⌋+1 pages. */
  lemma StaticWalkSucceeds(less: Order, keys: Keys) returns (pages: seq<seq<string>>)
    requires Collation(less) && Walkable(Listing(less, keys))
    ensures StaticWalk(less, keys, pages) && Completed(pages)
    ensures Flat(pages) == Listing(less, keys) && |pages| == |Listing(less, keys)| / PAGE_SIZE + 1
  {
    hide Page, Listing, Collation, Walkable;
    var all := Listing(less, keys);
    var n := |all| / PAGE_SIZE + 1;
    pages := Slices(all, n);
    FlatSlices(all, n);
    forall i | 0 <= i < n ensures pages[i] == Page(less, keys, Cursor(pages, i)) {
      if i == 0 {
        var from := PageIsSlice(less, keys, "");
      } else {
        assert pages[i - 1] == Slice(all, i - 1);
        assert Cursor(pages, i) == all[PAGE_SIZE * i - 1];
        NextSlice(less, keys, i);
      }
    }
  }

  /** Full pages lie in the whole one after the other. */
  lemma {:induction false} FlatAt(pages: seq<seq<string>>, i: nat)
    requires i < |pages| && forall k | 0 <= k < |pages| - 1 :: |pages[k]| == PAGE_SIZE
    ensures |Flat(pages)| == PAGE_SIZE * (|pages| - 1) + |pages[|pages| - 1]|
    ensures PAGE_SIZE * i + |pages[i]| <= |Flat(pages)|
    ensures Flat(pages)[PAGE_SIZE * i..PAGE_SIZE * i + |pages[i]|] == pages[i]
  {
    if |pages| > 1 {
      var n := |pages| - 1;
      FlatAt(pages[..n], if i == n then 0 else i);
    }
  }

  /** A tenth row with the empty key sends the client back to the first page for ever. */
  lemma {:induction false} StuckAtEmpty(less: Order, keys: Keys, pages: seq<seq<string>>, i: nat)
    requires Collation(less) && StaticWalk(less, keys, pages) && i < |pages|
    requires PAGE_SIZE <= |Listing(less, keys)| && Listing(less, keys)[PAGE_SIZE - 1] == ""
    ensures pages[i] == Listing(less, keys)[..PAGE_SIZE]
  {
    hide Page, Listing, Collation, StaticWalk;
    if i > 0 {
      StuckAtEmpty(less, keys, pages, i - 1);
    }
    StaticPage(less, keys, pages, i);
    var all := Listing(less, keys);
    var from := PageIsSlice(less, keys, "");
    assert all[0..] == all;
  }

  /** In ascending keys nothing behind a non-empty key is empty. */
  lemma StaysNonEmpty(less: Order, s: seq<string>, i: nat, j: nat)
    requires Collation(less) && KeysAscend(less, s) && i <= j < |s| && s[i] != ""
    ensures s[j] != ""
  {
  }

  /** The page behind a boundary begins with a key behind the one before it. */
  lemma BoundaryDiffers(less: Order, keys: Keys, pages: seq<seq<string>>, j: nat)
    requires Collation(less) && StaticWalk(less, keys, pages) && Flat(pages) == Listing(less, keys)
    requires 0 < j && PAGE_SIZE * j < |Listing(less, keys)| && Completed(pages)
    requires Listing(less, keys)[PAGE_SIZE - 1] != ""
    ensures Listing(less, keys)[PAGE_SIZE * j - 1] != Listing(less, keys)[PAGE_SIZE * j]
  {
    hide Page, Listing, Flat, StaticWalk, Collation;
    var all, b := Listing(less, keys), PAGE_SIZE * j;
    forall k | 0 <= k < |pages| - 1 ensures |pages[k]| == PAGE_SIZE {
      StaticPage(less, keys, pages, k);
    }
    FlatAt(pages, |pages| - 1);
    assert j < |pages|;
    FlatAt(pages, j - 1);
    FlatAt(pages, j);
    StaticPage(less, keys, pages, j);
    var c := Cursor(pages, j);
    assert c == all[b - PAGE_SIZE..b][PAGE_SIZE - 1] == all[b - 1];
    var from := PageIsSlice(less, keys, c);
    StaysNonEmpty(less, all, PAGE_SIZE - 1, b - 1);
    assert pages[j] != [] by {
      if j < |pages| - 1 {
        StaticPage(less, keys, pages, j);
      }
    }
    assert all[b] == all[b..b + |pages[j]|][0] == pages[j][0] == all[from];
    assert less(c, all[b]);
    Irreflexive(less, c);
  }

  lemma Irreflexive(less: Order, a: string)
    requires Collation(less)
    ensures !less(a, a)
  {
  }

  lemma CompleteWalkIsWalkable(less: Order, keys: Keys, pages: seq<seq<string>>)
    requires Collation(less) && StaticWalk(less, keys, pages) && Completed(pages)
    requires Flat(pages) == Listing(less, keys)
    ensures Walkable(Listing(less, keys))
  {
    hide Page, Listing, StaticWalk, Collation, Flat;
    var all := Listing(less, keys);
    assert PAGE_SIZE <= |all| ==> all[PAGE_SIZE - 1] != "" by {
      if PAGE_SIZE <= |all| && all[PAGE_SIZE - 1] == "" {
        StuckAtEmpty(less, keys, pages, |pages| - 1);
      }
    }
    forall b | 0 < b < |all| && b % PAGE_SIZE == 0 ensures all[b - 1] != all[b] {
      BoundaryDiffers(less, keys, pages, b / PAGE_SIZE);
    }
  }

  // ---------------------------------------------------------------- every walk over such a table

  /** There is only one way to walk: two walks agree on every page both have asked for. */
  lemma {:induction false} StaticWalkDetermined(
      less: Order, keys: Keys, a: seq<seq<string>>, b: seq<seq<string>>, i: nat)
    requires Collation(less) && StaticWalk(less, keys, a) && StaticWalk(less, keys, b) && i < |a| && i < |b|
    ensures a[i] == b[i]
  {
    hide Page, Collation, StaticWalk;
    if i > 0 {
      StaticWalkDetermined(less, keys, a, b, i - 1);
    }
    StaticPage(less, keys, a, i);
    StaticPage(less, keys, b, i);
  }

  /** The tenth row has a key that cannot serve as a cursor. */
  predicate Stuck(all: seq<string>) {
    PAGE_SIZE <= |all| && all[PAGE_SIZE - 1] == ""
  }

  /** Unless the walk is stuck, each page begins at least ten rows behind the one before it. */
  lemma {:induction false} StaticProgress(less: Order, keys: Keys, pages: seq<seq<string>>, i: nat) returns (from: nat)
    requires Collation(less) && StaticWalk(less, keys, pages) && i < |pages| && !Stuck(Listing(less, keys))
    ensures var all := Listing(less, keys);
            PAGE_SIZE * i <= from <= |all| && pages[i] == Take(all[from..], PAGE_SIZE)
  {
    hide Page, Listing, Collation, StaticWalk;
    StaticPage(less, keys, pages, i);
    var all, c := Listing(less, keys), Cursor(pages, i);
    from := PageIsSlice(less, keys, c);
    if i > 0 {
      StaticPage(less, keys, pages, i - 1);
      var before := StaticProgress(less, keys, pages, i - 1);
      var last := before + PAGE_SIZE - 1;
      assert c == pages[i - 1][PAGE_SIZE - 1] == all[last];
      StaysNonEmpty(less, all, PAGE_SIZE - 1, last);
      Irreflexive(less, c);
      assert !less(c, all[last]);
    }
  }

  /** So no walk asks for more than ⌊n/10⌋+1 pages. */
  lemma StaticWalkIsShort(less: Order, keys: Keys, pages: seq<seq<string>>)
    requires Collation(less) && StaticWalk(less, keys, pages) && !Stuck(Listing(less, keys))
    ensures |pages| <= |Listing(less, keys)| / PAGE_SIZE + 1
  {
    hide Page, Listing, Collation;
    var from := StaticProgress(less, keys, pages, |pages| - 1);
  }

  /** A walk that has met only full pages goes on. */
  lemma {:induction false} StaticWalkGoesOn(less: Order, keys: Keys, pages: seq<seq<string>>)
      returns (walk: seq<seq<string>>)
    requires Collation(less) && StaticWalk(less, keys, pages) && !Stuck(Listing(less, keys))
    ensures StaticWalk(less, keys, walk) && Completed(walk)
    decreases |Listing(less, keys)| / PAGE_SIZE + 1 - |pages|
  {
    hide Page, Listing, Collation, StaticWalk;
    StaticWalkIsShort(less, keys, pages);
    StaticLast(less, keys, pages);
    if Completed(pages) {
      walk := pages;
    } else {
      var more := pages + [Page(less, keys, Cursor(pages, |pages|))];
      OneMorePage(less, keys, pages);
      StaticWalkIsShort(less, keys, more);
      walk := StaticWalkGoesOn(less, keys, more);
    }
  }

  lemma StaticLast(less: Order, keys: Keys, pages: seq<seq<string>>)
    requires Collation(less) && StaticWalk(less, keys, pages)
    ensures pages != [] && |pages[|pages| - 1]| <= PAGE_SIZE
  {
    hide Listing;
  }

  lemma OneMorePage(less: Order, keys: Keys, pages: seq<seq<string>>)
    requires Collation(less) && StaticWalk(less, keys, pages) && |pages[|pages| - 1]| == PAGE_SIZE
    ensures StaticWalk(less, keys, pages + [Page(less, keys, Cursor(pages, |pages|))])
  {
    hide Page, Collation, StaticWalk, Cursor;
    var more := pages + [Page(less, keys, Cursor(pages, |pages|))];
    forall i | 0 <= i < |more|
      ensures more[i] == Page(less, keys, Cursor(more, i)) && (i < |more| - 1 ==> |more[i]| == PAGE_SIZE)
    {
      CursorOfMore(pages, more[|pages|], i);
      if i < |pages| {
        StaticPage(less, keys, pages, i);
      }
    }
    StaticWalkOf(less, keys, more);
  }

  lemma CursorOfMore(pages: seq<seq<string>>, page: seq<string>, i: nat)
    requires i <= |pages|
    ensures Cursor(pages + [page], i) == Cursor(pages, i)
  {
  }

  lemma StaticWalkOf(less: Order, keys: Keys, pages: seq<seq<string>>)
    requires Collation(less) && pages != []
    requires forall i | 0 <= i < |pages| ::
               pages[i] == Page(less, keys, Cursor(pages, i)) && (i < |pages| - 1 ==> |pages[i]| == PAGE_SIZE)
    ensures StaticWalk(less, keys, pages)
  {
    hide Page, Collation, Cursor;
  }

  /** On an unchanged table every walk comes to an end within ⌊n/10⌋+1 pages, or the tenth row has the
      empty key and no walk ends. */
  lemma StaticWalkEnds(less: Order, keys: Keys)
    requires Collation(less)
    ensures (exists pages :: StaticWalk(less, keys, pages) && Completed(pages)) <==> !Stuck(Listing(less, keys))
    ensures !Stuck(Listing(less, keys)) ==>
              forall pages | StaticWalk(less, keys, pages) :: |pages| <= |Listing(less, keys)| / PAGE_SIZE + 1
  {
    hide Listing, StaticWalk, Completed, Collation, Stuck;
    if Stuck(Listing(less, keys)) {
      forall pages | StaticWalk(less, keys, pages) ensures !Completed(pages) {
        StuckNeverEnds(less, keys, pages);
      }
    } else {
      FirstPage(less, keys);
      var walk := StaticWalkGoesOn(less, keys, [Page(less, keys, "")]);
      forall pages | StaticWalk(less, keys, pages) ensures |pages| <= |Listing(less, keys)| / PAGE_SIZE + 1 {
        StaticWalkIsShort(less, keys, pages);
      }
    }
  }

  lemma FirstPage(less: Order, keys: Keys)
    requires Collation(less)
    ensures StaticWalk(less, keys, [Page(less, keys, "")])
  {
  }

  lemma StuckNeverEnds(less: Order, keys: Keys, pages: seq<seq<string>>)
    requires Collation(less) && StaticWalk(less, keys, pages) && Stuck(Listing(less, keys))
    ensures !Completed(pages)
  {
    hide Page, Listing, Collation, StaticWalk;
    StaticLast(less, keys, pages);
    StuckAtEmpty(less, keys, pages, |pages| - 1);
  }

  /** Every completed walk over an unchanged table returns exactly its rows, in order, if and only if the
      listing is walkable; it has then taken exactly ⌊n/10⌋+1 pages. */
  lemma StaticWalkIff(less: Order, keys: Keys, pages: seq<seq<string>>)
    requires Collation(less) && StaticWalk(less, keys, pages) && Completed(pages)
    ensures Flat(pages) == Listing(less, keys) <==> Walkable(Listing(less, keys))
    ensures Walkable(Listing(less, keys)) ==> |pages| == |Listing(less, keys)| / PAGE_SIZE + 1
  {
    hide Page, Listing, Collation, StaticWalk, Flat, Walkable;
    if Walkable(Listing(less, keys)) {
      var walk := StaticWalkSucceeds(less, keys);
      SameWalk(less, keys, pages, walk);
    }
    if Flat(pages) == Listing(less, keys) {
      CompleteWalkIsWalkable(less, keys, pages);
    }
  }

  /** Two completed walks are one and the same. */
  lemma SameWalk(less: Order, keys: Keys, a: seq<seq<string>>, b: seq<seq<string>>)
    requires Collation(less) && StaticWalk(less, keys, a) && StaticWalk(less, keys, b) && Completed(a) && Completed(b)
    ensures a == b
  {
    hide Page, Collation, StaticWalk;
    var n := if |a| < |b| then |a| else |b|;
    StaticWalkDetermined(less, keys, a, b, n - 1);
    StaticPage(less, keys, a, n - 1);
    StaticPage(less, keys, b, n - 1);
    forall i | 0 <= i < n ensures a[i] == b[i] {
      StaticWalkDetermined(less, keys, a, b, i);
    }
  }

  /** The rows with this key. */
  function RowsOf(keys: Keys, key: string): set<int> { set id | id in keys && keys[id] == key }

  lemma {:induction false} ElementsBound(s: seq<int>)
    ensures |set x | x in s| <= |s|
  {
    if s != [] {
      ElementsBound(s[1..]);
      assert (set x | x in s) == (set x | x in s[1..]) + {s[0]};
    }
  }

  /** Equal keys stand next to each other. */
  lemma SameKeyBetween(less: Order, s: seq<string>, i: nat, j: nat, k: nat)
    requires Collation(less) && KeysAscend(less, s) && i <= j <= k < |s| && s[i] == s[k]
    ensures s[j] == s[i]
  {
    assert i < j ==> !less(s[j], s[i]);
    assert j < k ==> !less(s[k], s[j]);
  }

  /** So more than ten of them fill more than a page, and a page boundary splits them. */
  lemma TwinsSplit(less: Order, keys: Keys, key: string)
    requires Collation(less) && |RowsOf(keys, key)| > PAGE_SIZE
    ensures !Walkable(Listing(less, keys))
  {
    hide Collation, KeysAscend, SortIDs;
    var all, ids := Listing(less, keys), SortIDs(less, keys);
    SortIDsSorts(less, keys);
    ListingAscends(less, keys);
    if Walkable(all) {
      var one := AnElement(RowsOf(keys, key));
      assert one in ids;
      var p :| 0 <= p < |ids| && ids[p] == one;
      var page := Take(ids[p / PAGE_SIZE * PAGE_SIZE..], PAGE_SIZE);
      forall id | id in RowsOf(keys, key) ensures id in page {
        assert id in ids;
        var q :| 0 <= q < |ids| && ids[q] == id;
        SamePage(less, all, p, q);
        assert page[q - p / PAGE_SIZE * PAGE_SIZE] == id;
      }
      ElementsBound(page);
      SmallerSet(RowsOf(keys, key), set x | x in page);
      assert false;
    }
  }

  lemma SmallerSet(a: set<int>, b: set<int>)
    requires a <= b
    ensures |a| <= |b|
  {
    assert b == a + (b - a);
  }

  lemma SamePage(less: Order, all: seq<string>, p: nat, q: nat)
    requires Collation(less) && KeysAscend(less, all) && Walkable(all)
    requires p < |all| && q < |all| && all[p] == all[q]
    ensures p / PAGE_SIZE == q / PAGE_SIZE
  {
    hide Collation, KeysAscend;
    var i, k := if p < q then p else q, if p < q then q else p;
    if i / PAGE_SIZE < k / PAGE_SIZE {
      var b := k / PAGE_SIZE * PAGE_SIZE;
      SameKeyBetween(less, all, i, b, k);
      SameKeyBetween(less, all, i, b - 1, k);
      assert false;
    }
  }

  /** Distinct keys are always walkable. */
  lemma UniqueIsWalkable(less: Order, keys: Keys)
    requires Collation(less) && Unique(keys)
    ensures Walkable(Listing(less, keys))
  {
    hide Listing, Collation;
    UniqueListing(less, keys);
    var all := Listing(less, keys);
    if PAGE_SIZE <= |all| {
      NothingBeforeEmpty(less, all[0]);
    }
    forall b | 0 < b < |all| ensures all[b - 1] != all[b] {
      assert less(all[b - 1], all[b]);
      Irreflexive(less, all[b]);
    }
  }

  /** So over n distinct keys every walk ends: none asks for more than ⌊n/10⌋+1 pages, it is completed
      exactly when it has asked for that many, and it has then returned each row once, in order. */
  lemma UniqueWalk(less: Order, keys: Keys, pages: seq<seq<string>>)
    requires Collation(less) && Unique(keys) && StaticWalk(less, keys, pages)
    ensures |pages| <= |keys| / 10 + 1
    ensures Completed(pages) <==> |pages| == |keys| / 10 + 1
    ensures Completed(pages) ==>
              Flat(pages) == Listing(less, keys) && Increasing(less, Flat(pages)) && |Flat(pages)| == |keys|
  {
    hide Collation, StaticWalk, Flat, Increasing, Page, Listing, Unique;
    UniqueIsWalkable(less, keys);
    UniqueListing(less, keys);
    ListingLength(less, keys);
    StaticWalkIsShort(less, keys, pages);
    var walk := StaticWalkGoesOn(less, keys, pages);
    StaticWalkIff(less, keys, walk);
    if |pages| == |walk| {
      StaticWalkDetermined(less, keys, pages, walk, |pages| - 1);
    }
    if Completed(pages) {
      StaticWalkIff(less, keys, pages);
    }
  }
}
