/** The search side of canvas.py: class `List`, which filters the store list
    against a query and inserts the rendered matches into its list store at a
    moving cursor, and the module-level `ITERS` list of the row handles it has
    inserted. The toolkit's list store is modelled as a sequence of rows, each
    tagged with the handle (tree iterator) the store gave it. */
module Search {
  import opened Catalog

  /** A row handle of the list store. */
  type Iter = nat

  datatype StoreRow = StoreRow(iter: Iter, row: Row)

  /** The position at which the list store puts a row asked for at `pos` in a
      store of `n` rows: a position past the end, or a negative one, appends. */
  function Slot(n: nat, pos: int): (k: nat)
    ensures k <= n
    ensures 0 <= pos <= n ==> k == pos
    ensures pos < 0 || n < pos ==> k == n
  {
    if 0 <= pos <= n then pos else n
  }

  /** The list store's `insert(pos, x)`. */
  function InsertAt<T(!new)>(s: seq<T>, pos: int, x: T): (r: seq<T>)
    ensures |r| == |s| + 1
    ensures r[Slot(|s|, pos)] == x
    ensures r[..Slot(|s|, pos)] + r[Slot(|s|, pos) + 1..] == s
    ensures forall y :: y in r <==> y in s || y == x
  {
    var k := Slot(|s|, pos);
    assert s == s[..k] + s[k..];
    s[..k] + [x] + s[k..]
  }

  /** The rows a store shows, without their handles. */
  function RowsOf(s: seq<StoreRow>): (rs: seq<Row>)
    ensures |rs| == |s|
    ensures forall i :: 0 <= i < |s| ==> rs[i] == s[i].row
  {
    seq(|s|, i requires 0 <= i < |s| => s[i].row)
  }

  lemma RowsOfInsert(s: seq<StoreRow>, pos: int, x: StoreRow)
    ensures RowsOf(InsertAt(s, pos, x)) == InsertAt(RowsOf(s), pos, x.row)
  {
    var k := Slot(|s|, pos);
    var r := InsertAt(s, pos, x);
    assert r == s[..k] + [x] + s[k..];
    assert InsertAt(RowsOf(s), pos, x.row) == RowsOf(s)[..k] + [x.row] + RowsOf(s)[k..];
  }

  /** The store rows whose handle is not among `hs`: what is left after
      removing each handle of `hs` from the store. */
  function Without(s: seq<StoreRow>, hs: seq<Iter>): (r: seq<StoreRow>)
    ensures |r| <= |s|
    ensures forall x :: x in r <==> x in s && x.iter !in hs
  {
    if s == [] then []
    else
      assert s == [s[0]] + s[1..];
      (if s[0].iter in hs then [] else [s[0]]) + Without(s[1..], hs)
  }

  lemma {:induction false} WithoutNothing(s: seq<StoreRow>)
    ensures Without(s, []) == s
  {
    if s != [] {
      WithoutNothing(s[1..]);
    }
  }

  /** Removing every handle a store's rows carry empties it. */
  lemma {:induction false} WithoutListed(s: seq<StoreRow>, hs: seq<Iter>)
    requires forall x :: x in s ==> x.iter in hs
    ensures Without(s, hs) == []
  {
    if s != [] {
      assert s[0] in s;
      WithoutListed(s[1..], hs);
    }
  }

  /** Removing one more handle from what is left is removing the longer list
      of handles: the removal loop can be read one handle at a time. */
  lemma {:induction false} WithoutOneMore(s: seq<StoreRow>, hs: seq<Iter>, h: Iter)
    ensures Without(Without(s, hs), [h]) == Without(s, hs + [h])
  {
    if s != [] {
      WithoutOneMore(s[1..], hs, h);
      if s[0].iter in hs {
        assert Without(s, hs) == Without(s[1..], hs);
      } else {
        assert Without(s, hs) == [s[0]] + Without(s[1..], hs);
        assert Without(s, hs)[1..] == Without(s[1..], hs);
      }
    }
  }

  /** The rows that `start`-based consecutive insertion of `rs` leaves in an
      empty store: the i-th row is asked for at position `start + i`. */
  function Placed(start: int, rs: seq<Row>): (r: seq<Row>)
    ensures |r| == |rs|
  {
    if rs == [] then []
    else InsertAt(Placed(start, rs[..|rs| - 1]), start + |rs| - 1, rs[|rs| - 1])
  }

  lemma PlacedStep(start: int, rs: seq<Row>, x: Row)
    ensures Placed(start, rs + [x]) == InsertAt(Placed(start, rs), start + |rs|, x)
  {
    assert (rs + [x])[..|rs|] == rs;
  }

  /** Scanning one more record extends the rendered matches by that record's
      row exactly when the filter keeps it. */
  lemma SelectStep(catalog: seq<Entry>, k: nat, w: string)
    requires k < |catalog|
    ensures Select(catalog[..k + 1], w) ==
      Select(catalog[..k], w) + (if Hit(catalog[k], w) then [catalog[k]] else [])
  {
    assert catalog[..k + 1][..k] == catalog[..k];
  }

  lemma RenderStep(es: seq<Entry>, e: Entry)
    ensures Render(es + [e]) == Render(es) + [GenActivity(e)]
  {
  }

  /** Placing one more kept record puts its row at the cursor after the
      rows already placed. */
  lemma ScanHitPlaces(start: int, kept: seq<Entry>, e: Entry)
    ensures Placed(start, Render(kept + [e])) ==
      InsertAt(Placed(start, Render(kept)), start + |kept|, GenActivity(e))
  {
    RenderStep(kept, e);
    PlacedStep(start, Render(kept), GenActivity(e));
  }

  /** Before the scan has read a record, it has placed no row. */
  lemma NothingScanned(catalog: seq<Entry>, start: int, w: string)
    ensures Placed(start, Render(Select(catalog[..0], w))) == []
  {
    assert catalog[..0] == [];
  }

  /** From a cursor that is not negative, consecutive insertion into an
      emptied store appends: the rows appear in the order they were found. */
  lemma {:induction false} PlacedInOrder(start: int, rs: seq<Row>)
    requires start >= 0
    ensures Placed(start, rs) == rs
    decreases |rs|
  {
    if rs != [] {
      var init := rs[..|rs| - 1];
      PlacedInOrder(start, init);
      assert Slot(|init|, start + |rs| - 1) == |init|;
      assert rs == init + [rs[|rs| - 1]];
    }
  }

  class List {
    /** The rows of the result list store. */
    var rows: seq<StoreRow>
    /** Every handle `_add_activity` has inserted: the module-level `ITERS`,
        held here since the module builds a single `List`. */
    var iters: seq<Iter>
    /** The handle the store gives the next inserted row. */
    var nextIter: Iter
    /** Insertion cursor. */
    var current: int
    var stopped: bool
    var canSearch: bool
    /** The lower-cased query of the latest pass. */
    var w: string
    /** The store list, fetched once when the list is built. */
    const catalog: seq<Entry>

    /** Every row of the store was inserted by `AddActivity`, so its handle
        is listed in `iters`; every handle handed out is below `nextIter`. */
    ghost predicate Valid()
      reads this
    {
      (forall x :: x in rows ==> x.iter in iters) &&
      (forall h :: h in iters ==> h < nextIter)
    }

    /** The rows the list displays. */
    function Shown(): seq<Row>
      reads this
    {
      RowsOf(rows)
    }

    constructor (catalog: seq<Entry>)
      ensures Valid()
      ensures this.catalog == catalog
      ensures rows == [] && iters == [] && current == 0
      ensures !stopped && canSearch && w == ""
    {
      this.catalog := catalog;
      rows, iters, nextIter := [], [], 0;
      current := 0;
      w := "";
      canSearch, stopped := true, false;
    }

    method Up()
      modifies this`current
      ensures current == old(current) + 1
    {
      current := current + 1;
    }

    method Down()
      modifies this`current
      ensures current == old(current) - 1
    {
      current := current - 1;
    }

    /** Nothing ever sets `stopped` back to false. */
    method StopSearch()
      modifies this`stopped
      ensures stopped
    {
      stopped := true;
    }

    /** `_add_activity`: insert `info` at the cursor under a new handle,
        record the handle and move the cursor on. */
    method AddActivity(info: Row)
      requires Valid()
      modifies this`rows, this`iters, this`nextIter, this`current
      ensures Valid()
      ensures rows == InsertAt(old(rows), old(current), StoreRow(old(nextIter), info))
      ensures Shown() == InsertAt(old(Shown()), old(current), info)
      ensures iters == old(iters) + [old(nextIter)] && nextIter == old(nextIter) + 1
      ensures current == old(current) + 1
    {
      var iter := nextIter;
      nextIter := nextIter + 1;
      RowsOfInsert(rows, current, StoreRow(iter, info));
      rows := InsertAt(rows, current, StoreRow(iter, info));
      iters := iters + [iter];
      Up();
    }

    /** The first loop of `_search`: remove from the store the row of every
        handle in `iters`. Every row came from `AddActivity`, so none is left. */
    method RemoveListed()
      requires Valid()
      modifies this`rows
      ensures Valid() && rows == []
    {
      ghost var before := rows;
      WithoutNothing(before);
      for i := 0 to |iters|
        invariant rows == Without(before, iters[..i])
      {
        WithoutOneMore(before, iters[..i], iters[i]);
        assert iters[..i + 1] == iters[..i] + [iters[i]];
        rows := Without(rows, [iters[i]]);
      }
      assert iters[..|iters|] == iters;
      WithoutListed(before, iters);
    }

    /** The scan state after the first `k` records: the store holds the
        rows of the records kept so far, placed from cursor `start`, and the
        cursor has moved on by their number. */
    ghost predicate Scanned(start: int, k: nat, query: string)
      reads this
      requires k <= |catalog|
    {
      Shown() == Placed(start, Render(Select(catalog[..k], query))) &&
      current == start + |Select(catalog[..k], query)|
    }

    /** One turn of the scan in `_search`: lower-case fields [1] and [2] of
        record `id` and, when either contains the query, insert the record's
        row at the cursor. */
    method ScanOne(id: nat, query: string, ghost start: int)
      requires Valid() && id < |catalog|
      requires Scanned(start, id, query)
      modifies this`rows, this`iters, this`nextIter, this`current
      ensures Valid() && old(iters) <= iters
      ensures Scanned(start, id + 1, query)
    {
      SelectStep(catalog, id, query);
      ghost var kept := Select(catalog[..id], query);
      ghost var shownBefore := Shown();
      assert shownBefore == Placed(start, Render(kept));
      var activity := catalog[id];
      // As in the source, `name` holds field [1] and `description` field [2].
      var name := Lower(activity.status);
      var description := Lower(activity.name);
      if Contains(name, query) || Contains(description, query) {
        assert Hit(catalog[id], query);
        var info := GenActivity(catalog[id]);
        ScanHitPlaces(start, kept, catalog[id]);
        AddActivity(info);
      } else {
        assert !Hit(catalog[id], query);
        assert Select(catalog[..id + 1], query) == kept;
      }
    }

    /** The state of the scan after `k` records: the list is consistent,
        `iters` still begins with `base`, and the first `k` records have been
        scanned from cursor `start`. */
    ghost predicate Scanning(base: seq<Iter>, start: int, k: nat, query: string)
      reads this
    {
      k <= |catalog| && Valid() && base <= iters && Scanned(start, k, query)
    }

    /** The second loop of `_search`: scan the store list in order from
        cursor `start`, inserting the row of each record the filter keeps;
        the scan stops at once while `stopped` is set. */
    method ScanCatalog(query: string, ghost start: int)
      requires Valid() && Scanned(start, 0, query)
      modifies this`rows, this`iters, this`nextIter, this`current
      ensures Valid() && old(iters) <= iters
      ensures stopped ==> Scanned(start, 0, query)
      ensures !stopped ==> Scanned(start, |catalog|, query)
    {
      // `id` is the source's `_id`: the index of the record being scanned.
      var id := 0;
      ghost var base := iters;
      while id < |catalog|
        invariant stopped ==> id == 0
        invariant Scanning(base, start, id, query)
      {
        if stopped {
          break;
        }
        ScanOne(id, query, start);
        id := id + 1;
      }
    }

    /** `_search`: remove every row listed in `iters`, then scan the store
        list in order, inserting the rendered record at the cursor for each
        one whose fields [1] or [2], lower-cased, contain the query; the scan
        stops at once while `stopped` is set. */
    method SearchPass()
      requires Valid()
      modifies this
      ensures Valid()
      ensures old(iters) <= iters
      ensures canSearch && stopped == old(stopped) && w == old(w)
      ensures old(stopped) ==> Shown() == [] && current == old(current)
      ensures !old(stopped) ==>
        Shown() == Placed(old(current), Render(Select(catalog, w))) &&
        current == old(current) + |Select(catalog, w)|
    {
      var query := w;
      RemoveListed();
      ghost var start := current;
      NothingScanned(catalog, start, query);
      assert Shown() == [];
      ScanCatalog(query, start);
      assert catalog[..|catalog|] == catalog;
      canSearch := true;
    }

    /** `search`: when no pass is running, store the lower-cased query and
        run a pass; otherwise ask the running pass to stop. */
    method Search(text: string)
      requires Valid()
      modifies this
      ensures Valid()
      ensures old(canSearch) ==>
        w == Lower(text) && canSearch && stopped == old(stopped) &&
        (stopped ==> Shown() == [] && current == old(current)) &&
        (!stopped ==>
          Shown() == Placed(old(current), Render(Select(catalog, w))) &&
          current == old(current) + |Select(catalog, w)|)
      ensures !old(canSearch) ==>
        stopped && !canSearch && w == old(w) &&
        rows == old(rows) && iters == old(iters) && current == old(current)
    {
      if canSearch {
        canSearch := false;
        w := Lower(text);
        SearchPass();
      } else {
        StopSearch();
      }
    }
  }

  /** A first search on a new list shows exactly the matching records, in
      catalog order. */
  method FirstSearch(catalog: seq<Entry>, text: string) returns (shown: seq<Row>)
    ensures shown == Render(Select(catalog, Lower(text)))
  {
    var list := new List(catalog);
    list.Search(text);
    PlacedInOrder(0, Render(Select(catalog, Lower(text))));
    shown := list.Shown();
  }

  /** A second search replaces the first one's rows: only the latest query's
      matches are shown, although the cursor is never reset between passes. */
  method SearchTwice(catalog: seq<Entry>, first: string, second: string)
    returns (shown: seq<Row>, cursor: int)
    ensures shown == Render(Select(catalog, Lower(second)))
    ensures cursor == |Select(catalog, Lower(first))| + |Select(catalog, Lower(second))|
  {
    var list := new List(catalog);
    list.Search(first);
    var mid := list.current;
    list.Search(second);
    PlacedInOrder(mid, Render(Select(catalog, Lower(second))));
    shown, cursor := list.Shown(), list.current;
  }

  /** Once a stop has been requested, every later search shows nothing and
      leaves the cursor where it was. */
  method SearchAfterStop(catalog: seq<Entry>, first: string, second: string)
    returns (shown: seq<Row>, cursor: int)
    ensures shown == [] && cursor == 0
  {
    var list := new List(catalog);
    list.StopSearch();
    list.Search(first);
    list.Search(second);
    shown, cursor := list.Shown(), list.current;
  }
}
