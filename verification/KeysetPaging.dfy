/**
 Keyset pagination in general: rows with ascending ids, a filter, and pages read
 newest first below a cursor. A client that follows the cursor to its end sees
 every row that matched at its first call exactly once, in descending id, however
 many newer rows arrive between the calls.
 */
module KeysetPaging {
  import opened Sequences

  datatype Keyed<T> = Keyed(id: int, item: T)

  /** The table as it was filled: ids start at 1 and grow. */
  ghost predicate Ascending<T>(table: seq<Keyed<T>>) {
    && (forall i | 0 <= i < |table| :: table[i].id > 0)
    && forall i, j | 0 <= i < j < |table| :: table[i].id < table[j].id
  }

  /** A cursor of 0 or less starts from the top. */
  predicate Picks<T>(keep: T -> bool, cursor: int, r: Keyed<T>) {
    keep(r.item) && (cursor > 0 ==> r.id < cursor)
  }

  /** The picked rows, newest first. */
  function Newest<T>(table: seq<Keyed<T>>, keep: T -> bool, cursor: int): seq<Keyed<T>> {
    if table == [] then []
    else
      var k := |table| - 1;
      (if Picks(keep, cursor, table[k]) then [table[k]] else []) + Newest(table[..k], keep, cursor)
  }

  function Page<T>(table: seq<Keyed<T>>, keep: T -> bool, cursor: int, limit: nat): seq<Keyed<T>> {
    var rows := Newest(table, keep, cursor);
    if |rows| <= limit then rows else rows[..limit]
  }

  /** Only a page that came out full announces a next one. */
  function NextCursor<T>(table: seq<Keyed<T>>, keep: T -> bool, cursor: int, limit: nat): int
    requires limit > 0
  {
    var rows := Page(table, keep, cursor, limit);
    if |rows| == limit then rows[|rows| - 1].id else 0
  }

  // ---- what Newest lists -----------------------------------------------------------------

  lemma {:induction false} NewestDescends<T>(table: seq<Keyed<T>>, keep: T -> bool, cursor: int)
    requires Ascending(table)
    ensures forall i | 0 <= i < |Newest(table, keep, cursor)| :: Newest(table, keep, cursor)[i] in table
    ensures forall i, j | 0 <= i < j < |Newest(table, keep, cursor)| ::
              Newest(table, keep, cursor)[i].id > Newest(table, keep, cursor)[j].id
  {
    if table == [] {
    } else {
      NewestDescends(table[..|table| - 1], keep, cursor);
    }
  }

  lemma {:induction false} NewestIsExact<T>(table: seq<Keyed<T>>, keep: T -> bool, cursor: int, r: Keyed<T>)
    ensures r in Newest(table, keep, cursor) <==> r in table && Picks(keep, cursor, r)
  {
    if table == [] {
    } else {
      NewestIsExact(table[..|table| - 1], keep, cursor, r);
      assert table == table[..|table| - 1] + [table[|table| - 1]];
    }
  }

  // ---- moving the cursor -------------------------------------------------------------------

  /** A cursor above every row picks no fewer rows than one higher up. */
  lemma {:induction false} LooserCursor<T>(table: seq<Keyed<T>>, keep: T -> bool, c: int, d: int)
    requires d > 0
    requires forall i | 0 <= i < |table| :: table[i].id < d && (c > 0 ==> table[i].id < c)
    ensures Newest(table, keep, d) == Newest(table, keep, c)
  {
    if table == [] {
    } else {
      LooserCursor(table[..|table| - 1], keep, c, d);
    }
  }

  lemma FoundBelowLast<T>(table: seq<Keyed<T>>, keep: T -> bool, c: int, k: nat)
    requires Ascending(table) && k < |Newest(table, keep, c)|
    ensures table != [] && 0 < Newest(table, keep, c)[k].id <= table[|table| - 1].id
  {
    NewestDescends(table, keep, c);
    assert Newest(table, keep, c)[k] in table;
  }

  /** Moving the cursor to the k-th row found leaves exactly the rows after it. */
  lemma {:induction false} CursorSkips<T>(table: seq<Keyed<T>>, keep: T -> bool, c: int, k: nat)
    requires Ascending(table) && k < |Newest(table, keep, c)|
    ensures Newest(table, keep, Newest(table, keep, c)[k].id) == Newest(table, keep, c)[k + 1..]
  {
    FoundBelowLast(table, keep, c, k);
    var init, last := table[..|table| - 1], table[|table| - 1];
    var d, d' := Newest(table, keep, c), Newest(init, keep, c);
    LastIsAbove(table, keep, d[k].id);
    if !Picks(keep, c, last) {
      assert d == d';
      CursorSkips(init, keep, c, k);
    } else if k == 0 {
      assert d == [last] + d' && d[1..] == d';
      LooserCursor(init, keep, c, last.id);
    } else {
      assert d == [last] + d' && d[k + 1..] == d'[k..];
      CursorSkips(init, keep, c, k - 1);
    }
  }

  lemma LastIsAbove<T>(table: seq<Keyed<T>>, keep: T -> bool, c: int)
    requires table != [] && 0 < c <= table[|table| - 1].id
    ensures Newest(table, keep, c) == Newest(table[..|table| - 1], keep, c)
  {
    assert !Picks(keep, c, table[|table| - 1]);
  }

  /** Rows that arrive at or above the cursor do not change what lies below it. */
  lemma {:induction false} ArrivalsAreInvisible<T>(
      table: seq<Keyed<T>>, arrived: seq<Keyed<T>>, keep: T -> bool, c: int)
    requires c > 0 && forall i | 0 <= i < |arrived| :: arrived[i].id >= c
    ensures Newest(table + arrived, keep, c) == Newest(table, keep, c)
    decreases |arrived|
  {
    if arrived == [] {
      assert table + arrived == table;
    } else {
      var n := |arrived| - 1;
      assert (table + arrived)[..|table + arrived| - 1] == table + arrived[..n];
      ArrivalsAreInvisible(table, arrived[..n], keep, c);
    }
  }

  /** Below a cursor taken from the base table, every later state answers as the base would. */
  lemma SameBelowCursor<T>(base: seq<Keyed<T>>, table: seq<Keyed<T>>, keep: T -> bool, c: int, i: nat)
    requires Ascending(table) && base <= table
    requires i < |base| && base[i].id == c
    ensures Newest(table, keep, c) == Newest(base, keep, c)
  {
    var arrived := table[|base|..];
    assert table == base + arrived;
    assert table[i].id == c;
    ArrivalsAreInvisible(base, arrived, keep, c);
  }

  // ---- following the cursor to its end --------------------------------------------------------

  /** Page i is read from the i-th table state; the client stops when the cursor is 0. */
  function Pages<T>(tables: seq<seq<Keyed<T>>>, keep: T -> bool, cursor: int, limit: nat): seq<seq<Keyed<T>>>
    requires limit > 0
    decreases |tables|
  {
    if tables == [] then []
    else
      var next := NextCursor(tables[0], keep, cursor, limit);
      [Page(tables[0], keep, cursor, limit)]
      + if next == 0 then [] else Pages(tables[1..], keep, next, limit)
  }

  /** Each table state holds the base rows first and, after them, only newer rows. */
  ghost predicate Growing<T>(base: seq<Keyed<T>>, tables: seq<seq<Keyed<T>>>) {
    forall i | 0 <= i < |tables| :: Ascending(tables[i]) && base <= tables[i]
  }

  lemma SmallMultiple(l: int, d: int)
    requires -l < l * d < l
    ensures d == 0
  {
  }

  lemma OnePageFewer(m: nat, l: nat)
    requires 0 < l <= m
    ensures m / l == (m - l) / l + 1
  {
    var q, q' := (m - l) / l, m / l;
    assert l * (q' - q - 1) == (m - l) % l - m % l;
    SmallMultiple(l, q' - q - 1);
  }

  /** Calls needed for m rows: one per full page, and one that comes out short. */
  function Calls(m: nat, l: nat): (n: nat)
    requires l > 0
    ensures n >= 1
  {
    if m < l then 1 else 1 + Calls(m - l, l)
  }

  lemma {:induction false} CallsIsQuotient(m: nat, l: nat)
    requires l > 0
    ensures Calls(m, l) == m / l + 1
  {
    if m >= l {
      CallsIsQuotient(m - l, l);
      OnePageFewer(m, l);
    }
  }

  lemma FlattenCons<T>(first: seq<T>, rest: seq<seq<T>>)
    ensures Flatten([first] + rest) == first + Flatten(rest)
  {
    FlattenConcat([first], rest);
    var one: seq<seq<T>> := [first];
    assert one[..0] == [];
  }

  lemma {:induction false} FoundInTable<T>(table: seq<Keyed<T>>, keep: T -> bool, c: int, k: nat) returns (i: nat)
    requires k < |Newest(table, keep, c)|
    ensures i < |table| && table[i] == Newest(table, keep, c)[k]
  {
    i := |table| - 1;
    var picked := Picks(keep, c, table[i]);
    if !picked || k > 0 {
      i := FoundInTable(table[..i], keep, c, if picked then k - 1 else k);
    }
  }

  lemma FlattenFirst<T>(all: seq<T>, l: nat, rest: seq<seq<T>>)
    requires l <= |all| && Flatten(rest) == all[l..]
    ensures Flatten([all[..l]] + rest) == all
  {
    FlattenCons(all[..l], rest);
    assert all == all[..l] + all[l..];
  }

  /** A full page announces the id of its last row, and the walk goes on from there. */
  lemma FullPage<T>(tables: seq<seq<Keyed<T>>>, keep: T -> bool, c: int, l: nat)
    requires tables != [] && 0 < l <= |Newest(tables[0], keep, c)| && Newest(tables[0], keep, c)[l - 1].id != 0
    ensures var all := Newest(tables[0], keep, c);
            Pages(tables, keep, c, l) == [all[..l]] + Pages(tables[1..], keep, all[l - 1].id, l)
  {
    var all := Newest(tables[0], keep, c);
    assert |all| == l ==> all[..l] == all;
    assert Page(tables[0], keep, c, l) == all[..l];
    assert NextCursor(tables[0], keep, c, l) == all[l - 1].id;
  }

  /** A short page is the last one. */
  lemma ShortPage<T>(tables: seq<seq<Keyed<T>>>, keep: T -> bool, c: int, l: nat)
    requires tables != [] && |Newest(tables[0], keep, c)| < l
    ensures Pages(tables, keep, c, l) == [Newest(tables[0], keep, c)] + []
  {
    assert Page(tables[0], keep, c, l) == Newest(tables[0], keep, c);
    assert NextCursor(tables[0], keep, c, l) == 0;
  }

  /** The states a walk over the base table's rows goes through. */
  ghost predicate Walk<T>(base: seq<Keyed<T>>, tables: seq<seq<Keyed<T>>>, keep: T -> bool, c: int, l: nat) {
    && l > 0 && Ascending(base) && Growing(base, tables)
    && tables != [] && Newest(tables[0], keep, c) == Newest(base, keep, c)
    && |tables| >= Calls(|Newest(base, keep, c)|, l)
  }

  /** The cursor after a full page, and the rows left below it. */
  lemma RowsBelowNext<T>(base: seq<Keyed<T>>, keep: T -> bool, c: int, l: nat)
    requires Ascending(base) && 0 < l <= |Newest(base, keep, c)|
    ensures Newest(base, keep, c)[l - 1].id > 0
    ensures Newest(base, keep, Newest(base, keep, c)[l - 1].id) == Newest(base, keep, c)[l..]
  {
    FoundBelowLast(base, keep, c, l - 1);
    CursorSkips(base, keep, c, l - 1);
  }

  /** One full page: what it shows, and which rows remain below the new cursor. */
  lemma WalkShows<T>(base: seq<Keyed<T>>, tables: seq<seq<Keyed<T>>>, keep: T -> bool, c: int, l: nat)
    requires Walk(base, tables, keep, c, l) && |Newest(base, keep, c)| >= l
    ensures var all := Newest(base, keep, c);
            var next := all[l - 1].id;
            && Newest(base, keep, next) == all[l..]
            && Pages(tables, keep, c, l) == [all[..l]] + Pages(tables[1..], keep, next, l)
  {
    RowsBelowNext(base, keep, c, l);
    FullPage(tables, keep, c, l);
  }

  /** The rest is again a walk over the remaining rows. */
  lemma WalkRest<T>(base: seq<Keyed<T>>, tables: seq<seq<Keyed<T>>>, keep: T -> bool, c: int, l: nat)
    requires Walk(base, tables, keep, c, l) && |Newest(base, keep, c)| >= l
    requires |Newest(base, keep, Newest(base, keep, c)[l - 1].id)| == |Newest(base, keep, c)| - l
    ensures Walk(base, tables[1..], keep, Newest(base, keep, c)[l - 1].id, l)
  {
    var all := Newest(base, keep, c);
    assert |tables| >= 1 + Calls(|all| - l, l);
    var i := FoundInTable(base, keep, c, l - 1);
    NextPages(base, tables, keep, all[l - 1].id, l, i);
  }

  /** The pages of a walk put together are the base table's picked rows. */
  lemma {:induction false} PagesShowAll<T>(
      base: seq<Keyed<T>>, tables: seq<seq<Keyed<T>>>, keep: T -> bool, c: int, l: nat)
    requires Walk(base, tables, keep, c, l)
    ensures Flatten(Pages(tables, keep, c, l)) == Newest(base, keep, c)
    decreases |tables|
  {
    var all := Newest(base, keep, c);
    if |all| < l {
      ShortPage(tables, keep, c, l);
      FlattenCons(all, []);
    } else {
      var next := all[l - 1].id;
      WalkShows(base, tables, keep, c, l);
      WalkRest(base, tables, keep, c, l);
      PagesShowAll(base, tables[1..], keep, next, l);
      FlattenFirst(all, l, Pages(tables[1..], keep, next, l));
    }
  }

  lemma {:induction false} PagesNeeded<T>(
      base: seq<Keyed<T>>, tables: seq<seq<Keyed<T>>>, keep: T -> bool, c: int, l: nat)
    requires Walk(base, tables, keep, c, l)
    ensures |Pages(tables, keep, c, l)| == Calls(|Newest(base, keep, c)|, l)
    decreases |tables|
  {
    var all := Newest(base, keep, c);
    if |all| < l {
      ShortPage(tables, keep, c, l);
    } else {
      WalkShows(base, tables, keep, c, l);
      WalkRest(base, tables, keep, c, l);
      PagesNeeded(base, tables[1..], keep, all[l - 1].id, l);
    }
  }

  /** The remaining table states start from the same rows below the new cursor. */
  lemma NextPages<T>(base: seq<Keyed<T>>, tables: seq<seq<Keyed<T>>>, keep: T -> bool, next: int, l: nat, i: nat)
    requires Growing(base, tables) && |tables| > 1 && i < |base| && base[i].id == next
    ensures Growing(base, tables[1..])
    ensures Newest(tables[1..][0], keep, next) == Newest(base, keep, next)
  {
    assert forall j | 0 <= j < |tables[1..]| :: tables[1..][j] == tables[j + 1];
    SameBelowCursor(base, tables[1], keep, next, i);
  }

  /**
   Exactness, from any starting cursor: the pages put together are exactly the rows
   picked at the first call, once each, in descending id, in floor(m / limit) + 1 pages.
   */
  lemma PaginationIsExact<T>(tables: seq<seq<Keyed<T>>>, keep: T -> bool, c: int, l: nat)
    requires l > 0 && tables != [] && Growing(tables[0], tables)
    requires |tables| >= |Newest(tables[0], keep, c)| / l + 1
    ensures var seen := Flatten(Pages(tables, keep, c, l));
            && (forall r :: r in seen <==> r in tables[0] && Picks(keep, c, r))
            && (forall i, j | 0 <= i < j < |seen| :: seen[i].id > seen[j].id)
            && |Pages(tables, keep, c, l)| == |seen| / l + 1
  {
    var base := tables[0];
    CallsIsQuotient(|Newest(base, keep, c)|, l);
    PagesShowAll(base, tables, keep, c, l);
    PagesNeeded(base, tables, keep, c, l);
    NewestDescends(base, keep, c);
    forall r: Keyed<T> ensures r in Newest(base, keep, c) <==> r in base && Picks(keep, c, r) {
      NewestIsExact(base, keep, c, r);
    }
  }
}
