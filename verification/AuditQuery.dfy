/**
 The audit log query (internal/audit/service.go): a filter translated to a
 parameterised SQL query, and keyset pagination over a growing table.
 */
module AuditQuery {
  import opened Text
  import opened LikePattern
  import opened KeysetPaging
  import opened Sequences

  const DEFAULT_LIMIT: nat := 100
  const MAX_LIMIT: nat := 500
  const ZERO_TIME := 0

  /** A stored row apart from its id; nullable columns are options. */
  datatype Columns = Columns(
    ts: int, actorKind: string, actorId: Option<string>, action: string,
    subjectKind: Option<string>, subjectId: Option<string>, metadata: Option<string>)

  type Row = Keyed<Columns>

  datatype Entry = Entry(
    id: int, ts: int, actorKind: string, actorId: string, action: string,
    subjectKind: string, subjectId: string, metadata: string)

  /** The filter part of QueryOpts; zero values mean "no filter". */
  datatype Criteria = Criteria(subjectKind: string, subjectId: string, action: string, since: int, until: int)

  datatype Opts = Opts(criteria: Criteria, cursor: int, limit: int)

  function OrEmpty(s: Option<string>): string {
    if s.None? then "" else s.value
  }

  function ScanRow(r: Row): Entry {
    var c := r.item;
    Entry(r.id, c.ts, c.actorKind, OrEmpty(c.actorId), c.action,
        OrEmpty(c.subjectKind), OrEmpty(c.subjectId), OrEmpty(c.metadata))
  }

  // ---- the query as data -------------------------------------------------------------

  datatype Column = SubjectKind | SubjectId | Action | Ts | Id

  datatype Operator = Equals | Matches | AtLeast | Below

  /** `column operator $placeholder` */
  datatype Cond = Cond(column: Column, operator: Operator, placeholder: nat)

  datatype Arg = TextArg(text: string) | TimeArg(time: int) | IntArg(n: int)

  datatype Sql = Sql(conds: seq<Cond>, limitPlaceholder: nat)

  function TextColumn(c: Column, r: Row): Option<string> {
    match c
    case SubjectKind => r.item.subjectKind
    case SubjectId => r.item.subjectId
    case Action => Some(r.item.action)
    case _ => None
  }

  /** One condition is true of the row; comparing with NULL or with the wrong type is not. */
  predicate Holds(c: Cond, args: seq<Arg>, r: Row) {
    && 1 <= c.placeholder <= |args|
    && match (c.operator, args[c.placeholder - 1])
       case (Equals, TextArg(t)) => TextColumn(c.column, r) == Some(t)
       case (Matches, TextArg(t)) => TextColumn(c.column, r).Some? && Like(t, TextColumn(c.column, r).value)
       case (AtLeast, TimeArg(t)) => c.column == Ts && t <= r.item.ts
       case (Below, TimeArg(t)) => c.column == Ts && r.item.ts < t
       case (Below, IntArg(n)) => c.column == Id && r.id < n
       case _ => false
  }

  predicate Where(conds: seq<Cond>, args: seq<Arg>, r: Row) {
    forall i | 0 <= i < |conds| :: Holds(conds[i], args, r)
  }

  // ---- the filter in its own terms ------------------------------------------------------

  predicate ActionIs(filter: string, action: string) {
    if HasSuffix(filter, ".*") then HasPrefix(action, filter[..|filter| - 1]) else action == filter
  }

  /** The same with the pattern the query really uses. */
  predicate ActionLike(filter: string, action: string) {
    if HasSuffix(filter, ".*") then Like(filter[..|filter| - 1] + "%", action) else action == filter
  }

  predicate Wanted(k: Criteria, c: Columns, actionOk: bool) {
    && (k.subjectKind != "" ==> OrEmpty(c.subjectKind) == k.subjectKind)
    && (k.subjectId != "" ==> OrEmpty(c.subjectId) == k.subjectId)
    && (k.action != "" ==> actionOk)
    && (k.since != ZERO_TIME ==> k.since <= c.ts)
    && (k.until != ZERO_TIME ==> c.ts < k.until)
  }

  /** What the caller asked for. */
  predicate Asked(k: Criteria, c: Columns) {
    Wanted(k, c, ActionIs(k.action, c.action))
  }

  /** What the query selects. */
  predicate Selected(k: Criteria, c: Columns) {
    Wanted(k, c, ActionLike(k.action, c.action))
  }

  function Selector(k: Criteria): Columns -> bool {
    c => Selected(k, c)
  }

  /** The action filter, if a prefix, has no LIKE metacharacter. */
  predicate PlainAction(k: Criteria) {
    HasSuffix(k.action, ".*") ==> Plain(k.action[..|k.action| - 1])
  }

  // ---- building ---------------------------------------------------------------------------

  /** Each placeholder names the argument appended together with its condition. */
  predicate WellPlaced(conds: seq<Cond>, args: seq<Arg>) {
    |conds| == |args| && forall i | 0 <= i < |conds| :: conds[i].placeholder == i + 1
  }

  /** The `add` closure: a new condition constrains, and leaves the meaning of the others alone. */
  lemma AddMeaning(conds: seq<Cond>, args: seq<Arg>, column: Column, operator: Operator, arg: Arg, r: Row)
    requires WellPlaced(conds, args)
    ensures var c := Cond(column, operator, |args| + 1);
            Where(conds + [c], args + [arg], r) <==> Where(conds, args, r) && Holds(c, args + [arg], r)
  {
    var c := Cond(column, operator, |args| + 1);
    assert forall i | 0 <= i < |conds| :: (conds + [c])[i] == conds[i] && (args + [arg])[i] == args[i];
    assert (conds + [c])[|conds|] == c;
    assert forall i | 0 <= i < |conds| :: Holds(conds[i], args + [arg], r) <==> Holds(conds[i], args, r);
  }

  /** One guarded use of `add`: nothing is appended when the option is not set. */
  method AddIf(guard: bool, conds: seq<Cond>, args: seq<Arg>, column: Column, operator: Operator, arg: Arg)
      returns (conds': seq<Cond>, args': seq<Arg>)
    requires WellPlaced(conds, args)
    ensures WellPlaced(conds', args')
    ensures forall r: Row :: Where(conds', args', r) <==>
              Where(conds, args, r) && (guard ==> Holds(Cond(column, operator, 1), [arg], r))
  {
    conds', args' := conds, args;
    if guard {
      args' := args + [arg];
      conds' := conds + [Cond(column, operator, |args'|)];
      forall r: Row
        ensures Where(conds', args', r) <==> Where(conds, args, r) && Holds(Cond(column, operator, 1), [arg], r)
      {
        AddMeaning(conds, args, column, operator, arg, r);
      }
    }
  }

  /** The conditions on subject and action. */
  method AddTextFilters(k: Criteria) returns (conds: seq<Cond>, args: seq<Arg>)
    ensures WellPlaced(conds, args)
    ensures forall r: Row :: Where(conds, args, r) <==> Selected(k.(since := ZERO_TIME, until := ZERO_TIME), r.item)
  {
    conds, args := AddIf(k.subjectKind != "", [], [], SubjectKind, Equals, TextArg(k.subjectKind));
    conds, args := AddIf(k.subjectId != "", conds, args, SubjectId, Equals, TextArg(k.subjectId));
    if HasSuffix(k.action, ".*") {
      var prefix := k.action[..|k.action| - 1];
      conds, args := AddIf(k.action != "", conds, args, Action, Matches, TextArg(prefix + "%"));
    } else {
      conds, args := AddIf(k.action != "", conds, args, Action, Equals, TextArg(k.action));
    }
  }

  /**
   For every filter: LIMIT takes the last argument, and the conjunction selects exactly the
   wanted rows below the cursor.
   */
  method BuildQuery(o: Opts) returns (q: Sql, args: seq<Arg>)
    ensures |args| == |q.conds| + 1 && q.limitPlaceholder == |args| && args[|args| - 1] == IntArg(o.limit)
    ensures WellPlaced(q.conds, args[..|args| - 1])
    ensures forall r: Row :: Where(q.conds, args, r) <==> Picks(Selector(o.criteria), o.cursor, r)
  {
    var k := o.criteria;
    var conds;
    conds, args := AddTextFilters(k);
    conds, args := AddIf(k.since != ZERO_TIME, conds, args, Ts, AtLeast, TimeArg(k.since));
    conds, args := AddIf(k.until != ZERO_TIME, conds, args, Ts, Below, TimeArg(k.until));
    conds, args := AddIf(o.cursor > 0, conds, args, Id, Below, IntArg(o.cursor));
    q := Sql(conds, |args| + 1);
    forall r: Row ensures Where(conds, args + [IntArg(o.limit)], r) <==> Where(conds, args, r) {
      ExtraArgument(conds, args, IntArg(o.limit), r);
    }
    assert (args + [IntArg(o.limit)])[..|args|] == args;
    args := args + [IntArg(o.limit)];
  }

  lemma ExtraArgument(conds: seq<Cond>, args: seq<Arg>, arg: Arg, r: Row)
    requires WellPlaced(conds, args)
    ensures Where(conds, args + [arg], r) <==> Where(conds, args, r)
  {
    assert forall i | 0 <= i < |args| :: (args + [arg])[i] == args[i];
    assert forall i | 0 <= i < |conds| :: Holds(conds[i], args + [arg], r) <==> Holds(conds[i], args, r);
  }

  /** No timestamp lies in the requested interval. */
  predicate EmptyInterval(k: Criteria) {
    k.since != ZERO_TIME && k.until != ZERO_TIME && k.until <= k.since
  }

  lemma PlainQueryIsFilter(k: Criteria, c: Columns)
    requires PlainAction(k)
    ensures Selected(k, c) <==> Asked(k, c)
  {
    if HasSuffix(k.action, ".*") {
      PlainPrefix(k.action[..|k.action| - 1], c.action);
    }
  }

  /**
   The query selects exactly what the caller asked for, on every possible row, if and
   only if the action prefix is plain (or the time interval is empty anyway).
   */
  lemma QueryIsFilterIffPlain(k: Criteria)
    ensures (forall c: Columns :: Selected(k, c) <==> Asked(k, c)) <==> PlainAction(k) || EmptyInterval(k)
  {
    if PlainAction(k) {
      forall c: Columns ensures Selected(k, c) <==> Asked(k, c) {
        PlainQueryIsFilter(k, c);
      }
    } else {
      var prefix := k.action[..|k.action| - 1];
      PrefixPatternIffPlain(prefix);
      var s :| Like(prefix + "%", s) != HasPrefix(s, prefix);
      var ts := if k.since != ZERO_TIME then k.since else k.until - 1;
      var c := Columns(ts, "", None, s, Some(k.subjectKind), Some(k.subjectId), None);
      assert !EmptyInterval(k) ==> Selected(k, c) != Asked(k, c);
    }
  }

  // ---- executing a page -------------------------------------------------------------------------

  function Clamp(limit: int): nat {
    if limit <= 0 then DEFAULT_LIMIT else if limit > MAX_LIMIT then MAX_LIMIT else limit
  }

  /** WHERE ... ORDER BY id DESC */
  function Execute(table: seq<Row>, conds: seq<Cond>, args: seq<Arg>): seq<Row> {
    if table == [] then []
    else
      var k := |table| - 1;
      (if Where(conds, args, table[k]) then [table[k]] else []) + Execute(table[..k], conds, args)
  }

  lemma {:induction false} ExecuteIsNewest(
      table: seq<Row>, keep: Columns -> bool, cursor: int, conds: seq<Cond>, args: seq<Arg>)
    requires forall r: Row :: Where(conds, args, r) <==> Picks(keep, cursor, r)
    ensures Execute(table, conds, args) == Newest(table, keep, cursor)
  {
    if table == [] {
    } else {
      ExecuteIsNewest(table[..|table| - 1], keep, cursor, conds, args);
    }
  }

  /** The entry's own fields lie within the caller's filter and below the cursor. */
  predicate Meets(o: Opts, e: Entry) {
    var k := o.criteria;
    && (k.subjectKind != "" ==> e.subjectKind == k.subjectKind)
    && (k.subjectId != "" ==> e.subjectId == k.subjectId)
    && (k.action != "" ==> ActionLike(k.action, e.action))
    && (k.action != "" && PlainAction(k) ==> ActionIs(k.action, e.action))
    && (k.since != ZERO_TIME ==> k.since <= e.ts)
    && (k.until != ZERO_TIME ==> e.ts < k.until)
    && (o.cursor > 0 ==> e.id < o.cursor)
  }

  lemma EntryMeets(table: seq<Row>, o: Opts, r: Row)
    requires r in Newest(table, Selector(o.criteria), o.cursor)
    ensures Meets(o, ScanRow(r))
  {
    NewestIsExact(table, Selector(o.criteria), o.cursor, r);
    if PlainAction(o.criteria) {
      PlainQueryIsFilter(o.criteria, r.item);
    }
  }

  /** The column's text, or nothing for NULL. */
  predicate ShowsText(shown: string, column: Option<string>) {
    match column
    case None => shown == ""
    case Some(text) => shown == text
  }

  /**
   One page over the table: an entry, field by field, for each row of the page the cursor
   asks for, each within the caller's filter, and the cursor of the next page when this
   one is full.
   */
  method Query(table: seq<Row>, o: Opts) returns (entries: seq<Entry>, nextCursor: int)
    ensures var page := Page(table, Selector(o.criteria), o.cursor, Clamp(o.limit));
            && |entries| == |page|
            && forall i | 0 <= i < |page| ::
                 var e, r := entries[i], page[i];
                 && e.id == r.id && e.ts == r.item.ts && e.actorKind == r.item.actorKind && e.action == r.item.action
                 && ShowsText(e.actorId, r.item.actorId) && ShowsText(e.subjectKind, r.item.subjectKind)
                 && ShowsText(e.subjectId, r.item.subjectId) && ShowsText(e.metadata, r.item.metadata)
    ensures forall e | e in entries :: Meets(o, e)
    ensures var full := if o.limit <= 0 then 100 else if o.limit > 500 then 500 else o.limit;
            && |entries| <= full
            && nextCursor == if |entries| == full then entries[full - 1].id else 0
    ensures nextCursor == NextCursor(table, Selector(o.criteria), o.cursor, Clamp(o.limit))
  {
    var limit: nat := if o.limit <= 0 then DEFAULT_LIMIT else o.limit;
    if limit > MAX_LIMIT {
      limit := MAX_LIMIT;
    }
    var q, args := BuildQuery(o.(limit := limit));
    ExecuteIsNewest(table, Selector(o.criteria), o.cursor, q.conds, args);
    var rows := Execute(table, q.conds, args);
    var n := args[q.limitPlaceholder - 1].n;
    if |rows| > n {
      rows := rows[..n];
    }
    entries := [];
    for i := 0 to |rows|
      invariant |entries| == i
      invariant forall j | 0 <= j < i :: entries[j] == ScanRow(rows[j])
    {
      entries := entries + [ScanRow(rows[i])];
    }
    forall e | e in entries ensures Meets(o, e) {
      var i :| 0 <= i < |entries| && entries[i] == e;
      assert rows[i] in rows;
      EntryMeets(table, o, rows[i]);
    }
    nextCursor := 0;
    if |entries| == limit {
      nextCursor := entries[|entries| - 1].id;
    }
  }

  /**
   Following nextCursor until it is 0: every row selected at the first call (and below
   its cursor, if it had one) is seen exactly once, newest first, whatever arrives
   between the calls, in floor(m / limit) + 1 pages.
   */
  lemma AuditWalkIsExact(tables: seq<seq<Row>>, o: Opts)
    requires tables != [] && Growing(tables[0], tables)
    requires |tables| >= |Newest(tables[0], Selector(o.criteria), o.cursor)| / Clamp(o.limit) + 1
    ensures var pages := Pages(tables, Selector(o.criteria), o.cursor, Clamp(o.limit));
            var seen := Flatten(pages);
            && (forall r :: r in seen <==>
                  r in tables[0] && Selected(o.criteria, r.item) && (o.cursor > 0 ==> r.id < o.cursor))
            && (forall i, j | 0 <= i < j < |seen| :: seen[i].id > seen[j].id)
            && |pages| == |seen| / Clamp(o.limit) + 1
  {
    var keep := Selector(o.criteria);
    PaginationIsExact(tables, keep, o.cursor, Clamp(o.limit));
    var seen := Flatten(Pages(tables, keep, o.cursor, Clamp(o.limit)));
    forall r: Row
      ensures r in seen <==>
                r in tables[0] && Selected(o.criteria, r.item) && (o.cursor > 0 ==> r.id < o.cursor)
    {
      assert Picks(keep, o.cursor, r) <==> Selected(o.criteria, r.item) && (o.cursor > 0 ==> r.id < o.cursor);
    }
  }
}
