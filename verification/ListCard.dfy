/**
 The /list card of internal/app/channel_commands.go: sessions sorted live-first and
 newest-first, cut to twelve, with a keyboard of select, end and resume buttons.
 */
module ListCard {
  import opened Text
  import opened Sequences

  const LIST_SESSIONS_MAX: nat := 12
  const PER_ROW: nat := 2

  datatype State = Pending | Running | Idle | Stopped | Ended | Interrupted

  datatype Session = Session(id: string, state: State, startedAt: int, endedAt: Option<int>)

  datatype Style = Primary | Danger

  datatype Button = Button(value: string, style: Style)

  predicate IsLive(s: Session) {
    s.state.Pending? || s.state.Running? || s.state.Idle?
  }

  function ActivityTime(s: Session): int {
    if s.endedAt.Some? then s.endedAt.value else s.startedAt
  }

  // ---- the order --------------------------------------------------------------------------

  /** The comparison given to sort.Slice. */
  predicate Before(a: Session, b: Session) {
    if IsLive(a) != IsLive(b) then IsLive(a) else ActivityTime(a) > ActivityTime(b)
  }

  /** It is a strict weak order, which is what sort.Slice asks for. */
  lemma BeforeIsStrictWeak(a: Session, b: Session, c: Session)
    ensures !Before(a, a)
    ensures Before(a, b) && Before(b, c) ==> Before(a, c)
    ensures !Before(a, b) && !Before(b, c) ==> !Before(a, c)
  {
  }

  ghost predicate Sorted(s: seq<Session>) {
    forall i, j | 0 <= i < j < |s| :: !Before(s[j], s[i])
  }

  /** Any result sort.Slice may produce: the sort is not stable, so ties come in any order. */
  ghost predicate IsSortOf(sorted: seq<Session>, all: seq<Session>) {
    multiset(sorted) == multiset(all) && Sorted(sorted)
  }

  function Insert(s: Session, sorted: seq<Session>): seq<Session> {
    if sorted == [] || Before(s, sorted[0]) then [s] + sorted else [sorted[0]] + Insert(s, sorted[1..])
  }

  lemma SortedCons(first: Session, rest: seq<Session>)
    requires Sorted(rest) && forall x | x in rest :: !Before(x, first)
    ensures Sorted([first] + rest)
  {
  }

  lemma {:induction false} InsertSorts(s: Session, sorted: seq<Session>)
    requires Sorted(sorted)
    ensures Sorted(Insert(s, sorted)) && multiset(Insert(s, sorted)) == multiset(sorted) + multiset{s}
    decreases |sorted|
  {
    if sorted == [] {
    } else if Before(s, sorted[0]) {
      SortedCons(s, sorted);
    } else {
      var rest := Insert(s, sorted[1..]);
      InsertSorts(s, sorted[1..]);
      assert sorted == [sorted[0]] + sorted[1..];
      forall x | x in rest ensures !Before(x, sorted[0]) {
        assert x in multiset(rest);
        assert x == s || x in sorted[1..];
      }
      SortedCons(sorted[0], rest);
    }
  }

  /** Every session list has such a result. */
  function Sort(all: seq<Session>): (r: seq<Session>)
    ensures IsSortOf(r, all)
  {
    if all == [] then []
    else
      var k := |all| - 1;
      assert all == all[..k] + [all[k]];
      InsertSorts(all[k], Sort(all[..k]));
      Insert(all[k], Sort(all[..k]))
  }

  function Shown(sorted: seq<Session>): seq<Session> {
    if |sorted| > LIST_SESSIONS_MAX then sorted[..LIST_SESSIONS_MAX] else sorted
  }

  /** An ended session is shown only when every live one is, with all its copies. */
  lemma EndedOnlyAfterAllLive(all: seq<Session>, sorted: seq<Session>, ended: Session, live: Session)
    requires IsSortOf(sorted, all)
    requires ended in Shown(sorted) && !IsLive(ended) && IsLive(live)
    ensures multiset(Shown(sorted))[live] == multiset(all)[live]
  {
    var shown := Shown(sorted);
    var rest := sorted[|shown|..];
    assert sorted == shown + rest;
    var i :| 0 <= i < |shown| && shown[i] == ended;
    forall j | 0 <= j < |rest| ensures rest[j] != live {
      assert sorted[|shown| + j] == rest[j] && sorted[i] == ended;
      assert !Before(sorted[|shown| + j], sorted[i]);
    }
    assert live !in rest;
  }

  // ---- chunks -------------------------------------------------------------------------------------

  /** Rows of `per`, all full except possibly the last, which is not empty. */
  ghost predicate Chunked<T>(rows: seq<seq<T>>, per: nat) {
    && (forall i | 0 <= i < |rows| :: 0 < |rows[i]| <= per)
    && (forall i | 0 <= i < |rows| - 1 :: |rows[i]| == per)
  }

  method ChunkButtons(buttons: seq<Button>, per: nat) returns (out: seq<seq<Button>>)
    requires per > 0
    ensures Flatten(out) == buttons && Chunked(out, per)
  {
    out := [];
    var i := 0;
    while i < |buttons|
      invariant 0 <= i <= |buttons|
      invariant Flatten(out) == buttons[..i]
      invariant Chunked(out, per)
      invariant i < |buttons| ==> forall k | 0 <= k < |out| :: |out[k]| == per
    {
      var end := i + per;
      if end > |buttons| {
        end := |buttons|;
      }
      assert (out + [buttons[i..end]])[..|out|] == out;
      assert buttons[..end] == buttons[..i] + buttons[i..end];
      out := out + [buttons[i..end]];
      i := end;
    }
    assert buttons[..i] == buttons;
  }

  // ---- the keyboard ---------------------------------------------------------------------------------

  datatype Action = Select | End | Resume

  function Verb(a: Action): string {
    match a
    case Select => "cmd:/select "
    case End => "cmd:/end "
    case Resume => "cmd:/resume "
  }

  function ButtonFor(a: Action, s: Session): Button {
    Button(Verb(a) + s.id, if a.End? then Danger else Primary)
  }

  /** Select and end belong to live sessions, resume to the others. */
  predicate Applies(a: Action, s: Session) {
    if a.Resume? then !IsLive(s) else IsLive(s)
  }

  function OwnButtons(a: Action, s: Session): seq<Button> {
    if Applies(a, s) then [ButtonFor(a, s)] else []
  }

  function ButtonsOf(a: Action, shown: seq<Session>): seq<Button> {
    if shown == [] then [] else ButtonsOf(a, shown[..|shown| - 1]) + OwnButtons(a, shown[|shown| - 1])
  }

  /** All buttons in reading order: select, end, resume. */
  function Keyboard(shown: seq<Session>): seq<Button> {
    ButtonsOf(Select, shown) + ButtonsOf(End, shown) + ButtonsOf(Resume, shown)
  }

  /** The buttons in rows of two, only the last of them possibly shorter. */
  ghost predicate IsGroup(rows: seq<seq<Button>>, buttons: seq<Button>) {
    Flatten(rows) == buttons && Chunked(rows, 2)
  }

  /** Select rows above end rows above resume rows. */
  ghost predicate InThreeGroups(rows: seq<seq<Button>>, shown: seq<Session>) {
    exists t, e, r :: && rows == t + e + r
                      && IsGroup(t, ButtonsOf(Select, shown))
                      && IsGroup(e, ButtonsOf(End, shown))
                      && IsGroup(r, ButtonsOf(Resume, shown))
  }

  /** One more session adds its buttons at the end. */
  lemma ButtonsOfNext(a: Action, shown: seq<Session>, i: nat)
    requires i < |shown|
    ensures ButtonsOf(a, shown[..i + 1]) == ButtonsOf(a, shown[..i]) + OwnButtons(a, shown[i])
  {
    assert shown[..i + 1][..i] == shown[..i];
  }

  /** Rows of three keyboards, one below the other. */
  lemma FlattenThree<T>(a: seq<seq<T>>, b: seq<seq<T>>, c: seq<seq<T>>)
    ensures Flatten(a + b + c) == Flatten(a) + Flatten(b) + Flatten(c)
  {
    FlattenConcat(a, b);
    FlattenConcat(a + b, c);
  }

  /** Talk rows, then end rows, then resume rows, two buttons a row. */
  method ListSessionsCard(sorted: seq<Session>) returns (shown: seq<Session>, rows: seq<seq<Button>>)
    ensures shown == Shown(sorted)
    ensures Flatten(rows) == Keyboard(shown)
    ensures InThreeGroups(rows, shown)
  {
    shown := sorted;
    if |shown| > LIST_SESSIONS_MAX {
      shown := shown[..LIST_SESSIONS_MAX];
    }
    var talk: seq<Button>, ends: seq<Button>, resume: seq<Button> := [], [], [];
    for i := 0 to |shown|
      invariant talk == ButtonsOf(Select, shown[..i])
      invariant ends == ButtonsOf(End, shown[..i])
      invariant resume == ButtonsOf(Resume, shown[..i])
    {
      ButtonsOfNext(Select, shown, i);
      ButtonsOfNext(End, shown, i);
      ButtonsOfNext(Resume, shown, i);
      var s := shown[i];
      if IsLive(s) {
        talk := talk + [ButtonFor(Select, s)];
        ends := ends + [ButtonFor(End, s)];
      } else {
        resume := resume + [ButtonFor(Resume, s)];
      }
    }
    assert shown[..|shown|] == shown;
    var t := ChunkButtons(talk, PER_ROW);
    var e := ChunkButtons(ends, PER_ROW);
    var r := ChunkButtons(resume, PER_ROW);
    FlattenThree(t, e, r);
    assert IsGroup(t, ButtonsOf(Select, shown)) && IsGroup(e, ButtonsOf(End, shown));
    assert IsGroup(r, ButtonsOf(Resume, shown));
    rows := t + e + r;
  }

  // ---- exactly the right buttons -------------------------------------------------------------------------

  ghost predicate DistinctIds(shown: seq<Session>) {
    forall i, j | 0 <= i < j < |shown| :: shown[i].id != shown[j].id
  }

  lemma SameButton(a: Action, s: Session, b: Action, t: Session)
    ensures ButtonFor(a, s).value == ButtonFor(b, t).value ==> a == b && s.id == t.id
  {
    var x, y := Verb(a), Verb(b);
    if x + s.id == y + t.id {
      assert (x + s.id)[5] == x[5] && (y + t.id)[5] == y[5];
      assert (x + s.id)[|x|..] == s.id && (y + t.id)[|y|..] == t.id;
    }
  }

  /** How often this action is offered for this session. */
  function Offers(shown: seq<Session>, a: Action, s: Session): nat {
    multiset(Keyboard(shown))[ButtonFor(a, s)]
  }

  /** How many shown sessions carry this id and take this action. */
  function Takers(shown: seq<Session>, a: Action, id: string): nat {
    if shown == [] then 0
    else
      var k := |shown| - 1;
      Takers(shown[..k], a, id) + if shown[k].id == id && Applies(a, shown[k]) then 1 else 0
  }

  lemma OwnCount(b: Action, t: Session, a: Action, s: Session)
    ensures multiset(OwnButtons(b, t))[ButtonFor(a, s)] == if a == b && t.id == s.id && Applies(a, t) then 1 else 0
  {
    SameButton(a, s, b, t);
  }

  lemma CountConcat(a: seq<Button>, b: seq<Button>, x: Button)
    ensures multiset(a + b)[x] == multiset(a)[x] + multiset(b)[x]
  {
  }

  lemma {:induction false} OffersOf(shown: seq<Session>, b: Action, a: Action, s: Session)
    ensures multiset(ButtonsOf(b, shown))[ButtonFor(a, s)] == if a == b then Takers(shown, a, s.id) else 0
  {
    if shown == [] {
    } else {
      var k := |shown| - 1;
      OffersOf(shown[..k], b, a, s);
      CountConcat(ButtonsOf(b, shown[..k]), OwnButtons(b, shown[k]), ButtonFor(a, s));
      OwnCount(b, shown[k], a, s);
    }
  }

  lemma {:induction false} NoTakers(shown: seq<Session>, a: Action, id: string)
    requires forall i | 0 <= i < |shown| :: shown[i].id != id
    ensures Takers(shown, a, id) == 0
  {
    if shown == [] {
    } else {
      NoTakers(shown[..|shown| - 1], a, id);
    }
  }

  lemma {:induction false} OneTaker(shown: seq<Session>, a: Action, i: nat)
    requires DistinctIds(shown) && i < |shown|
    ensures Takers(shown, a, shown[i].id) == if Applies(a, shown[i]) then 1 else 0
  {
    var k := |shown| - 1;
    if i == k {
      NoTakers(shown[..k], a, shown[k].id);
    } else {
      OneTaker(shown[..k], a, i);
    }
  }

  /**
   For distinct ids: a shown live session has exactly one select and one end button and
   no resume, a shown ended one exactly one resume and nothing else, each with its full id.
   */
  lemma ExactlyTheRightButtons(shown: seq<Session>, i: nat, a: Action)
    requires DistinctIds(shown) && i < |shown|
    ensures Offers(shown, a, shown[i]) == if Applies(a, shown[i]) then 1 else 0
  {
    var s := shown[i];
    OffersOf(shown, Select, a, s);
    OffersOf(shown, End, a, s);
    OffersOf(shown, Resume, a, s);
    OneTaker(shown, a, i);
  }

  // ---- from the stored list to the card -------------------------------------------------------------------

  lemma {:induction false} DistinctMeansOnce(all: seq<Session>, s: Session)
    requires DistinctIds(all)
    ensures multiset(all)[s] <= 1
  {
    if all == [] {
    } else {
      var k := |all| - 1;
      DistinctMeansOnce(all[..k], s);
      assert all == all[..k] + [all[k]];
      assert all[k] !in all[..k];
    }
  }

  /** Reordering keeps ids distinct. */
  lemma PermutationKeepsDistinct(all: seq<Session>, sorted: seq<Session>)
    requires DistinctIds(all) && multiset(sorted) == multiset(all)
    ensures DistinctIds(sorted)
  {
    forall i, j | 0 <= i < j < |sorted| ensures sorted[i].id != sorted[j].id {
      var a, b := sorted[i], sorted[j];
      assert a in multiset(sorted) && b in multiset(sorted);
      assert a in all && b in all;
      assert sorted == sorted[..j] + sorted[j..];
      assert a in sorted[..j] && b in sorted[j..];
      assert a == b ==> multiset(sorted)[a] >= 2;
      DistinctMeansOnce(all, a);
    }
  }

  /**
   For every stored list with distinct ids and every result of the sort: at most twelve are
   shown; a live one has exactly one select and one end button and no resume, an ended one
   exactly one resume and nothing else, each with its full id.
   */
  lemma CardIsRight(all: seq<Session>, sorted: seq<Session>, i: nat)
    requires DistinctIds(all) && IsSortOf(sorted, all) && i < |Shown(sorted)|
    ensures |Shown(sorted)| <= 12
    ensures var s := Shown(sorted)[i];
            var offered := multiset(Keyboard(Shown(sorted)));
            var live := s.state in {Pending, Running, Idle};
            && offered[Button("cmd:/select " + s.id, Primary)] == (if live then 1 else 0)
            && offered[Button("cmd:/end " + s.id, Danger)] == (if live then 1 else 0)
            && offered[Button("cmd:/resume " + s.id, Primary)] == (if live then 0 else 1)
  {
    PermutationKeepsDistinct(all, sorted);
    ExactlyTheRightButtons(Shown(sorted), i, Select);
    ExactlyTheRightButtons(Shown(sorted), i, End);
    ExactlyTheRightButtons(Shown(sorted), i, Resume);
  }

  lemma {:induction false} OnlyOwnButtons(a: Action, shown: seq<Session>, b: Button)
    requires b in ButtonsOf(a, shown)
    ensures exists s :: s in shown && Applies(a, s) && b == ButtonFor(a, s)
  {
    var k := |shown| - 1;
    assert shown == shown[..k] + [shown[k]];
    if b in OwnButtons(a, shown[k]) {
      assert shown[k] in shown;
    } else {
      OnlyOwnButtons(a, shown[..k], b);
    }
  }

  /** No other button: each one belongs to a shown session and carries its id. */
  lemma NoOtherButton(shown: seq<Session>, b: Button)
    requires b in Keyboard(shown)
    ensures exists s :: s in shown &&
              b.value in {"cmd:/select " + s.id, "cmd:/end " + s.id, "cmd:/resume " + s.id}
  {
    var a := if b in ButtonsOf(Select, shown) then Select else if b in ButtonsOf(End, shown) then End else Resume;
    OnlyOwnButtons(a, shown, b);
  }

  /**
   The order of the card, also between what is shown and what is cut off: live sessions come
   first, and among sessions of the same kind none precedes one with later activity, which
   is the end of an ended session and the start of any other.
   */
  lemma NewestFirst(all: seq<Session>, sorted: seq<Session>, i: nat, j: nat)
    requires IsSortOf(sorted, all) && i < j < |sorted|
    ensures |Shown(sorted)| == (if |sorted| > 12 then 12 else |sorted|) && Shown(sorted) <= sorted
    ensures var s, t := sorted[i], sorted[j];
            var live, next := s.state in {Pending, Running, Idle}, t.state in {Pending, Running, Idle};
            && (next ==> live)
            && (live == next ==>
                  (if t.endedAt.Some? then t.endedAt.value else t.startedAt)
                  <= if s.endedAt.Some? then s.endedAt.value else s.startedAt)
  {
    assert !Before(sorted[j], sorted[i]);
  }
}
