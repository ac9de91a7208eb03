/**
 The `auto` embedder tiering of internal/app/app.go: at every boot the tier is
 decided from the rows already stored, so that a restart never falls from a dense
 embedder back to BM25 and re-embeds dense rows with it.
 */
module EmbedderTier {
  import opened Text

  const BM25 := "bm25"

  function LowerChar(c: char): char {
    if 'A' <= c <= 'Z' then ((c as int) + 32) as char else c
  }

  function ToLower(s: string): string {
    seq(|s|, i requires 0 <= i < |s| => LowerChar(s[i]))
  }

  predicate IsDense(name: string) {
    !HasPrefix(ToLower(name), BM25)
  }

  /** Dense is every name that does not begin with "bm25", in upper or lower case. */
  lemma DenseIff(name: string)
    ensures !IsDense(name) <==>
            |name| >= 4 && name[0] in "bB" && name[1] in "mM" && name[2] == '2' && name[3] == '5'
  {
    var low := ToLower(name);
    if |name| >= 4 {
      assert low[..4] == [low[0], low[1], low[2], low[3]];
      assert HasPrefix(low, BM25) <==> low[..4] == BM25;
    }
  }

  // ---- denseIntent over the row counts, in any iteration order -------------------------

  predicate Eligible(counts: map<string, int>, n: string) {
    n in counts && counts[n] > 0 && IsDense(n)
  }

  /** The loop's state after visiting `order`: the leader's name and its count. */
  function Scan(counts: map<string, int>, order: seq<string>): (string, int)
    requires forall n | n in order :: n in counts
  {
    if order == [] then ("", 0)
    else
      var k := |order| - 1;
      var (name, best) := Scan(counts, order[..k]);
      var n := order[k];
      if Eligible(counts, n) && counts[n] > best then (n, counts[n]) else (name, best)
  }

  method DenseIntent(counts: map<string, int>, order: seq<string>) returns (name: string, dense: bool)
    requires forall n | n in order :: n in counts
    ensures name == Scan(counts, order).0 && dense == (name != "")
  {
    var best := 0;
    name := "";
    for i := 0 to |order|
      invariant (name, best) == Scan(counts, order[..i])
    {
      assert order[..i + 1][..i] == order[..i];
      var n := order[i];
      if counts[n] <= 0 || !IsDense(n) {
        continue;
      }
      if counts[n] > best {
        name, best := n, counts[n];
      }
    }
    assert order[..|order|] == order;
    dense := name != "";
  }

  /** The leader is an eligible name with the largest count, or "" when nothing is eligible. */
  ghost predicate IsLeader(counts: map<string, int>, order: seq<string>, name: string, best: int) {
    && (forall n | n in order && Eligible(counts, n) :: counts[n] <= best)
    && ((name == "" && best == 0) || (name in order && Eligible(counts, name) && counts[name] == best))
  }

  lemma {:induction false} ScanFindsLeader(counts: map<string, int>, order: seq<string>)
    requires forall n | n in order :: n in counts
    ensures IsLeader(counts, order, Scan(counts, order).0, Scan(counts, order).1)
  {
    if order == [] {
    } else {
      var k := |order| - 1;
      ScanFindsLeader(counts, order[..k]);
      assert order == order[..k] + [order[k]];
    }
  }

  /** The i-th name visited is the first eligible one with the largest count. */
  ghost predicate FirstMax(counts: map<string, int>, order: seq<string>, i: int) {
    && 0 <= i < |order|
    && Eligible(counts, order[i])
    && (forall j | 0 <= j < i && Eligible(counts, order[j]) :: counts[order[j]] < counts[order[i]])
    && (forall j | i < j < |order| && Eligible(counts, order[j]) :: counts[order[j]] <= counts[order[i]])
  }

  /** In every iteration order the loop ends on the first maximum, and on nothing only if no name is eligible. */
  lemma {:induction false} ScanIsFirstMax(counts: map<string, int>, order: seq<string>) returns (i: int)
    requires forall n | n in order :: n in counts
    ensures if i < 0 then Scan(counts, order) == ("", 0) && forall n | n in order :: !Eligible(counts, n)
            else FirstMax(counts, order, i) && Scan(counts, order) == (order[i], counts[order[i]])
  {
    i := -1;
    if order == [] {
    } else {
      var k := |order| - 1;
      i := ScanIsFirstMax(counts, order[..k]);
      assert order == order[..k] + [order[k]];
      if Scan(counts, order) != Scan(counts, order[..k]) {
        i := k;
      }
    }
  }

  lemma FirstMaxOnce(counts: map<string, int>, order: seq<string>, i: int, j: int)
    requires FirstMax(counts, order, i) && FirstMax(counts, order, j)
    ensures i == j
  {
  }

  /** Some row comes from a dense embedder that has a name. */
  ghost predicate NamedDense(counts: map<string, int>) {
    exists n :: Eligible(counts, n) && n != ""
  }

  /** Blank-named rows outnumber (or, when `strictly` is off, at least match) every named dense embedder. */
  ghost predicate BlankLeads(counts: map<string, int>, strictly: bool) {
    && Eligible(counts, "")
    && forall n | Eligible(counts, n) && n != "" :: if strictly then counts[n] < counts[""] else counts[n] <= counts[""]
  }

  ghost predicate Enumerates(order: seq<string>, counts: map<string, int>) {
    forall n :: n in order <==> n in counts
  }

  function Verdict(counts: map<string, int>, order: seq<string>): bool
    requires forall n | n in order :: n in counts
  {
    Scan(counts, order).0 != ""
  }

  /** With every embedder named, the verdict is "some dense row exists", in every iteration order. */
  lemma VerdictIsPresence(counts: map<string, int>, order: seq<string>)
    requires Enumerates(order, counts) && !Eligible(counts, "")
    ensures Verdict(counts, order) <==> NamedDense(counts)
  {
    ScanFindsLeader(counts, order);
  }

  /** For every order: the verdict is that the first eligible name with the largest count is not blank. */
  lemma VerdictExactly(counts: map<string, int>, order: seq<string>)
    requires Enumerates(order, counts)
    ensures Verdict(counts, order) <==> exists i :: FirstMax(counts, order, i) && order[i] != ""
  {
    var i := ScanIsFirstMax(counts, order);
    if j :| FirstMax(counts, order, j) && order[j] != "" {
      if i >= 0 {
        FirstMaxOnce(counts, order, i, j);
      }
    }
  }

  /** The store's dense rows go unrecognised in every order, or are recognised in every order, off the tie. */
  lemma VerdictOffTheTie(counts: map<string, int>, order: seq<string>)
    requires Enumerates(order, counts)
    ensures BlankLeads(counts, true) ==> !Verdict(counts, order)
    ensures !BlankLeads(counts, false) ==> (Verdict(counts, order) <==> NamedDense(counts))
  {
    ScanFindsLeader(counts, order);
  }

  ghost function SomeOrder(names: set<string>): (order: seq<string>)
    ensures forall n :: n in order <==> n in names
    ensures |order| == |names|
  {
    if names == {} then []
    else
      var n :| n in names;
      [n] + SomeOrder(names - {n})
  }

  /** A map can be visited starting from any of its names, each name once. */
  lemma OrderStartingWith(counts: map<string, int>, first: string) returns (order: seq<string>)
    requires first in counts
    ensures Enumerates(order, counts) && |order| == |counts| && order[0] == first
  {
    order := [first] + SomeOrder(counts.Keys - {first});
  }

  /** The blank name ties for the lead with a named dense embedder. */
  ghost predicate BlankTies(counts: map<string, int>) {
    BlankLeads(counts, false) && !BlankLeads(counts, true)
  }

  /** Two visits of the same map, each name once, can end in different verdicts exactly on such a tie. */
  lemma OrderMattersIffTie(counts: map<string, int>)
    ensures (exists a, b :: && Enumerates(a, counts) && |a| == |counts|
                            && Enumerates(b, counts) && |b| == |counts|
                            && Verdict(counts, a) && !Verdict(counts, b))
            <==> BlankTies(counts)
  {
    if BlankTies(counts) {
      var n :| Eligible(counts, n) && n != "" && counts[n] == counts[""];
      var a := OrderStartingWith(counts, n);
      var b := OrderStartingWith(counts, "");
      assert FirstMax(counts, a, 0) && FirstMax(counts, b, 0);
      VerdictExactly(counts, a);
      VerdictExactly(counts, b);
      if i :| FirstMax(counts, b, i) && b[i] != "" {
        FirstMaxOnce(counts, b, 0, i);
      }
    }
    if a, b :| Enumerates(a, counts) && Enumerates(b, counts) && Verdict(counts, a) && !Verdict(counts, b) {
      VerdictOffTheTie(counts, a);
      VerdictOffTheTie(counts, b);
    }
  }

  // ---- the boot decision ------------------------------------------------------------------

  datatype Decision = DenseHTTP | BM25Floor | FailClosed

  function DecideAutoEmbedder(httpConfigured: bool, httpReachable: bool, intentDense: bool): Decision {
    if httpConfigured then (if httpReachable || intentDense then DenseHTTP else BM25Floor)
    else if intentDense then FailClosed else BM25Floor
  }

  type Id = nat

  datatype Memory = Memory(embedder: string, archived: bool)

  datatype Active = Off | Using(name: string)

  datatype State = State(rows: map<Id, Memory>, active: Active)

  /** Everything a boot reads from its surroundings. */
  datatype BootInput = BootInput(
    baseURL: string, model: string, reachable: bool,
    countsReadable: bool, order: seq<string>)

  predicate Configured(b: BootInput) {
    TrimSpace(b.baseURL) != "" && TrimSpace(b.model) != ""
  }

  /** NewOpenAICompatibleEmbedder strips trailing slashes and refuses an address that is nothing else. */
  predicate Buildable(b: BootInput) {
    TrimSpace(b.model) != "" && exists c | c in TrimSpace(b.baseURL) :: c != '/'
  }

  function DenseName(b: BootInput): string {
    "http:" + b.model
  }

  predicate Live(s: State, id: Id) {
    id in s.rows && !s.rows[id].archived
  }

  function LiveWith(s: State, n: string): set<Id> {
    set id | id in s.rows && !s.rows[id].archived && s.rows[id].embedder == n
  }

  function LiveNames(s: State): set<string> {
    set id | id in s.rows && !s.rows[id].archived :: s.rows[id].embedder
  }

  /** SELECT embedder, COUNT(*) over the rows that are not archived. */
  function CountByEmbedder(s: State): map<string, int> {
    var names := LiveNames(s);
    map n | n in names :: |LiveWith(s, n)|
  }

  lemma CountsShowLiveRows(s: State, n: string)
    ensures n in CountByEmbedder(s) <==> exists id :: Live(s, id) && s.rows[id].embedder == n
    ensures n in CountByEmbedder(s) ==> CountByEmbedder(s)[n] == |LiveWith(s, n)| > 0
    ensures forall id :: id in LiveWith(s, n) <==> Live(s, id) && s.rows[id].embedder == n
  {
    if n in LiveNames(s) {
      var id :| id in s.rows && !s.rows[id].archived && s.rows[id].embedder == n;
      assert Live(s, id) && id in LiveWith(s, n);
    }
  }

  function IntentDense(s: State, b: BootInput): bool
    requires Enumerates(b.order, CountByEmbedder(s))
  {
    b.countsReadable && Verdict(CountByEmbedder(s), b.order)
  }

  function ResolveAuto(s: State, b: BootInput): Active
    requires Enumerates(b.order, CountByEmbedder(s))
  {
    match DecideAutoEmbedder(Configured(b), Configured(b) && b.reachable, IntentDense(s, b))
    case DenseHTTP => Using(if Buildable(b) then DenseName(b) else BM25)
    case BM25Floor => Using(BM25)
    case FailClosed => Off
  }

  // ---- runs ------------------------------------------------------------------------------------

  datatype Step =
    | Boot(input: BootInput)
    | Store(id: Id)
    | Delete(id: Id)
    | Archive(id: Id)
    | Restore(id: Id)
    | Reembed(id: Id)

  ghost predicate Enabled(s: State, step: Step) {
    match step
    case Boot(b) => Enumerates(b.order, CountByEmbedder(s))
    case Store(id) => s.active.Using? && id !in s.rows
    case Delete(id) => id in s.rows
    case Archive(id) => id in s.rows
    case Restore(id) => id in s.rows
    case Reembed(id) => s.active.Using? && Live(s, id)
  }

  function Next(s: State, step: Step): State
    requires Enabled(s, step)
  {
    match step
    case Boot(b) => s.(active := ResolveAuto(s, b))
    case Store(id) => s.(rows := s.rows[id := Memory(s.active.name, false)])
    case Delete(id) => s.(rows := s.rows - {id})
    case Archive(id) => s.(rows := s.rows[id := s.rows[id].(archived := true)])
    case Restore(id) => s.(rows := s.rows[id := s.rows[id].(archived := false)])
    case Reembed(id) => s.(rows := s.rows[id := s.rows[id].(embedder := s.active.name)])
  }

  ghost predicate HoldsDense(s: State) {
    exists id :: Live(s, id) && IsDense(s.rows[id].embedder)
  }

  predicate OnFloor(s: State) {
    s.active.Using? && !IsDense(s.active.name)
  }

  /** The floor is active only while the store holds no dense row. */
  ghost predicate Tiered(s: State) {
    OnFloor(s) ==> !HoldsDense(s)
  }

  /** Embedders always have a name. */
  ghost predicate Named(s: State) {
    && (forall id | id in s.rows :: s.rows[id].embedder != "")
    && (s.active.Using? ==> s.active.name != "")
  }

  /** What a step must meet to be upgrade-only; each part can be checked before the step. */
  ghost predicate Safe(s: State, step: Step) {
    match step
    case Boot(b) => HoldsDense(s) ==> SafeBoot(b)
    case Restore(id) => id in s.rows && (OnFloor(s) ==> !IsDense(s.rows[id].embedder))
    case _ => true
  }

  /** Address and model each have a character that is not white space. */
  predicate Given(b: BootInput) {
    !AllSpace(b.baseURL) && !AllSpace(b.model)
  }

  /** Between its surrounding white space the address has nothing but slashes. */
  predicate OnlySlashes(b: BootInput) {
    forall c | c in TrimSpace(b.baseURL) :: c == '/'
  }

  lemma ConfiguredIffGiven(b: BootInput)
    ensures Configured(b) <==> Given(b)
    ensures Configured(b) ==> (Buildable(b) <==> !OnlySlashes(b))
  {
    BlankIff(b.baseURL);
    BlankIff(b.model);
  }

  /** The counts were readable, or the endpoint answered; and a given address is more than slashes. */
  predicate SafeBoot(b: BootInput) {
    && (b.countsReadable || (Given(b) && b.reachable))
    && (Given(b) ==> !OnlySlashes(b))
  }

  lemma NamesAreTiers(b: BootInput)
    ensures !IsDense(BM25) && IsDense(DenseName(b)) && DenseName(b) != ""
  {
    assert ToLower(BM25) == BM25;
    assert ToLower(DenseName(b))[0] == 'h' && BM25[0] == 'b';
  }

  lemma IntentIsPresence(s: State, b: BootInput)
    requires Named(s) && Enumerates(b.order, CountByEmbedder(s))
    ensures Verdict(CountByEmbedder(s), b.order) <==> HoldsDense(s)
  {
    var counts := CountByEmbedder(s);
    forall n ensures Eligible(counts, n) <==> IsDense(n) && exists id :: Live(s, id) && s.rows[id].embedder == n {
      CountsShowLiveRows(s, n);
    }
    VerdictIsPresence(counts, b.order);
    if id :| Live(s, id) && IsDense(s.rows[id].embedder) {
      assert Eligible(counts, s.rows[id].embedder);
    }
  }

  /** A boot on a dense store falls to the floor exactly when it is not a safe one. */
  lemma BootFallsIffUnsafe(s: State, b: BootInput)
    requires Named(s) && HoldsDense(s) && Enumerates(b.order, CountByEmbedder(s))
    ensures ResolveAuto(s, b) == Using(BM25) <==> !SafeBoot(b)
  {
    ConfiguredIffGiven(b);
    IntentIsPresence(s, b);
    NamesAreTiers(b);
  }

  /**
   Every boot, in terms of its own input: memory is switched off exactly when dense rows
   are known and address or model is blank; the dense embedder is chosen exactly when
   both are given, the address is more than slashes, and the endpoint answers or dense
   rows are known; everything else is the floor.
   */
  lemma BootOutcomes(s: State, b: BootInput)
    requires Named(s) && Enumerates(b.order, CountByEmbedder(s))
    ensures var dense := b.countsReadable && HoldsDense(s);
            var blank := AllSpace(b.baseURL) || AllSpace(b.model);
            && (ResolveAuto(s, b) == Off <==> dense && blank)
            && (ResolveAuto(s, b) == Using("http:" + b.model) <==>
                !blank && (b.reachable || dense) && exists c :: c in TrimSpace(b.baseURL) && c != '/')
            && (ResolveAuto(s, b) in {Off, Using("http:" + b.model), Using("bm25")})
  {
    ConfiguredIffGiven(b);
    IntentIsPresence(s, b);
    NamesAreTiers(b);
  }

  /** For every step: it keeps the tiering exactly when it is safe. */
  lemma KeepsTierIffSafe(s: State, step: Step)
    requires Named(s) && Tiered(s) && Enabled(s, step)
    ensures Tiered(Next(s, step)) <==> Safe(s, step)
    ensures Named(Next(s, step))
  {
    var t := Next(s, step);
    match step
    case Boot(b) =>
      NamesAreTiers(b);
      assert HoldsDense(t) <==> HoldsDense(s) by {
        assert forall id :: Live(t, id) <==> Live(s, id);
      }
      if HoldsDense(s) {
        BootFallsIffUnsafe(s, b);
      }
    case Restore(id) =>
      assert Live(t, id);
      assert forall i :: Live(t, i) <==> Live(s, i) || i == id;
    case _ =>
      assert OnFloor(t) <==> OnFloor(s);
      assert forall i | Live(t, i) :: (s.active.Using? && t.rows[i].embedder == s.active.name) || Live(s, i);
  }

  ghost predicate Legal(s: State, steps: seq<Step>)
    decreases |steps|
  {
    steps == [] || (Enabled(s, steps[0]) && Legal(Next(s, steps[0]), steps[1..]))
  }

  ghost function Exec(s: State, steps: seq<Step>): State
    requires Legal(s, steps)
    decreases |steps|
  {
    if steps == [] then s else Exec(Next(s, steps[0]), steps[1..])
  }

  /** Every step of the run is safe where it happens. */
  ghost predicate AllSafe(s: State, steps: seq<Step>)
    requires Legal(s, steps)
    decreases |steps|
  {
    steps != [] ==> Safe(s, steps[0]) && AllSafe(Next(s, steps[0]), steps[1..])
  }

  /** Every state of the run is tiered. */
  ghost predicate AlwaysTiered(s: State, steps: seq<Step>)
    requires Legal(s, steps)
    decreases |steps|
  {
    Tiered(s) && (steps != [] ==> AlwaysTiered(Next(s, steps[0]), steps[1..]))
  }

  const EMPTY := State(map[], Off)

  lemma {:induction false} StaysTieredIff(s: State, steps: seq<Step>)
    requires Named(s) && Tiered(s) && Legal(s, steps)
    ensures AlwaysTiered(s, steps) <==> AllSafe(s, steps)
    ensures AllSafe(s, steps) ==> Tiered(Exec(s, steps))
    decreases |steps|
  {
    if steps == [] {
    } else {
      KeepsTierIffSafe(s, steps[0]);
      if Safe(s, steps[0]) {
        StaysTieredIff(Next(s, steps[0]), steps[1..]);
      }
    }
  }

  /**
   Over every run from an empty store: BM25 is never active next to a dense row if and only if
   every step was safe.
   */
  lemma AlwaysTieredIff(steps: seq<Step>)
    requires Legal(EMPTY, steps)
    ensures AlwaysTiered(EMPTY, steps) <==> AllSafe(EMPTY, steps)
  {
    StaysTieredIff(EMPTY, steps);
  }

  /** Upgrade-only: after any safe run from an empty store, no step turns a stored dense row into a BM25 row. */
  lemma UpgradeOnly(steps: seq<Step>, step: Step, id: Id)
    requires Legal(EMPTY, steps) && AllSafe(EMPTY, steps)
    requires Enabled(Exec(EMPTY, steps), step)
    ensures var s := Exec(EMPTY, steps);
            && (OnFloor(s) ==> !HoldsDense(s))
            && (Live(s, id) && IsDense(s.rows[id].embedder) && id in Next(s, step).rows
                ==> IsDense(Next(s, step).rows[id].embedder))
  {
    StaysTieredIff(EMPTY, steps);
  }

  // ---- what the steps do to the rows ----------------------------------------------------------

  /** A boot touches no row; every other step touches only its own, and the active embedder stays. */
  lemma StepIsLocal(s: State, step: Step, id: Id)
    requires Enabled(s, step) && id in s.rows && (step.Boot? || id != step.id)
    ensures id in Next(s, step).rows && Next(s, step).rows[id] == s.rows[id]
    ensures !step.Boot? ==> Next(s, step).active == s.active
  {
  }

  /** What becomes of the step's own row. */
  lemma StepOnOwnRow(s: State, step: Step)
    requires Enabled(s, step) && !step.Boot?
    ensures var t := Next(s, step);
            && (step.id in t.rows <==> !step.Delete?)
            && (Live(t, step.id) <==> step.Store? || step.Restore? || step.Reembed?)
            && (step.Store? || step.Reembed? ==> t.rows[step.id].embedder == s.active.name)
            && (step.Archive? || step.Restore? ==> t.rows[step.id].embedder == s.rows[step.id].embedder)
  {
  }

  function Pass(ids: seq<Id>): seq<Step> {
    if ids == [] then [] else [Reembed(ids[0])] + Pass(ids[1..])
  }

  /**
   A re-embed pass over live rows brings exactly those rows to the active embedder, and
   adds, removes, archives and restores none: a pass over all of them completes an upgrade.
   */
  lemma {:induction false} ReembedPass(s: State, ids: seq<Id>)
    requires s.active.Using? && forall id | id in ids :: Live(s, id)
    ensures Legal(s, Pass(ids))
    ensures var t := Exec(s, Pass(ids));
            && t.active == s.active && t.rows.Keys == s.rows.Keys
            && forall id | id in s.rows ::
                 t.rows[id] == if id in ids then Memory(s.active.name, false) else s.rows[id]
    decreases |ids|
  {
    if ids == [] {
    } else {
      var t := Next(s, Reembed(ids[0]));
      assert ids[0] in ids && forall id | id in ids[1..] :: id in ids;
      assert forall id | id in ids :: id == ids[0] || id in ids[1..];
      forall id | id in ids[1..] ensures Live(t, id) {
        assert Live(s, id);
      }
      ReembedPass(t, ids[1..]);
      ExecCons(s, Reembed(ids[0]), Pass(ids[1..]));
    }
  }

  // ---- a run that breaks the tiering ------------------------------------------------------------

  lemma NoLiveRowsNoCounts(s: State)
    requires forall id :: !Live(s, id)
    ensures Enumerates([], CountByEmbedder(s)) && !HoldsDense(s)
  {
    forall n ensures n !in CountByEmbedder(s) {
      CountsShowLiveRows(s, n);
    }
  }

  lemma BootOnNoRows(s: State, b: BootInput)
    requires (forall id :: !Live(s, id)) && Named(s) && b.order == [] && b.countsReadable
    requires b.reachable && Configured(b) ==> Buildable(b)
    ensures Enabled(s, Boot(b))
    ensures Next(s, Boot(b)) == s.(active := Using(if b.reachable && Configured(b) then DenseName(b) else BM25))
  {
    NoLiveRowsNoCounts(s);
    IntentIsPresence(s, b);
  }

  lemma OneLetterEndpoint(b: BootInput)
    requires b.baseURL == "u" && b.model == "m"
    ensures Configured(b) && Buildable(b)
  {
    assert Trimmed("u") && Trimmed("m");
    assert 'u' in TrimSpace(b.baseURL);
  }

  lemma UnsetEndpoint(b: BootInput)
    requires b.baseURL == "" && b.model == ""
    ensures !Configured(b)
  {
  }

  lemma ExecCons(s: State, step: Step, rest: seq<Step>)
    requires Enabled(s, step) && Legal(Next(s, step), rest)
    ensures Legal(s, [step] + rest) && Exec(s, [step] + rest) == Exec(Next(s, step), rest)
  {
    assert ([step] + rest)[1..] == rest;
  }

  /** A dense row restored on the floor. */
  lemma RestoreOnFloor(s: State, id: Id)
    requires OnFloor(s) && id in s.rows && IsDense(s.rows[id].embedder)
    ensures !Tiered(Next(s, Restore(id)))
  {
    assert Live(Next(s, Restore(id)), id);
  }

  /**
   Reached from an empty store: boot onto the dense embedder, store a row, archive it,
   boot without an endpoint onto the floor, and restore the row. BM25 is then active
   next to a live dense row.
   */
  lemma RestoreCanBreakTier(dense: BootInput, floor: BootInput)
    requires dense == BootInput("u", "m", true, true, []) && floor == BootInput("", "", false, true, [])
    ensures var steps := [Boot(dense), Store(0), Archive(0), Boot(floor), Restore(0)];
            Legal(EMPTY, steps) && !Tiered(Exec(EMPTY, steps))
  {
    OneLetterEndpoint(dense);
    UnsetEndpoint(floor);
    NamesAreTiers(dense);
    BootOnNoRows(EMPTY, dense);
    var s1 := EMPTY.(active := Using(DenseName(dense)));
    var s2, s3 := Next(s1, Store(0)), Next(Next(s1, Store(0)), Archive(0));
    BootOnNoRows(s3, floor);
    var s4 := s3.(active := Using(BM25));
    RestoreOnFloor(s4, 0);
    ExecCons(s4, Restore(0), []);
    ExecCons(s3, Boot(floor), [Restore(0)] + []);
    ExecCons(s2, Archive(0), [Boot(floor)] + ([Restore(0)] + []));
    ExecCons(s1, Store(0), [Archive(0)] + ([Boot(floor)] + ([Restore(0)] + [])));
    ExecCons(EMPTY, Boot(dense), [Store(0)] + ([Archive(0)] + ([Boot(floor)] + ([Restore(0)] + []))));
    assert [Boot(dense)] + ([Store(0)] + ([Archive(0)] + ([Boot(floor)] + ([Restore(0)] + []))))
        == [Boot(dense), Store(0), Archive(0), Boot(floor), Restore(0)];
  }
}
