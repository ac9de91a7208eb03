/**
 Logins that overlap a credential rotation (internal/auth/auth.go), as a step system
 at the granularity of `mu`, `credsMu` and the atomic credentials pointer.

 A login is two steps: it loads the credentials pointer and verifies the password
 against that snapshot without a lock, and later inserts its token under `mu`. A
 rotation holds `credsMu` throughout and swaps the pointer and empties the token map
 in two separate steps. A login is named by the token it will insert. Revoke and the
 lazy deletion of Validate are deletions of one token.

 `swaps`, `past` and `under` are history: the number of pointer swaps, the credentials
 between them, and how many swaps a token's password check had seen. No step reads them.
 */
module RotationRace {
  import opened KeyFile
  import opened AuthService

  /**
   Nobody rotates; a rotation verified the current password; it has swapped the pointer and not
   yet emptied the map.
   */
  datatype Rotation = Idle | Locked | Swapped

  /** A login between its password check and its insert. */
  datatype Checked = Checked(user: string, swaps: nat)

  datatype State = State(
    creds: AdminCreds,
    rotation: Rotation,
    pending: map<Token, Checked>,
    tokens: TokenMap,
    used: set<Token>,
    swaps: nat,
    past: seq<AdminCreds>,
    under: map<Token, nat>)

  datatype Step =
    | Check(token: Token, user: string, password: Bytes)
    | Insert(token: Token, now: Time, lifetime: int)
    | Delete(token: Token)
    | Lock(current: Bytes)
    | Abort
    | Swap(creds: AdminCreds)
    | RevokeAll

  predicate Enabled(s: State, step: Step) {
    match step
    case Check(token, user, password) => token != "" && token !in s.used && Accepts(s.creds, user, password)
    case Insert(token, _, lifetime) => token in s.pending && lifetime > 0
    case Delete(_) => true
    case Lock(current) => s.rotation == Idle && Accepts(s.creds, UserOf(s.creds), current)
    case Abort => s.rotation == Locked
    case Swap(_) => s.rotation == Locked
    case RevokeAll => s.rotation == Swapped
  }

  function Next(s: State, step: Step): State
    requires Enabled(s, step)
  {
    match step
    case Check(token, user, _) =>
      s.(pending := s.pending[token := Checked(user, s.swaps)], used := s.used + {token})
    case Insert(token, now, lifetime) =>
      var c := s.pending[token];
      s.(pending := s.pending - {token},
         tokens := s.tokens[token := TokenInfo(c.user, now, now + lifetime)],
         under := s.under[token := c.swaps])
    case Delete(token) => s.(tokens := s.tokens - {token})
    case Lock(_) => s.(rotation := Locked)
    case Abort => s.(rotation := Idle)
    case Swap(creds) => s.(rotation := Swapped, creds := creds, swaps := s.swaps + 1, past := s.past + [creds])
    case RevokeAll => s.(rotation := Idle, tokens := map[])
  }

  function Init(creds: AdminCreds): State {
    State(creds, Idle, map[], map[], {}, 0, [creds], map[])
  }

  ghost predicate Legal(s: State, steps: seq<Step>)
    decreases |steps|
  {
    steps == [] || (Enabled(s, steps[0]) && Legal(Next(s, steps[0]), steps[1..]))
  }

  ghost function Exec(s: State, steps: seq<Step>): State
    requires Legal(s, steps)
    decreases |steps|
  {
    if steps == [] then s else Exec(Next(s, steps[0]), steps[1..])
  }

  /** Every token in the map has a known password check, and no check lies in the future. */
  ghost predicate Inv(s: State) {
    && s.tokens.Keys <= s.under.Keys
    && "" !in s.pending
    && (forall t | t in s.pending :: s.pending[t].swaps <= s.swaps)
    && (forall t | t in s.under :: s.under[t] <= s.swaps)
    && s.pending.Keys <= s.used && s.under.Keys <= s.used && s.pending.Keys !! s.under.Keys
    && |s.past| == s.swaps + 1 && s.past[s.swaps] == s.creds
    && (s.rotation == Locked ==> KnewPassword(s.creds, UserOf(s.creds)))
    && (forall t | t in s.pending :: KnewPassword(s.past[s.pending[t].swaps], s.pending[t].user))
    && (forall t | t in s.tokens :: KnewPassword(s.past[s.under[t]], s.tokens[t].user))
  }

  /** The credentials accept this user with some password. */
  ghost predicate KnewPassword(c: AdminCreds, user: string) {
    exists password :: Accepts(c, user, password)
  }

  lemma InitInv(creds: AdminCreds)
    ensures Inv(Init(creds))
  {
  }

  lemma StepInv(s: State, step: Step)
    requires Inv(s) && Enabled(s, step)
    ensures Inv(Next(s, step))
  {
  }

  lemma {:induction false} RunInv(s: State, steps: seq<Step>)
    requires Inv(s) && Legal(s, steps)
    ensures Inv(Exec(s, steps))
    decreases |steps|
  {
    if steps == [] {
    } else {
      StepInv(s, steps[0]);
      RunInv(Next(s, steps[0]), steps[1..]);
    }
  }

  /** In any interleaving a token is its user's only by a password that the credentials of its time accept. */
  lemma TokensNeedPassword(creds: AdminCreds, steps: seq<Step>, token: Token)
    requires Legal(Init(creds), steps) && token in Exec(Init(creds), steps).tokens
    ensures var s := Exec(Init(creds), steps);
            && token in s.under && s.under[token] < |s.past|
            && KnewPassword(s.past[s.under[token]], s.tokens[token].user)
  {
    InitInv(creds);
    RunInv(Init(creds), steps);
  }

  /** In any interleaving credentials are swapped only by someone who gave their current password. */
  lemma RotationNeedsPassword(creds: AdminCreds, steps: seq<Step>, next: AdminCreds)
    requires Legal(Init(creds), steps) && Enabled(Exec(Init(creds), steps), Swap(next))
    ensures var s := Exec(Init(creds), steps);
            KnewPassword(s.creds, UserOf(s.creds))
  {
    InitInv(creds);
    RunInv(Init(creds), steps);
  }

  lemma {:induction false} GoneStaysGone(s: State, steps: seq<Step>, token: Token)
    requires Inv(s) && Legal(s, steps) && token in s.under && token !in s.tokens
    ensures token !in Exec(s, steps).tokens
    decreases |steps|
  {
    if steps == [] {
    } else {
      StepInv(s, steps[0]);
      GoneStaysGone(Next(s, steps[0]), steps[1..], token);
    }
  }

  /** Once issued and then deleted, a token never passes again, however the run goes on. */
  lemma DeletedNeverPasses(creds: AdminCreds, steps: seq<Step>, token: Token, later: seq<Step>, now: Time)
    requires Legal(Init(creds), steps) && token in Exec(Init(creds), steps).under
    requires Legal(Next(Exec(Init(creds), steps), Delete(token)), later)
    ensures !Passes(Exec(Next(Exec(Init(creds), steps), Delete(token)), later).tokens, token, now)
  {
    InitInv(creds);
    RunInv(Init(creds), steps);
    var s := Exec(Init(creds), steps);
    StepInv(s, Delete(token));
    GoneStaysGone(Next(s, Delete(token)), later, token);
  }

  /** An inserted token passes up to the end of its lifetime and no longer. */
  lemma InsertedPasses(s: State, token: Token, now: Time, lifetime: int, when: Time)
    requires Inv(s) && Enabled(s, Insert(token, now, lifetime))
    ensures Passes(Next(s, Insert(token, now, lifetime)).tokens, token, when) <==> when <= now + lifetime
  {
  }

  // ---- what a finished rotation guarantees --------------------------------------------------

  /** Some token passes Validate at some time although its password was checked before the g-th swap. */
  ghost predicate OldPasswordPasses(s: State, g: nat) {
    exists t, now :: Passes(s.tokens, t, now) && t in s.under && s.under[t] < g
  }

  /** A login is on its way to an insert with a password checked before the g-th swap. */
  ghost predicate OldLoginPending(s: State, g: nat) {
    exists t :: t in s.pending && s.pending[t].swaps < g
  }

  ghost predicate OnlySince(s: State, g: nat) {
    && s.swaps >= g
    && (forall t | t in s.pending :: s.pending[t].swaps >= g)
    && (forall t | t in s.tokens :: t in s.under && s.under[t] >= g)
  }

  lemma {:induction false} OnlySinceStays(s: State, steps: seq<Step>, g: nat)
    requires OnlySince(s, g) && Legal(s, steps)
    ensures OnlySince(Exec(s, steps), g)
    decreases |steps|
  {
    if steps == [] {
    } else {
      OnlySinceStays(Next(s, steps[0]), steps[1..], g);
    }
  }

  /** The one step that lets an old password back in. */
  lemma OldLoginInserts(s: State, g: nat) returns (steps: seq<Step>)
    requires Inv(s) && OldLoginPending(s, g)
    ensures Legal(s, steps) && OldPasswordPasses(Exec(s, steps), g)
  {
    var t :| t in s.pending && s.pending[t].swaps < g;
    steps := [Insert(t, 0, 1)];
    var after := Next(s, steps[0]);
    assert steps[1..] == [] && Legal(after, []) && Exec(after, []) == after;
    assert Exec(s, steps) == after;
    assert Passes(after.tokens, t, 0) && t in after.under && after.under[t] < g;
  }

  /** However the run goes on, no token whose password was checked before the g-th swap is accepted. */
  ghost predicate OldPasswordIsOut(s: State, g: nat) {
    forall later | Legal(s, later) :: !OldPasswordPasses(Exec(s, later), g)
  }

  lemma RevokeShutsOutIff(s: State)
    requires Inv(s) && Enabled(s, RevokeAll)
    ensures OldPasswordIsOut(Next(s, RevokeAll), s.swaps) <==> !OldLoginPending(s, s.swaps)
  {
    var r := Next(s, RevokeAll);
    if OldLoginPending(s, s.swaps) {
      var t :| t in s.pending && s.pending[t].swaps < s.swaps;
      assert t in r.pending;
      StepInv(s, RevokeAll);
      var later := OldLoginInserts(r, s.swaps);
      assert Legal(r, later) && OldPasswordPasses(Exec(r, later), s.swaps);
    } else {
      forall later | Legal(r, later) ensures !OldPasswordPasses(Exec(r, later), s.swaps) {
        OnlySinceStays(r, later, s.swaps);
      }
    }
  }

  /**
   In any interleaving, when a rotation comes to empty the map: from then on no
   continuation ever accepts a token whose password was checked before that rotation's
   swap, if and only if no such login is on its way at that moment.
   */
  lemma OldPasswordIsOutIff(creds: AdminCreds, steps: seq<Step>)
    requires Legal(Init(creds), steps) && Enabled(Exec(Init(creds), steps), RevokeAll)
    ensures var s := Exec(Init(creds), steps);
            OldPasswordIsOut(Next(s, RevokeAll), s.swaps) <==> !OldLoginPending(s, s.swaps)
  {
    InitInv(creds);
    RunInv(Init(creds), steps);
    RevokeShutsOutIff(Exec(Init(creds), steps));
  }

  // ---- over whole runs --------------------------------------------------------------------------

  /** Outside the short window of a rotation, every token in the map was issued under the live credentials. */
  ghost predicate Current(s: State) {
    s.rotation != Swapped ==> forall t | t in s.tokens :: t in s.under && s.under[t] == s.swaps
  }

  ghost predicate AlwaysCurrent(s: State, steps: seq<Step>)
    requires Legal(s, steps)
    decreases |steps|
  {
    Current(s) && (steps != [] ==> AlwaysCurrent(Next(s, steps[0]), steps[1..]))
  }

  /** The insert comes before any later swap, or falls into the window and is wiped with the rest. */
  predicate Timely(s: State, step: Step)
    requires Enabled(s, step)
  {
    step.Insert? && s.rotation != Swapped ==> s.pending[step.token].swaps == s.swaps
  }

  ghost predicate AllTimely(s: State, steps: seq<Step>)
    requires Legal(s, steps)
    decreases |steps|
  {
    steps != [] ==> Timely(s, steps[0]) && AllTimely(Next(s, steps[0]), steps[1..])
  }

  lemma CurrentStepIff(s: State, step: Step)
    requires Inv(s) && Current(s) && Enabled(s, step)
    ensures Current(Next(s, step)) <==> Timely(s, step)
  {
    if step.Insert? && Current(Next(s, step)) {
      assert step.token in Next(s, step).tokens;
    }
  }

  lemma {:induction false} StaysCurrentIff(s: State, steps: seq<Step>)
    requires Inv(s) && Current(s) && Legal(s, steps)
    ensures AlwaysCurrent(s, steps) <==> AllTimely(s, steps)
    decreases |steps|
  {
    if steps == [] {
    } else {
      StepInv(s, steps[0]);
      CurrentStepIff(s, steps[0]);
      if Current(Next(s, steps[0])) {
        StaysCurrentIff(Next(s, steps[0]), steps[1..]);
      }
    }
  }

  /**
   Over every interleaving: tokens are always those of the live credentials if and only if
   no login inserts, outside a rotation's window, after a swap its password check had not seen.
   */
  lemma AlwaysCurrentIff(creds: AdminCreds, steps: seq<Step>)
    requires Legal(Init(creds), steps)
    ensures AlwaysCurrent(Init(creds), steps) <==> AllTimely(Init(creds), steps)
  {
    InitInv(creds);
    StaysCurrentIff(Init(creds), steps);
  }

  /** The race is reachable: check, rotate to a pair that rejects the old password, insert; the token passes. */
  lemma OldPasswordSurvivesRotation(user: string, was: Bytes, now: Bytes, token: Token, lifetime: int)
    requires user != "" && was != now && token != "" && lifetime > 0
    ensures exists steps ::
              && Legal(Init(FromConfig(user, was)), steps)
              && var s := Exec(Init(FromConfig(user, was)), steps);
                 && s.rotation == Idle && s.swaps == 1
                 && !Accepts(s.creds, user, was)
                 && Passes(s.tokens, token, lifetime)
  {
    var s0 := Init(FromConfig(user, was));
    var steps := [Check(token, user, was), Lock(was),
        Swap(FromFile(user, Digest(now))), RevokeAll, Insert(token, 0, lifetime)];
    var s1 := Next(s0, steps[0]);
    var s2 := Next(s1, steps[1]);
    var s3 := Next(s2, steps[2]);
    var s4 := Next(s3, steps[3]);
    var s5 := Next(s4, steps[4]);
    assert steps[4..][1..] == [] && Legal(s5, []) && Legal(s4, steps[4..]) && Exec(s4, steps[4..]) == s5;
    assert steps[3..][1..] == steps[4..] && Legal(s3, steps[3..]) && Exec(s3, steps[3..]) == s5;
    assert steps[2..][1..] == steps[3..] && Legal(s2, steps[2..]) && Exec(s2, steps[2..]) == s5;
    assert steps[1..][1..] == steps[2..] && Legal(s1, steps[1..]) && Exec(s1, steps[1..]) == s5;
    assert Legal(s0, steps) && Exec(s0, steps) == s5;
  }
}
