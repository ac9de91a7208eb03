/**
 The admin token service (internal/auth/auth.go): a token map with lazy expiry,
 and credential rotation on top of the key file.

 Each method is one step. Times are integers, `now` is a parameter, and the token
 drawn from the random source is a parameter that was never issued before.
 */
module AuthService {
  import opened Text
  import opened KeyFile

  type Token = string
  type Time = int

  datatype TokenInfo = TokenInfo(user: string, issuedAt: Time, expiresAt: Time)

  type TokenMap = map<Token, TokenInfo>

  // ---- the simple specification: what happened ----------------------------------

  datatype Event = Issued(token: Token, info: TokenInfo) | Revoked(token: Token) | Rotated

  /** The i-th event issued the token and nothing since then took it back. */
  ghost predicate StandsSince(log: seq<Event>, token: Token, i: int) {
    && 0 <= i < |log|
    && log[i].Issued? && log[i].token == token
    && forall j | i < j < |log| :: log[j] != Revoked(token) && !log[j].Rotated?
  }

  ghost predicate Stands(log: seq<Event>, token: Token) {
    exists i :: StandsSince(log, token, i)
  }

  /** A token is good at `now` when it still stands and its lifetime is not over. */
  ghost predicate Good(log: seq<Event>, token: Token, now: Time) {
    exists i :: StandsSince(log, token, i) && now <= log[i].info.expiresAt
  }

  ghost predicate NeverIssued(log: seq<Event>, token: Token) {
    forall i | 0 <= i < |log| && log[i].Issued? :: log[i].token != token
  }

  /** No token is empty and none was drawn twice. */
  ghost predicate FreshTokens(log: seq<Event>) {
    && NeverIssued(log, "")
    && forall i, j | 0 <= i < j < |log| && log[i].Issued? && log[j].Issued? :: log[i].token != log[j].token
  }

  // ---- the implementation's map, operation by operation --------------------------

  datatype Op =
    | Login(token: Token, info: TokenInfo)
    | Validate(token: Token)
    | Revoke(token: Token)
    | Rotate

  function Apply(m: TokenMap, op: Op, now: Time): TokenMap {
    match op
    case Login(token, info) => m[token := info]
    case Validate(token) => if token in m && now > m[token].expiresAt then m - {token} else m
    case Revoke(token) => m - {token}
    case Rotate => map[]
  }

  /** Validate's answer. */
  predicate Passes(m: TokenMap, token: Token, now: Time) {
    token != "" && token in m && now <= m[token].expiresAt
  }

  function Record(log: seq<Event>, op: Op): seq<Event> {
    match op
    case Login(token, info) => log + [Issued(token, info)]
    case Validate(_) => log
    case Revoke(token) => log + [Revoked(token)]
    case Rotate => log + [Rotated]
  }

  ghost predicate Allowed(log: seq<Event>, op: Op) {
    op.Login? ==> op.token != "" && NeverIssued(log, op.token)
  }

  /**
   The map against the log, when the clock last read `clock`: an entry stands in the
   log with that very info, and a token that stands but has no entry had expired.
   */
  ghost predicate Agrees(m: TokenMap, log: seq<Event>, clock: Time) {
    && FreshTokens(log)
    && (forall t | t in m :: exists i :: StandsSince(log, t, i) && log[i].info == m[t])
    && (forall t, i | StandsSince(log, t, i) && t !in m :: log[i].info.expiresAt < clock)
  }

  lemma EmptyHasNoEntry(m: TokenMap, log: seq<Event>, clock: Time)
    requires Agrees(m, log, clock)
    ensures "" !in m
  {
    forall t | t in m ensures t != "" {
      var i :| StandsSince(log, t, i) && log[i].info == m[t];
      assert log[i].token == t;
    }
  }

  lemma StandsOnce(log: seq<Event>, t: Token, i: int, j: int)
    requires FreshTokens(log) && StandsSince(log, t, i) && StandsSince(log, t, j)
    ensures i == j
  {
  }

  /** Validate's answer is the specification's, whatever has been deleted lazily so far. */
  lemma AnswerIsGood(m: TokenMap, log: seq<Event>, clock: Time, token: Token, now: Time)
    requires Agrees(m, log, clock) && clock <= now
    ensures Passes(m, token, now) <==> Good(log, token, now)
    ensures Passes(m, token, now) ==> exists i :: StandsSince(log, token, i) && log[i].info == m[token]
  {
    if i :| StandsSince(log, token, i) && now <= log[i].info.expiresAt {
      assert token in m;
      var j :| StandsSince(log, token, j) && log[j].info == m[token];
      StandsOnce(log, token, i, j);
    }
  }

  /** Extending the log by one event: who stands afterwards. */
  lemma StandsAfter(log: seq<Event>, e: Event, t: Token, i: int)
    ensures StandsSince(log + [e], t, i) <==>
            || (i == |log| && e.Issued? && e.token == t)
            || (StandsSince(log, t, i) && e != Revoked(t) && !e.Rotated?)
  {
    var longer := log + [e];
    if StandsSince(longer, t, i) && i < |log| {
      assert longer[i] == log[i] && longer[|log|] == e;
      forall j | i < j < |log| ensures log[j] != Revoked(t) && !log[j].Rotated? {
        assert longer[j] == log[j];
      }
    }
  }

  lemma ValidateKeeps(m: TokenMap, log: seq<Event>, clock: Time, token: Token, now: Time)
    requires Agrees(m, log, clock) && clock <= now
    ensures Agrees(Apply(m, Validate(token), now), log, now)
  {
    var m' := Apply(m, Validate(token), now);
    forall t, i | StandsSince(log, t, i) && t !in m' ensures log[i].info.expiresAt < now {
      if t in m {
        var j :| StandsSince(log, t, j) && log[j].info == m[t];
        StandsOnce(log, t, i, j);
      }
    }
  }

  lemma StepKeepsAgreement(m: TokenMap, log: seq<Event>, clock: Time, op: Op, now: Time)
    requires Agrees(m, log, clock) && clock <= now && Allowed(log, op)
    ensures Agrees(Apply(m, op, now), Record(log, op), now)
  {
    if op.Validate? {
      ValidateKeeps(m, log, clock, op.token, now);
    } else {
      var m', log' := Apply(m, op, now), Record(log, op);
      var e := log'[|log|];
      assert log' == log + [e];
      forall t | t in m' ensures exists i :: StandsSince(log', t, i) && log'[i].info == m'[t] {
        if op.Login? && t == op.token {
          StandsAfter(log, e, t, |log|);
        } else {
          var i :| StandsSince(log, t, i) && log[i].info == m[t];
          StandsAfter(log, e, t, i);
        }
      }
      forall t, i | StandsSince(log', t, i) && t !in m' ensures log'[i].info.expiresAt < now {
        StandsAfter(log, e, t, i);
      }
    }
  }

  // ---- whole runs -------------------------------------------------------------------

  datatype Timed = Timed(op: Op, now: Time)

  /** The clock never runs backwards and every drawn token is new. */
  ghost predicate LegalRun(log: seq<Event>, clock: Time, run: seq<Timed>)
    decreases |run|
  {
    run == [] || (clock <= run[0].now && Allowed(log, run[0].op)
                  && LegalRun(Record(log, run[0].op), run[0].now, run[1..]))
  }

  function RunMap(m: TokenMap, run: seq<Timed>): TokenMap
    decreases |run|
  {
    if run == [] then m else RunMap(Apply(m, run[0].op, run[0].now), run[1..])
  }

  function RunLog(log: seq<Event>, run: seq<Timed>): seq<Event>
    decreases |run|
  {
    if run == [] then log else RunLog(Record(log, run[0].op), run[1..])
  }

  function LastClock(clock: Time, run: seq<Timed>): Time {
    if run == [] then clock else run[|run| - 1].now
  }

  lemma {:induction false} RunKeepsAgreement(m: TokenMap, log: seq<Event>, clock: Time, run: seq<Timed>)
    requires Agrees(m, log, clock) && LegalRun(log, clock, run)
    ensures Agrees(RunMap(m, run), RunLog(log, run), LastClock(clock, run))
    decreases |run|
  {
    if run == [] {
    } else {
      StepKeepsAgreement(m, log, clock, run[0].op, run[0].now);
      RunKeepsAgreement(Apply(m, run[0].op, run[0].now), Record(log, run[0].op), run[0].now, run[1..]);
    }
  }

  /**
   Over any run of logins, validations, revokes and rotations from an empty map,
   Validate accepts a token exactly when it was issued, was neither revoked nor
   followed by a rotation, and is not past its expiry. How often and when other
   validations lazily deleted expired entries never shows in an answer.
   */
  lemma ValidateRefinesHistory(start: Time, run: seq<Timed>, token: Token, now: Time)
    requires LegalRun([], start, run) && LastClock(start, run) <= now
    ensures Passes(RunMap(map[], run), token, now) <==> Good(RunLog([], run), token, now)
  {
    RunKeepsAgreement(map[], [], start, run);
    AnswerIsGood(RunMap(map[], run), RunLog([], run), LastClock(start, run), token, now);
  }

  lemma {:induction false} AbsentStaysAbsent(m: TokenMap, run: seq<Timed>, token: Token)
    requires token !in m && forall i | 0 <= i < |run| && run[i].op.Login? :: run[i].op.token != token
    ensures token !in RunMap(m, run)
    decreases |run|
  {
    if run == [] {
    } else {
      assert forall i | 0 <= i < |run[1..]| :: run[1..][i] == run[i + 1];
      AbsentStaysAbsent(Apply(m, run[0].op, run[0].now), run[1..], token);
    }
  }

  lemma {:induction false} RunMapConcat(m: TokenMap, a: seq<Timed>, b: seq<Timed>)
    ensures RunMap(m, a + b) == RunMap(RunMap(m, a), b)
    decreases |a|
  {
    if a == [] {
      assert a + b == b;
    } else {
      assert (a + b)[1..] == a[1..] + b;
      RunMapConcat(Apply(m, a[0].op, a[0].now), a[1..], b);
    }
  }

  /** Whatever the map held before a rotation, only a login after it makes a token pass again, at any time. */
  lemma RotationRevokesAll(m: TokenMap, before: seq<Timed>, at: Time, later: seq<Timed>, token: Token, now: Time)
    requires forall i | 0 <= i < |later| && later[i].op.Login? :: later[i].op.token != token
    ensures !Passes(RunMap(m, before + [Timed(Rotate, at)] + later), token, now)
  {
    var rotated := before + [Timed(Rotate, at)];
    RunMapConcat(m, rotated, later);
    RunMapConcat(m, before, [Timed(Rotate, at)]);
    assert [Timed(Rotate, at)][1..] == [];
    AbsentStaysAbsent(RunMap(m, rotated), later, token);
  }

  // ---- the service object --------------------------------------------------------------

  class Service {
    const ttl: int
    const mobileTTL: int
    const disk: Disk
    var creds: AdminCreds       // NoCreds stands for the nil pointer
    var tokens: TokenMap
    ghost var log: seq<Event>
    ghost var clock: Time

    ghost predicate Valid()
      reads this
    {
      Agrees(tokens, log, clock)
    }

    constructor (env: Env, disk: Disk, ttl: int, mobileTTL: int, start: Time)
      ensures Valid() && this.disk == disk && tokens == map[] && log == [] && clock == start
      ensures creds == if LoadCreds(env, disk.live).Ok? then LoadCreds(env, disk.live).value else NoCreds
      ensures env.override.NoOverride? && (disk.live.key.None? || !env.homeKnown) ==>
                forall u, p :: Accepts(creds, u, p) <==>
                  u == env.configUser && u != "" && p == env.configPassword && p != []
      ensures LoadCreds(env, disk.live).Err? ==> forall u, p :: !Accepts(creds, u, p)
      ensures this.ttl == (if ttl <= 0 then 86_400 else ttl)
      ensures this.mobileTTL == (if mobileTTL <= 0 then 2_592_000 else mobileTTL)
    {
      this.disk := disk;
      this.ttl := if ttl <= 0 then 24 * 3600 else ttl;
      this.mobileTTL := if mobileTTL <= 0 then 30 * 24 * 3600 else mobileTTL;
      tokens, log, clock := map[], [], start;
      var loaded := LoadCreds(env, disk.live);
      creds := if loaded.Ok? then loaded.value else NoCreds;
    }

    /** Login and LoginMobile differ only in the lifetime they pass. */
    method LoginWithTTL(user: string, password: Bytes, lifetime: int, drawn: Option<Token>, now: Time)
        returns (r: Result<(Token, TokenInfo)>)
      requires Valid() && clock <= now
      requires drawn.Some? ==> drawn.value != "" && NeverIssued(log, drawn.value)
      modifies this`tokens, this`log, this`clock
      ensures Valid()
      ensures r.Ok? <==> Accepts(creds, user, password) && drawn.Some?
      ensures r.Ok? ==>
                && r.value == (drawn.value, TokenInfo(user, now, now + lifetime))
                && tokens == old(tokens)[drawn.value := r.value.1]
                && log == old(log) + [Issued(drawn.value, r.value.1)]
                && clock == now
      ensures r.Err? ==> tokens == old(tokens) && log == old(log) && clock == old(clock)
    {
      if creds.NoCreds? {
        return Err;
      }
      var ok := VerifyPassword(creds, user, password);
      if !ok || drawn.None? {
        return Err;
      }
      var info := TokenInfo(creds.user, now, now + lifetime);
      StepKeepsAgreement(tokens, log, clock, Login(drawn.value, info), now);
      tokens := tokens[drawn.value := info];
      log := log + [Issued(drawn.value, info)];
      clock := now;
      return Ok((drawn.value, info));
    }

    method Validate(token: Token, now: Time) returns (r: Option<TokenInfo>)
      requires Valid() && clock <= now
      modifies this`tokens, this`clock
      ensures Valid() && clock == now
      ensures r.Some? <==> Good(log, token, now)
      ensures r.Some? ==> exists i :: StandsSince(log, token, i) && log[i].info == r.value
      ensures tokens == Apply(old(tokens), Op.Validate(token), now)
    {
      AnswerIsGood(tokens, log, clock, token, now);
      ValidateKeeps(tokens, log, clock, token, now);
      EmptyHasNoEntry(tokens, log, clock);
      clock := now;
      if token == "" || token !in tokens {
        return None;
      }
      var info := tokens[token];
      if now > info.expiresAt {
        tokens := tokens - {token};
        return None;
      }
      return Some(info);
    }

    method Revoke(token: Token) returns (known: bool)
      requires Valid()
      modifies this`tokens, this`log
      ensures Valid() && log == old(log) + [Revoked(token)]
      ensures known <==> token in old(tokens)
      ensures tokens == old(tokens) - {token}
      ensures known ==> Stands(old(log), token)
      ensures !known ==> forall i | StandsSince(old(log), token, i) :: old(log)[i].info.expiresAt < clock
    {
      StepKeepsAgreement(tokens, log, clock, Op.Revoke(token), clock);
      log := log + [Revoked(token)];
      if token !in tokens {
        assert tokens - {token} == tokens;
        return false;
      }
      tokens := tokens - {token};
      return true;
    }

    /**
     Rotates user and password; `env` is what the environment and the file it names
     hold at the call. A failure leaves the live credentials and every token as they
     were. The key file changes exactly when its write succeeded, which is also the
     one way to fail with a changed file: the reload after it fails because the
     override names another file that has become unreadable.
     */
    method ChangeCredentials(
        env: Env, current: Bytes, newUser: string, newPassword: Bytes, temp: string, fault: Fault, removed: bool)
        returns (ok: bool)
      requires Valid() && temp !in disk.live.temps
      modifies this`creds, this`tokens, this`log, disk
      ensures Valid()
      ensures !ok ==> creds == old(creds) && tokens == old(tokens) && log == old(log)
      ensures ok ==> tokens == map[] && log == old(log) + [Rotated]
      ensures var name := ChosenUser(newUser, old(creds));
              var written := Accepts(old(creds), old(UserOf(creds)), current)
                             && Writable(env, name, newPassword) && fault == NoFault;
              && disk.live.key == (if written then Some(NewFile(name, newPassword)) else old(disk.live.key))
              && (ok <==> written && (env.override.OtherFile? ==> LoadCreds(env, NOFILES).Ok?))
              && (ok ==> creds == Reloaded(env, name, newPassword))
      ensures SameTemps(old(disk.live), disk.live, temp, ok || removed)
      ensures ok && !env.override.OtherFile? ==>
                forall u, p ::
                  Accepts(creds, u, p) <==> u == TrimSpace(ChosenUser(newUser, old(creds))) && p == newPassword
    {
      if creds.NoCreds? {
        return false;
      }
      var verified := VerifyPassword(creds, creds.user, current);
      if !verified {
        return false;
      }
      var name := TrimSpace(newUser);
      if name == "" {
        name := creds.user;
      }
      if |newPassword| < MIN_PASSWORD_LEN {
        return false;
      }
      BlankIff(name);
      var wrote := WriteKeyFile(disk, env, name, newPassword, temp, fault, removed);
      if !wrote {
        return false;
      }
      NewFileLoads(env, name, newPassword, disk.live);
      var loaded := LoadCreds(env, disk.live);
      if loaded.Err? {
        return false;
      }
      RotateKeeps(tokens, log, clock);
      creds := loaded.value;
      tokens := map[];
      log := log + [Rotated];
      return true;
    }
  }

  lemma RotateKeeps(m: TokenMap, log: seq<Event>, clock: Time)
    requires Agrees(m, log, clock)
    ensures Agrees(map[], log + [Rotated], clock)
  {
    StepKeepsAgreement(m, log, clock, Rotate, clock);
  }

  /** What the reload after a successful write returns. */
  function Reloaded(env: Env, name: string, password: Bytes): AdminCreds
    requires env.override.OtherFile? ==> LoadCreds(env, NOFILES).Ok?
  {
    if env.override.OtherFile? then LoadCreds(env, NOFILES).value else FromFile(TrimSpace(name), Digest(password))
  }

  function UserOf(c: AdminCreds): string {
    if c.NoCreds? then "" else c.user
  }

  /** The trimmed new name, or the current one when the operator left it blank. */
  function ChosenUser(newUser: string, active: AdminCreds): string {
    if TrimSpace(newUser) == "" then UserOf(active) else TrimSpace(newUser)
  }

  /**
   The partial failure is real: the gateway starts from an override file, the file
   disappears, and the operator changes the password. The call is refused and the old
   password stays live, while the key file on disk already holds the new one.
   */
  method RefusedButWritten(disk: Disk, before: Bytes, after: Bytes, temp: string) returns (s: Service, ok: bool)
    requires MIN_PASSWORD_LEN <= |after| <= MAX_BCRYPT_LEN && temp !in disk.live.temps
    modifies disk
    ensures !ok && s.disk == disk
    ensures disk.live.key == Some(NewFile("admin", after))
    ensures Accepts(s.creds, "admin", before)
  {
    assert Trimmed("admin");
    var atStart := Env(OtherFile(Some(Payload("admin", Digest(before)))), true, "", []);
    s := new Service(atStart, disk, 0, 0, 0);
    ok := s.ChangeCredentials(atStart.(override := OtherFile(None)), before, "", after, temp, NoFault, true);
  }
}
