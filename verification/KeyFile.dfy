/**
 Admin credentials on disk (internal/auth/keyfile.go).

 bcrypt is an ideal salted hash (`Digest(p)` matches p and nothing else; hashing
 refuses more than 72 bytes), JSON either decodes to a payload or does not. The
 disk keeps two views of the secrets directory: `live`, what the running system
 sees, and `durable`, the directory entries known to have reached the medium. A
 file whose data was never synced may come back with any content after a power
 loss, and a rename may or may not have reached the medium.
 */
module KeyFile {
  import opened Text

  type Bytes = seq<bv8>

  const MIN_PASSWORD_LEN := 8
  const MAX_BCRYPT_LEN := 72

  datatype Result<T> = Ok(value: T) | Err

  datatype HashText = Blank | Digest(password: Bytes)

  datatype Content = Torn | Payload(user: string, hash: HashText)

  datatype File = File(content: Content, synced: bool)

  /** admin.key and the uniquely named temporary files: that of a write under way and any left by interrupted ones. */
  datatype Files = Files(key: Option<File>, temps: map<string, File>)

  const NOFILES := Files(None, map[])

  datatype DiskState = DiskState(live: Files, durable: Files)

  /** OPENDRAY_ADMIN_KEY_FILE: unset, naming the default key file itself, or naming another file. */
  datatype Override = NoOverride | DefaultFile | OtherFile(content: Option<Content>)

  datatype Env = Env(override: Override, homeKnown: bool, configUser: string, configPassword: Bytes)

  datatype AdminCreds =
    | NoCreds
    | FromFile(user: string, hash: HashText)
    | FromConfig(user: string, password: Bytes)

  // ---- comparing secrets -----------------------------------------------------

  /** The OR/XOR loop finds a difference exactly when there is one. */
  method ConstantTimeCompareBytes(a: Bytes, b: Bytes) returns (same: bool)
    ensures same <==> a == b
  {
    if |a| != |b| {
      return false;
    }
    var v: bv8 := 0;
    var i := 0;
    while i < |a|
      invariant 0 <= i <= |a|
      invariant v == 0 <==> a[..i] == b[..i]
    {
      OrXorIsZero(v, a[i], b[i]);
      assert a[..i + 1] == a[..i] + [a[i]] && b[..i + 1] == b[..i] + [b[i]];
      v := v | (a[i] ^ b[i]);
      i := i + 1;
    }
    assert a[..i] == a && b[..i] == b;
    same := v == 0;
  }

  lemma OrXorIsZero(v: bv8, x: bv8, y: bv8)
    ensures v | (x ^ y) == 0 <==> v == 0 && x == y
  {
  }

  method ConstantTimeEqual(a: Bytes, b: Bytes) returns (same: bool)
    ensures same <==> a == b
  {
    if |a| != |b| {
      var dummy := seq(|a|, _ => 0 as bv8);
      var _ := ConstantTimeCompareBytes(dummy, a);
      return false;
    }
    same := ConstantTimeCompareBytes(a, b);
  }

  /** What a credential pair accepts: its own user together with its own password. */
  predicate Accepts(c: AdminCreds, user: string, password: Bytes) {
    match c
    case NoCreds => false
    case FromFile(u, h) => u != "" && user == u && h == Digest(password)
    case FromConfig(u, p) => u != "" && user == u && password == p
  }

  method VerifyPassword(c: AdminCreds, user: string, password: Bytes) returns (ok: bool)
    ensures ok <==> Accepts(c, user, password)
  {
    if c.NoCreds? || c.user == "" || user != c.user {
      return false;
    }
    match c
    case FromFile(_, hash) =>
      ok := hash == Digest(password);
    case FromConfig(_, plain) =>
      ok := ConstantTimeEqual(plain, password);
  }

  // ---- loading -----------------------------------------------------------------

  datatype ReadResult = Missing | Bad | Read(creds: AdminCreds)

  function ReadKeyFile(content: Option<Content>): ReadResult {
    match content
    case None => Missing
    case Some(Torn) => Bad
    case Some(Payload(user, hash)) =>
      if TrimSpace(user) == "" || hash == Blank then Bad else Read(FromFile(TrimSpace(user), hash))
  }

  function ContentOf(f: Option<File>): Option<Content> {
    if f.None? then None else Some(f.value.content)
  }

  /** The priority chain: override file, default file, configuration. */
  function LoadCreds(env: Env, files: Files): Result<AdminCreds> {
    match env.override
    case OtherFile(content) =>
      var r := ReadKeyFile(content);
      if r.Read? then Ok(r.creds) else Err
    case DefaultFile =>
      var r := ReadKeyFile(ContentOf(files.key));
      if r.Read? then Ok(r.creds) else Err
    case NoOverride =>
      var r := if env.homeKnown then ReadKeyFile(ContentOf(files.key)) else Missing;
      match r
      case Read(creds) => Ok(creds)
      case Bad => Err
      case Missing =>
        if env.configUser == "" || env.configPassword == [] then Ok(NoCreds)
        else Ok(FromConfig(env.configUser, env.configPassword))
  }

  /** A key file that is present and still no use: unreadable, or without a user or a hash. */
  predicate Unusable(c: Content) {
    c.Torn? || AllSpace(c.user) || c.hash.Blank?
  }

  /** Loading fails exactly when the file that decides is unusable, or an override names a missing one. */
  lemma LoadFailsIff(env: Env, files: Files)
    ensures LoadCreds(env, files).Err? <==>
            match env.override
            case OtherFile(content) => content.None? || Unusable(content.value)
            case DefaultFile => files.key.None? || Unusable(files.key.value.content)
            case NoOverride => env.homeKnown && files.key.Some? && Unusable(files.key.value.content)
  {
    if env.override.OtherFile? && env.override.content.Some? && env.override.content.value.Payload? {
      BlankIff(env.override.content.value.user);
    }
    if files.key.Some? && files.key.value.content.Payload? {
      BlankIff(files.key.value.content.user);
    }
  }

  /** What a usable file accepts: its trimmed user with the hashed password. */
  predicate FileAccepts(c: Content, user: string, password: Bytes) {
    c.Payload? && user == TrimSpace(c.user) && c.hash == Digest(password)
  }

  /**
   What the loaded credentials accept, for every environment and disk: a readable override
   decides alone; else the default key file, if there is one; else the configured pair,
   which is in force only when both its user and its password are set. Nothing loaded
   from the configuration accepts the empty password.
   */
  lemma LoadedAccepts(env: Env, files: Files, user: string, password: Bytes)
    requires LoadCreds(env, files).Ok?
    ensures var accepted := Accepts(LoadCreds(env, files).value, user, password);
            match env.override
            case OtherFile(content) => content.Some? && (accepted <==> FileAccepts(content.value, user, password))
            case DefaultFile =>
              files.key.Some? && (accepted <==> FileAccepts(files.key.value.content, user, password))
            case NoOverride =>
              if env.homeKnown && files.key.Some?
              then accepted <==> FileAccepts(files.key.value.content, user, password)
              else accepted <==>
                   user == env.configUser && user != "" && password == env.configPassword && password != []
    ensures LoadCreds(env, files).value.FromConfig? ==> !Accepts(LoadCreds(env, files).value, user, [])
  {
  }

  // ---- replacing the key file -----------------------------------------------------

  /** Which system call of WriteKeyFile fails, if any. */
  datatype Fault = NoFault | PrepareDir | CreateTemp | ChmodTemp | WriteTemp | SyncTemp | CloseTemp | Rename

  class Disk {
    var live: Files
    ghost var durable: Files
    ghost var trace: seq<DiskState>  // the state after each change, oldest first

    constructor (files: Files)
      ensures live == files && durable == files && trace == []
    {
      live := files;
      durable := files;
      trace := [];
    }

    ghost function State(): DiskState
      reads this
    {
      DiskState(live, durable)
    }

    /** One change of the directory, in a write that started at `before` and wants the file `next`. */
    method Put(files: Files, ghost from: nat, ghost before: DiskState, ghost next: File)
      requires StaysOldOrNew(trace, from, before, next) && OldOrNew(before, DiskState(files, durable), next)
      modifies this
      ensures live == files && durable == old(durable)
      ensures old(trace) <= trace && |trace| == |old(trace)| + 1 && trace[|old(trace)|] == State()
      ensures StaysOldOrNew(trace, from, before, next)
    {
      OneMoreState(trace, from, before, next, DiskState(files, durable));
      live := files;
      trace := trace + [DiskState(live, durable)];
    }
  }

  /** The new key file: complete and synced. */
  function NewFile(user: string, password: Bytes): File {
    File(Payload(TrimSpace(user), Digest(password)), true)
  }

  predicate Writable(env: Env, user: string, password: Bytes) {
    && TrimSpace(user) != ""
    && MIN_PASSWORD_LEN <= |password| <= MAX_BCRYPT_LEN
    && env.homeKnown
  }

  /** A state the writer passes through: admin.key is the old file or the complete, synced new one. */
  ghost predicate OldOrNew(before: DiskState, d: DiskState, next: File) {
    && (d.live.key == before.live.key || d.live.key == Some(next))
    && d.durable == before.durable
  }

  /** Every state entered since the trace had `from` entries has the old key file or the new one. */
  ghost predicate StaysOldOrNew(trace: seq<DiskState>, from: nat, before: DiskState, next: File) {
    from <= |trace| && forall i | from <= i < |trace| :: OldOrNew(before, trace[i], next)
  }

  lemma OneMoreState(trace: seq<DiskState>, from: nat, before: DiskState, next: File, d: DiskState)
    requires StaysOldOrNew(trace, from, before, next) && OldOrNew(before, d, next)
    ensures StaysOldOrNew(trace + [d], from, before, next)
  {
  }

  /** What a completed write leaves: the new key file in place, the medium's directory not yet updated. */
  ghost predicate Replaced(before: DiskState, after: DiskState, user: string, password: Bytes) {
    after.live.key == Some(NewFile(user, password)) && after.durable == before.durable
  }

  /** The temporary files, except perhaps the one a failed removal leaves behind. */
  predicate SameTemps(before: Files, after: Files, temp: string, removed: bool) {
    after.temps - {temp} == before.temps && (removed ==> after.temps == before.temps)
  }

  /** Chmod, write, sync and close of the temporary file; `fault` may stop it at any of them. */
  method FillTemp(disk: Disk, temp: string, body: Content, fault: Fault,
                  ghost from: nat, ghost start: DiskState, ghost next: File)
      returns (ready: bool)
    requires temp !in disk.live.temps && disk.live.key == start.live.key && disk.durable == start.durable
    requires StaysOldOrNew(disk.trace, from, start, next)
    modifies disk
    ensures ready <==> fault !in {ChmodTemp, WriteTemp, SyncTemp, CloseTemp}
    ensures disk.live.key == old(disk.live.key) && disk.durable == old(disk.durable)
    ensures disk.live.temps - {temp} == old(disk.live.temps)
    ensures ready ==> disk.live.temps == old(disk.live.temps)[temp := File(body, true)]
    ensures old(disk.trace) <= disk.trace && StaysOldOrNew(disk.trace, from, start, next)
  {
    var files := disk.live;
    disk.Put(files.(temps := files.temps[temp := File(Torn, false)]), from, start, next);
    if fault == ChmodTemp || fault == WriteTemp {
      return false;
    }
    disk.Put(files.(temps := files.temps[temp := File(body, false)]), from, start, next);
    if fault == SyncTemp {
      return false;
    }
    disk.Put(files.(temps := files.temps[temp := File(body, true)]), from, start, next);
    return fault != CloseTemp;
  }

  /**
   `temp` is the unused name os.CreateTemp picks; `removed` says whether the deferred
   removal of a temporary file that was not renamed succeeds, whose error is ignored.
   */
  method WriteKeyFile(disk: Disk, env: Env, user: string, password: Bytes, temp: string, fault: Fault, removed: bool)
      returns (ok: bool)
    requires temp !in disk.live.temps
    modifies disk
    ensures ok <==> !AllSpace(user) && 8 <= |password| <= 72 && env.homeKnown && fault == NoFault
    ensures disk.live.key == if ok then Some(NewFile(user, password)) else old(disk.live.key)
    ensures SameTemps(old(disk.live), disk.live, temp, ok || removed)
    ensures ok ==> Replaced(old(disk.State()), disk.State(), user, password)
    ensures disk.durable == old(disk.durable)
    ensures old(disk.trace) <= disk.trace
    ensures StaysOldOrNew(disk.trace, |old(disk.trace)|, old(disk.State()), NewFile(user, password))
  {
    ghost var from, start, next := |disk.trace|, disk.State(), NewFile(user, password);
    var name := TrimSpace(user);
    BlankIff(user);
    if name == "" || |password| < MIN_PASSWORD_LEN || |password| > MAX_BCRYPT_LEN || !env.homeKnown {
      return false;
    }
    if fault == PrepareDir || fault == CreateTemp {
      return false;
    }
    var before := disk.live;
    var ready := FillTemp(disk, temp, Payload(name, Digest(password)), fault, from, start, next);
    if ready && fault != Rename {
      disk.Put(Files(Some(disk.live.temps[temp]), before.temps), from, start, next);
      return true;
    }
    if removed {
      disk.Put(before, from, start, next);
    }
    return false;
  }

  // ---- stops and power losses --------------------------------------------------------

  /** One directory entry after a power loss: intact if its data was synced, else anything. */
  ghost predicate Survives(entry: Option<File>, after: Option<File>) {
    match entry
    case None => after == None
    case Some(f) => after.Some? && (f.synced ==> after == entry)
  }

  ghost predicate AfterPowerLoss(d: DiskState, files: Files) {
    Survives(d.durable.key, files.key) || Survives(d.live.key, files.key)
  }

  /** What is found at the next start: the live view after a mere stop, or a power-loss outcome. */
  ghost predicate FoundAtRestart(d: DiskState, files: Files) {
    files == d.live || AfterPowerLoss(d, files)
  }

  ghost predicate Synced(entry: Option<File>) {
    entry.Some? ==> entry.value.synced
  }

  /** Both views of admin.key are synced; every completed write keeps this. */
  ghost predicate Sound(d: DiskState) {
    Synced(d.live.key) && Synced(d.durable.key)
  }

  /**
   Stopping at any step: a state the writer passed through loads, after a stop or
   a power loss, as one of the complete pairs that were there before, or as the
   complete new one; never as a mixture and never as an unreadable file.
   */
  lemma StopAnywhereIsOldOrNew(before: DiskState, d: DiskState, env: Env, user: string, password: Bytes, found: Files)
    requires Sound(before) && Writable(env, user, password)
    requires OldOrNew(before, d, NewFile(user, password))
    requires FoundAtRestart(d, found)
    ensures || LoadCreds(env, found) == LoadCreds(env, before.live)
            || LoadCreds(env, found) == LoadCreds(env, before.durable)
            || LoadCreds(env, found) == Ok(FromFile(TrimSpace(user), Digest(password)))
    ensures Sound(d)
  {
    assert found.key in {before.live.key, before.durable.key, Some(NewFile(user, password))};
    if found.key == Some(NewFile(user, password)) {
      NewFileLoads(env, user, password, found);
    }
  }

  /** The new file loads as exactly the new pair, unless an override names another file. */
  lemma NewFileLoads(env: Env, user: string, password: Bytes, files: Files)
    requires Writable(env, user, password) && files.key == Some(NewFile(user, password))
    ensures LoadCreds(env, files) ==
            if env.override.OtherFile? then LoadCreds(env, NOFILES)
            else Ok(FromFile(TrimSpace(user), Digest(password)))
  {
    assert TrimSpace(TrimSpace(user)) == TrimSpace(user);
  }

  /** The entry holds this very pair. */
  predicate HoldsPair(entry: Option<File>, user: string, password: Bytes) {
    && entry.Some? && entry.value.content.Payload?
    && TrimSpace(entry.value.content.user) == TrimSpace(user)
    && entry.value.content.hash == Digest(password)
  }

  lemma LoadsPairIff(env: Env, files: Files, user: string, password: Bytes)
    requires env.homeKnown && !env.override.OtherFile? && TrimSpace(user) != ""
    ensures LoadCreds(env, files) == Ok(FromFile(TrimSpace(user), Digest(password))) <==>
            HoldsPair(files.key, user, password)
  {
  }

  /**
   The directory is not synced after the rename. So a change that was reported as done
   survives every stop and power loss if and only if the medium held that very pair
   before the call.
   */
  lemma SuccessIsFinalIff(before: DiskState, after: DiskState, env: Env, user: string, password: Bytes)
    requires Sound(before) && Writable(env, user, password) && !env.override.OtherFile?
    requires Replaced(before, after, user, password)
    ensures (forall found | FoundAtRestart(after, found) ::
               LoadCreds(env, found) == Ok(FromFile(TrimSpace(user), Digest(password))))
            <==> HoldsPair(before.durable.key, user, password)
  {
    assert FoundAtRestart(after, before.durable) by {
      assert Survives(before.durable.key, before.durable.key);
    }
    LoadsPairIff(env, before.durable, user, password);
    forall found | FoundAtRestart(after, found)
      ensures HoldsPair(before.durable.key, user, password) ==>
                LoadCreds(env, found) == Ok(FromFile(TrimSpace(user), Digest(password)))
    {
      LoadsPairIff(env, found, user, password);
      assert TrimSpace(TrimSpace(user)) == TrimSpace(user);
      assert found.key == after.live.key || found.key == before.durable.key;
    }
  }

  /** The loss is real: the replaced password is accepted again after a power loss, and the new one is not. */
  lemma OldPasswordReturns(before: DiskState, after: DiskState, env: Env, user: string, was: Bytes, now: Bytes)
    requires Writable(env, user, was) && Writable(env, user, now) && was != now && !env.override.OtherFile?
    requires before.durable.key == Some(NewFile(user, was)) && Replaced(before, after, user, now)
    ensures exists found :: FoundAtRestart(after, found) && LoadCreds(env, found).Ok?
              && Accepts(LoadCreds(env, found).value, TrimSpace(user), was)
              && !Accepts(LoadCreds(env, found).value, TrimSpace(user), now)
  {
    assert Survives(after.durable.key, after.durable.key);
    assert FoundAtRestart(after, after.durable);
    NewFileLoads(env, user, was, after.durable);
  }

  // ---- whole histories ------------------------------------------------------------------

  /** A state some write passed through or ended in, the medium catching up, or a restart. */
  datatype Event =
    | Writing(user: string, password: Bytes, next: DiskState)
    | CaughtUp
    | Restarted(found: Files)

  ghost predicate Happens(env: Env, d: DiskState, e: Event) {
    match e
    case Writing(user, password, next) => Writable(env, user, password) && OldOrNew(d, next, NewFile(user, password))
    case CaughtUp => true
    case Restarted(found) => FoundAtRestart(d, found)
  }

  function After(d: DiskState, e: Event): DiskState {
    match e
    case Writing(_, _, next) => next
    case CaughtUp => DiskState(d.live, d.live)
    case Restarted(found) => DiskState(found, found)
  }

  ghost predicate History(env: Env, d: DiskState, events: seq<Event>)
    decreases |events|
  {
    events == [] || (Happens(env, d, events[0]) && History(env, After(d, events[0]), events[1..]))
  }

  function Final(d: DiskState, events: seq<Event>): DiskState
    decreases |events|
  {
    if events == [] then d else Final(After(d, events[0]), events[1..])
  }

  /** The entry is one of the two views at the start, or the complete file of some write in the history. */
  ghost predicate Known(d: DiskState, events: seq<Event>, entry: Option<File>) {
    || entry == d.live.key
    || entry == d.durable.key
    || exists i :: 0 <= i < |events| && events[i].Writing? && entry == Some(NewFile(events[i].user, events[i].password))
  }

  /**
   Over any history of credential writes (completed, failed or cut short), restarts
   and power losses, admin.key is always a complete file somebody wrote whole.
   */
  lemma {:induction false} KeyFileIsAlwaysComplete(env: Env, d: DiskState, events: seq<Event>)
    requires Sound(d) && History(env, d, events)
    ensures Sound(Final(d, events))
    ensures Known(d, events, Final(d, events).live.key)
    ensures Known(d, events, Final(d, events).durable.key)
    decreases |events|
  {
    if events == [] {
    } else {
      var e := events[0];
      var d1 := After(d, e);
      assert Known(d, events, d1.live.key) && Known(d, events, d1.durable.key) by {
        if e.Writing? { assert events[0].Writing?; }
      }
      KeyFileIsAlwaysComplete(env, d1, events[1..]);
      KnownEarlier(d, events, Final(d, events).live.key);
      KnownEarlier(d, events, Final(d, events).durable.key);
    }
  }

  lemma KnownEarlier(d: DiskState, events: seq<Event>, entry: Option<File>)
    requires events != [] && Known(After(d, events[0]), events[1..], entry)
    requires Known(d, events, After(d, events[0]).live.key) && Known(d, events, After(d, events[0]).durable.key)
    ensures Known(d, events, entry)
  {
    var rest := events[1..];
    if i :| 0 <= i < |rest| && rest[i].Writing? && entry == Some(NewFile(rest[i].user, rest[i].password)) {
      assert events[i + 1] == rest[i];
    }
  }
}
