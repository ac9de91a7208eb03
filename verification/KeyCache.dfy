/**
 The system integration keys of internal/app/app.go: a row in the database that
 knows only the key's hash, and a plaintext copy cached on disk so that restarts
 do not have to rotate.

 The hash is ideal, so a row is modelled by the one key it accepts. A boot is the
 sequence of host states it passes through; it may stop after any of them, which
 also stands for a database call that fails. The cache write ignores its error:
 it may change nothing or leave any prefix of the key's line in the file.
 */
module KeyCache {
  import opened Text

  datatype Row = Row(key: string, scopes: seq<string>)

  datatype Host = Host(rows: map<string, Row>, files: map<string, string>)

  /** Which integration to provision: row name, wanted scopes, cache file. */
  datatype Request = Request(name: string, scopes: seq<string>, file: string)

  datatype WriteOutcome = Unchanged | Prefix(n: nat)

  /** What the environment supplies: the key the generator would draw and how the cache write ends. */
  datatype Draw = Draw(key: string, write: WriteOutcome)

  // ---- scopes --------------------------------------------------------------------

  predicate Grants(granted: string, want: string) {
    granted == want || (HasSuffix(granted, ".*") && HasPrefix(want, granted[..|granted| - 1]))
  }

  predicate HasScope(granted: seq<string>, want: string) {
    exists g | g in granted :: Grants(g, want)
  }

  predicate ScopesCover(have: seq<string>, want: seq<string>) {
    forall w | w in want :: HasScope(have, w)
  }

  /** The grant is the scope itself, or `p.*` for a scope that starts with `p.`. */
  ghost predicate Permits(granted: string, want: string) {
    granted == want || exists p: string :: granted == p + ".*" && p + "." <= want
  }

  ghost predicate Permitted(have: seq<string>, want: string) {
    exists g :: g in have && Permits(g, want)
  }

  /** Every wanted scope has a grant that permits it. */
  ghost predicate AllPermitted(have: seq<string>, want: seq<string>) {
    forall i | 0 <= i < |want| :: Permitted(have, want[i])
  }

  lemma GrantsIsPermits(granted: string, want: string)
    ensures Grants(granted, want) <==> Permits(granted, want)
  {
    if HasSuffix(granted, ".*") && HasPrefix(want, granted[..|granted| - 1]) {
      var p := granted[..|granted| - 2];
      assert granted == p + ".*" && p + "." == granted[..|granted| - 1];
    }
    if p: string :| granted == p + ".*" && p + "." <= want {
      assert granted[|granted| - 2..] == ".*" && granted[..|granted| - 1] == p + ".";
    }
  }

  /** The reconciliation test asks for all wanted scopes, wildcards included. */
  lemma CoverIsPermission(have: seq<string>, want: seq<string>)
    ensures ScopesCover(have, want) <==> AllPermitted(have, want)
  {
    forall w ensures HasScope(have, w) <==> Permitted(have, w) {
      forall g ensures Grants(g, w) <==> Permits(g, w) {
        GrantsIsPermits(g, w);
      }
    }
  }

  lemma OwnScopesPermitted(scopes: seq<string>)
    ensures AllPermitted(scopes, scopes)
  {
    forall i | 0 <= i < |scopes| ensures Permitted(scopes, scopes[i]) {
      assert scopes[i] in scopes && Permits(scopes[i], scopes[i]);
    }
  }

  // ---- the cache file --------------------------------------------------------------

  function ReadCachedKey(files: map<string, string>, file: string): Option<string> {
    if file in files && TrimSpace(files[file]) != "" then Some(TrimSpace(files[file])) else None
  }

  function WriteCachedKey(files: map<string, string>, file: string, draw: Draw): map<string, string> {
    match draw.write
    case Unchanged => files
    case Prefix(n) =>
      var line := draw.key + "\n";
      files[file := if n < |line| then line[..n] else line]
  }

  /** Generated keys: a fixed prefix and base64url text, so never blank and free of white space. */
  predicate KeyShaped(key: string) {
    key != "" && forall c | c in key :: !IsSpace(c)
  }

  /** The write left the file alone, empty, or holding the whole key. */
  predicate CleanWrite(draw: Draw) {
    draw.write.Prefix? ==> draw.write.n == 0 || draw.write.n >= |draw.key|
  }

  /** Reading back what a write left behind. */
  lemma ReadAfterWrite(files: map<string, string>, file: string, draw: Draw)
    requires KeyShaped(draw.key) && draw.write.Prefix?
    ensures ReadCachedKey(WriteCachedKey(files, file, draw), file) ==
            if draw.write.n == 0 then None
            else if draw.write.n < |draw.key| then Some(draw.key[..draw.write.n])
            else Some(draw.key)
  {
    var n, line := draw.write.n, draw.key + "\n";
    if n <= |draw.key| {
      assert line[..n] == draw.key[..n];
      TrimSpaceTail(draw.key[..n], "");
      assert draw.key[..n] + "" == draw.key[..n];
    } else {
      TrimSpaceTail(draw.key, "\n");
    }
  }

  /** A write ends in the key's line when it gets that far, and leaves every other file alone. */
  lemma WriteIsOneLine(files: map<string, string>, file: string, draw: Draw)
    ensures draw.write.Prefix? && draw.write.n > |draw.key| ==>
              WriteCachedKey(files, file, draw) == files[file := draw.key + "\n"]
    ensures WriteCachedKey(files, file, draw) - {file} == files - {file}
  {
  }

  // ---- one boot -----------------------------------------------------------------------

  /** The host after each effect of the boot, in order; the last one is where it returns. */
  function Effects(h: Host, req: Request, draw: Draw): seq<Host> {
    if req.name !in h.rows then
      var registered := h.(rows := h.rows[req.name := Row(draw.key, req.scopes)]);
      [registered, registered.(files := WriteCachedKey(h.files, req.file, draw))]
    else
      var row := h.rows[req.name];
      var covered := if ScopesCover(row.scopes, req.scopes) then row else row.(scopes := req.scopes);
      var reconciled := h.(rows := h.rows[req.name := covered]);
      if ReadCachedKey(h.files, req.file).Some? then [reconciled]
      else
        var rotated := h.(rows := h.rows[req.name := covered.(key := draw.key)]);
        [reconciled, rotated, rotated.(files := WriteCachedKey(h.files, req.file, draw))]
  }

  function ReturnedKey(h: Host, req: Request, draw: Draw): string {
    if req.name in h.rows && ReadCachedKey(h.files, req.file).Some?
    then ReadCachedKey(h.files, req.file).value
    else draw.key
  }

  function Completed(h: Host, req: Request, draw: Draw): Host {
    var e := Effects(h, req, draw);
    e[|e| - 1]
  }

  class Machine {
    var rows: map<string, Row>
    var files: map<string, string>
    ghost var trace: seq<Host>

    ghost function Model(): Host
      reads this
    {
      Host(rows, files)
    }

    /** ensureMemoryIntegration and ensureDbtoolKey. */
    method EnsureKey(req: Request, draw: Draw) returns (key: string)
      modifies this
      ensures trace == old(trace) + Effects(old(Model()), req, draw)
      ensures Model() == Completed(old(Model()), req, draw)
      ensures key == ReturnedKey(old(Model()), req, draw)
    {
      if req.name !in rows {
        rows := rows[req.name := Row(draw.key, req.scopes)];
        trace := trace + [Model()];
        files := WriteCachedKey(files, req.file, draw);
        trace := trace + [Model()];
        return draw.key;
      }
      var row := rows[req.name];
      if !ScopesCover(row.scopes, req.scopes) {
        row := row.(scopes := req.scopes);
      }
      rows := rows[req.name := row];
      trace := trace + [Model()];
      var cached := ReadCachedKey(files, req.file);
      if cached.Some? {
        return cached.value;
      }
      ghost var seen := trace;
      rows := rows[req.name := row.(key := draw.key)];
      trace := trace + [Model()];
      files := WriteCachedKey(files, req.file, draw);
      trace := trace + [Model()];
      assert rows == old(rows)[req.name := row.(key := draw.key)];
      assert seen == old(trace) + [Effects(old(Model()), req, draw)[0]];
      return draw.key;
    }
  }

  // ---- runs of boots ---------------------------------------------------------------------

  /** One boot of some integration; `stop` is the number of effects it got to, None when it returned. */
  datatype Boot = Boot(req: Request, draw: Draw, stop: Option<nat>)

  function AfterBoot(h: Host, b: Boot): Host {
    var e := Effects(h, b.req, b.draw);
    match b.stop
    case None => e[|e| - 1]
    case Some(k) => if k == 0 then h else if k <= |e| then e[k - 1] else e[|e| - 1]
  }

  function AfterBoots(h: Host, boots: seq<Boot>): Host
    decreases |boots|
  {
    if boots == [] then h else AfterBoots(AfterBoot(h, boots[0]), boots[1..])
  }

  /** The same row and the same file; an upgrade in between may ask for other scopes. */
  predicate SameIntegration(req: Request, other: Request) {
    req.name == other.name && req.file == other.file
  }

  /** A boot of this integration with a clean cache write, or of one with another row and another file. */
  predicate Respects(req: Request, b: Boot) {
    if b.req.name == req.name || b.req.file == req.file
    then SameIntegration(req, b.req) && KeyShaped(b.draw.key) && CleanWrite(b.draw)
    else true
  }

  predicate AllRespect(req: Request, boots: seq<Boot>) {
    forall i | 0 <= i < |boots| :: Respects(req, boots[i])
  }

  /** A readable cache holds the key the row accepts. */
  predicate Agrees(h: Host, req: Request) {
    var cached := ReadCachedKey(h.files, req.file);
    cached.Some? ==> req.name in h.rows && h.rows[req.name].key == cached.value
  }

  lemma FreshInstallAgrees(h: Host, req: Request)
    requires req.file !in h.files
    ensures Agrees(h, req)
  {
  }

  /** With a row and a readable cache a boot changes neither file nor key, wherever it stops. */
  lemma CachedBootKeepsKey(h: Host, req: Request, b: Boot)
    requires SameIntegration(req, b.req) && req.name in h.rows && ReadCachedKey(h.files, req.file).Some?
    ensures var h' := AfterBoot(h, b);
            h'.files == h.files && req.name in h'.rows && h'.rows[req.name].key == h.rows[req.name].key
  {
  }

  /** Without a readable cache a boot leaves none, or one that holds the row's new key. */
  lemma UncachedBootAgrees(h: Host, req: Request, b: Boot)
    requires SameIntegration(req, b.req) && ReadCachedKey(h.files, req.file).None?
    requires KeyShaped(b.draw.key) && CleanWrite(b.draw)
    ensures Agrees(AfterBoot(h, b), req)
  {
    if AfterBoot(h, b).files == h.files {
    } else {
      ReadAfterWrite(h.files, req.file, b.draw);
    }
  }

  lemma BootKeepsAgreement(h: Host, req: Request, b: Boot)
    requires Agrees(h, req) && Respects(req, b)
    ensures Agrees(AfterBoot(h, b), req)
    ensures ReadCachedKey(h.files, req.file).Some? ==>
              ReadCachedKey(AfterBoot(h, b).files, req.file) == ReadCachedKey(h.files, req.file)
  {
    if b.req.name != req.name {
      OtherBootIsInvisible(h, req, b);
    } else if ReadCachedKey(h.files, req.file).Some? {
      CachedBootKeepsKey(h, req, b);
    } else {
      UncachedBootAgrees(h, req, b);
    }
  }

  /** A boot of an integration with another row and another file touches neither of ours. */
  lemma OtherBootIsInvisible(h: Host, req: Request, b: Boot)
    requires b.req.name != req.name && b.req.file != req.file
    ensures var h' := AfterBoot(h, b);
            && ReadCachedKey(h'.files, req.file) == ReadCachedKey(h.files, req.file)
            && (req.name in h'.rows <==> req.name in h.rows)
            && (req.name in h.rows ==> h'.rows[req.name] == h.rows[req.name])
  {
  }

  lemma {:induction false} BootsKeepAgreement(h: Host, req: Request, boots: seq<Boot>)
    requires Agrees(h, req) && AllRespect(req, boots)
    ensures Agrees(AfterBoots(h, boots), req)
    ensures ReadCachedKey(h.files, req.file).Some? ==>
              ReadCachedKey(AfterBoots(h, boots).files, req.file) == ReadCachedKey(h.files, req.file)
    decreases |boots|
  {
    if boots == [] {
    } else {
      BootKeepsAgreement(h, req, boots[0]);
      assert forall i | 0 <= i < |boots[1..]| :: boots[1..][i] == boots[i + 1];
      BootsKeepAgreement(AfterBoot(h, boots[0]), req, boots[1..]);
    }
  }

  /** A boot that returns: the row accepts the returned key and grants every wanted scope. */
  ghost predicate Serves(h: Host, req: Request, key: string) {
    && req.name in h.rows
    && h.rows[req.name].key == key
    && AllPermitted(h.rows[req.name].scopes, req.scopes)
  }

  /** A row keeps its own scope list if that permits everything wanted, and takes the wanted list otherwise. */
  lemma ScopesAfterBoot(h: Host, req: Request, draw: Draw)
    ensures req.name in Completed(h, req, draw).rows
    ensures Completed(h, req, draw).rows[req.name].scopes ==
            if req.name in h.rows && AllPermitted(h.rows[req.name].scopes, req.scopes) then h.rows[req.name].scopes
            else req.scopes
  {
    if req.name in h.rows {
      CoverIsPermission(h.rows[req.name].scopes, req.scopes);
    }
  }

  lemma CompletedBootServes(h: Host, req: Request, draw: Draw)
    requires Agrees(h, req)
    ensures Serves(Completed(h, req, draw), req, ReturnedKey(h, req, draw))
  {
    ScopesAfterBoot(h, req, draw);
    OwnScopesPermitted(req.scopes);
  }

  /**
   From a host without this cache file, over any run of boots (of this and of other
   integrations) that stop anywhere and whose cache writes are clean or lost, every
   boot that returns hands out a key its row accepts, with the wanted scopes granted.
   */
  lemma EveryReturnedKeyWorks(h: Host, req: Request, boots: seq<Boot>, draw: Draw)
    requires req.file !in h.files && AllRespect(req, boots)
    ensures Serves(Completed(AfterBoots(h, boots), req, draw), req, ReturnedKey(AfterBoots(h, boots), req, draw))
  {
    FreshInstallAgrees(h, req);
    BootsKeepAgreement(h, req, boots);
    CompletedBootServes(AfterBoots(h, boots), req, draw);
  }

  /**
   Once a key is readable from the cache, every later boot returns that same key and
   none rotates: the row keeps accepting it.
   */
  lemma CachedKeyIsForever(h: Host, req: Request, boots: seq<Boot>, draw: Draw)
    requires Agrees(h, req) && ReadCachedKey(h.files, req.file).Some? && AllRespect(req, boots)
    ensures var key := ReadCachedKey(h.files, req.file).value;
            var h' := AfterBoots(h, boots);
            && req.name in h'.rows && h'.rows[req.name].key == key
            && ReturnedKey(h', req, draw) == key
            && Completed(h', req, draw).rows[req.name].key == key
  {
    BootsKeepAgreement(h, req, boots);
  }

  /**
   What can be told of a boot before its last effect: with a row and a readable cache,
   that they already agree; otherwise that the write is clean, and is not lost over a
   readable cache that holds another key.
   */
  predicate Settles(h: Host, req: Request, draw: Draw) {
    var cached := ReadCachedKey(h.files, req.file);
    if req.name in h.rows && cached.Some? then h.rows[req.name].key == cached.value
    else CleanWrite(draw) && (draw.write.Unchanged? ==> cached.None? || cached.value == draw.key)
  }

  /** For every host: a completed boot leaves cache and row in agreement exactly when it settles them. */
  lemma AgreementIffSettled(h: Host, req: Request, draw: Draw)
    requires KeyShaped(draw.key)
    ensures Agrees(Completed(h, req, draw), req) <==> Settles(h, req, draw)
  {
    if draw.write.Prefix? {
      ReadAfterWrite(h.files, req.file, draw);
    }
  }

  /** A clean write is not enough: a lost one next to an old cache file, on a database without the row. */
  lemma OldCacheNewRow()
    ensures var h, req, draw := Host(map[], map["f" := "old"]), Request("memory", [], "f"), Draw("new", Unchanged);
            && KeyShaped(draw.key) && CleanWrite(draw)
            && !Agrees(Completed(h, req, draw), req)
            && ReturnedKey(Completed(h, req, draw), req, draw) == "old"
  {
    assert Trimmed("old") && TrimSpace("old") == "old";
  }

  /** The same integration, or one with another row and another file. */
  predicate Separate(req: Request, b: Boot) {
    SameIntegration(req, b.req) || (b.req.name != req.name && b.req.file != req.file)
  }

  /** With a row and a readable cache no boot changes either side's key, whether they agree or not. */
  lemma {:induction false} StuckCache(h: Host, req: Request, boots: seq<Boot>)
    requires req.name in h.rows && ReadCachedKey(h.files, req.file).Some?
    requires forall i | 0 <= i < |boots| :: Separate(req, boots[i])
    ensures var h' := AfterBoots(h, boots);
            && ReadCachedKey(h'.files, req.file) == ReadCachedKey(h.files, req.file)
            && req.name in h'.rows && h'.rows[req.name].key == h.rows[req.name].key
    decreases |boots|
  {
    if boots == [] {
    } else {
      assert Separate(req, boots[0]);
      assert forall i | 0 <= i < |boots[1..]| :: boots[1..][i] == boots[i + 1];
      if boots[0].req.name != req.name {
        OtherBootIsInvisible(h, req, boots[0]);
      } else {
        CachedBootKeepsKey(h, req, boots[0]);
      }
      StuckCache(AfterBoot(h, boots[0]), req, boots[1..]);
    }
  }

  /** Disagreement sticks, however it came about: from then on every boot hands out a key the row rejects. */
  lemma DisagreementSticks(h: Host, req: Request, draw: Draw, boots: seq<Boot>, again: Draw)
    requires KeyShaped(draw.key) && !Settles(h, req, draw)
    requires forall i | 0 <= i < |boots| :: Separate(req, boots[i])
    ensures var h' := AfterBoots(Completed(h, req, draw), boots);
            && req.name in h'.rows
            && ReturnedKey(h', req, again) != h'.rows[req.name].key
  {
    AgreementIffSettled(h, req, draw);
    StuckCache(Completed(h, req, draw), req, boots);
  }

  /**
   Over whole runs, from any host: after one completed boot and any later boots with
   clean or lost writes, a boot returns a key its row accepts, with the wanted scopes,
   if and only if that first boot settled cache and row.
   */
  lemma LaterKeysWorkIffSettled(h: Host, req: Request, draw: Draw, boots: seq<Boot>, again: Draw)
    requires KeyShaped(draw.key) && AllRespect(req, boots)
    ensures var h' := AfterBoots(Completed(h, req, draw), boots);
            Serves(Completed(h', req, again), req, ReturnedKey(h', req, again)) <==> Settles(h, req, draw)
  {
    var h' := AfterBoots(Completed(h, req, draw), boots);
    if Settles(h, req, draw) {
      AgreementIffSettled(h, req, draw);
      BootsKeepAgreement(Completed(h, req, draw), req, boots);
      CompletedBootServes(h', req, again);
    } else {
      forall i | 0 <= i < |boots| ensures Separate(req, boots[i]) {
        assert Respects(req, boots[i]);
      }
      DisagreementSticks(h, req, draw, boots, again);
      AgreementIffSettled(h, req, draw);
      StuckCache(Completed(h, req, draw), req, boots);
    }
  }
}
