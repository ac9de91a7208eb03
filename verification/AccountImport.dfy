/**
 Importing local antigravity accounts (internal/agyacct/service.go): scan the host
 for logged-in HOME directories and add a row for each one not already known.
 */
module AccountImport {
  import opened Text

  datatype Account = Account(name: string, displayName: string, configDir: string)

  /** One entry of the accounts directory; `hasToken` says a regular, non-empty token file lies below it. */
  datatype DirEntry = DirEntry(name: string, isDir: bool, isSymlink: bool, hasToken: bool)

  /** The gateway user's HOME (when known) and the entries of the accounts directory (None when unreadable). */
  datatype Host = Host(home: Option<string>, homeHasToken: bool, accountsDir: string, entries: Option<seq<DirEntry>>)

  datatype Found = Found(name: string, displayName: string, configDir: string)

  datatype CreateResult = Created(account: Account) | NameRequired | Duplicate

  // ---- discovery -------------------------------------------------------------------------

  predicate Usable(e: DirEntry) {
    e.isDir && !e.isSymlink && e.hasToken
  }

  /** Candidates in discovery order: the default HOME, then the usable directories. */
  function Candidates(h: Host, n: nat): seq<Found>
    requires h.entries.Some? && n <= |h.entries.value|
  {
    if n == 0 then HomeEntry(h)
    else
      var e := h.entries.value[n - 1];
      Candidates(h, n - 1) + if Usable(e) then [Found(e.name, "", "")] else []
  }

  predicate HasFound(fs: seq<Found>, name: string) {
    exists f | f in fs :: f.name == name
  }

  /** The `emit` closure: blank names and repeats are dropped, the first one stays. */
  function Emit(out: seq<Found>, f: Found): seq<Found> {
    if f.name == "" || HasFound(out, f.name) then out else out + [f]
  }

  function Emitted(fs: seq<Found>): seq<Found> {
    if fs == [] then [] else Emit(Emitted(fs[..|fs| - 1]), fs[|fs| - 1])
  }

  lemma EmittedSnoc(fs: seq<Found>, f: Found)
    ensures Emitted(fs + [f]) == Emit(Emitted(fs), f)
  {
    assert (fs + [f])[..|fs|] == fs;
  }

  lemma EmitNames(out: seq<Found>, f: Found, n: string)
    ensures HasFound(Emit(out, f), n) <==> HasFound(out, n) || (n != "" && n == f.name)
  {
    if x :| x in out && x.name == n {
      assert x in out + [f];
    }
    assert f in out + [f];
  }

  ghost predicate SeenIs(seen: set<string>, out: seq<Found>) {
    forall n :: n in seen <==> HasFound(out, n)
  }

  /** The synthetic entry for the gateway user's own HOME. */
  function HomeEntry(h: Host): seq<Found> {
    if h.home.Some? && h.home.value != "" && h.homeHasToken then [Found("default", "Default (~)", h.home.value)] else []
  }

  method DiscoverLocalAccounts(h: Host) returns (r: Option<seq<Found>>)
    ensures r.Some? <==> h.entries.Some?
    ensures r.Some? ==> r.value == Emitted(Candidates(h, |h.entries.value|))
  {
    var out: seq<Found> := [];
    var seen: set<string> := {};
    if h.home.Some? && h.home.value != "" && h.homeHasToken {
      var d := Found("default", "Default (~)", h.home.value);
      out, seen := Emitting(out, seen, d);
    }
    HomeEntryIsEmitted(h);
    if h.entries.None? {
      return None;
    }
    for i := 0 to |h.entries.value|
      invariant out == Emitted(Candidates(h, i))
      invariant SeenIs(seen, out)
    {
      var e := h.entries.value[i];
      if !e.isDir || e.isSymlink || !e.hasToken {
        assert Candidates(h, i + 1) == Candidates(h, i);
        continue;
      }
      EmittedSnoc(Candidates(h, i), Found(e.name, "", ""));
      out, seen := Emitting(out, seen, Found(e.name, "", ""));
    }
    return Some(out);
  }

  lemma HomeEntryIsEmitted(h: Host)
    ensures Emitted(HomeEntry(h)) == HomeEntry(h)
  {
    if HomeEntry(h) != [] {
      assert HomeEntry(h)[..0] == [];
    }
  }

  method Emitting(out: seq<Found>, seen: set<string>, d: Found) returns (out': seq<Found>, seen': set<string>)
    requires SeenIs(seen, out)
    ensures out' == Emit(out, d) && SeenIs(seen', out')
  {
    out', seen' := out, seen;
    forall n ensures HasFound(Emit(out, d), n) <==> HasFound(out, n) || (n != "" && n == d.name) {
      EmitNames(out, d, n);
    }
    if d.name != "" && d.name !in seen {
      seen' := seen + {d.name};
      out' := out + [d];
    }
  }

  /** Discovery yields every distinct candidate name once and nothing else. */
  lemma {:induction false} EmittedIsDistinct(fs: seq<Found>)
    ensures forall i, j | 0 <= i < j < |Emitted(fs)| :: Emitted(fs)[i].name != Emitted(fs)[j].name
    ensures forall n :: HasFound(Emitted(fs), n) <==> n != "" && HasFound(fs, n)
  {
    if fs == [] {
    } else {
      var k := |fs| - 1;
      EmittedIsDistinct(fs[..k]);
      assert fs == fs[..k] + [fs[k]];
      var out := Emitted(fs[..k]);
      forall n ensures HasFound(Emitted(fs), n) <==> n != "" && HasFound(fs, n) {
        EmitNames(out, fs[k], n);
        assert HasFound(fs, n) <==> HasFound(fs[..k], n) || fs[k].name == n;
      }
    }
  }

  // ---- rows -----------------------------------------------------------------------------------

  predicate HasName(table: seq<Account>, name: string) {
    exists a | a in table :: a.name == name
  }

  ghost predicate UniqueNames(table: seq<Account>) {
    forall i, j | 0 <= i < j < |table| :: table[i].name != table[j].name
  }

  /** Names are trimmed on create and on update. */
  predicate TrimmedNames(table: seq<Account>) {
    forall a | a in table :: Trimmed(a.name)
  }

  function DefaultDir(accountsDir: string, name: string): string {
    if accountsDir == "" then "" else accountsDir + "/" + name
  }

  function Create(table: seq<Account>, accountsDir: string, d: Found): CreateResult {
    var name := TrimSpace(d.name);
    if name == "" then NameRequired
    else if HasName(table, name) then Duplicate
    else
      var dir := TrimSpace(d.configDir);
      Created(Account(name, d.displayName, if dir == "" then DefaultDir(accountsDir, name) else dir))
  }

  /** The rows after importing, and whether the import ran to its end. */
  function Import(table: seq<Account>, accountsDir: string, ds: seq<Found>): (seq<Account>, bool)
    decreases |ds|
  {
    if ds == [] then (table, true)
    else if HasName(table, ds[0].name) then Import(table, accountsDir, ds[1..])
    else
      match Create(table, accountsDir, ds[0])
      case Created(a) => Import(table + [a], accountsDir, ds[1..])
      case Duplicate => Import(table, accountsDir, ds[1..])
      case NameRequired => (table, false)
  }

  /** The table after handling one discovered account. */
  function AfterFirst(table: seq<Account>, dir: string, d: Found): seq<Account> {
    if !HasName(table, d.name) && Create(table, dir, d).Created? then table + [Create(table, dir, d).account] else table
  }

  /** One turn of the loop. */
  lemma ImportStep(table: seq<Account>, dir: string, ds: seq<Found>, i: nat)
    requires i < |ds|
    ensures Import(table, dir, ds[i..]) ==
            if !HasName(table, ds[i].name) && Create(table, dir, ds[i]).NameRequired? then (table, false)
            else Import(AfterFirst(table, dir, ds[i]), dir, ds[i + 1..])
  {
    assert ds[i..][1..] == ds[i + 1..];
  }

  class Service {
    var table: seq<Account>

    method ImportLocal(h: Host) returns (created: seq<Account>, ok: bool)
      modifies this
      ensures table == old(table) + created
      ensures h.entries.None? ==> !ok && created == []
      ensures h.entries.Some? ==>
                (table, ok) == Import(old(table), h.accountsDir, Emitted(Candidates(h, |h.entries.value|)))
    {
      created := [];
      var found := DiscoverLocalAccounts(h);
      if found.None? {
        return [], false;
      }
      var ds := found.value;
      var i := 0;
      while i < |ds|
        invariant 0 <= i <= |ds|
        invariant table == old(table) + created
        invariant Import(old(table), h.accountsDir, ds) == Import(table, h.accountsDir, ds[i..])
      {
        ImportStep(table, h.accountsDir, ds, i);
        var d := ds[i];
        if !HasName(table, d.name) {
          var r := Create(table, h.accountsDir, d);
          if r.NameRequired? {
            return created, false;
          }
          if r.Created? {
            created := created + [r.account];
            table := table + [r.account];
          }
        }
        i := i + 1;
      }
      return created, true;
    }
  }

  // ---- what an import guarantees --------------------------------------------------------------------

  /** A directory whose name is all white space, unless a row carries that very name. */
  predicate Blocks(table: seq<Account>, d: Found) {
    TrimSpace(d.name) == "" && !HasName(table, d.name)
  }

  lemma HasNameMore(table: seq<Account>, more: seq<Account>, name: string)
    ensures HasName(table + more, name) <==> HasName(table, name) || HasName(more, name)
  {
    if a :| a in more && a.name == name {
      assert a in table + more;
    }
    if a :| a in table && a.name == name {
      assert a in table + more;
    }
  }

  /** What a new row does to later lookups: it is found under its trimmed name, which never unblocks a blank one. */
  lemma CreatedRow(table: seq<Account>, dir: string, d: Found, e: Found)
    requires Create(table, dir, d).Created?
    ensures var t := table + [Create(table, dir, d).account];
            && HasName(t, TrimSpace(d.name))
            && (Blocks(t, e) <==> Blocks(table, e))
            && (forall n :: HasName(table, n) ==> HasName(t, n))
  {
    var a := Create(table, dir, d).account;
    assert a in table + [a];
    forall n ensures HasName(table + [a], n) <==> HasName(table, n) || n == a.name {
      HasNameMore(table, [a], n);
      assert HasName([a], n) <==> n == a.name by { assert a in [a]; }
    }
  }

  predicate NoneBlocks(table: seq<Account>, ds: seq<Found>)
    decreases |ds|
  {
    ds == [] || (!Blocks(table, ds[0]) && NoneBlocks(table, ds[1..]))
  }

  lemma {:induction false} NoneBlocksEach(table: seq<Account>, ds: seq<Found>)
    ensures NoneBlocks(table, ds) <==> forall i | 0 <= i < |ds| :: !Blocks(table, ds[i])
  {
    if ds == [] {
    } else {
      NoneBlocksEach(table, ds[1..]);
      assert forall i | 1 <= i < |ds| :: ds[i] == ds[1..][i - 1];
    }
  }

  lemma {:induction false} FirstKeepsNoneBlocks(table: seq<Account>, dir: string, d: Found, ds: seq<Found>)
    ensures NoneBlocks(AfterFirst(table, dir, d), ds) <==> NoneBlocks(table, ds)
    decreases |ds|
  {
    if ds == [] {
    } else {
      FirstKeepsBlocks(table, dir, d, ds[0]);
      FirstKeepsNoneBlocks(table, dir, d, ds[1..]);
    }
  }

  /** The import runs to its end exactly when no discovered name blocks it. */
  lemma ImportSucceedsIff(table: seq<Account>, dir: string, ds: seq<Found>)
    ensures Import(table, dir, ds).1 <==> forall i | 0 <= i < |ds| :: !Blocks(table, ds[i])
  {
    ImportEnds(table, dir, ds);
    NoneBlocksEach(table, ds);
  }

  lemma {:induction false} ImportEnds(table: seq<Account>, dir: string, ds: seq<Found>)
    ensures Import(table, dir, ds).1 <==> NoneBlocks(table, ds)
    decreases |ds|
  {
    if ds == [] || Blocks(table, ds[0]) {
    } else {
      ImportEnds(AfterFirst(table, dir, ds[0]), dir, ds[1..]);
      FirstKeepsNoneBlocks(table, dir, ds[0], ds[1..]);
    }
  }

  /** For every table and discovery: existing rows stay untouched and in place, and names stay unique and trimmed. */
  lemma {:induction false} ImportKeepsRows(table: seq<Account>, dir: string, ds: seq<Found>)
    ensures table <= Import(table, dir, ds).0
    ensures UniqueNames(table) ==> UniqueNames(Import(table, dir, ds).0)
    ensures TrimmedNames(table) ==> TrimmedNames(Import(table, dir, ds).0)
    decreases |ds|
  {
    if ds == [] || Blocks(table, ds[0]) {
    } else {
      ImportKeepsRows(AfterFirst(table, dir, ds[0]), dir, ds[1..]);
      FirstKeepsNames(table, dir, ds[0]);
    }
  }

  lemma FirstKeepsBlocks(table: seq<Account>, dir: string, d: Found, e: Found)
    ensures Blocks(AfterFirst(table, dir, d), e) <==> Blocks(table, e)
  {
    if AfterFirst(table, dir, d) != table {
      CreatedRow(table, dir, d, e);
    }
  }

  lemma FirstKeepsNames(table: seq<Account>, dir: string, d: Found)
    ensures table <= AfterFirst(table, dir, d)
    ensures UniqueNames(table) ==> UniqueNames(AfterFirst(table, dir, d))
    ensures TrimmedNames(table) ==> TrimmedNames(AfterFirst(table, dir, d))
  {
    var t := AfterFirst(table, dir, d);
    if t != table && UniqueNames(table) {
      forall i, j | 0 <= i < j < |t| ensures t[i].name != t[j].name {
        assert t[i] in table;
      }
    }
  }

  /** The row this discovered account is known by: its exact name, or its trimmed one. */
  predicate Known(table: seq<Account>, d: Found) {
    HasName(table, d.name) || (TrimSpace(d.name) != "" && HasName(table, TrimSpace(d.name)))
  }

  lemma KnownStays(table: seq<Account>, more: seq<Account>, d: Found)
    requires table <= more && Known(table, d)
    ensures Known(more, d)
  {
    var rest := more[|table|..];
    assert more == table + rest;
    HasNameMore(table, rest, d.name);
    HasNameMore(table, rest, TrimSpace(d.name));
  }

  /** A successful import leaves every discovered account known. */
  lemma {:induction false} ImportCoversAll(table: seq<Account>, dir: string, ds: seq<Found>)
    requires Import(table, dir, ds).1
    ensures forall i | 0 <= i < |ds| :: Known(Import(table, dir, ds).0, ds[i])
    decreases |ds|
  {
    if ds == [] {
    } else {
      var t := AfterFirst(table, dir, ds[0]);
      ImportCoversAll(t, dir, ds[1..]);
      ImportKeepsRows(t, dir, ds[1..]);
      FirstIsKnown(table, dir, ds[0]);
      KnownStays(t, Import(table, dir, ds).0, ds[0]);
      forall i | 0 <= i < |ds| ensures Known(Import(table, dir, ds).0, ds[i]) {
        assert i > 0 ==> ds[i] == ds[1..][i - 1];
      }
    }
  }

  lemma FirstIsKnown(table: seq<Account>, dir: string, d: Found)
    requires !Blocks(table, d)
    ensures Known(AfterFirst(table, dir, d), d)
  {
    if AfterFirst(table, dir, d) != table {
      CreatedRow(table, dir, d, d);
    }
  }

  /** Known accounts are skipped: importing them again changes nothing and succeeds. */
  lemma {:induction false} KnownAreSkipped(table: seq<Account>, dir: string, ds: seq<Found>)
    requires forall i | 0 <= i < |ds| :: Known(table, ds[i])
    ensures Import(table, dir, ds) == (table, true)
    decreases |ds|
  {
    if ds == [] {
    } else {
      assert forall i | 0 <= i < |ds[1..]| :: ds[1..][i] == ds[i + 1];
      KnownAreSkipped(table, dir, ds[1..]);
    }
  }

  /** Idempotence: after a successful import a second one over the same host creates nothing. */
  lemma SecondImportCreatesNothing(table: seq<Account>, dir: string, ds: seq<Found>)
    requires Import(table, dir, ds).1
    ensures var after := Import(table, dir, ds).0; Import(after, dir, ds) == (after, true)
  {
    ImportCoversAll(table, dir, ds);
    KnownAreSkipped(Import(table, dir, ds).0, dir, ds);
  }

  /** With rows named as the service names them, each discovered account ends up under its trimmed name. */
  lemma ImportedUnderTrimmedName(table: seq<Account>, dir: string, ds: seq<Found>, i: nat)
    requires TrimmedNames(table) && Import(table, dir, ds).1 && i < |ds|
    ensures HasName(Import(table, dir, ds).0, TrimSpace(ds[i].name))
  {
    ImportCoversAll(table, dir, ds);
    ImportKeepsRows(table, dir, ds);
    assert Known(Import(table, dir, ds).0, ds[i]);
  }

  // ---- which directory an imported row points at --------------------------------------------------

  /** Create's directory for a discovered account. */
  function DirFor(dir: string, d: Found): string {
    if TrimSpace(d.configDir) == "" then DefaultDir(dir, TrimSpace(d.name)) else TrimSpace(d.configDir)
  }

  /** The row was there before, or some discovered account made it. */
  ghost predicate Sourced(table: seq<Account>, dir: string, ds: seq<Found>, a: Account) {
    a in table || exists d :: d in ds && Makes(dir, d, a)
  }

  /** The row Create makes of a discovered account. */
  predicate Makes(dir: string, d: Found, a: Account) {
    a.name == TrimSpace(d.name) && a.displayName == d.displayName && a.configDir == DirFor(dir, d)
  }

  lemma {:induction false} RowsAreSourced(table: seq<Account>, dir: string, ds: seq<Found>)
    ensures forall a | a in Import(table, dir, ds).0 :: Sourced(table, dir, ds, a)
    decreases |ds|
  {
    if ds == [] || Blocks(table, ds[0]) {
    } else {
      var t := AfterFirst(table, dir, ds[0]);
      RowsAreSourced(t, dir, ds[1..]);
      assert ds == [ds[0]] + ds[1..];
      forall a | a in Import(table, dir, ds).0 ensures Sourced(table, dir, ds, a) {
        assert Sourced(t, dir, ds[1..], a);
        assert a in t && a !in table ==> ds[0] in ds;
      }
    }
  }

  /** The list starts with `home`, and nothing after that brings a directory of its own. */
  ghost predicate OnlyHomeHasDir(home: seq<Found>, fs: seq<Found>) {
    home <= fs && forall i | |home| <= i < |fs| :: fs[i].configDir == ""
  }

  /** Dropping blank names and repeats keeps that, if it keeps `home`. */
  lemma {:induction false} EmittedKeepsDirs(home: seq<Found>, fs: seq<Found>)
    requires Emitted(home) == home && OnlyHomeHasDir(home, fs)
    ensures OnlyHomeHasDir(home, Emitted(fs))
  {
    if |fs| == |home| {
      assert fs == home;
    } else {
      EmittedKeepsDirs(home, fs[..|fs| - 1]);
    }
  }

  lemma {:induction false} CandidateDirs(h: Host, n: nat)
    requires h.entries.Some? && n <= |h.entries.value|
    ensures OnlyHomeHasDir(HomeEntry(h), Candidates(h, n))
  {
    if n == 0 {
    } else {
      CandidateDirs(h, n - 1);
    }
  }

  /** Only the gateway HOME's entry, always discovered first, brings a directory of its own. */
  lemma DiscoveredDirs(h: Host, n: nat)
    requires h.entries.Some? && n <= |h.entries.value|
    ensures OnlyHomeHasDir(HomeEntry(h), Emitted(Candidates(h, n)))
  {
    HomeEntryIsEmitted(h);
    CandidateDirs(h, n);
    EmittedKeepsDirs(HomeEntry(h), Candidates(h, n));
  }

  /** A usable directory with a name is discovered. */
  lemma {:induction false} UsableIsCandidate(h: Host, n: nat, k: nat)
    requires h.entries.Some? && k < n <= |h.entries.value| && Usable(h.entries.value[k])
    ensures HasFound(Candidates(h, n), h.entries.value[k].name)
  {
    var e := h.entries.value[n - 1];
    if k == n - 1 {
      assert Found(e.name, "", "") in Candidates(h, n);
    } else {
      UsableIsCandidate(h, n - 1, k);
      var f :| f in Candidates(h, n - 1) && f.name == h.entries.value[k].name;
      assert f in Candidates(h, n);
    }
  }

  /** The gateway HOME is imported under the name this one trims to. */
  predicate TakenByHome(h: Host, name: string) {
    HomeEntry(h) != [] && TrimSpace(name) == "default"
  }

  function ImportedDir(h: Host, name: string): string {
    if TakenByHome(h, name) then DirFor(h.accountsDir, HomeEntry(h)[0]) else DefaultDir(h.accountsDir, TrimSpace(name))
  }

  lemma UniqueRow(table: seq<Account>, a: Account, b: Account)
    requires UniqueNames(table) && a in table && b in table && a.name == b.name
    ensures a == b
  {
    var i :| 0 <= i < |table| && table[i] == a;
    var j :| 0 <= j < |table| && table[j] == b;
    assert i == j;
  }

  /** The gateway HOME comes first, so the row "default" is its own unless there was one before. */
  lemma HomeRowIsFirst(table: seq<Account>, dir: string, ds: seq<Found>)
    requires ds != [] && TrimSpace(ds[0].name) == ds[0].name != "" && !HasName(table, ds[0].name)
    ensures Account(ds[0].name, ds[0].displayName, DirFor(dir, ds[0])) in Import(table, dir, ds).0
  {
    var t := AfterFirst(table, dir, ds[0]);
    ImportKeepsRows(t, dir, ds[1..]);
    assert t[|table|] == Import(table, dir, ds).0[|table|];
  }

  /** Where the new row under the gateway HOME's name points. */
  lemma HomeRowDir(table: seq<Account>, dir: string, ds: seq<Found>, a: Account)
    requires UniqueNames(table) && ds != [] && Trimmed(ds[0].name) && ds[0].name != "" && !HasName(table, ds[0].name)
    requires a in Import(table, dir, ds).0 && a.name == ds[0].name
    ensures a.configDir == DirFor(dir, ds[0])
  {
    HomeRowIsFirst(table, dir, ds);
    ImportKeepsRows(table, dir, ds);
    UniqueRow(Import(table, dir, ds).0, a, Account(ds[0].name, ds[0].displayName, DirFor(dir, ds[0])));
  }

  /** Where a new row points when every discovered account of that name leaves the directory to Create. */
  lemma ScannedRowDir(table: seq<Account>, dir: string, ds: seq<Found>, a: Account)
    requires a in Import(table, dir, ds).0 && a !in table
    requires forall d | d in ds && TrimSpace(d.name) == a.name :: d.configDir == ""
    ensures a.configDir == DefaultDir(dir, a.name)
  {
    RowsAreSourced(table, dir, ds);
    assert Sourced(table, dir, ds, a);
  }

  /** Every new row under a trimmed name points where ImportedDir says. */
  lemma NewRowDir(table: seq<Account>, h: Host, name: string, a: Account)
    requires h.entries.Some? && UniqueNames(table) && !HasName(table, TrimSpace(name))
    requires a in Import(table, h.accountsDir, Emitted(Candidates(h, |h.entries.value|))).0 && a.name == TrimSpace(name)
    ensures a.configDir == ImportedDir(h, name)
  {
    var ds := Emitted(Candidates(h, |h.entries.value|));
    DiscoveredDirs(h, |h.entries.value|);
    assert Trimmed("default");
    if TakenByHome(h, name) {
      assert ds[0] == HomeEntry(h)[0];
      HomeRowDir(table, h.accountsDir, ds, a);
    } else {
      ScannedRowDir(table, h.accountsDir, ds, a);
    }
  }

  lemma DirsDiffer(dir: string, name: string)
    requires dir != ""
    ensures DefaultDir(dir, TrimSpace(name)) == DefaultDir(dir, name) <==> Trimmed(name)
  {
    var a, b := DefaultDir(dir, TrimSpace(name)), DefaultDir(dir, name);
    assert a[|dir| + 1..] == TrimSpace(name) && b[|dir| + 1..] == name;
  }

  /**
   A logged-in directory that no row is named after yet: a successful import leaves exactly
   one row under its trimmed name, and that row points at the scanned directory if and
   only if the name has no surrounding white space and is not taken by a logged-in gateway
   HOME (unless HOME is that very directory). An unset accounts directory has no entries.
   */
  lemma RowPointsAtScannedDirIff(table: seq<Account>, h: Host, k: nat)
    requires UniqueNames(table) && TrimmedNames(table)
    requires h.accountsDir != "" && h.entries.Some? && k < |h.entries.value|
    requires h.entries.value[k].isDir && !h.entries.value[k].isSymlink && h.entries.value[k].hasToken
    requires !HasName(table, TrimSpace(h.entries.value[k].name))
    requires Import(table, h.accountsDir, Emitted(Candidates(h, |h.entries.value|))).1
    ensures var name := h.entries.value[k].name;
            var after := Import(table, h.accountsDir, Emitted(Candidates(h, |h.entries.value|))).0;
            name != "" ==>
              && HasName(after, TrimSpace(name))
              && UniqueNames(after)
              && forall a | a in after && a.name == TrimSpace(name) ::
                   a.configDir == h.accountsDir + "/" + name <==>
                     if HomeLoggedIn(h) && TrimSpace(name) == "default"
                     then HomeDir(h) == h.accountsDir + "/" + name
                     else Trimmed(name)
  {
    var dir, ds, name := h.accountsDir, Emitted(Candidates(h, |h.entries.value|)), h.entries.value[k].name;
    if name != "" {
      UsableIsCandidate(h, |h.entries.value|, k);
      EmittedIsDistinct(Candidates(h, |h.entries.value|));
      assert HasFound(ds, name);
      var i :| 0 <= i < |ds| && ds[i].name == name;
      ImportedUnderTrimmedName(table, dir, ds, i);
      ImportKeepsRows(table, dir, ds);
      forall a | a in Import(table, dir, ds).0 && a.name == TrimSpace(name)
        ensures a.configDir == ImportedDir(h, name)
      {
        NewRowDir(table, h, name, a);
      }
      DirsDiffer(dir, name);
      HomeDirIsOwn(h);
    }
  }

  /** The gateway user's HOME is known and holds a token. */
  predicate HomeLoggedIn(h: Host) {
    h.home.Some? && h.home.value != "" && h.homeHasToken
  }

  /** Where its row points: HOME, trimmed; a HOME of white space counts as not given. */
  function HomeDir(h: Host): string
    requires h.home.Some?
  {
    if !AllSpace(h.home.value) then TrimSpace(h.home.value)
    else if h.accountsDir == "" then ""
    else h.accountsDir + "/default"
  }

  lemma HomeDirIsOwn(h: Host)
    ensures HomeEntry(h) != [] <==> HomeLoggedIn(h)
    ensures HomeLoggedIn(h) ==> DirFor(h.accountsDir, HomeEntry(h)[0]) == HomeDir(h)
  {
    if HomeLoggedIn(h) {
      assert Trimmed("default");
      BlankIff(h.home.value);
    }
  }

  /** The entry is a real directory with a token, named like the row, which points below the accounts directory. */
  ghost predicate ScannedAs(h: Host, e: DirEntry, a: Account) {
    && e.isDir && !e.isSymlink && e.hasToken
    && a.name == TrimSpace(e.name) && a.displayName == ""
    && a.configDir == if h.accountsDir == "" then "" else h.accountsDir + "/" + a.name
  }

  lemma {:induction false} CandidatesAreLoggedIn(h: Host, n: nat, f: Found)
    requires h.entries.Some? && n <= |h.entries.value| && f in Candidates(h, n)
    ensures || (HomeLoggedIn(h) && f == Found("default", "Default (~)", h.home.value))
            || (f.displayName == "" && f.configDir == ""
                && exists i :: 0 <= i < n && Usable(h.entries.value[i]) && h.entries.value[i].name == f.name)
  {
    if n == 0 {
    } else if f in Candidates(h, n - 1) {
      CandidatesAreLoggedIn(h, n - 1, f);
    } else {
      assert Usable(h.entries.value[n - 1]) && h.entries.value[n - 1].name == f.name;
    }
  }

  lemma {:induction false} EmittedAreCandidates(fs: seq<Found>, f: Found)
    requires f in Emitted(fs)
    ensures f in fs
  {
    if f in Emitted(fs[..|fs| - 1]) {
      EmittedAreCandidates(fs[..|fs| - 1], f);
    }
  }

  lemma HomeMakes(h: Host, a: Account)
    requires HomeLoggedIn(h) && Makes(h.accountsDir, Found("default", "Default (~)", h.home.value), a)
    ensures a == Account("default", "Default (~)", HomeDir(h))
  {
    HomeDirIsOwn(h);
    assert Trimmed("default");
  }

  /** A row made of a candidate is the gateway HOME's, or comes from a logged-in directory. */
  lemma CandidateMakes(h: Host, n: nat, f: Found, a: Account)
    requires h.entries.Some? && n <= |h.entries.value| && f in Candidates(h, n) && Makes(h.accountsDir, f, a)
    ensures || (HomeLoggedIn(h) && a == Account("default", "Default (~)", HomeDir(h)))
            || exists i :: 0 <= i < n && ScannedAs(h, h.entries.value[i], a)
  {
    CandidatesAreLoggedIn(h, n, f);
    if HomeLoggedIn(h) && f == Found("default", "Default (~)", h.home.value) {
      HomeMakes(h, a);
    } else {
      var i :| 0 <= i < n && Usable(h.entries.value[i]) && h.entries.value[i].name == f.name;
      assert ScannedAs(h, h.entries.value[i], a);
    }
  }

  /**
   Only logged-in HOMEs get rows, for every table and host: a new row is the gateway user's
   own HOME, or comes from a real directory (no symlink) with a token in the accounts
   directory and points at accountsDir/name.
   */
  lemma OnlyLoggedInHomesGetRows(table: seq<Account>, h: Host, a: Account)
    requires h.entries.Some? && a !in table
    requires a in Import(table, h.accountsDir, Emitted(Candidates(h, |h.entries.value|))).0
    ensures || (HomeLoggedIn(h) && a == Account("default", "Default (~)", HomeDir(h)))
            || exists i :: 0 <= i < |h.entries.value| && ScannedAs(h, h.entries.value[i], a)
  {
    var ds := Emitted(Candidates(h, |h.entries.value|));
    RowsAreSourced(table, h.accountsDir, ds);
    assert Sourced(table, h.accountsDir, ds, a);
    var d :| d in ds && Makes(h.accountsDir, d, a);
    EmittedAreCandidates(Candidates(h, |h.entries.value|), d);
    CandidateMakes(h, |h.entries.value|, d, a);
  }

  lemma ImportOne(dir: string, d: Found)
    requires Trimmed(d.name) && d.name != "" && Trimmed(d.configDir) && d.configDir != ""
    ensures Import([], dir, [d]) == ([Account(d.name, d.displayName, d.configDir)], true)
  {
    var a := Account(d.name, d.displayName, d.configDir);
    assert Create([], dir, d) == Created(a);
    assert AfterFirst([], dir, d) == [a];
    assert [d][1..] == [];
    assert Import([a], dir, []) == ([a], true);
  }

  lemma RepeatIsDropped(h: Host)
    requires HomeEntry(h) != [] && h.entries.Some? && |h.entries.value| == 1 && h.entries.value[0].name == "default"
    ensures Emitted(Candidates(h, 1)) == HomeEntry(h)
  {
    HomeEntryIsEmitted(h);
    assert HomeEntry(h)[0] in HomeEntry(h);
    EmittedSnoc(HomeEntry(h), Found("default", "", ""));
  }

  /** A logged-in directory called "default" is lost behind a logged-in gateway HOME. */
  lemma DefaultDirIsSwallowed(h: Host)
    requires HomeEntry(h) != [] && Trimmed(h.home.value)
    requires h.entries == Some([DirEntry("default", true, false, true)])
    ensures Import([], h.accountsDir, Emitted(Candidates(h, 1))) ==
            ([Account("default", "Default (~)", h.home.value)], true)
  {
    RepeatIsDropped(h);
    assert HomeEntry(h) == [HomeEntry(h)[0]];
    ImportOne(h.accountsDir, HomeEntry(h)[0]);
  }
}
