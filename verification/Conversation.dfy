/**
 Carrying an agy conversation between account HOMEs (internal/agyacct/conversation.go,
 called from the account switch in internal/session/manager.go).

 Files are a map from paths to contents; a path is named by its role instead of by
 a joined string. last_conversations.json is a JSON object of strings, the JSON
 value null, or something that does not decode.
 */
module Conversation {
  import opened Text

  /** `.db`, `.db-wal` and `.db-shm`. */
  datatype Suffix = Main | Wal | Shm

  const SUFFIXES := [Main, Wal, Shm]

  datatype Path = Db(home: string, conv: string, suffix: Suffix) | LastConv(home: string)

  datatype Content = Data(bytes: string) | Json(cwds: map<string, string>) | JsonNull | Malformed

  type Files = map<Path, Content>

  datatype Outcome = Done | Failed | Panicked

  // ---- the record per working directory -------------------------------------------------

  function ConversationIdForCwd(files: Files, home: string, cwd: string): string {
    if home == "" || cwd == "" || LastConv(home) !in files then ""
    else
      var c := files[LastConv(home)];
      if c.Json? && cwd in c.cwds then c.cwds[cwd] else ""
  }

  /** The map setLastConversation starts from; decoding null leaves a nil map, which cannot be assigned to. */
  function DecodedRecord(files: Files, home: string): Option<map<string, string>> {
    if LastConv(home) !in files then Some(map[])
    else
      match files[LastConv(home)]
      case Json(m) => Some(m)
      case JsonNull => None
      case _ => Some(map[])
  }

  /** A conversation is on record for a cwd exactly when the HOME's record file is an object that names it. */
  lemma RecordedIff(files: Files, home: string, cwd: string, conv: string)
    requires conv != ""
    ensures ConversationIdForCwd(files, home, cwd) == conv <==>
            && home != "" && cwd != "" && LastConv(home) in files
            && exists m: map<string, string> :: files[LastConv(home)] == Json(m) && cwd in m && m[cwd] == conv
  {
    if home != "" && cwd != "" && LastConv(home) in files && files[LastConv(home)].Json? {
      assert files[LastConv(home)] == Json(files[LastConv(home)].cwds);
    }
  }

  // ---- the specification of a copy ----------------------------------------------------------

  function CopyOne(files: Files, src: string, dst: string, conv: string, suffix: Suffix): Files {
    if Db(src, conv, suffix) in files
    then files[Db(dst, conv, suffix) := files[Db(src, conv, suffix)]]
    else files
  }

  function CopyUpTo(files: Files, src: string, dst: string, conv: string, n: nat): Files
    requires n <= |SUFFIXES|
  {
    if n == 0 then files else CopyOne(CopyUpTo(files, src, dst, conv, n - 1), src, dst, conv, SUFFIXES[n - 1])
  }

  function CopySpec(files: Files, src: string, dst: string, conv: string, cwd: string): (Outcome, Files) {
    if src == "" || dst == "" || conv == "" then (Failed, files)
    else if src == dst then (Done, files)
    else if Db(src, conv, Main) !in files then (Failed, files)
    else
      var copied := CopyUpTo(files, src, dst, conv, |SUFFIXES|);
      if cwd == "" then (Done, copied)
      else
        match DecodedRecord(files, dst)
        case None => (Panicked, copied)
        case Some(m) => (Done, copied[LastConv(dst) := Json(m[cwd := conv])])
  }

  class FileTree {
    var files: Files

    /** A write either happens whole or, for a path in `readOnly`, fails and changes nothing. */
    method WriteFile(p: Path, c: Content, readOnly: set<Path>) returns (ok: bool)
      modifies this
      ensures ok <==> p !in readOnly
      ensures files == if ok then old(files)[p := c] else old(files)
    {
      ok := p !in readOnly;
      if ok {
        files := files[p := c];
      }
    }

    method SetLastConversation(home: string, cwd: string, conv: string, readOnly: set<Path>) returns (r: Outcome)
      modifies this
      ensures match DecodedRecord(old(files), home)
              case None => r == Panicked && files == old(files)
              case Some(m) =>
                if LastConv(home) in readOnly then r == Failed && files == old(files)
                else r == Done && files == old(files)[LastConv(home) := Json(m[cwd := conv])]
    {
      var m := DecodedRecord(files, home);
      if m.None? {
        return Panicked;
      }
      var ok := WriteFile(LastConv(home), Json(m.value[cwd := conv]), readOnly);
      r := if ok then Done else Failed;
    }

    method CopyConversation(
        src: string, dst: string, conv: string, cwd: string, readOnly: set<Path>) returns (r: Outcome)
      modifies this
      ensures r != Failed || readOnly == {} ==> (r, files) == CopySpec(old(files), src, dst, conv, cwd)
      ensures forall p: Path | p.home != dst :: Same(old(files), files, p)
    {
      if src == "" || dst == "" || conv == "" {
        return Failed;
      }
      if src == dst {
        return Done;
      }
      var i := 0;
      while i < |SUFFIXES|
        invariant 0 <= i <= |SUFFIXES|
        invariant i > 0 ==> Db(src, conv, Main) in old(files)
        invariant files == CopyUpTo(old(files), src, dst, conv, i)
        invariant forall p: Path | p.home != dst || p.LastConv? :: Same(old(files), files, p)
      {
        var suffix := SUFFIXES[i];
        assert Same(old(files), files, Db(src, conv, suffix));
        if Db(src, conv, suffix) !in files {
          if suffix == Main {
            return Failed;
          }
        } else {
          var ok := WriteFile(Db(dst, conv, suffix), files[Db(src, conv, suffix)], readOnly);
          if !ok {
            return Failed;
          }
        }
        i := i + 1;
      }
      assert Same(old(files), files, LastConv(dst));
      if cwd != "" {
        r := SetLastConversation(dst, cwd, conv, readOnly);
      } else {
        r := Done;
      }
    }
  }

  /** The path is absent in both, or present in both with the same content. */
  predicate Same(a: Files, b: Files, p: Path) {
    (p in a <==> p in b) && (p in a ==> a[p] == b[p])
  }

  // ---- what one copy achieves -------------------------------------------------------------------

  predicate Carries(files: Files, src: string, dst: string, conv: string, p: Path) {
    p.Db? && p.home == dst && p.conv == conv && Db(src, conv, p.suffix) in files
  }

  /** After the loop: target files present at the source are the source's, everything else is as it was. */
  lemma CopiedFiles(files: Files, src: string, dst: string, conv: string, p: Path)
    requires src != dst
    ensures var after := CopyUpTo(files, src, dst, conv, |SUFFIXES|);
            if Carries(files, src, dst, conv, p) then p in after && after[p] == files[Db(src, conv, p.suffix)]
            else Same(files, after, p)
  {
    var f1 := CopyUpTo(files, src, dst, conv, 1);
    var f2 := CopyUpTo(files, src, dst, conv, 2);
    assert CopyUpTo(files, src, dst, conv, 0) == files;
    assert f1 == CopyOne(files, src, dst, conv, Main);
    assert f2 == CopyOne(f1, src, dst, conv, Wal);
    assert CopyUpTo(files, src, dst, conv, 3) == CopyOne(f2, src, dst, conv, Shm);
    if Carries(files, src, dst, conv, p) {
      assert p == Db(dst, conv, p.suffix);
      match p.suffix
      case Main =>
      case Wal =>
      case Shm =>
    }
  }

  /**
   A copy succeeds exactly when its arguments are set, the conversation exists at the
   source and the target's record is not the JSON value null; it then carries every
   file present at the source byte for byte, records the conversation for the cwd,
   keeps every other cwd's record, and touches no HOME but the target and no other file in it.
   */
  lemma CopyIsFaithful(files: Files, src: string, dst: string, conv: string, cwd: string)
    requires src != dst
    ensures var (r, after) := CopySpec(files, src, dst, conv, cwd);
            && (r == Done <==> && src != "" && dst != "" && conv != "" && Db(src, conv, Main) in files
                               && (cwd != "" ==> !(LastConv(dst) in files && files[LastConv(dst)] == JsonNull)))
            && (forall p: Path | p.home != dst || (p.Db? && !Carries(files, src, dst, conv, p))
                :: Same(files, after, p))
            && (r == Done ==> forall s | Db(src, conv, s) in files ::
                  Db(dst, conv, s) in after && after[Db(dst, conv, s)] == files[Db(src, conv, s)])
            && (r == Done && cwd != "" ==> ConversationIdForCwd(after, dst, cwd) == conv)
            && (forall other | other != cwd
                :: ConversationIdForCwd(after, dst, other) == ConversationIdForCwd(files, dst, other))
  {
    var after := CopySpec(files, src, dst, conv, cwd).1;
    forall p: Path | p.home != dst || (p.Db? && !Carries(files, src, dst, conv, p)) ensures Same(files, after, p) {
      CopiedFiles(files, src, dst, conv, p);
    }
    forall s | Db(src, conv, s) in files
      ensures CopySpec(files, src, dst, conv, cwd).0 == Done ==>
                Db(dst, conv, s) in after && after[Db(dst, conv, s)] == files[Db(src, conv, s)]
    {
      CopiedFiles(files, src, dst, conv, Db(dst, conv, s));
    }
    CopiedFiles(files, src, dst, conv, LastConv(dst));
  }

  /**
   Nothing is deleted at the target, so the conversation's files agree in full only if no stale
   sidecar waits there.
   */
  lemma SameFilesIffNoStaleSidecar(files: Files, src: string, dst: string, conv: string, cwd: string)
    requires src != dst && CopySpec(files, src, dst, conv, cwd).0 == Done
    ensures var after := CopySpec(files, src, dst, conv, cwd).1;
            (forall s :: && (Db(dst, conv, s) in after <==> Db(src, conv, s) in after)
                         && (Db(dst, conv, s) in after ==> after[Db(dst, conv, s)] == after[Db(src, conv, s)]))
            <==> (forall s | s != Main :: Db(dst, conv, s) in files ==> Db(src, conv, s) in files)
  {
    var after := CopySpec(files, src, dst, conv, cwd).1;
    forall s
      ensures Db(src, conv, s) in after <==> Db(src, conv, s) in files
      ensures Db(dst, conv, s) in after <==> Db(src, conv, s) in files || Db(dst, conv, s) in files
      ensures Db(src, conv, s) in files ==> after[Db(dst, conv, s)] == after[Db(src, conv, s)]
    {
      CopiedFiles(files, src, dst, conv, Db(dst, conv, s));
      CopiedFiles(files, src, dst, conv, Db(src, conv, s));
    }
  }

  // ---- chains of switches ------------------------------------------------------------------------

  /** The session's HOME, and the files of its conversation as the last work left them. */
  datatype Session = Session(files: Files, home: string, latest: map<Suffix, Content>)

  datatype Step =
    | Work(written: map<Suffix, Content>)                // agy rewrites this conversation's files in the current HOME
    | Elsewhere(path: Path, content: Content)            // any other file of any HOME
    | OtherCwd(home: string, cwd: string, conv: string)  // another working directory's record
    | Switch(home: string)

  /** agy keeps the records it writes decodable; what belongs to this conversation is left to Work and Switch. */
  predicate Enabled(s: Session, cwd: string, conv: string, step: Step) {
    match step
    case Work(written) => Main in written
    case Elsewhere(p, _) => p.Db? && !(p.home == s.home && p.conv == conv)
    case OtherCwd(home, other, _) => other != cwd && DecodedRecord(s.files, home).Some?
    case Switch(home) => home != ""
  }

  /** The conversation's three files in this HOME become exactly those written; a missing one is deleted. */
  function Rewrite(files: Files, home: string, conv: string, written: map<Suffix, Content>): Files {
    map p | p in files.Keys + {Db(home, conv, Main), Db(home, conv, Wal), Db(home, conv, Shm)}
            && (p.Db? && p.home == home && p.conv == conv ==> p.suffix in written)
      :: if p.Db? && p.home == home && p.conv == conv then written[p.suffix] else files[p]
  }

  lemma RewriteIsExact(files: Files, home: string, conv: string, written: map<Suffix, Content>)
    ensures var after := Rewrite(files, home, conv, written);
            && (forall x :: Db(home, conv, x) in after <==> x in written)
            && (forall x | x in written :: Db(home, conv, x) in after && after[Db(home, conv, x)] == written[x])
            && (forall p: Path | !(p.Db? && p.home == home && p.conv == conv) :: Same(files, after, p))
  {
    var names := files.Keys + {Db(home, conv, Main), Db(home, conv, Wal), Db(home, conv, Shm)};
    forall x: Suffix ensures Db(home, conv, x) in names {
      match x
      case Main =>
      case Wal =>
      case Shm =>
    }
  }

  function Next(s: Session, cwd: string, conv: string, step: Step): Session
    requires Enabled(s, cwd, conv, step)
  {
    match step
    case Work(written) => s.(files := Rewrite(s.files, s.home, conv, written), latest := written)
    case Elsewhere(p, content) => s.(files := s.files[p := content])
    case OtherCwd(home, other, id) =>
      s.(files := s.files[LastConv(home) := Json(DecodedRecord(s.files, home).value[other := id])])
    case Switch(home) =>
      var id := ConversationIdForCwd(s.files, s.home, cwd);
      s.(home := home, files := if id == "" then s.files else CopySpec(s.files, s.home, home, id, cwd).1)
  }

  /** Every file of the last work lies in the current HOME, byte for byte. */
  ghost predicate HoldsLatest(s: Session, conv: string) {
    && Main in s.latest
    && forall x | x in s.latest :: Db(s.home, conv, x) in s.files && s.files[Db(s.home, conv, x)] == s.latest[x]
  }

  /** The current HOME resumes this conversation, with all its latest files, and no record is the value null. */
  ghost predicate Carried(s: Session, cwd: string, conv: string) {
    && s.home != ""
    && ConversationIdForCwd(s.files, s.home, cwd) == conv
    && HoldsLatest(s, conv)
    && forall p | p in s.files && p.LastConv? :: s.files[p] != JsonNull
  }

  lemma SwitchCarries(s: Session, cwd: string, conv: string, home: string)
    requires conv != "" && cwd != "" && Carried(s, cwd, conv) && home != "" && home != s.home
    ensures Carried(Next(s, cwd, conv, Switch(home)), cwd, conv)
  {
    var t := Next(s, cwd, conv, Switch(home));
    CopyIsFaithful(s.files, s.home, home, conv, cwd);
    assert t.files == CopySpec(s.files, s.home, home, conv, cwd).1;
  }

  lemma StepCarries(s: Session, cwd: string, conv: string, step: Step)
    requires conv != "" && cwd != "" && Carried(s, cwd, conv) && Enabled(s, cwd, conv, step)
    ensures Carried(Next(s, cwd, conv, step), cwd, conv)
  {
    if step.Work? {
      RewriteIsExact(s.files, s.home, conv, step.written);
      assert Same(s.files, Next(s, cwd, conv, step).files, LastConv(s.home));
    } else if step.Switch? && step.home != s.home {
      SwitchCarries(s, cwd, conv, step.home);
    }
  }

  ghost predicate Legal(s: Session, cwd: string, conv: string, steps: seq<Step>)
    decreases |steps|
  {
    steps == [] || (Enabled(s, cwd, conv, steps[0]) && Legal(Next(s, cwd, conv, steps[0]), cwd, conv, steps[1..]))
  }

  ghost function Exec(s: Session, cwd: string, conv: string, steps: seq<Step>): Session
    requires Legal(s, cwd, conv, steps)
    decreases |steps|
  {
    if steps == [] then s else Exec(Next(s, cwd, conv, steps[0]), cwd, conv, steps[1..])
  }

  /**
   Over any chain of work and switches, back and forth, the session keeps its
   conversation, and every file of the last work is in the current HOME byte for byte.
   */
  lemma {:induction false} ConversationSurvivesSwitches(s: Session, cwd: string, conv: string, steps: seq<Step>)
    requires conv != "" && cwd != "" && Carried(s, cwd, conv) && Legal(s, cwd, conv, steps)
    ensures Carried(Exec(s, cwd, conv, steps), cwd, conv)
    decreases |steps|
  {
    if steps == [] {
    } else {
      StepCarries(s, cwd, conv, steps[0]);
      ConversationSurvivesSwitches(Next(s, cwd, conv, steps[0]), cwd, conv, steps[1..]);
    }
  }

  // ---- stale sidecars over runs --------------------------------------------------------------------

  /** This HOME has no file of the conversation that the last work did not leave. */
  ghost predicate NoStale(s: Session, conv: string, home: string) {
    forall x | Db(home, conv, x) in s.files :: x in s.latest
  }

  /**
   A switch keeps exactly the last work's files if and only if neither the HOME it leaves nor
   its target holds another.
   */
  lemma SwitchExactIff(s: Session, cwd: string, conv: string, home: string)
    requires conv != "" && cwd != "" && Carried(s, cwd, conv) && home != ""
    ensures NoStale(Next(s, cwd, conv, Switch(home)), conv, home) <==>
            NoStale(s, conv, s.home) && NoStale(s, conv, home)
  {
    if home != s.home {
      var t := Next(s, cwd, conv, Switch(home));
      CopyIsFaithful(s.files, s.home, home, conv, cwd);
      assert t.files == CopySpec(s.files, s.home, home, conv, cwd).1;
      forall x
        ensures Db(home, conv, x) in t.files <==> Db(s.home, conv, x) in s.files || Db(home, conv, x) in s.files
      {
        CopiedFiles(s.files, s.home, home, conv, Db(home, conv, x));
      }
    }
  }

  /** Every step other than a switch keeps the current HOME exact, and work makes it so. */
  lemma OtherStepExact(s: Session, cwd: string, conv: string, step: Step)
    requires Enabled(s, cwd, conv, step) && !step.Switch?
    ensures NoStale(Next(s, cwd, conv, step), conv, s.home) <==> step.Work? || NoStale(s, conv, s.home)
  {
    if step.Work? {
      RewriteIsExact(s.files, s.home, conv, step.written);
    } else {
      var t := Next(s, cwd, conv, step);
      assert forall x :: Db(s.home, conv, x) in t.files <==> Db(s.home, conv, x) in s.files;
    }
  }

  /** No switch of the run enters a HOME that holds a stale file. */
  ghost predicate CleanTargets(s: Session, cwd: string, conv: string, steps: seq<Step>)
    requires Legal(s, cwd, conv, steps)
    decreases |steps|
  {
    steps != [] ==>
      && (steps[0].Switch? ==> NoStale(s, conv, steps[0].home))
      && CleanTargets(Next(s, cwd, conv, steps[0]), cwd, conv, steps[1..])
  }

  /**
   From the last work on, the current HOME holds exactly the files that work left if
   and only if it did so then and no switch since entered a HOME with a stale one.
   */
  lemma {:induction false} ExactFilesIffCleanTargets(s: Session, cwd: string, conv: string, steps: seq<Step>)
    requires conv != "" && cwd != "" && Carried(s, cwd, conv) && Legal(s, cwd, conv, steps)
    requires forall i | 0 <= i < |steps| :: !steps[i].Work?
    ensures var t := Exec(s, cwd, conv, steps);
            NoStale(t, conv, t.home) <==> NoStale(s, conv, s.home) && CleanTargets(s, cwd, conv, steps)
    decreases |steps|
  {
    if steps == [] {
    } else {
      var t := Next(s, cwd, conv, steps[0]);
      StepCarries(s, cwd, conv, steps[0]);
      if steps[0].Switch? {
        SwitchExactIff(s, cwd, conv, steps[0].home);
      } else {
        OtherStepExact(s, cwd, conv, steps[0]);
      }
      assert forall i | 0 <= i < |steps[1..]| :: steps[1..][i] == steps[i + 1];
      ExactFilesIffCleanTargets(t, cwd, conv, steps[1..]);
    }
  }

  lemma ExecTwo(s: Session, cwd: string, conv: string, a: Step, b: Step, rest: seq<Step>)
    requires Enabled(s, cwd, conv, a) && Enabled(Next(s, cwd, conv, a), cwd, conv, b)
    requires Legal(Next(Next(s, cwd, conv, a), cwd, conv, b), cwd, conv, rest)
    ensures Legal(s, cwd, conv, [a, b] + rest)
    ensures Exec(s, cwd, conv, [a, b] + rest) == Exec(Next(Next(s, cwd, conv, a), cwd, conv, b), cwd, conv, rest)
  {
    var steps := [a, b] + rest;
    assert steps[1..][1..] == rest;
    assert Legal(Next(s, cwd, conv, a), cwd, conv, steps[1..]);
  }

  /** Work, then a switch to another HOME: the files left behind stay as the work wrote them. */
  lemma WorkThenLeave(
      s: Session, cwd: string, conv: string, written: map<Suffix, Content>, home: string) returns (t: Session)
    requires conv != "" && cwd != "" && Carried(s, cwd, conv) && Main in written && home != "" && home != s.home
    ensures Enabled(s, cwd, conv, Work(written))
            && t == Next(Next(s, cwd, conv, Work(written)), cwd, conv, Switch(home))
    ensures Carried(t, cwd, conv) && t.home == home && t.latest == written
    ensures forall x | x in written :: Db(s.home, conv, x) in t.files && t.files[Db(s.home, conv, x)] == written[x]
    ensures forall x | x !in written :: Same(s.files, t.files, Db(home, conv, x))
  {
    var w := Next(s, cwd, conv, Work(written));
    StepCarries(s, cwd, conv, Work(written));
    RewriteIsExact(s.files, s.home, conv, written);
    t := Next(w, cwd, conv, Switch(home));
    SwitchCarries(w, cwd, conv, home);
    CopyIsFaithful(w.files, s.home, home, conv, cwd);
    forall x | x in written ensures Same(w.files, t.files, Db(s.home, conv, x)) {
    }
    forall x | x !in written ensures Same(s.files, t.files, Db(home, conv, x)) {
      assert Same(s.files, w.files, Db(home, conv, x));
      assert Same(w.files, t.files, Db(home, conv, x));
    }
  }

  /**
   The stale sidecar is reached by ordinary use: work that leaves a write-ahead log in
   one HOME, a switch, work that leaves none, and a switch back put the old log next
   to the new database.
   */
  lemma SwitchingBackMeetsOldLog(
      s: Session, cwd: string, conv: string, b: string, v1: Content, log: Content, v2: Content)
    requires conv != "" && cwd != "" && Carried(s, cwd, conv) && b != "" && b != s.home
    ensures var steps := [Work(map[Main := v1, Wal := log]), Switch(b)] + [Work(map[Main := v2]), Switch(s.home)];
            && Legal(s, cwd, conv, steps)
            && var t := Exec(s, cwd, conv, steps);
               && t.home == s.home && t.latest == map[Main := v2]
               && Db(s.home, conv, Main) in t.files && t.files[Db(s.home, conv, Main)] == v2
               && Db(s.home, conv, Wal) in t.files && t.files[Db(s.home, conv, Wal)] == log
  {
    var s2 := WorkThenLeave(s, cwd, conv, map[Main := v1, Wal := log], b);
    var s4 := WorkThenLeave(s2, cwd, conv, map[Main := v2], s.home);
    assert Legal(s4, cwd, conv, []) && Exec(s4, cwd, conv, []) == s4;
    ExecTwo(s2, cwd, conv, Work(map[Main := v2]), Switch(s.home), []);
    var back := [Work(map[Main := v2]), Switch(s.home)];
    assert back + [] == back;
    ExecTwo(s, cwd, conv, Work(map[Main := v1, Wal := log]), Switch(b), back);
    assert Same(s2.files, s4.files, Db(s.home, conv, Wal));
  }
}
