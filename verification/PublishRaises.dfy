/** When every publish lifts the live version: exactly when writers are serialised, by the advisory lock or by there
    being only one. */
module PublishRaises {
  import opened Prelude
  import opened Publish
  import opened PublishAlone
  import opened PublishProofs

  // ---------------------------------------------------------------------------------------------
  // One session needs no lock.
  // ---------------------------------------------------------------------------------------------

  /** The same system with nobody holding a lock. */
  function Unheld(y: System): System {
    y.(holder := None)
  }

  function Locking(r: Rail): Rail {
    r.(locks := true)
  }

  predicate OneSession(y: System) {
    |y.sessions| <= 1 && y.holder in {None, Some(0)}
  }

  lemma UnheldInsert(y: System, v: nat, status: Status, after: Stage)
    requires OneSession(y) && |y.sessions| == 1
    ensures OneSession(Insert(y, 0, v, status, after))
    ensures Insert(Unheld(y), 0, v, status, after) == Unheld(Insert(y, 0, v, status, after))
  {
    assert !InsertPending(y, 0, v) && !InsertPending(Unheld(y), 0, v);
  }

  lemma UnheldClaim(y: System, v: nat)
    requires OneSession(y) && |y.sessions| == 1
    ensures OneSession(ClaimDraft(y, 0, v))
    ensures ClaimDraft(Unheld(y), 0, v) == Unheld(ClaimDraft(y, 0, v))
  {
    assert !ClaimPending(y, 0, v) && !ClaimPending(Unheld(y), 0, v);
  }

  lemma UnheldWrite(r: Rail, y: System)
    requires !r.locks && OneSession(y) && |y.sessions| == 1 && y.sessions[0].stage in {SeedInsert, Writing}
    ensures OneSession(NextStatement(Locking(r), y, 0))
    ensures NextStatement(r, Unheld(y), 0) == Unheld(NextStatement(Locking(r), y, 0))
  {
    assert Draw(r, Unheld(y)) == Unheld(Draw(Locking(r), y));
    if y.sessions[0].stage == Writing && y.sessions[0].call.PublishVersion? {
      UnheldClaim(y, y.sessions[0].call.version);
    } else if y.sessions[0].stage == Writing {
      UnheldInsert(Draw(Locking(r), y), DraftVersion(r, y, 0), Draft, Written);
    } else {
      UnheldInsert(Draw(Locking(r), y), if r.numbering.Counter? then y.counter else 1, Published, Enter);
    }
  }

  lemma UnheldSeed(r: Rail, y: System)
    requires !r.locks && OneSession(y) && |y.sessions| == 1
    requires y.sessions[0].stage in {SeedCheck, SeedLock, SeedRecheck}
    ensures OneSession(NextStatement(Locking(r), y, 0))
    ensures NextStatement(r, Unheld(y), 0) == Unheld(NextStatement(Locking(r), y, 0))
  {
    assert LockFree(Locking(r), y, 0) && LockFree(r, Unheld(y), 0);
  }

  lemma UnheldRead(r: Rail, y: System)
    requires !r.locks && OneSession(y) && |y.sessions| == 1
    requires y.sessions[0].stage !in {SeedCheck, SeedLock, SeedRecheck, SeedInsert, Writing}
    ensures OneSession(NextStatement(Locking(r), y, 0))
    ensures NextStatement(r, Unheld(y), 0) == Unheld(NextStatement(Locking(r), y, 0))
  {
    assert LockFree(Locking(r), y, 0) && LockFree(r, Unheld(y), 0);
  }

  lemma OneSessionStep(r: Rail, y: System, a: Action)
    requires !r.locks && OneSession(y)
    ensures OneSession(Step(Locking(r), y, a))
    ensures Step(r, Unheld(y), a) == Unheld(Step(Locking(r), y, a))
  {
    if a.who < |y.sessions| && a.move == Next {
      if y.sessions[0].stage in {SeedInsert, Writing} {
        UnheldWrite(r, y);
      } else if y.sessions[0].stage in {SeedCheck, SeedLock, SeedRecheck} {
        UnheldSeed(r, y);
      } else {
        UnheldRead(r, y);
      }
    }
  }

  /** A single session's run is the run it would make under the lock. */
  lemma {:induction false} OneSessionRun(r: Rail, y: System, actions: seq<Action>)
    requires !r.locks && OneSession(y)
    ensures Run(r, Unheld(y), actions) == Unheld(Run(Locking(r), y, actions))
    decreases |actions|
  {
    if actions != [] {
      OneSessionStep(r, y, actions[0]);
      OneSessionRun(r, Step(Locking(r), y, actions[0]), actions[1..]);
    }
  }

  // ---------------------------------------------------------------------------------------------
  // Two sessions and no lock, on any rail.
  // ---------------------------------------------------------------------------------------------

  ghost predicate Reaches(r: Rail, y: System, y': System) {
    exists actions :: Run(r, y, actions) == y'
  }

  lemma ReachesStep(r: Rail, y: System, a: Action)
    ensures Reaches(r, y, Step(r, y, a))
  {
    assert [a][1..] == [];
    assert Run(r, y, [a]) == Run(r, Step(r, y, a), []);
  }

  lemma ReachesOn(r: Rail, y: System, y': System, y'': System)
    requires Reaches(r, y, y') && Reaches(r, y', y'')
    ensures Reaches(r, y, y'')
  {
    var first :| Run(r, y, first) == y';
    var second :| Run(r, y', second) == y'';
    RunTwice(r, y, first, second);
  }

  lemma ReachesNext(r: Rail, y: System, y': System, who: nat)
    requires Reaches(r, y, y') && who < |y'.sessions|
    ensures Reaches(r, y, NextStatement(r, y', who))
  {
    ReachesStep(r, y', Action(who, Next));
    ReachesOn(r, y, y', Step(r, y', Action(who, Next)));
  }

  lemma ReachesCommit(r: Rail, y: System, y': System, who: nat)
    requires Reaches(r, y, y')
    ensures Reaches(r, y, Step(r, y', Action(who, Commit)))
  {
    ReachesStep(r, y', Action(who, Commit));
    ReachesOn(r, y, y', Step(r, y', Action(who, Commit)));
  }

  /** A session free to call, on a table that is seeded already if its rail seeds. */
  predicate Free(r: Rail, y: System, who: nat) {
    !r.locks && Quiet(y, who) && (r.seeds ==> y.rows != map[])
  }

  lemma ReachesEnter(r: Rail, y: System, who: nat, call: Call)
    requires Free(r, y, who)
    ensures Reaches(r, y, At(r, y, who, call, Enter, 0))
  {
    var begun := Step(r, y, Action(who, Begin(call)));
    ReachesStep(r, y, Action(who, Begin(call)));
    if r.seeds {
      assert begun == At(r, y, who, call, SeedCheck, 0);
      VisibleAlone(r, y, who, call, SeedCheck, 0);
      ReachesNext(r, y, begun, who);
    }
  }

  /** A table nobody has used, seeded if its rail seeds. */
  function Seeded(r: Rail, sessions: nat): System {
    if r.seeds then
      Start(sessions).(rows := map[1 := Published], counter := if r.numbering.Counter? then 2 else 1)
    else Start(sessions)
  }

  lemma SeedStatements(r: Rail, y: System, who: nat)
    requires !r.locks && r.seeds && Quiet(y, who) && y.rows == map[] && y.counter == 1
    ensures var seeding := At(r, y, who, Look, SeedInsert, 0);
      && NextStatement(r, At(r, y, who, Look, SeedCheck, 0), who) == At(r, y, who, Look, SeedLock, 0)
      && NextStatement(r, At(r, y, who, Look, SeedLock, 0), who) == At(r, y, who, Look, SeedRecheck, 0)
      && NextStatement(r, At(r, y, who, Look, SeedRecheck, 0), who) == seeding
      && NextStatement(r, seeding, who) ==
         Become(Draw(r, y), who, Session(Look, Enter, map[1 := Published], 0, None))
  {
    VisibleAlone(r, y, who, Look, SeedCheck, 0);
    VisibleAlone(r, y, who, Look, SeedRecheck, 0);
    assert map[][1 := Published] == map[1 := Published];
  }

  lemma ReachesSeeded(r: Rail, sessions: nat)
    requires !r.locks && sessions >= 1
    ensures Reaches(r, Start(sessions), Seeded(r, sessions))
  {
    var y := Start(sessions);
    if r.seeds {
      var begun := Step(r, y, Action(0, Begin(Look)));
      assert begun == At(r, y, 0, Look, SeedCheck, 0);
      ReachesStep(r, y, Action(0, Begin(Look)));
      SeedStatements(r, y, 0);
      ReachesNext(r, y, begun, 0);
      ReachesNext(r, y, At(r, y, 0, Look, SeedLock, 0), 0);
      ReachesNext(r, y, At(r, y, 0, Look, SeedRecheck, 0), 0);
      ReachesNext(r, y, At(r, y, 0, Look, SeedInsert, 0), 0);
      var entered := Become(Draw(r, y), 0, Session(Look, Enter, map[1 := Published], 0, None));
      var written := Become(Draw(r, y), 0, Session(Look, Written, map[1 := Published], 0, None));
      assert NextStatement(r, entered, 0) == written;
      ReachesNext(r, y, entered, 0);
      ReachesCommit(r, y, written, 0);
      assert Visible(y.rows, written.sessions[0]) == map[1 := Published];
      assert Step(r, written, Action(0, Commit)) == Seeded(r, sessions);
    } else {
      assert Run(r, y, []) == y;
    }
  }

  ghost function NextVersion(r: Rail, y: System): nat {
    if r.numbering.Counter? then y.counter else MaxOf(y.rows.Keys) + 1
  }

  ghost function Drafted(r: Rail, y: System): System {
    Draw(r, y).(rows := y.rows[NextVersion(r, y) := Draft])
  }

  lemma ReachesDraftWrite(r: Rail, y: System, who: nat)
    requires Free(r, y, who)
    ensures Reaches(r, y, At(r, y, who, CreateDraft, Writing, if r.numbering.Counter? then 0 else MaxOf(y.rows.Keys)))
  {
    ReachesEnter(r, y, who, CreateDraft);
    ReachesNext(r, y, At(r, y, who, CreateDraft, Enter, 0), who);
    if r.numbering.HighestPlusOne? {
      EnterAlone(r, y, who, CreateDraft);
      VisibleAlone(r, y, who, CreateDraft, Reading, 0);
      ReachesNext(r, y, At(r, y, who, CreateDraft, Reading, 0), who);
    }
  }

  lemma DraftWritten(r: Rail, y: System, who: nat, seen: nat)
    requires Free(r, y, who) && seen == (if r.numbering.Counter? then 0 else MaxOf(y.rows.Keys))
    requires NextVersion(r, y) !in y.rows
    ensures var s := Session(CreateDraft, Written, map[NextVersion(r, y) := Draft], seen, None);
            NextStatement(r, At(r, y, who, CreateDraft, Writing, seen), who) == Become(Draw(r, y), who, s)
  {
    assert map[][NextVersion(r, y) := Draft] == map[NextVersion(r, y) := Draft];
  }

  /** A draft takes the rail's next version. */
  lemma ReachesDrafted(r: Rail, y: System, who: nat)
    requires Free(r, y, who) && NextVersion(r, y) !in y.rows
    ensures Reaches(r, y, Drafted(r, y))
  {
    var seen := if r.numbering.Counter? then 0 else MaxOf(y.rows.Keys);
    var s := Session(CreateDraft, Written, map[NextVersion(r, y) := Draft], seen, None);
    var written := Become(Draw(r, y), who, s);
    ReachesDraftWrite(r, y, who);
    DraftWritten(r, y, who, seen);
    ReachesNext(r, y, At(r, y, who, CreateDraft, Writing, seen), who);
    ReachesCommit(r, y, written, who);
    assert Visible(y.rows, s) == y.rows[NextVersion(r, y) := Draft];
    assert written.sessions[who := IDLE] == y.sessions && y.wins + [] == y.wins;
    assert Step(r, written, Action(who, Commit)) == Drafted(r, y);
  }

  /** A publisher of a draft not below the live version gets past its checks. */
  lemma ReachesPublishWrite(r: Rail, y: System, who: nat, v: nat)
    requires Free(r, y, who) && IsDraft(y.rows, v) && Live(y.rows) <= v
    ensures Reaches(r, y, At(r, y, who, PublishVersion(v), Writing, 0))
  {
    var call := PublishVersion(v);
    ReachesEnter(r, y, who, call);
    EnterAlone(r, y, who, call);
    PublishStatements(r, y, who, v);
    ReachesNext(r, y, At(r, y, who, call, Enter, 0), who);
    ReachesNext(r, y, At(r, y, who, call, Reading, 0), who);
    ReachesNext(r, y, At(r, y, who, call, Checking, 0), who);
  }

  /** From there its guarded update still finds the draft, whatever has gone live since. */
  lemma ReachesPublished(r: Rail, y: System, who: nat, v: nat)
    requires Free(r, y, who) && IsDraft(y.rows, v)
    ensures var after := y.rows[v := Published];
            Reaches(r, At(r, y, who, PublishVersion(v), Writing, 0),
                    y.(rows := after, wins := y.wins + [Win(v, Live(y.rows), Live(after))]))
  {
    var write := At(r, y, who, PublishVersion(v), Writing, 0);
    var written := WrittenAlone(r, y, who, PublishVersion(v), 0);
    VisibleAlone(r, y, who, PublishVersion(v), Writing, 0);
    assert NextStatement(r, write, who) == written;
    ReachesStep(r, write, Action(who, Next));
    ReachesCommit(r, write, written, who);
    CommitAlone(r, y, who, PublishVersion(v), 0);
  }

  /** `slow` is past its checks on one draft when `fast` publishes a later one; then `slow` commits. */
  lemma Overtaking(r: Rail, y: System, slow: nat, fast: nat, older: nat, newer: nat)
    requires Free(r, y, slow) && Free(r, y, fast) && slow != fast
    requires IsDraft(y.rows, older) && IsDraft(y.rows, newer) && Live(y.rows) < older < newer
    ensures Reaches(r, y, y.(rows := y.rows[newer := Published][older := Published],
                             wins := y.wins + [Win(newer, Live(y.rows), newer)] + [Win(older, newer, newer)]))
  {
    var live := Live(y.rows);
    var rows := y.rows[newer := Published];
    var waiting := At(r, y, slow, PublishVersion(older), Writing, 0);
    var overtaken := y.(rows := rows, wins := y.wins + [Win(newer, live, newer)]);
    assert PublishedIn(rows) == PublishedIn(y.rows) + {newer};
    LiveIs(rows, newer);
    assert PublishedIn(rows[older := Published]) == PublishedIn(y.rows) + {newer, older};
    LiveIs(rows[older := Published], newer);
    ReachesPublishWrite(r, y, slow, older);
    ReachesPublishWrite(r, waiting, fast, newer);
    ReachesPublished(r, waiting, fast, newer);
    ReachesOn(r, waiting, At(r, waiting, fast, PublishVersion(newer), Writing, 0),
              waiting.(rows := rows, wins := y.wins + [Win(newer, live, newer)]));
    assert waiting.(rows := rows, wins := y.wins + [Win(newer, live, newer)])
        == At(r, overtaken, slow, PublishVersion(older), Writing, 0);
    ReachesPublished(r, overtaken, slow, older);
    ReachesOn(r, y, waiting, At(r, overtaken, slow, PublishVersion(older), Writing, 0));
    ReachesOn(r, y, At(r, overtaken, slow, PublishVersion(older), Writing, 0),
              overtaken.(rows := rows[older := Published], wins := overtaken.wins + [Win(older, newer, newer)]));
  }

  // ---------------------------------------------------------------------------------------------
  // Exactly when.
  // ---------------------------------------------------------------------------------------------

  ghost predicate AllRaise(y: System) {
    forall k :: 0 <= k < |y.wins| ==> Raises(y.wins[k])
  }

  /** Two drafts above whatever the rail is seeded with. */
  lemma TwoDrafts(r: Rail, sessions: nat) returns (y: System, older: nat)
    requires !r.locks && sessions >= 2
    ensures Reaches(r, Start(sessions), y) && Free(r, y, 0) && Free(r, y, 1) && y.wins == []
    ensures IsDraft(y.rows, older) && IsDraft(y.rows, older + 1) && Live(y.rows) < older
  {
    var y1 := Seeded(r, sessions);
    ReachesSeeded(r, sessions);
    older := if r.seeds then 2 else 1;
    assert y1.rows.Keys == if r.seeds then {1} else {};
    assert NextVersion(r, y1) == older;
    var y2 := Drafted(r, y1);
    ReachesDrafted(r, y1, 0);
    ReachesOn(r, Start(sessions), y1, y2);
    assert y2.rows.Keys == y1.rows.Keys + {older};
    assert NextVersion(r, y2) == older + 1;
    y := Drafted(r, y2);
    ReachesDrafted(r, y2, 0);
    ReachesOn(r, Start(sessions), y2, y);
    assert PublishedIn(y.rows) == if r.seeds then {1} else {};
  }

  /** Without the lock two sessions are enough, on any rail, for a publish to succeed and change nothing. */
  lemma UnlockedPublishMayNotRaise(r: Rail, sessions: nat) returns (actions: seq<Action>)
    requires !r.locks && sessions >= 2
    ensures !AllRaise(Run(r, Start(sessions), actions))
  {
    var y, older := TwoDrafts(r, sessions);
    Overtaking(r, y, 0, 1, older, older + 1);
    var wins := y.wins + [Win(older + 1, Live(y.rows), older + 1)] + [Win(older, older + 1, older + 1)];
    var end := y.(rows := y.rows[older + 1 := Published][older := Published], wins := wins);
    ReachesOn(r, Start(sessions), y, end);
    actions :| Run(r, Start(sessions), actions) == end;
    assert !Raises(wins[1]);
  }

  /** On every rail, whether numbered by the highest version or by a counter, seeded or not: every publish of every
      run lifts the live version exactly when writers are serialised, by the lock or by being alone. */
  lemma EveryPublishRaisesExactlyWhenSerialised(r: Rail, sessions: nat)
    ensures (forall actions :: AllRaise(Run(r, Start(sessions), actions))) <==> r.locks || sessions <= 1
  {
    if r.locks {
      forall actions
        ensures AllRaise(Run(r, Start(sessions), actions))
      {
        PublishSafe(r, sessions, actions);
      }
    } else if sessions <= 1 {
      forall actions
        ensures AllRaise(Run(r, Start(sessions), actions))
      {
        PublishSafe(Locking(r), sessions, actions);
        OneSessionRun(r, Start(sessions), actions);
      }
    } else {
      var actions := UnlockedPublishMayNotRaise(r, sessions);
    }
  }
}
