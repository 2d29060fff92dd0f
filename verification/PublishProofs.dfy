/** What every interleaving of seeders, drafters and publishers keeps, and what the lock adds. */
module PublishProofs {
  import opened Prelude
  import opened Publish

  // ---------------------------------------------------------------------------------------------
  // What every interleaving keeps.
  // ---------------------------------------------------------------------------------------------

  predicate Unseeded(s: Session) {
    s.stage in {Idle, SeedCheck, SeedLock, SeedRecheck, SeedInsert}
  }

  /** What a session's stage says of what it has written. */
  predicate SessionShape(s: Session) {
    && (Unseeded(s) ==> s.inserts == map[])
    && (s.claimed.Some? ==> s.stage == Written && s.call == PublishVersion(s.claimed.value))
    && (s.stage == Written && s.call.PublishVersion? ==> s.claimed.Some?)
    && (s.stage == Checking ==> s.call.PublishVersion?)
    && (s.stage in {Reading, Writing} ==> !s.call.Look?)
    && (s.stage != Written || !s.call.CreateDraft? ==> forall v :: v in s.inserts ==> s.inserts[v] == Published)
  }

  predicate SessionsShaped(y: System) {
    forall i :: 0 <= i < |y.sessions| ==> SessionShape(y.sessions[i])
  }

  /** Versions start at 1, and the counter is above every number it gave out. */
  predicate Drawn(r: Rail, y: System, rows: Rows) {
    forall v :: v in rows ==> 1 <= v && (r.numbering.Counter? ==> v < y.counter)
  }

  predicate NumbersDrawn(r: Rail, y: System) {
    && y.counter >= 1
    && Drawn(r, y, y.rows)
    && forall i :: 0 <= i < |y.sessions| ==> Drawn(r, y, y.sessions[i].inserts)
  }

  /** The unique key, uncommitted inserts included. */
  predicate KeysUnique(y: System) {
    && (forall i :: 0 <= i < |y.sessions| ==> y.sessions[i].inserts.Keys !! y.rows.Keys)
    && (forall i, j :: 0 <= i < j < |y.sessions| ==> y.sessions[i].inserts.Keys !! y.sessions[j].inserts.Keys)
  }

  predicate IsDraft(rows: Rows, v: nat) {
    v in rows && rows[v] == Draft
  }

  predicate IsPublished(rows: Rows, v: nat) {
    v in rows && rows[v] == Published
  }

  /** An uncommitted claim is of a committed draft, and is the only one. */
  predicate ClaimsUnique(y: System) {
    && (forall i :: 0 <= i < |y.sessions| && y.sessions[i].claimed.Some? ==>
          IsDraft(y.rows, y.sessions[i].claimed.value))
    && (forall i, j :: 0 <= i < j < |y.sessions| && y.sessions[i].claimed.Some? ==>
          y.sessions[i].claimed != y.sessions[j].claimed)
  }

  predicate WinsOnce(y: System) {
    && (forall k :: 0 <= k < |y.wins| ==> IsPublished(y.rows, y.wins[k].version))
    && (forall j, k :: 0 <= j < k < |y.wins| ==> y.wins[j].version != y.wins[k].version)
  }

  /** A seeding table never holds rows without a published one, and no session gets past the seed without
      seeing one. */
  predicate SeededFirst(r: Rail, y: System) {
    r.seeds ==>
      && (y.rows != map[] ==> PublishedIn(y.rows) != {})
      && (forall i :: 0 <= i < |y.sessions| ==> SeesSeed(y, y.sessions[i]))
  }

  predicate SeesSeed(y: System, s: Session) {
    Unseeded(s) || PublishedIn(y.rows) != {} || PublishedIn(s.inserts) != {}
  }

  ghost predicate Inv(r: Rail, y: System) {
    && SessionsShaped(y)
    && NumbersDrawn(r, y)
    && KeysUnique(y)
    && ClaimsUnique(y)
    && WinsOnce(y)
    && SeededFirst(r, y)
  }

  /** A statement that writes no row: only the stage moves, and perhaps the lock is taken. */
  lemma MoveKeepsInv(r: Rail, y: System, i: nat, s: Session, holder: Option<nat>)
    requires Inv(r, y) && i < |y.sessions| && SessionShape(s)
    requires s.inserts == y.sessions[i].inserts && s.claimed == y.sessions[i].claimed
    requires r.seeds ==> SeesSeed(y, s)
    ensures Inv(r, Become(y, i, s).(holder := holder))
  {
  }

  lemma AbortKeepsInv(r: Rail, y: System, i: nat)
    requires Inv(r, y) && i < |y.sessions|
    ensures Inv(r, Abort(y, i))
  {
  }

  lemma DrawKeepsInv(r: Rail, y: System)
    requires Inv(r, y)
    ensures Inv(r, Draw(r, y))
  {
  }

  lemma InsertKeepsInv(r: Rail, y: System, i: nat, v: nat, status: Status, after: Stage)
    requires Inv(r, y) && i < |y.sessions| && 1 <= v && (r.numbering.Counter? ==> v < y.counter)
    requires var s := y.sessions[i];
             && SessionShape(s.(inserts := s.inserts[v := status], stage := after))
             && (status == Published || !Unseeded(s))
    ensures Inv(r, Insert(y, i, v, status, after))
  {
    var s := y.sessions[i];
    if InsertPending(y, i, v) {
    } else if v in y.rows || v in s.inserts {
      AbortKeepsInv(r, y, i);
    } else {
      var s' := s.(inserts := s.inserts[v := status], stage := after);
      if status == Published {
        assert v in PublishedIn(s'.inserts);
      } else if PublishedIn(s.inserts) != {} {
        var u :| u in PublishedIn(s.inserts);
        assert u in PublishedIn(s'.inserts);
      }
    }
  }

  lemma ClaimKeepsInv(r: Rail, y: System, i: nat)
    requires Inv(r, y) && i < |y.sessions|
    requires y.sessions[i].stage == Writing && y.sessions[i].call.PublishVersion?
    ensures Inv(r, ClaimDraft(y, i, y.sessions[i].call.version))
  {
    var s := y.sessions[i];
    var v := s.call.version;
    if !ClaimPending(y, i, v) {
      var visible := Visible(y.rows, s);
      if IsDraft(visible, v) {
        assert v !in s.inserts;
        assert IsDraft(y.rows, v);
      } else {
        AbortKeepsInv(r, y, i);
      }
    }
  }

  /** A committed row stays, and only ever goes from draft to published. */
  predicate Kept(before: Rows, after: Rows) {
    forall v :: v in before ==> v in after && (after[v] == before[v] || after[v] == Published)
  }

  lemma CommitRows(r: Rail, y: System, i: nat)
    requires Inv(r, y) && i < |y.sessions| && y.sessions[i].stage == Written
    ensures var s := y.sessions[i];
            var after := Visible(y.rows, s);
            && Kept(y.rows, after)
            && after.Keys == y.rows.Keys + s.inserts.Keys
            && (forall v :: v in s.inserts ==> after[v] == s.inserts[v])
            && (forall v :: v in y.rows && s.claimed != Some(v) ==> after[v] == y.rows[v])
            && (s.claimed.Some? ==> IsPublished(after, s.claimed.value))
            && PublishedIn(y.rows) + PublishedIn(s.inserts) <= PublishedIn(after)
  {
  }

  lemma CommitKeepsInv(r: Rail, y: System, i: nat)
    requires Inv(r, y) && i < |y.sessions| && y.sessions[i].stage == Written
    ensures Inv(r, CommitSession(y, i))
  {
    var s := y.sessions[i];
    var y' := CommitSession(y, i);
    CommitRows(r, y, i);
    assert KeysUnique(y');
    assert ClaimsUnique(y') by {
      forall j | 0 <= j < |y'.sessions| && y'.sessions[j].claimed.Some?
        ensures IsDraft(y'.rows, y'.sessions[j].claimed.value)
      {
        assert y.sessions[j].claimed != s.claimed;
      }
    }
    assert WinsOnce(y');
    assert SeededFirst(r, y');
  }

  lemma StepKeepsInv(r: Rail, y: System, a: Action)
    requires Inv(r, y)
    ensures Inv(r, Step(r, y, a))
  {
    if a.who < |y.sessions| {
      var i, s := a.who, y.sessions[a.who];
      match a.move
      case Begin(call) =>
      case Commit =>
        if s.stage == Written {
          CommitKeepsInv(r, y, i);
        }
      case Rollback => AbortKeepsInv(r, y, i);
      case Next => NextKeepsInv(r, y, i);
    }
  }

  lemma InsertSeedKeepsInv(r: Rail, y: System, i: nat)
    requires Inv(r, y) && i < |y.sessions| && y.sessions[i].stage == SeedInsert
    ensures Inv(r, InsertSeed(r, y, i))
  {
    DrawKeepsInv(r, y);
    InsertKeepsInv(r, Draw(r, y), i, if r.numbering.Counter? then y.counter else 1, Published, Enter);
  }

  lemma DraftShape(s: Session, v: nat)
    requires SessionShape(s) && s.stage == Writing && s.call.CreateDraft?
    ensures SessionShape(s.(inserts := s.inserts[v := Draft], stage := Written))
  {
  }

  lemma InsertDraftKeepsInv(r: Rail, y: System, i: nat)
    requires Inv(r, y) && i < |y.sessions| && y.sessions[i].stage == Writing && y.sessions[i].call.CreateDraft?
    ensures Inv(r, InsertDraft(r, y, i))
  {
    DrawKeepsInv(r, y);
    DraftShape(y.sessions[i], DraftVersion(r, y, i));
    InsertKeepsInv(r, Draw(r, y), i, DraftVersion(r, y, i), Draft, Written);
  }

  /** A seeding session that sees a row sees a published one. */
  lemma SeenRowsSeeded(r: Rail, y: System, i: nat)
    requires Inv(r, y) && i < |y.sessions| && r.seeds
    requires Unseeded(y.sessions[i]) && Visible(y.rows, y.sessions[i]) != map[]
    ensures PublishedIn(y.rows) != {}
  {
  }

  lemma SeedKeepsInv(r: Rail, y: System, i: nat)
    requires Inv(r, y) && i < |y.sessions|
    requires y.sessions[i].stage in {SeedCheck, SeedLock, SeedRecheck, SeedInsert}
    ensures Inv(r, NextStatement(r, y, i))
  {
    var s := y.sessions[i];
    if s.stage == SeedLock {
      MoveKeepsInv(r, y, i, s.(stage := SeedRecheck), if r.locks then Some(i) else y.holder);
    } else if s.stage == SeedInsert {
      InsertSeedKeepsInv(r, y, i);
    } else {
      if Visible(y.rows, s) != map[] && r.seeds {
        SeenRowsSeeded(r, y, i);
      }
      var missing := if s.stage == SeedCheck then SeedLock else SeedInsert;
      MoveKeepsInv(r, y, i, s.(stage := if Visible(y.rows, s) == map[] then missing else Enter), y.holder);
    }
  }

  lemma EnterKeepsInv(r: Rail, y: System, i: nat)
    requires Inv(r, y) && i < |y.sessions| && y.sessions[i].stage in {Enter, Reading, Checking}
    ensures Inv(r, NextStatement(r, y, i))
  {
    var s := y.sessions[i];
    var visible := Visible(y.rows, s);
    AbortKeepsInv(r, y, i);
    if s.stage == Enter {
      var next := if s.call.Look? then Written
                  else if s.call.CreateDraft? && r.numbering.Counter? then Writing else Reading;
      MoveKeepsInv(r, y, i, s.(stage := next), if next == Reading && r.locks then Some(i) else y.holder);
    } else if s.call.PublishVersion? {
      MoveKeepsInv(r, y, i, s.(stage := if s.stage == Reading then Checking else Writing), y.holder);
    } else {
      MoveKeepsInv(r, y, i, s.(stage := Writing, seen := MaxOf(visible.Keys)), y.holder);
    }
  }

  lemma NextKeepsInv(r: Rail, y: System, i: nat)
    requires Inv(r, y) && i < |y.sessions|
    ensures Inv(r, NextStatement(r, y, i))
  {
    var s := y.sessions[i];
    match s.stage
    case Idle =>
    case SeedCheck | SeedLock | SeedRecheck | SeedInsert => SeedKeepsInv(r, y, i);
    case Enter | Reading | Checking => EnterKeepsInv(r, y, i);
    case Writing =>
      if s.call.PublishVersion? {
        ClaimKeepsInv(r, y, i);
      } else {
        InsertDraftKeepsInv(r, y, i);
      }
    case Written =>
  }

  // ---------------------------------------------------------------------------------------------
  // Carrier definitions: versions without gaps, lock or no lock.
  // ---------------------------------------------------------------------------------------------

  ghost predicate Gapless(versions: set<nat>) {
    forall v :: 1 <= v <= MaxOf(versions) ==> v in versions
  }

  function KeysSeen(rows: Rows, s: Session): set<nat> {
    rows.Keys + s.inserts.Keys
  }

  ghost predicate FollowsOn(rows: Rows, s: Session) {
    && Gapless(KeysSeen(rows, s))
    && (s.stage == Writing && s.call.CreateDraft? ==> s.seen <= MaxOf(KeysSeen(rows, s)))
  }

  predicate OneInserter(sessions: seq<Session>) {
    forall i, j :: 0 <= i < j < |sessions| ==> sessions[i].inserts == map[] || sessions[j].inserts == map[]
  }

  /** One session at a time has uncommitted versions, and they follow on from the committed ones. */
  ghost predicate GapInv(y: System) {
    && Gapless(y.rows.Keys)
    && (forall i :: 0 <= i < |y.sessions| ==> FollowsOn(y.rows, y.sessions[i]))
    && OneInserter(y.sessions)
  }

  lemma MaxGrows(a: set<nat>, b: set<nat>)
    requires a <= b
    ensures MaxOf(a) <= MaxOf(b)
  {
  }

  lemma GaplessNext(versions: set<nat>, v: nat)
    requires Gapless(versions) && 1 <= v <= MaxOf(versions) + 1 && v !in versions
    ensures v == MaxOf(versions) + 1 && Gapless(versions + {v})
  {
    assert MaxOf(versions + {v}) == v;
  }

  /** Whoever has inserted has inserted the version after the committed ones. */
  lemma NextIsPending(rows: set<nat>, inserts: set<nat>)
    requires Gapless(rows) && Gapless(rows + inserts) && rows !! inserts && 0 !in inserts && inserts != {}
    ensures MaxOf(rows) + 1 in inserts
  {
  }

  /** A session that may insert the next version without waiting is the only inserter. */
  lemma NobodyElseInserts(r: Rail, y: System, i: nat, v: nat, j: nat)
    requires Inv(r, y) && GapInv(y) && i < |y.sessions| && j < |y.sessions| && j != i
    requires v == MaxOf(KeysSeen(y.rows, y.sessions[i])) + 1 && !InsertPending(y, i, v)
    ensures y.sessions[j].inserts == map[]
  {
    var s, t := y.sessions[i], y.sessions[j];
    assert v !in t.inserts;
    assert FollowsOn(y.rows, t) && Drawn(r, y, t.inserts);
    if t.inserts != map[] {
      assert KeysSeen(y.rows, s) == y.rows.Keys;
      NextIsPending(y.rows.Keys, t.inserts.Keys);
    }
  }

  lemma MoveKeepsGapInv(y: System, i: nat, s: Session, holder: Option<nat>)
    requires GapInv(y) && i < |y.sessions| && s.inserts == y.sessions[i].inserts && FollowsOn(y.rows, s)
    ensures GapInv(Become(y, i, s).(holder := holder))
  {
  }

  lemma AbortKeepsGapInv(y: System, i: nat)
    requires GapInv(y) && i < |y.sessions|
    ensures GapInv(Abort(y, i))
  {
  }

  lemma InsertKeepsGapInv(r: Rail, y: System, i: nat, v: nat, status: Status, after: Stage)
    requires Inv(r, y) && GapInv(y) && i < |y.sessions|
    requires 1 <= v <= MaxOf(KeysSeen(y.rows, y.sessions[i])) + 1 && after != Writing
    ensures GapInv(Insert(y, i, v, status, after))
  {
    var s := y.sessions[i];
    if InsertPending(y, i, v) {
    } else if v in y.rows || v in s.inserts {
      AbortKeepsGapInv(y, i);
    } else {
      assert FollowsOn(y.rows, s);
      GaplessNext(KeysSeen(y.rows, s), v);
      var s' := s.(inserts := s.inserts[v := status], stage := after);
      assert KeysSeen(y.rows, s') == KeysSeen(y.rows, s) + {v};
      forall j | 0 <= j < |y.sessions| && j != i
        ensures y.sessions[j].inserts == map[]
      {
        NobodyElseInserts(r, y, i, v, j);
      }
      assert OneInserter(y.sessions[i := s']);
    }
  }

  /** What a session has seen stays true of it when another's rows, or its own, are committed. */
  lemma CommitFollowsOn(r: Rail, y: System, i: nat, j: nat)
    requires Inv(r, y) && GapInv(y) && i < |y.sessions| && j < |y.sessions| && y.sessions[i].stage == Written
    ensures FollowsOn(CommitSession(y, i).rows, CommitSession(y, i).sessions[j])
  {
    var (s, t) := (y.sessions[i], CommitSession(y, i).sessions[j]);
    var rows := CommitSession(y, i).rows;
    CommitRows(r, y, i);
    assert FollowsOn(y.rows, s) && FollowsOn(y.rows, y.sessions[j]);
    if j == i {
      assert KeysSeen(rows, t) == KeysSeen(y.rows, s);
    } else if s.inserts == map[] {
      assert KeysSeen(rows, t) == KeysSeen(y.rows, t);
    } else {
      assert KeysSeen(rows, t) == KeysSeen(y.rows, s);
      MaxGrows(KeysSeen(y.rows, t), KeysSeen(rows, t));
    }
  }

  lemma CommitKeepsGapInv(r: Rail, y: System, i: nat)
    requires Inv(r, y) && GapInv(y) && i < |y.sessions| && y.sessions[i].stage == Written
    ensures GapInv(CommitSession(y, i))
  {
    CommitRows(r, y, i);
    forall j | 0 <= j < |y.sessions|
      ensures FollowsOn(CommitSession(y, i).rows, CommitSession(y, i).sessions[j])
    {
      CommitFollowsOn(r, y, i, j);
    }
    assert FollowsOn(CommitSession(y, i).rows, CommitSession(y, i).sessions[i]);
    assert KeysSeen(CommitSession(y, i).rows, IDLE) == CommitSession(y, i).rows.Keys;
  }

  /** A statement that writes no row leaves the session's writes alone, or gives the call up. */
  lemma ReadStatement(r: Rail, y: System, i: nat) returns (s': Session, holder: Option<nat>)
    requires i < |y.sessions| && y.sessions[i].stage !in {SeedInsert, Writing} && SessionShape(y.sessions[i])
    ensures NextStatement(r, y, i) in {y, Abort(y, i), Become(y, i, s').(holder := holder)}
    ensures s' == y.sessions[i].(stage := s'.stage, seen := s'.seen)
    ensures s'.stage == Writing && s'.call.CreateDraft? && r.numbering.HighestPlusOne? ==>
              s'.seen == MaxOf(Visible(y.rows, y.sessions[i]).Keys)
    ensures holder == y.holder || (holder == Some(i) && LockFree(r, y, i))
  {
    var y' := NextStatement(r, y, i);
    s', holder := y.sessions[i], y.holder;
    match s'.stage
    case Idle | Written =>
    case SeedCheck | SeedRecheck => s' := y'.sessions[i];
    case SeedLock | Enter => s', holder := y'.sessions[i], y'.holder;
    case Reading | Checking =>
      if y'.sessions[i].stage != Idle {
        s' := y'.sessions[i];
      }
  }

  lemma ClaimKeepsGapInv(y: System, i: nat, v: nat)
    requires GapInv(y) && i < |y.sessions|
    ensures GapInv(ClaimDraft(y, i, v))
  {
    var s := y.sessions[i];
    var s' := s.(stage := Written, claimed := Some(v));
    assert FollowsOn(y.rows, s) && KeysSeen(y.rows, s') == KeysSeen(y.rows, s);
    AbortKeepsGapInv(y, i);
    MoveKeepsGapInv(y, i, s', y.holder);
  }

  lemma InsertSeedKeepsGapInv(r: Rail, y: System, i: nat)
    requires Inv(r, y) && GapInv(y) && i < |y.sessions| && r.numbering.HighestPlusOne?
    ensures GapInv(InsertSeed(r, y, i))
  {
    InsertKeepsGapInv(r, y, i, 1, Published, Enter);
  }

  lemma InsertDraftKeepsGapInv(r: Rail, y: System, i: nat)
    requires Inv(r, y) && GapInv(y) && i < |y.sessions| && r.numbering.HighestPlusOne?
    requires y.sessions[i].stage == Writing && y.sessions[i].call.CreateDraft?
    ensures GapInv(InsertDraft(r, y, i))
  {
    assert FollowsOn(y.rows, y.sessions[i]);
    InsertKeepsGapInv(r, y, i, y.sessions[i].seen + 1, Draft, Written);
  }

  lemma NextKeepsGapInv(r: Rail, y: System, i: nat)
    requires Inv(r, y) && GapInv(y) && i < |y.sessions| && r.numbering.HighestPlusOne?
    ensures GapInv(NextStatement(r, y, i))
  {
    var s := y.sessions[i];
    if s.stage == SeedInsert {
      InsertSeedKeepsGapInv(r, y, i);
    } else if s.stage == Writing && s.call.PublishVersion? {
      ClaimKeepsGapInv(y, i, s.call.version);
    } else if s.stage == Writing {
      InsertDraftKeepsGapInv(r, y, i);
    } else {
      AbortKeepsGapInv(y, i);
      var s', holder := ReadStatement(r, y, i);
      assert FollowsOn(y.rows, s') by {
        assert FollowsOn(y.rows, s);
        assert Visible(y.rows, s).Keys == KeysSeen(y.rows, s) == KeysSeen(y.rows, s');
      }
      MoveKeepsGapInv(y, i, s', holder);
    }
  }

  lemma StepKeepsGapInv(r: Rail, y: System, a: Action)
    requires Inv(r, y) && GapInv(y) && r.numbering.HighestPlusOne?
    ensures GapInv(Step(r, y, a))
  {
    if a.who < |y.sessions| {
      var i, s := a.who, y.sessions[a.who];
      AbortKeepsGapInv(y, i);
      match a.move
      case Begin(call) =>
        if s.stage == Idle {
          var begun := IDLE.(call := call, stage := if r.seeds then SeedCheck else Enter);
          assert s.inserts == map[] && FollowsOn(y.rows, s);
          assert KeysSeen(y.rows, begun) == KeysSeen(y.rows, s);
          MoveKeepsGapInv(y, i, begun, y.holder);
        }
      case Commit =>
        if s.stage == Written {
          CommitKeepsGapInv(r, y, i);
        }
      case Rollback =>
      case Next => NextKeepsGapInv(r, y, i);
    }
  }

  // ---------------------------------------------------------------------------------------------
  // With the lock: every publish raises the live version.
  // ---------------------------------------------------------------------------------------------

  predicate HoldsLock(r: Rail, s: Session) {
    || s.stage in {SeedRecheck, SeedInsert, Reading, Checking}
    || (s.stage == Writing && (s.call.PublishVersion? || r.numbering.HighestPlusOne?))
    || s.claimed.Some?
    || PublishedIn(s.inserts) != {}
  }

  predicate Outranks(version: nat, rows: Rows) {
    forall v :: v in PublishedIn(rows) ==> v < version
  }

  /** A publisher past its checks is about to raise the live version. */
  predicate AboutToWin(y: System, s: Session) {
    s.call.PublishVersion? ==>
      && (s.stage in {Checking, Writing, Written} ==> IsDraft(y.rows, s.call.version))
      && (s.stage in {Writing, Written} ==>
            Outranks(s.call.version, y.rows) && Outranks(s.call.version, s.inserts))
  }

  ghost predicate Raises(w: Win) {
    w.before < w.version == w.after
  }

  ghost predicate LockInv(r: Rail, y: System) {
    && (forall i :: 0 <= i < |y.sessions| ==>
          && (HoldsLock(r, y.sessions[i]) ==> y.holder == Some(i))
          && AboutToWin(y, y.sessions[i]))
    && (forall k :: 0 <= k < |y.wins| ==> Raises(y.wins[k]) && y.wins[k].version <= Live(y.rows))
    && (forall j, k :: 0 <= j < k < |y.wins| ==> y.wins[j].version < y.wins[k].version)
  }

  /** Only the lock's holder changes which versions are published. */
  lemma CommitPublishes(r: Rail, y: System, i: nat)
    requires Inv(r, y) && LockInv(r, y) && i < |y.sessions| && y.sessions[i].stage == Written
    ensures y.holder != Some(i) ==> PublishedIn(Visible(y.rows, y.sessions[i])) == PublishedIn(y.rows)
    ensures forall v :: v in PublishedIn(Visible(y.rows, y.sessions[i])) ==>
              || v in PublishedIn(y.rows)
              || v in PublishedIn(y.sessions[i].inserts)
              || y.sessions[i].claimed == Some(v)
  {
    CommitRows(r, y, i);
  }

  lemma LiveIs(rows: Rows, v: nat)
    requires IsPublished(rows, v) && forall u :: u in PublishedIn(rows) ==> u <= v
    ensures Live(rows) == v
  {
    assert v in PublishedIn(rows);
  }

  lemma CommitRaises(r: Rail, y: System, i: nat)
    requires Inv(r, y) && LockInv(r, y) && i < |y.sessions| && y.sessions[i].claimed.Some?
    ensures Live(y.rows) < y.sessions[i].claimed.value == Live(Visible(y.rows, y.sessions[i]))
  {
    var s := y.sessions[i];
    var after := Visible(y.rows, s);
    CommitRows(r, y, i);
    CommitPublishes(r, y, i);
    assert AboutToWin(y, s);
    forall u | u in PublishedIn(after)
      ensures u <= s.claimed.value
    {
    }
    LiveIs(after, s.claimed.value);
    assert s.claimed.value >= 1;
  }

  lemma CommitKeepsLockInv(r: Rail, y: System, i: nat)
    requires Inv(r, y) && LockInv(r, y) && i < |y.sessions| && y.sessions[i].stage == Written
    ensures LockInv(r, CommitSession(y, i))
  {
    var s := y.sessions[i];
    var y' := CommitSession(y, i);
    CommitRows(r, y, i);
    CommitPublishes(r, y, i);
    MaxGrows(PublishedIn(y.rows), PublishedIn(y'.rows));
    if s.claimed.Some? {
      CommitRaises(r, y, i);
    }
    forall j | 0 <= j < |y'.sessions|
      ensures HoldsLock(r, y'.sessions[j]) ==> y'.holder == Some(j)
      ensures AboutToWin(y', y'.sessions[j])
    {
      if j != i && HoldsLock(r, y.sessions[j]) {
        assert PublishedIn(y'.rows) == PublishedIn(y.rows);
      }
    }
  }

  lemma MoveKeepsLockInv(r: Rail, y: System, i: nat, s: Session, holder: Option<nat>)
    requires Inv(r, y) && LockInv(r, y) && i < |y.sessions| && r.locks
    requires holder == y.holder || LockFree(r, y, i)
    requires AboutToWin(y, s) && (HoldsLock(r, s) ==> holder == Some(i))
    ensures LockInv(r, Become(y, i, s).(holder := holder))
  {
  }

  lemma AbortKeepsLockInv(r: Rail, y: System, i: nat)
    requires LockInv(r, y) && i < |y.sessions|
    ensures LockInv(r, Abort(y, i))
  {
  }

  lemma InsertKeepsLockInv(r: Rail, y: System, i: nat, v: nat, status: Status, after: Stage)
    requires Inv(r, y) && LockInv(r, y) && i < |y.sessions| && r.locks && after in {Enter, Written}
    requires status == Published ==> y.holder == Some(i) && after == Enter
    requires status == Draft ==> !y.sessions[i].call.PublishVersion? && y.sessions[i].claimed == None
    ensures LockInv(r, Insert(y, i, v, status, after))
  {
    var s := y.sessions[i];
    AbortKeepsLockInv(r, y, i);
    var s' := s.(inserts := s.inserts[v := status], stage := after);
    if status == Draft {
      assert PublishedIn(s'.inserts) <= PublishedIn(s.inserts);
    }
    MoveKeepsLockInv(r, y, i, s', y.holder);
  }

  lemma ClaimKeepsLockInv(r: Rail, y: System, i: nat)
    requires Inv(r, y) && LockInv(r, y) && i < |y.sessions| && r.locks
    requires y.sessions[i].stage == Writing && y.sessions[i].call.PublishVersion?
    ensures LockInv(r, ClaimDraft(y, i, y.sessions[i].call.version))
  {
    var s := y.sessions[i];
    AbortKeepsLockInv(r, y, i);
    MoveKeepsLockInv(r, y, i, s.(stage := Written, claimed := Some(s.call.version)), y.holder);
  }

  /** The checks, made under the lock: a version at least the live one that is still a draft is above it. */
  lemma ChecksOutrank(r: Rail, y: System, i: nat)
    requires Inv(r, y) && LockInv(r, y) && i < |y.sessions| && y.sessions[i].stage == Checking
    requires y.sessions[i].call.version >= Live(Visible(y.rows, y.sessions[i]))
    ensures AboutToWin(y, y.sessions[i].(stage := Writing))
  {
    var s := y.sessions[i];
    var v := s.call.version;
    assert IsDraft(y.rows, v) && v !in s.inserts;
    forall u | u in PublishedIn(y.rows) || u in PublishedIn(s.inserts)
      ensures u < v
    {
      assert u in PublishedIn(Visible(y.rows, s));
    }
  }

  lemma SeedKeepsLockInv(r: Rail, y: System, i: nat)
    requires Inv(r, y) && LockInv(r, y) && i < |y.sessions| && r.locks
    requires y.sessions[i].stage in {SeedCheck, SeedLock, SeedRecheck}
    ensures LockInv(r, NextStatement(r, y, i))
  {
    var s := y.sessions[i];
    assert PublishedIn(s.inserts) == {};
    var empty := Visible(y.rows, s) == map[];
    if s.stage == SeedLock {
      if LockFree(r, y, i) {
        MoveKeepsLockInv(r, y, i, s.(stage := SeedRecheck), Some(i));
      }
    } else if s.stage == SeedCheck {
      MoveKeepsLockInv(r, y, i, s.(stage := if empty then SeedLock else Enter), y.holder);
    } else {
      MoveKeepsLockInv(r, y, i, s.(stage := if empty then SeedInsert else Enter), y.holder);
    }
  }

  lemma EnterKeepsLockInv(r: Rail, y: System, i: nat)
    requires Inv(r, y) && LockInv(r, y) && i < |y.sessions| && r.locks && y.sessions[i].stage == Enter
    ensures LockInv(r, NextStatement(r, y, i))
  {
    var s := y.sessions[i];
    if s.call.Look? {
      MoveKeepsLockInv(r, y, i, s.(stage := Written), y.holder);
    } else if s.call.CreateDraft? && r.numbering.Counter? {
      MoveKeepsLockInv(r, y, i, s.(stage := Writing), y.holder);
    } else if LockFree(r, y, i) {
      MoveKeepsLockInv(r, y, i, s.(stage := Reading), Some(i));
    }
  }

  lemma CheckKeepsLockInv(r: Rail, y: System, i: nat)
    requires Inv(r, y) && LockInv(r, y) && i < |y.sessions| && r.locks && y.sessions[i].stage in {Reading, Checking}
    ensures LockInv(r, NextStatement(r, y, i))
  {
    var s := y.sessions[i];
    var visible := Visible(y.rows, s);
    AbortKeepsLockInv(r, y, i);
    if s.call.CreateDraft? {
      MoveKeepsLockInv(r, y, i, s.(stage := Writing, seen := MaxOf(visible.Keys)), y.holder);
    } else if s.stage == Reading {
      if IsDraft(visible, s.call.version) {
        assert IsDraft(y.rows, s.call.version);
        MoveKeepsLockInv(r, y, i, s.(stage := Checking), y.holder);
      }
    } else if s.call.version >= Live(visible) {
      ChecksOutrank(r, y, i);
      MoveKeepsLockInv(r, y, i, s.(stage := Writing), y.holder);
    }
  }

  lemma DrawKeepsLockInv(r: Rail, y: System)
    requires LockInv(r, y)
    ensures LockInv(r, Draw(r, y))
  {
  }

  lemma InsertSeedKeepsLockInv(r: Rail, y: System, i: nat)
    requires Inv(r, y) && LockInv(r, y) && i < |y.sessions| && r.locks && y.sessions[i].stage == SeedInsert
    ensures LockInv(r, InsertSeed(r, y, i))
  {
    DrawKeepsInv(r, y);
    DrawKeepsLockInv(r, y);
    InsertKeepsLockInv(r, Draw(r, y), i, if r.numbering.Counter? then y.counter else 1, Published, Enter);
  }

  lemma InsertDraftKeepsLockInv(r: Rail, y: System, i: nat)
    requires Inv(r, y) && LockInv(r, y) && i < |y.sessions| && r.locks
    requires y.sessions[i].stage == Writing && y.sessions[i].call.CreateDraft?
    ensures LockInv(r, InsertDraft(r, y, i))
  {
    DrawKeepsInv(r, y);
    DrawKeepsLockInv(r, y);
    InsertKeepsLockInv(r, Draw(r, y), i, DraftVersion(r, y, i), Draft, Written);
  }

  lemma NextKeepsLockInv(r: Rail, y: System, i: nat)
    requires Inv(r, y) && LockInv(r, y) && i < |y.sessions| && r.locks
    ensures LockInv(r, NextStatement(r, y, i))
  {
    var s := y.sessions[i];
    if s.stage in {SeedCheck, SeedLock, SeedRecheck} {
      SeedKeepsLockInv(r, y, i);
    } else if s.stage == Enter {
      EnterKeepsLockInv(r, y, i);
    } else if s.stage in {Reading, Checking} {
      CheckKeepsLockInv(r, y, i);
    } else if s.stage in {Idle, Written} {
    } else if s.stage == Writing && s.call.PublishVersion? {
      ClaimKeepsLockInv(r, y, i);
    } else if s.stage == SeedInsert {
      InsertSeedKeepsLockInv(r, y, i);
    } else {
      InsertDraftKeepsLockInv(r, y, i);
    }
  }

  lemma StepKeepsLockInv(r: Rail, y: System, a: Action)
    requires Inv(r, y) && LockInv(r, y) && r.locks
    ensures LockInv(r, Step(r, y, a))
  {
    if a.who < |y.sessions| {
      var i, s := a.who, y.sessions[a.who];
      match a.move
      case Begin(call) =>
        if s.stage == Idle {
          MoveKeepsLockInv(r, y, i, IDLE.(call := call, stage := if r.seeds then SeedCheck else Enter), y.holder);
        }
      case Commit =>
        if s.stage == Written {
          CommitKeepsLockInv(r, y, i);
        }
      case Rollback => AbortKeepsLockInv(r, y, i);
      case Next => NextKeepsLockInv(r, y, i);
    }
  }

  // ---------------------------------------------------------------------------------------------
  // Whole runs.
  // ---------------------------------------------------------------------------------------------

  ghost predicate AllInv(r: Rail, y: System) {
    && Inv(r, y)
    && (r.numbering.HighestPlusOne? ==> GapInv(y))
    && (r.locks ==> LockInv(r, y))
  }

  lemma {:induction false} RunKeepsInv(r: Rail, y: System, actions: seq<Action>)
    requires AllInv(r, y)
    ensures AllInv(r, Run(r, y, actions))
    decreases |actions|
  {
    if actions != [] {
      StepKeepsInv(r, y, actions[0]);
      if r.numbering.HighestPlusOne? {
        StepKeepsGapInv(r, y, actions[0]);
      }
      if r.locks {
        StepKeepsLockInv(r, y, actions[0]);
      }
      RunKeepsInv(r, Step(r, y, actions[0]), actions[1..]);
    }
  }

  lemma StartHasInv(r: Rail, sessions: nat)
    ensures AllInv(r, Start(sessions))
  {
  }

  /** In every interleaving of seeders, drafters and publishers: a draft has at most one successful publisher and
      is published from then on; the versions of a rail numbered by its highest are 1..n, with or without the
      lock; a rail that seeds never holds rows without a published one; and with the lock each publish lifts
      the live version, to the version published. */
  lemma PublishSafe(r: Rail, sessions: nat, actions: seq<Action>)
    ensures var y := Run(r, Start(sessions), actions);
      && (forall k :: 0 <= k < |y.wins| ==> IsPublished(y.rows, y.wins[k].version))
      && (forall j, k :: 0 <= j < k < |y.wins| ==> y.wins[j].version != y.wins[k].version)
      && (r.numbering.HighestPlusOne? ==> forall v: nat :: v in y.rows <==> 1 <= v <= MaxOf(y.rows.Keys))
      && (r.seeds && y.rows != map[] ==> exists v :: IsPublished(y.rows, v))
      && (r.locks ==> forall k :: 0 <= k < |y.wins| ==> Raises(y.wins[k]))
      && (r.locks ==> forall j, k :: 0 <= j < k < |y.wins| ==> y.wins[j].version < y.wins[k].version)
  {
    StartHasInv(r, sessions);
    RunKeepsInv(r, Start(sessions), actions);
    var y := Run(r, Start(sessions), actions);
    if r.seeds && y.rows != map[] {
      var v :| v in PublishedIn(y.rows);
      assert IsPublished(y.rows, v);
    }
  }

  lemma KeptTransitive(a: Rows, b: Rows, c: Rows)
    requires Kept(a, b) && Kept(b, c)
    ensures Kept(a, c)
  {
  }

  lemma StepKeepsRows(r: Rail, y: System, a: Action)
    requires Inv(r, y)
    ensures Kept(y.rows, Step(r, y, a).rows)
  {
    if a.who < |y.sessions| && a.move == Commit && y.sessions[a.who].stage == Written {
      CommitRows(r, y, a.who);
    }
  }

  /** From any reachable state on, no committed row is lost or unpublished, and the live version never falls. */
  lemma {:induction false} LiveNeverFalls(r: Rail, y: System, actions: seq<Action>)
    requires AllInv(r, y)
    ensures Kept(y.rows, Run(r, y, actions).rows)
    ensures Live(y.rows) <= Live(Run(r, y, actions).rows)
    decreases |actions|
  {
    if actions != [] {
      var y' := Step(r, y, actions[0]);
      StepKeepsInv(r, y, actions[0]);
      RunKeepsInv(r, y, actions[..1]);
      assert Run(r, y, actions[..1]) == y' by {
        assert actions[..1][1..] == [];
      }
      StepKeepsRows(r, y, actions[0]);
      LiveNeverFalls(r, y', actions[1..]);
      KeptTransitive(y.rows, y'.rows, Run(r, y, actions).rows);
    }
    MaxGrows(PublishedIn(y.rows), PublishedIn(Run(r, y, actions).rows));
  }

  lemma {:induction false} RunTwice(r: Rail, y: System, earlier: seq<Action>, later: seq<Action>)
    ensures Run(r, y, earlier + later) == Run(r, Run(r, y, earlier), later)
    decreases |earlier|
  {
    if earlier == [] {
      assert earlier + later == later;
    } else {
      assert (earlier + later)[1..] == earlier[1..] + later;
      RunTwice(r, Step(r, y, earlier[0]), earlier[1..], later);
    }
  }

  /** Between any two moments of any run, lock or no lock: no version is lost or unpublished, and the live
      version does not fall. */
  lemma LiveOnlyRises(r: Rail, sessions: nat, earlier: seq<Action>, later: seq<Action>)
    ensures var y := Run(r, Start(sessions), earlier);
            var y' := Run(r, Start(sessions), earlier + later);
            Kept(y.rows, y'.rows) && Live(y.rows) <= Live(y'.rows)
  {
    StartHasInv(r, sessions);
    RunKeepsInv(r, Start(sessions), earlier);
    RunTwice(r, Start(sessions), earlier, later);
    LiveNeverFalls(r, Run(r, Start(sessions), earlier), later);
  }
}
