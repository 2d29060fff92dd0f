/** One drafting or publishing call with nothing in its way. */
module PublishAlone {
  import opened Prelude
  import opened Publish
  import opened PublishProofs

  // ---------------------------------------------------------------------------------------------
  // One call on its own.
  // ---------------------------------------------------------------------------------------------

  /** One session can call with nothing in its way: it is idle, and no other has written or holds the lock. */
  predicate Quiet(y: System, who: nat) {
    && who < |y.sessions|
    && y.holder == None
    && y.sessions[who] == IDLE
    && forall j :: 0 <= j < |y.sessions| ==> y.sessions[j].inserts == map[] && y.sessions[j].claimed == None
  }

  function Steps(who: nat, n: nat): seq<Action> {
    seq(n, k => Action(who, Next))
  }

  lemma OneStep(r: Rail, y: System, who: nat, n: nat)
    requires n > 0 && who < |y.sessions|
    ensures Run(r, y, Steps(who, n)) == Run(r, NextStatement(r, y, who), Steps(who, n - 1))
  {
    assert Steps(who, n)[1..] == Steps(who, n - 1);
  }

  /** A call run from begin to commit; five statements are enough when the table needs no seed. */
  function Solo(who: nat, call: Call): seq<Action> {
    [Action(who, Begin(call))] + Steps(who, 5) + [Action(who, Commit)]
  }

  lemma SoloRun(r: Rail, y: System, who: nat, call: Call)
    requires who < |y.sessions|
    ensures var begun := Step(r, y, Action(who, Begin(call)));
            Run(r, y, Solo(who, call)) == Step(r, Run(r, begun, Steps(who, 5)), Action(who, Commit))
  {
    var first, last := [Action(who, Begin(call))], [Action(who, Commit)];
    assert Solo(who, call) == first + (Steps(who, 5) + last);
    RunTwice(r, y, first, Steps(who, 5) + last);
    RunTwice(r, Step(r, y, first[0]), Steps(who, 5), last);
    assert first[1..] == [] && last[1..] == [];
  }

  /** A call that runs alone, at one of its stages. */
  function At(r: Rail, y: System, who: nat, call: Call, stage: Stage, seen: nat): System
    requires who < |y.sessions|
  {
    var moved := Become(y, who, IDLE.(call := call, stage := stage, seen := seen));
    if stage == Enter then moved else TakeLock(r, moved, who)
  }

  /** ... on a table that needs no seed. */
  predicate Alone(r: Rail, y: System, who: nat) {
    r.numbering.HighestPlusOne? && !r.seeds && Quiet(y, who)
  }

  lemma EnterAlone(r: Rail, y: System, who: nat, call: Call)
    requires Quiet(y, who) && !call.Look? && (call.CreateDraft? ==> r.numbering.HighestPlusOne?)
    ensures NextStatement(r, At(r, y, who, call, Enter, 0), who) == At(r, y, who, call, Reading, 0)
  {
  }

  lemma VisibleAlone(r: Rail, y: System, who: nat, call: Call, stage: Stage, seen: nat)
    requires who < |y.sessions|
    ensures var at := At(r, y, who, call, stage, seen); Visible(at.rows, at.sessions[who]) == y.rows
  {
  }

  lemma AbortAlone(r: Rail, y: System, who: nat, call: Call, stage: Stage, seen: nat)
    requires Quiet(y, who) && stage != Enter
    ensures Abort(At(r, y, who, call, stage, seen), who) == y
  {
  }

  /** The call's row written and not yet committed. */
  function WrittenAlone(r: Rail, y: System, who: nat, call: Call, seen: nat): System
    requires who < |y.sessions|
  {
    var s := IDLE.(call := call, stage := Written, seen := seen);
    var s' := if call.PublishVersion? then s.(claimed := Some(call.version)) else s.(inserts := map[seen + 1 := Draft]);
    TakeLock(r, Become(y, who, s'), who)
  }

  lemma FiveSteps(r: Rail, y0: System, y1: System, y2: System, y3: System, y4: System, who: nat)
    requires who < |y0.sessions| && who < |y1.sessions| && who < |y2.sessions| && who < |y3.sessions|
    requires who < |y4.sessions| && NextStatement(r, y4, who) == y4
    requires y1 == NextStatement(r, y0, who) && y2 == NextStatement(r, y1, who)
    requires y3 == NextStatement(r, y2, who) && y4 == NextStatement(r, y3, who)
    ensures Run(r, y0, Steps(who, 5)) == y4
  {
    TwoSteps(r, y0, y1, y2, who, 5);
    TwoSteps(r, y2, y3, y4, who, 3);
    OneStep(r, y4, who, 1);
  }

  lemma TwoSteps(r: Rail, y0: System, y1: System, y2: System, who: nat, n: nat)
    requires who < |y0.sessions| && who < |y1.sessions| && n >= 2
    requires y1 == NextStatement(r, y0, who) && y2 == NextStatement(r, y1, who)
    ensures Run(r, y0, Steps(who, n)) == Run(r, y2, Steps(who, n - 2))
  {
    OneStep(r, y0, who, n);
    OneStep(r, y1, who, n - 1);
  }

  lemma DraftStatements(r: Rail, y: System, who: nat)
    requires Alone(r, y, who)
    ensures var highest := MaxOf(y.rows.Keys);
      && NextStatement(r, At(r, y, who, CreateDraft, Reading, 0), who) == At(r, y, who, CreateDraft, Writing, highest)
      && NextStatement(r, At(r, y, who, CreateDraft, Writing, highest), who)
         == WrittenAlone(r, y, who, CreateDraft, highest)
  {
    VisibleAlone(r, y, who, CreateDraft, Reading, 0);
    assert map[][MaxOf(y.rows.Keys) + 1 := Draft] == map[MaxOf(y.rows.Keys) + 1 := Draft];
  }

  lemma CommitAlone(r: Rail, y: System, who: nat, call: Call, seen: nat)
    requires Quiet(y, who) && !call.Look?
    ensures var y' := Step(r, WrittenAlone(r, y, who, call, seen), Action(who, Commit));
      && (call.CreateDraft? ==> y' == y.(rows := y.rows[seen + 1 := Draft]))
      && (call.PublishVersion? ==>
            var after := y.rows[call.version := Published];
            y' == y.(rows := after, wins := y.wins + [Win(call.version, Live(y.rows), Live(after))]))
  {
    var written := WrittenAlone(r, y, who, call, seen);
    var s := written.sessions[who];
    assert written.sessions[who := IDLE] == y.sessions;
    assert call.CreateDraft? ==> Visible(y.rows, s) == y.rows[seen + 1 := Draft];
    assert call.PublishVersion? ==> Visible(y.rows, s) == y.rows[call.version := Published];
    assert y.wins + [] == y.wins;
  }

  lemma PublishStatements(r: Rail, y: System, who: nat, v: nat)
    requires Quiet(y, who)
    ensures IsDraft(y.rows, v) && Live(y.rows) <= v ==>
      && NextStatement(r, At(r, y, who, PublishVersion(v), Reading, 0), who)
         == At(r, y, who, PublishVersion(v), Checking, 0)
      && NextStatement(r, At(r, y, who, PublishVersion(v), Checking, 0), who)
         == At(r, y, who, PublishVersion(v), Writing, 0)
      && NextStatement(r, At(r, y, who, PublishVersion(v), Writing, 0), who)
         == WrittenAlone(r, y, who, PublishVersion(v), 0)
  {
    VisibleAlone(r, y, who, PublishVersion(v), Reading, 0);
    VisibleAlone(r, y, who, PublishVersion(v), Checking, 0);
    VisibleAlone(r, y, who, PublishVersion(v), Writing, 0);
  }

  lemma PublishRefusals(r: Rail, y: System, who: nat, v: nat)
    requires Quiet(y, who)
    ensures !IsDraft(y.rows, v) ==> NextStatement(r, At(r, y, who, PublishVersion(v), Reading, 0), who) == y
    ensures v < Live(y.rows) ==> NextStatement(r, At(r, y, who, PublishVersion(v), Checking, 0), who) == y
  {
    VisibleAlone(r, y, who, PublishVersion(v), Reading, 0);
    VisibleAlone(r, y, who, PublishVersion(v), Checking, 0);
    AbortAlone(r, y, who, PublishVersion(v), Reading, 0);
    AbortAlone(r, y, who, PublishVersion(v), Checking, 0);
  }

  /** A draft made with nothing in its way takes the version after the highest. */
  lemma DraftAlone(r: Rail, y: System, who: nat)
    requires Alone(r, y, who)
    ensures Run(r, y, Solo(who, CreateDraft)) == y.(rows := y.rows[MaxOf(y.rows.Keys) + 1 := Draft])
  {
    var highest := MaxOf(y.rows.Keys);
    var enter := At(r, y, who, CreateDraft, Enter, 0);
    var read := At(r, y, who, CreateDraft, Reading, 0);
    var write := At(r, y, who, CreateDraft, Writing, highest);
    var written := WrittenAlone(r, y, who, CreateDraft, highest);
    SoloRun(r, y, who, CreateDraft);
    EnterAlone(r, y, who, CreateDraft);
    DraftStatements(r, y, who);
    FiveSteps(r, enter, read, write, written, written, who);
    CommitAlone(r, y, who, CreateDraft, highest);
  }

  lemma PublishRefusedAlone(r: Rail, y: System, who: nat, v: nat)
    requires Alone(r, y, who) && (!IsDraft(y.rows, v) || v < Live(y.rows))
    ensures Run(r, At(r, y, who, PublishVersion(v), Enter, 0), Steps(who, 5)) == y
  {
    var call := PublishVersion(v);
    var enter := At(r, y, who, call, Enter, 0);
    var read := At(r, y, who, call, Reading, 0);
    EnterAlone(r, y, who, call);
    PublishRefusals(r, y, who, v);
    if !IsDraft(y.rows, v) {
      FiveSteps(r, enter, read, y, y, y, who);
    } else {
      var check := At(r, y, who, call, Checking, 0);
      assert NextStatement(r, read, who) == check by {
        VisibleAlone(r, y, who, call, Reading, 0);
      }
      FiveSteps(r, enter, read, check, y, y, who);
    }
  }

  lemma PublishAcceptedAlone(r: Rail, y: System, who: nat, v: nat)
    requires Alone(r, y, who) && IsDraft(y.rows, v) && Live(y.rows) <= v
    ensures Run(r, At(r, y, who, PublishVersion(v), Enter, 0), Steps(who, 5))
            == WrittenAlone(r, y, who, PublishVersion(v), 0)
  {
    var call := PublishVersion(v);
    EnterAlone(r, y, who, call);
    PublishStatements(r, y, who, v);
    FiveSteps(r, At(r, y, who, call, Enter, 0), At(r, y, who, call, Reading, 0), At(r, y, who, call, Checking, 0),
              At(r, y, who, call, Writing, 0), WrittenAlone(r, y, who, call, 0), who);
  }

  /** A publish with nothing in its way goes through exactly when the version is a draft above the live one. */
  lemma PublishAlone(r: Rail, y: System, who: nat, v: nat)
    requires Alone(r, y, who) && 0 !in y.rows
    ensures var after := y.rows[v := Published];
            Run(r, y, Solo(who, PublishVersion(v))) ==
            if IsDraft(y.rows, v) && Live(y.rows) < v
            then y.(rows := after, wins := y.wins + [Win(v, Live(y.rows), v)])
            else y
  {
    SoloRun(r, y, who, PublishVersion(v));
    assert v in PublishedIn(y.rows) ==> !IsDraft(y.rows, v);
    if IsDraft(y.rows, v) && Live(y.rows) < v {
      PublishAcceptedAlone(r, y, who, v);
      CommitAlone(r, y, who, PublishVersion(v), 0);
      assert PublishedIn(y.rows[v := Published]) == PublishedIn(y.rows) + {v};
      LiveIs(y.rows[v := Published], v);
    } else {
      PublishRefusedAlone(r, y, who, v);
    }
  }

  // ---------------------------------------------------------------------------------------------
  // The calls themselves.
  // ---------------------------------------------------------------------------------------------

  /** One carrier's stored versions. */
  class VersionTable {
    var rows: Rows

    /** Versions start at 1. */
    predicate Valid()
      reads this
    {
      0 !in rows
    }

    constructor ()
      ensures rows == map[] && Valid()
    {
      rows := map[];
    }

    /** The query for the highest of some versions. */
    method Highest(versions: set<nat>) returns (m: nat)
      ensures m == MaxOf(versions)
    {
      var left := versions;
      m := 0;
      while left != {}
        invariant left <= versions && forall v :: v in versions ==> v in left || v <= m
        invariant m == 0 || m in versions
        decreases |left|
      {
        var v :| v in left;
        if m < v {
          m := v;
        }
        left := left - {v};
      }
    }

    method CreateDraft() returns (version: nat)
      requires Valid()
      modifies this
      ensures Valid()
      ensures rows == old(rows)[version := Draft]
      ensures version == MaxOf(old(rows.Keys)) + 1
      ensures version !in old(rows) && Live(rows) == Live(old(rows))
    {
      var latest := Highest(rows.Keys);
      version := latest + 1;
      rows := rows[version := Draft];
      assert PublishedIn(rows) == PublishedIn(old(rows));
    }

    /** Refuses a version that is not a draft, and a draft older than the live version. */
    method PublishDraft(version: nat) returns (published: bool)
      requires Valid()
      modifies this
      ensures Valid()
      ensures published <==> IsDraft(old(rows), version) && Live(old(rows)) < version
      ensures rows == if published then old(rows)[version := Published] else old(rows)
      ensures published ==> Live(rows) == version
    {
      if version !in rows || rows[version] != Draft {
        return false;
      }
      var live := Highest(PublishedIn(rows));
      if version < live {
        return false;
      }
      assert version !in PublishedIn(rows) && (live != 0 ==> live in PublishedIn(rows));
      rows := rows[version := Published];
      assert PublishedIn(rows) == PublishedIn(old(rows)) + {version};
      LiveIs(rows, version);
      published := true;
    }
  }
}
