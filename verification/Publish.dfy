/** Versioned drafts and publishes (domain/definitions.py, domain/rulebook.py) as interleaved transactions.
    Every session runs one call, one statement at a time; a statement sees the committed rows and the session's
    own writes; a write that meets another session's uncommitted write of the same row waits. */
module Publish {
  import opened Prelude

  datatype Status = Draft | Published

  type Rows = map<nat, Status>

  /** How a table numbers its versions: the highest plus one under a unique key (carrier definitions), or the
      database's own counter, which no rollback takes back (rulebooks). */
  datatype Numbering = HighestPlusOne | Counter

  /** `locks`: the engine has advisory locks. `seeds`: every entry point first seeds an empty table. */
  datatype Rail = Rail(numbering: Numbering, locks: bool, seeds: bool)

  datatype Call = Look | CreateDraft | PublishVersion(version: nat)

  datatype Stage =
    | Idle
    | SeedCheck | SeedLock | SeedRecheck | SeedInsert
    | Enter | Reading | Checking | Writing | Written

  datatype Session = Session(
    call: Call,
    stage: Stage,
    inserts: Rows,
    seen: nat,
    claimed: Option<nat>)

  const IDLE := Session(Look, Idle, map[], 0, None)

  /** One successful publish: its version, and the version live before and after its commit. */
  datatype Win = Win(version: nat, before: nat, after: nat)

  datatype System = System(
    rows: Rows,
    sessions: seq<Session>,
    holder: Option<nat>,
    counter: nat,
    wins: seq<Win>)

  datatype Move = Begin(call: Call) | Next | Commit | Rollback
  datatype Action = Action(who: nat, move: Move)

  ghost function MaxOf(s: set<nat>): (m: nat)
    ensures s == {} ==> m == 0
    ensures s != {} ==> m in s
    ensures forall x :: x in s ==> x <= m
  {
    if s == {} then 0
    else
      var x :| x in s;
      var m := MaxOf(s - {x});
      assert s == (s - {x}) + {x};
      if x < m then m else x
  }

  function PublishedIn(rows: Rows): set<nat> {
    set v | v in rows && rows[v] == Published
  }

  /** The live version; versions start at 1, so 0 is none. */
  ghost function Live(rows: Rows): nat {
    MaxOf(PublishedIn(rows))
  }

  function Claim(rows: Rows, claimed: Option<nat>): Rows {
    if claimed.Some? then rows[claimed.value := Published] else rows
  }

  function Visible(rows: Rows, s: Session): Rows {
    Claim(rows + s.inserts, s.claimed)
  }

  function Become(y: System, i: nat, s: Session): System
    requires i < |y.sessions|
  {
    y.(sessions := y.sessions[i := s])
  }

  function Abort(y: System, i: nat): System
    requires i < |y.sessions|
  {
    y.(sessions := y.sessions[i := IDLE], holder := if y.holder == Some(i) then None else y.holder)
  }

  predicate LockFree(r: Rail, y: System, i: nat) {
    !r.locks || y.holder == None || y.holder == Some(i)
  }

  function TakeLock(r: Rail, y: System, i: nat): System {
    if r.locks then y.(holder := Some(i)) else y
  }

  /** Another session has inserted this version and not yet committed. */
  predicate InsertPending(y: System, i: nat, v: nat) {
    exists j :: 0 <= j < |y.sessions| && j != i && v in y.sessions[j].inserts
  }

  predicate ClaimPending(y: System, i: nat, v: nat) {
    exists j :: 0 <= j < |y.sessions| && j != i && y.sessions[j].claimed == Some(v)
  }

  function Insert(y: System, i: nat, v: nat, status: Status, after: Stage): System
    requires i < |y.sessions|
  {
    var s := y.sessions[i];
    if InsertPending(y, i, v) then y
    else if v in y.rows || v in s.inserts then Abort(y, i)
    else Become(y, i, s.(inserts := s.inserts[v := status], stage := after))
  }

  /** The guarded update: it waits for another claim of the row, then takes the row only if it is still a draft. */
  function ClaimDraft(y: System, i: nat, v: nat): System
    requires i < |y.sessions|
  {
    var s := y.sessions[i];
    var visible := Visible(y.rows, s);
    if ClaimPending(y, i, v) then y
    else if v in visible && visible[v] == Draft then Become(y, i, s.(stage := Written, claimed := Some(v)))
    else Abort(y, i)
  }

  /** The next number the counter gives; taken even if the transaction later rolls back. */
  function Draw(r: Rail, y: System): System {
    if r.numbering.Counter? then y.(counter := y.counter + 1) else y
  }

  function InsertSeed(r: Rail, y: System, i: nat): System
    requires i < |y.sessions|
  {
    Insert(Draw(r, y), i, if r.numbering.Counter? then y.counter else 1, Published, Enter)
  }

  function DraftVersion(r: Rail, y: System, i: nat): nat
    requires i < |y.sessions|
  {
    if r.numbering.Counter? then y.counter else y.sessions[i].seen + 1
  }

  function InsertDraft(r: Rail, y: System, i: nat): System
    requires i < |y.sessions|
  {
    Insert(Draw(r, y), i, DraftVersion(r, y, i), Draft, Written)
  }

  ghost function NextStatement(r: Rail, y: System, i: nat): System
    requires i < |y.sessions|
  {
    var s := y.sessions[i];
    var visible := Visible(y.rows, s);
    match s.stage
    case Idle => y
    case SeedCheck => Become(y, i, s.(stage := if visible == map[] then SeedLock else Enter))
    case SeedLock => if LockFree(r, y, i) then TakeLock(r, Become(y, i, s.(stage := SeedRecheck)), i) else y
    case SeedRecheck => Become(y, i, s.(stage := if visible == map[] then SeedInsert else Enter))
    case SeedInsert => InsertSeed(r, y, i)
    case Enter =>
      if s.call.Look? then Become(y, i, s.(stage := Written))
      else if s.call.CreateDraft? && r.numbering.Counter? then Become(y, i, s.(stage := Writing))
      else if LockFree(r, y, i) then TakeLock(r, Become(y, i, s.(stage := Reading)), i)
      else y
    case Reading =>
      if s.call.PublishVersion? then
        if s.call.version in visible && visible[s.call.version] == Draft then Become(y, i, s.(stage := Checking))
        else Abort(y, i)
      else Become(y, i, s.(stage := Writing, seen := MaxOf(visible.Keys)))
    case Checking =>
      if s.call.PublishVersion? && s.call.version < Live(visible) then Abort(y, i)
      else Become(y, i, s.(stage := Writing))
    case Writing =>
      if s.call.PublishVersion? then ClaimDraft(y, i, s.call.version)
      else InsertDraft(r, y, i)
    case Written => y
  }

  ghost function CommitSession(y: System, i: nat): System
    requires i < |y.sessions|
  {
    var s := y.sessions[i];
    var after := Visible(y.rows, s);
    var won := if s.claimed.Some? then [Win(s.claimed.value, Live(y.rows), Live(after))] else [];
    Abort(y.(rows := after, wins := y.wins + won), i)
  }

  ghost function Step(r: Rail, y: System, a: Action): System {
    if a.who >= |y.sessions| then y
    else
      var s := y.sessions[a.who];
      match a.move
      case Begin(call) =>
        if s.stage == Idle then
          Become(y, a.who, IDLE.(call := call, stage := if r.seeds then SeedCheck else Enter))
        else y
      case Next => NextStatement(r, y, a.who)
      case Commit => if s.stage == Written then CommitSession(y, a.who) else y
      case Rollback => Abort(y, a.who)
  }

  ghost function Run(r: Rail, y: System, actions: seq<Action>): System
    decreases |actions|
  {
    if actions == [] then y else Run(r, Step(r, y, actions[0]), actions[1..])
  }

  function Start(sessions: nat): System {
    System(map[], seq(sessions, i => IDLE), None, 1, [])
  }
}
