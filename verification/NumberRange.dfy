/** A carrier's number range: one durable counter per (carrier, name), claimed by a read followed by
    an insert or a guarded update (engine/plugins/number_range.py). */
module NumberRange {
  import opened Prelude

  datatype Policy = Wrap | Halt

  /** A stored counter. The columns `policy` and `bound` are null in rows older than the columns. */
  datatype Row = Row(next: int, policy: Option<Policy>, bound: Option<int>)

  datatype Request = Request(bound: int, policy: Policy)

  datatype Refusal = RangeExhausted | PolicySwitched | BoundChanged | BoundShrunk | LostRace

  /** What one call does with the row it read: refuse, insert a fresh row, or run the update guarded
      by `next == expected`. */
  datatype Decision =
    | Refuse(why: Refusal)
    | Create(claimed: int, row: Row)
    | Advance(expected: int, claimed: int, row: Row)

  function Decide(seen: Option<Row>, req: Request): Decision {
    match seen
    case None =>
      if req.policy == Halt && req.bound < 1 then Refuse(RangeExhausted)
      else Create(1, Row(2, Some(req.policy), Some(req.bound)))
    case Some(row) =>
      if row.policy.Some? && row.policy.value != req.policy then Refuse(PolicySwitched)
      else if req.policy == Halt && row.bound.None? then Refuse(RangeExhausted)
      else if row.bound.Some? && row.bound.value != req.bound && req.policy == Halt then Refuse(BoundChanged)
      else if row.bound.Some? && row.bound.value > req.bound then Refuse(BoundShrunk)
      else if req.policy == Halt && row.next > req.bound then Refuse(RangeExhausted)
      else
        var claimed := if row.next > req.bound then 1 else row.next;
        var following :=
          if req.policy == Halt then row.next + 1
          else if row.next > req.bound then 2
          else if row.next >= req.bound then 1
          else row.next + 1;
        Advance(row.next, claimed, Row(following, Some(req.policy), Some(req.bound)))
  }

  /** One uninterrupted call on a row: the number it claims and the row it leaves. */
  function Allocate(row: Option<Row>, req: Request): Result<(int, Row), Refusal> {
    match Decide(row, req)
    case Refuse(why) => Err(why)
    case Create(claimed, created) => Ok((claimed, created))
    case Advance(_, claimed, moved) => Ok((claimed, moved))
  }

  /** A call goes through: its policy is the one recorded, or none is; a halt range has its very bound and a number
      left; a wrap range's bound, if recorded, does not shrink. */
  predicate Open(row: Option<Row>, req: Request) {
    match row
    case None => req.policy == Wrap || req.bound >= 1
    case Some(Row(next, policy, bound)) =>
      && policy in {None, Some(req.policy)}
      && if req.policy == Halt then bound == Some(req.bound) && next <= req.bound
         else bound.None? || bound.value <= req.bound
  }

  /** Why a call that does not go through is refused. */
  predicate RefusedFor(row: Option<Row>, req: Request, why: Refusal) {
    var switched := row.Some? && row.value.policy.Some? && row.value.policy.value != req.policy;
    var rebound := row.Some? && row.value.bound.Some? && row.value.bound.value != req.bound;
    match why
    case PolicySwitched => switched
    case BoundChanged => !switched && rebound && req.policy == Halt
    case BoundShrunk => !switched && rebound && req.policy == Wrap
    case RangeExhausted => !switched && !rebound && req.policy == Halt
    case LostRace => false
  }

  /** What a call on a row must answer: the counter's number while that is within the bound, else 1; and the counter
      left is one more, or 1 when the number read was the bound of a wrap range. */
  predicate Answers(row: Option<Row>, req: Request, answer: Result<(int, Row), Refusal>) {
    match answer
    case Err(why) => !Open(row, req) && RefusedFor(row, req, why)
    case Ok((n, left)) =>
      && Open(row, req)
      && n == (if row.Some? && row.value.next <= req.bound then row.value.next else 1)
      && left.next == (if req.policy == Wrap && row.Some? && row.value.next == req.bound then 1 else n + 1)
      && left.policy == Some(req.policy)
      && left.bound == Some(req.bound)
  }

  lemma AllocateAnswers(row: Option<Row>, req: Request)
    ensures Allocate(row, req).Ok? <==> Open(row, req)
    ensures Answers(row, req, Allocate(row, req))
  {
  }

  // ---------------------------------------------------------------------------------------------
  // Any number of callers, interleaved at every database statement, with no advisory lock.
  // ---------------------------------------------------------------------------------------------

  type Caller = nat

  /** A call between its read and its write. */
  datatype Pending = Pending(req: Request, seen: Option<Row>)

  /** The row lock the first write of a transaction takes, with that transaction's uncommitted work. */
  datatype RowLock = Free | Held(holder: Caller, dirty: Row, claimed: seq<int>)

  datatype System = System(row: Option<Row>, issued: seq<int>, rowLock: RowLock, pending: map<Caller, Pending>)

  datatype Action =
    | Read(c: Caller, req: Request)
    | Write(c: Caller)
    | Commit(c: Caller)
    | Rollback(c: Caller)

  const FRESH := System(None, [], Free, map[])

  /** The row a caller's statements see: its own uncommitted version, else the committed one. */
  function Visible(s: System, c: Caller): Option<Row> {
    if s.rowLock.Held? && s.rowLock.holder == c then Some(s.rowLock.dirty) else s.row
  }

  function Finished(s: System, c: Caller): System {
    s.(pending := s.pending - {c})
  }

  /** `c` puts `row` in place of what it sees, claiming `n`. */
  function Claim(s: System, c: Caller, row: Row, n: int): System {
    var before := if s.rowLock.Held? then s.rowLock.claimed else [];
    Finished(s, c).(rowLock := Held(c, row, before + [n]))
  }

  /** One statement of one caller. A write on a row another transaction holds waits, and so is no step. */
  function Step(s: System, a: Action): System {
    match a
    case Read(c, req) => s.(pending := s.pending[c := Pending(req, Visible(s, c))])
    case Write(c) =>
      if c !in s.pending || (s.rowLock.Held? && s.rowLock.holder != c) then s
      else (
        match Decide(s.pending[c].seen, s.pending[c].req)
        case Refuse(_) => Finished(s, c)
        case Create(n, row) => if Visible(s, c).None? then Claim(s, c, row, n) else Finished(s, c)
        case Advance(expected, n, row) =>
          if Visible(s, c).Some? && Visible(s, c).value.next == expected then Claim(s, c, row, n)
          else Finished(s, c)
      )
    case Commit(c) =>
      if s.rowLock.Held? && s.rowLock.holder == c then
        Finished(s, c).(row := Some(s.rowLock.dirty), issued := s.issued + s.rowLock.claimed, rowLock := Free)
      else Finished(s, c)
    case Rollback(c) =>
      if s.rowLock.Held? && s.rowLock.holder == c then Finished(s, c).(rowLock := Free) else Finished(s, c)
  }

  function Run(s: System, actions: seq<Action>): System
    decreases |actions|
  {
    if actions == [] then s else Run(Step(s, actions[0]), actions[1..])
  }

  predicate IsHalt(row: Option<Row>, bound: int) {
    row.Some? && row.value.policy == Some(Halt) && row.value.bound == Some(bound)
  }

  /** `numbers` are what a halt range hands out between two values of its counter, within its bound. */
  predicate Consecutive(numbers: seq<int>, from: int, row: Row) {
    row.policy == Some(Halt) ==>
      && row.bound.Some?
      && from <= row.next <= row.bound.value + 1
      && numbers == Range(from, row.next)
  }

  /** Later rows keep a row's policy, and a halt row's bound. */
  predicate Descends(row: Row, later: Row) {
    && row.policy.Some?
    && later.policy == row.policy
    && (row.policy == Some(Halt) ==> later.bound == row.bound)
  }

  predicate Inv(s: System) {
    && (s.row.None? ==> s.issued == [])
    && (s.row.Some? ==> s.row.value.policy.Some? && Consecutive(s.issued, 1, s.row.value))
    && (s.rowLock.Held? ==>
          && s.rowLock.dirty.policy.Some?
          && Consecutive(s.rowLock.claimed, if s.row.Some? then s.row.value.next else 1, s.rowLock.dirty)
          && (s.row.Some? ==> Descends(s.row.value, s.rowLock.dirty)))
    && forall c :: c in s.pending && s.pending[c].seen.Some? ==>
         Visible(s, c).Some? && Descends(s.pending[c].seen.value, Visible(s, c).value)
  }

  lemma RangeExtends(lo: int, mid: int, hi: int)
    requires lo <= mid <= hi
    ensures Range(lo, mid) + Range(mid, hi) == Range(lo, hi)
  {
  }

  lemma ClaimKeepsInv(s: System, c: Caller, row: Row, n: int)
    requires Inv(s) && c in s.pending
    requires s.rowLock.Held? ==> s.rowLock.holder == c
    requires Decide(s.pending[c].seen, s.pending[c].req) in
               {Create(n, row), Advance(if Visible(s, c).Some? then Visible(s, c).value.next else 0, n, row)}
    requires Decide(s.pending[c].seen, s.pending[c].req).Create? <==> Visible(s, c).None?
    ensures Inv(Claim(s, c, row, n))
  {
  }

  lemma StepKeepsInv(s: System, a: Action)
    requires Inv(s)
    ensures Inv(Step(s, a))
    ensures forall w :: IsHalt(s.row, w) ==> IsHalt(Step(s, a).row, w)
    ensures s.issued <= Step(s, a).issued
  {
    match a
    case Read(_, _) =>
    case Rollback(_) =>
    case Commit(c) =>
      if s.rowLock.Held? && s.rowLock.holder == c && s.rowLock.dirty.policy == Some(Halt) {
        RangeExtends(1, if s.row.Some? then s.row.value.next else 1, s.rowLock.dirty.next);
      }
    case Write(c) =>
      if c in s.pending && (s.rowLock.Held? ==> s.rowLock.holder == c) {
        match Decide(s.pending[c].seen, s.pending[c].req)
        case Refuse(_) =>
        case Create(n, row) => if Visible(s, c).None? { ClaimKeepsInv(s, c, row, n); }
        case Advance(expected, n, row) =>
          if Visible(s, c).Some? && Visible(s, c).value.next == expected { ClaimKeepsInv(s, c, row, n); }
      }
  }

  lemma {:induction false} RunKeepsInv(s: System, actions: seq<Action>)
    requires Inv(s)
    ensures Inv(Run(s, actions))
    ensures forall w :: IsHalt(s.row, w) ==> IsHalt(Run(s, actions).row, w)
    ensures s.issued <= Run(s, actions).issued
    decreases |actions|
  {
    if actions != [] {
      StepKeepsInv(s, actions[0]);
      RunKeepsInv(Step(s, actions[0]), actions[1..]);
    }
  }

  /** Whatever the callers ask and however their statements, commits and rollbacks interleave, once a
      range has been created as `halt` with bound `w`, at every later moment the numbers committed are
      1, 2, 3, ... in order: none repeated, none skipped, none above `w`. */
  lemma HaltNeverReissues(creation: seq<Action>, later: seq<Action>, w: int)
    requires IsHalt(Run(FRESH, creation).row, w)
    ensures var s := Run(Run(FRESH, creation), later);
            && IsHalt(s.row, w)
            && |s.issued| <= w
            && s.issued == Range(1, |s.issued| + 1)
            && s.row.value.next == |s.issued| + 1
            && Run(FRESH, creation).issued <= s.issued
  {
    RunKeepsInv(FRESH, creation);
    RunKeepsInv(Run(FRESH, creation), later);
  }

  /** Every call asks for the same halt range. */
  predicate AsksOnly(actions: seq<Action>, req: Request) {
    forall i :: 0 <= i < |actions| && actions[i].Read? ==> actions[i].req == req
  }

  /** The range, committed or not, is halt with this bound, and so is every call under way. */
  predicate HaltOnly(s: System, bound: int) {
    && (s.row.Some? ==> IsHalt(s.row, bound))
    && (s.rowLock.Held? ==> IsHalt(Some(s.rowLock.dirty), bound))
    && forall c :: c in s.pending ==> s.pending[c].req == Request(bound, Halt)
  }

  lemma StepKeepsHaltOnly(s: System, a: Action, bound: int)
    requires HaltOnly(s, bound) && (a.Read? ==> a.req == Request(bound, Halt))
    ensures HaltOnly(Step(s, a), bound)
  {
  }

  lemma {:induction false} RunKeepsHaltOnly(s: System, actions: seq<Action>, bound: int)
    requires HaltOnly(s, bound) && AsksOnly(actions, Request(bound, Halt))
    ensures HaltOnly(Run(s, actions), bound)
    decreases |actions|
  {
    if actions != [] {
      StepKeepsHaltOnly(s, actions[0], bound);
      RunKeepsHaltOnly(Step(s, actions[0]), actions[1..], bound);
    }
  }

  /** From the first call on, whoever asks and however they interleave, a range asked for as `halt` only commits
      1, 2, 3, ... up to its bound. */
  lemma HaltRangeFromTheStart(actions: seq<Action>, bound: int)
    requires AsksOnly(actions, Request(bound, Halt))
    ensures var issued := Run(FRESH, actions).issued;
            issued == Range(1, |issued| + 1) && (issued != [] ==> |issued| <= bound)
  {
    RunKeepsInv(FRESH, actions);
    RunKeepsHaltOnly(FRESH, actions, bound);
  }

  /** A call with nobody in its way, read, written and committed, does to the stored row what one call does: it claims
      exactly when the range is open to it, and a refusal leaves everything as it was. */
  lemma CallAlone(s: System, c: Caller, req: Request)
    requires s.rowLock.Free?
    ensures var s' := Run(s, [Read(c, req), Write(c), Commit(c)]);
      && s'.rowLock.Free?
      && s'.pending == s.pending - {c}
      && if Open(s.row, req) then
           && s'.row.Some? && |s'.issued| == |s.issued| + 1 && s.issued <= s'.issued
           && Answers(s.row, req, Ok((s'.issued[|s.issued|], s'.row.value)))
         else s'.row == s.row && s'.issued == s.issued
  {
    AllocateAnswers(s.row, req);
    var (read, write, commit) := (Read(c, req), Write(c), Commit(c));
    assert [read, write, commit][1..] == [write, commit] && [write, commit][1..] == [commit] && [commit][1..] == [];
    var s2 := Step(Step(s, read), write);
    assert Run(s, [read, write, commit]) == Run(Step(s, read), [write, commit]);
    assert Run(Step(s, read), [write, commit]) == Run(s2, [commit]);
    assert Run(s2, [commit]) == Run(Step(s2, commit), []);
  }

  /** The row a call read is no longer the one its write would find. */
  predicate Overtaken(s: System, c: Caller)
    requires c in s.pending
  {
    match s.pending[c].seen
    case None => Visible(s, c).Some?
    case Some(row) => Visible(s, c).None? || Visible(s, c).value.next != row.next
  }

  /** A caller overtaken between its read and its write claims nothing. */
  lemma OvertakenClaimsNothing(s: System, c: Caller)
    requires c in s.pending && Overtaken(s, c) && (s.rowLock.Held? ==> s.rowLock.holder == c)
    ensures Step(s, Write(c)) == s.(pending := s.pending - {c})
  {
  }

  // ---------------------------------------------------------------------------------------------
  // One caller at a time: how far apart a wrap range repeats itself.
  // ---------------------------------------------------------------------------------------------

  /** A number handed out, with the bound of the call that claimed it. */
  datatype Issue = Issue(value: int, bound: int)

  /** The numbers a serial run hands out. A refused call raises and leaves the row alone. */
  function SerialRun(row: Option<Row>, reqs: seq<Request>): seq<Issue>
    decreases |reqs|
  {
    if reqs == [] then []
    else
      match Allocate(row, reqs[0])
      case Err(_) => SerialRun(row, reqs[1..])
      case Ok((n, moved)) => [Issue(n, reqs[0].bound)] + SerialRun(Some(moved), reqs[1..])
  }

  /** A wrap range, not yet created, created, or old enough to lack one or both columns. */
  predicate WrapRange(row: Option<Row>) {
    row.Some? ==>
      && row.value.next >= 1
      && row.value.policy in {None, Some(Wrap)}
      && (row.value.policy.None? ==> row.value.bound.None?)
  }

  predicate WrapRequests(row: Option<Row>, reqs: seq<Request>) {
    && (forall i :: 0 <= i < |reqs| ==> reqs[i].bound >= 1)
    && (|reqs| > 0 && (row.None? || row.value.policy.None?) ==> reqs[0].policy == Wrap)
  }

  /** What a wrap range's counter says about the issue before it: the next number is one more, or 1
      after the bound was reached. */
  predicate Follows(last: Issue, row: Option<Row>) {
    && row.Some?
    && row.value.policy == Some(Wrap)
    && row.value.bound == Some(last.bound)
    && 1 <= last.value <= last.bound
    && (row.value.next == last.value + 1 || (row.value.next == 1 && last.value == last.bound))
  }

  /** Between two issues of a serial wrap run: the later is the earlier counted on without a wrap, or
      the calls between them ran past the earlier one's bound. */
  predicate Spaced(first: Issue, later: Issue, calls: int) {
    later.value == first.value + calls || calls >= first.bound - first.value + later.value
  }

  lemma {:induction false} SpacedFrom(first: Issue, last: Issue, calls: nat, row: Option<Row>, reqs: seq<Request>)
    requires Follows(last, row) && first.bound <= last.bound && 1 <= first.value <= first.bound
    requires if calls == 0 then first == last else Spaced(first, last, calls)
    requires forall i :: 0 <= i < |reqs| ==> reqs[i].bound >= 1
    ensures forall k :: 0 <= k < |SerialRun(row, reqs)| ==> Spaced(first, SerialRun(row, reqs)[k], calls + k + 1)
    decreases |reqs|
  {
    if reqs != [] {
      match Allocate(row, reqs[0])
      case Err(_) => SpacedFrom(first, last, calls, row, reqs[1..]);
      case Ok((n, moved)) =>
        SpacedFrom(first, Issue(n, reqs[0].bound), calls + 1, Some(moved), reqs[1..]);
    }
  }

  /** Two issues of the same number are at least as many calls apart as the bound in force at the first,
      however the calls' bounds vary: a shrinking one, or a `halt` one, is refused. */
  lemma {:induction false} WrapSpacing(row: Option<Row>, reqs: seq<Request>, i: nat, j: nat)
    requires WrapRange(row) && WrapRequests(row, reqs)
    requires i < j < |SerialRun(row, reqs)|
    requires SerialRun(row, reqs)[i].value == SerialRun(row, reqs)[j].value
    ensures j - i >= SerialRun(row, reqs)[i].bound
    decreases |reqs|
  {
    match Allocate(row, reqs[0])
    case Err(_) => WrapSpacing(row, reqs[1..], i, j);
    case Ok((n, moved)) =>
      if i > 0 {
        WrapSpacing(Some(moved), reqs[1..], i - 1, j - 1);
      } else {
        var first := Issue(n, reqs[0].bound);
        SpacedFrom(first, first, 0, Some(moved), reqs[1..]);
        assert Spaced(first, SerialRun(row, reqs)[j], j);
      }
  }

  /** A serial run of `calls` wrap requests with one bound. */
  function Uniform(row: Option<Row>, w: int, calls: nat): seq<Issue> {
    SerialRun(row, seq(calls, _ => Request(w, Wrap)))
  }

  lemma {:induction false} CycleSteps(row: Option<Row>, w: int, last: int, calls: nat)
    requires Follows(Issue(last, w), row)
    ensures |Uniform(row, w, calls)| == calls
    ensures forall k :: 0 <= k < calls ==>
              var before := if k == 0 then last else Uniform(row, w, calls)[k - 1].value;
              Uniform(row, w, calls)[k].value == if before == w then 1 else before + 1
    decreases calls
  {
    if calls > 0 {
      var reqs := seq(calls, _ => Request(w, Wrap));
      assert reqs[1..] == seq(calls - 1, _ => Request(w, Wrap));
      var (n, moved) := Allocate(row, reqs[0]).value;
      CycleSteps(Some(moved), w, n, calls - 1);
    }
  }

  /** With one bound throughout, call k (counted from 0) of a fresh wrap range returns (k mod w) + 1. */
  lemma {:induction false} WrapCycle(w: int, calls: nat, k: nat)
    requires w >= 1 && k < calls
    ensures |Uniform(None, w, calls)| == calls
    ensures Uniform(None, w, calls)[k].value == k % w + 1
    decreases k
  {
    var reqs := seq(calls, _ => Request(w, Wrap));
    assert reqs[1..] == seq(calls - 1, _ => Request(w, Wrap));
    var (n, moved) := Allocate(None, reqs[0]).value;
    CycleSteps(Some(moved), w, n, calls - 1);
    if k == 0 {
      RemainderUnique(0, 0, 0 / w, 0 % w, w);
    } else {
      WrapCycle(w, calls, k - 1);
      NextResidue(k - 1, w);
      assert Uniform(None, w, calls)[k] == Uniform(Some(moved), w, calls - 1)[k - 1];
    }
  }

  lemma NextResidue(k: nat, w: int)
    requires w >= 1
    ensures (k + 1) % w == if k % w == w - 1 then 0 else k % w + 1
  {
    var q, r := k / w, k % w;
    var q', r' := (k + 1) / w, (k + 1) % w;
    if r == w - 1 {
      assert (q + 1) * w == q * w + w;
      RemainderUnique(q + 1, 0, q', r', w);
    } else {
      RemainderUnique(q, r + 1, q', r', w);
    }
  }

  lemma RemainderUnique(q: int, r: int, q': int, r': int, w: int)
    requires 0 <= r < w && 0 <= r' < w
    requires q * w + r == q' * w + r'
    ensures r == r'
  {
    var d := q - q';
    assert d * w == r' - r;
    NoMultipleWithin(d, w);
  }

  lemma NoMultipleWithin(d: int, w: int)
    requires -w < d * w < w
    ensures d == 0
  {
    assert d >= 1 ==> (d - 1) * w >= 0;
    assert d <= -1 ==> (d + 1) * w <= 0;
  }

  // ---------------------------------------------------------------------------------------------
  // The table of counters as the program holds it.
  // ---------------------------------------------------------------------------------------------

  type Key = (string, string)

  function Lookup(rows: map<Key, Row>, key: Key): Option<Row> {
    if key in rows then Some(rows[key]) else None
  }

  class SequenceTable {
    var rows: map<Key, Row>

    constructor ()
      ensures rows == map[]
    {
      rows := map[];
    }

    /** Claims the next number of one range; every other range, and on refusal this one, is untouched. */
    method AllocateNumber(carrier: string, name: string, bound: int, policy: Policy) returns (r: Result<int, Refusal>)
      modifies this
      ensures var before := Lookup(old(rows), (carrier, name));
              match Allocate(before, Request(bound, policy))
              case Err(why) => r == Err(why) && rows == old(rows)
              case Ok((n, moved)) => r == Ok(n) && rows == old(rows)[(carrier, name) := moved]
      ensures var (key, req) := ((carrier, name), Request(bound, policy));
              var before := Lookup(old(rows), key);
              && (r.Ok? <==> Open(before, req))
              && (r.Ok? ==> key in rows && rows == old(rows)[key := rows[key]])
              && (r.Err? ==> rows == old(rows))
              && Answers(before, req, if r.Ok? then Ok((r.value, rows[key])) else Err(r.error))
    {
      var key := (carrier, name);
      AllocateAnswers(Lookup(rows, key), Request(bound, policy));
      if key !in rows {
        if policy == Halt && bound < 1 {
          return Err(RangeExhausted);
        }
        rows := rows[key := Row(2, Some(policy), Some(bound))];
        return Ok(1);
      }
      var row := rows[key];
      if row.policy.Some? && row.policy.value != policy {
        return Err(PolicySwitched);
      }
      if policy == Halt && row.bound.None? {
        return Err(RangeExhausted);
      }
      if row.bound.Some? && row.bound.value != bound {
        if policy == Halt {
          return Err(BoundChanged);
        }
        if row.bound.value > bound {
          return Err(BoundShrunk);
        }
      }
      var claimed, following;
      if policy == Halt {
        if row.next > bound {
          return Err(RangeExhausted);
        }
        claimed, following := row.next, row.next + 1;
      } else if row.next > bound {
        claimed, following := 1, 2;
      } else {
        claimed := row.next;
        following := if row.next >= bound then 1 else row.next + 1;
      }
      rows := rows[key := Row(following, Some(policy), Some(bound))];
      return Ok(claimed);
    }
  }
}
