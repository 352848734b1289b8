/** The wait/exit handshake between processes (userprog/process.c), as a step protocol over any number of
    processes.  The two semaphores of a process appear as their values: a completed sema_down is one step
    that finds the value positive, a sema_up one step that adds one (see SemaphoreProtocol). */
module ProcessWait {
  import opened Options

  type Tid = nat

  /** Where a process is.  Waiting to Finishing are the points of process_wait for child `c`: before
      sema_down (sema_wait), before reading the status, before unlinking, before sema_up (sema_exit).
      Cleaning to Gone are those of process_exit: before sema_up (sema_wait), before sema_down (sema_exit),
      and past it. */
  datatype Pc =
    | Running
    | Waiting(c: Tid) | Reading(c: Tid) | Unlinking(c: Tid, st: int) | Finishing(c: Tid, st: int)
    | Cleaning | Leaving | Gone

  /** `orphan` is set when the parent exits with this child still on its list. */
  datatype Process =
    Process(parent: Option<Tid>, orphan: bool, children: seq<Tid>, semaWait: nat, semaExit: nat, status: int, pc: Pc)

  /** One return of process_wait: `waited` if it found the child on the list. */
  datatype Answer = Answer(parent: Tid, child: Tid, status: int, waited: bool)

  /** `reaped` holds the status handed out for each child that was waited for. */
  datatype State = State(procs: map<Tid, Process>, reaped: map<Tid, int>, log: seq<Answer>)

  datatype Event =
    | Create(p: Tid, c: Tid) | SetStatus(p: Tid, st: int)
    | CallWait(p: Tid, c: Tid) | DownWait(p: Tid) | ReadStatus(p: Tid) | Unlink(p: Tid) | UpExit(p: Tid)
    | CallExit(p: Tid, upped: set<Tid>) | UpWait(p: Tid) | DownExit(p: Tid)

  const TID_ERROR := -1

  function Newborn(parent: Option<Tid>): Process {
    Process(parent, false, [], 0, 0, 0, Running)
  }

  function Initial(main: Tid): State {
    State(map[main := Newborn(None)], map[], [])
  }

  predicate Enabled(s: State, e: Event) {
    e.p in s.procs &&
    var me := s.procs[e.p];
    match e
    case Create(p, c) => me.pc == Running && c !in s.procs
    case SetStatus(p, st) => me.pc == Running
    case CallWait(p, c) => me.pc == Running
    case DownWait(p) => me.pc.Waiting? && me.pc.c in s.procs && s.procs[me.pc.c].semaWait > 0
    case ReadStatus(p) => me.pc.Reading? && me.pc.c in s.procs
    case Unlink(p) => me.pc.Unlinking? && me.pc.c in s.procs
    case UpExit(p) => me.pc.Finishing? && me.pc.c in s.procs
    case CallExit(p, upped) => me.pc == Running
    case UpWait(p) => me.pc == Cleaning
    case DownExit(p) => me.pc == Leaving && me.semaExit > 0
  }

  function Without(s: seq<Tid>, c: Tid): (r: seq<Tid>)
    ensures forall x :: x in r <==> x in s && x != c
  {
    if s == [] then []
    else if s[0] == c then Without(s[1..], c)
    else [s[0]] + Without(s[1..], c)
  }

  /** The children of an exiting process are orphaned; those in `upped` have their sema_exit raised. */
  function Orphaned(procs: map<Tid, Process>, p: Tid, upped: set<Tid>): map<Tid, Process>
    requires p in procs
  {
    map c | c in procs ::
      if c in procs[p].children then
        procs[c].(orphan := true, semaExit := procs[c].semaExit + if c in upped then 1 else 0)
      else procs[c]
  }

  function Step(s: State, e: Event): State
    requires Enabled(s, e)
  {
    var me := s.procs[e.p];
    match e
    case Create(p, c) =>
      s.(procs := s.procs[p := me.(children := me.children + [c])][c := Newborn(Some(p))])
    case SetStatus(p, st) => s.(procs := s.procs[p := me.(status := st)])
    case CallWait(p, c) =>
      if c in me.children then s.(procs := s.procs[p := me.(pc := Waiting(c))])
      else s.(log := s.log + [Answer(p, c, TID_ERROR, false)])
    case DownWait(p) =>
      var c := me.pc.c;
      var s' := s.(procs := s.procs[c := s.procs[c].(semaWait := s.procs[c].semaWait - 1)]);
      s'.(procs := s'.procs[p := s'.procs[p].(pc := Reading(c))])
    case ReadStatus(p) =>
      s.(procs := s.procs[p := me.(pc := Unlinking(me.pc.c, s.procs[me.pc.c].status))])
    case Unlink(p) =>
      s.(procs := s.procs[p := me.(children := Without(me.children, me.pc.c), pc := Finishing(me.pc.c, me.pc.st))])
    case UpExit(p) =>
      var c := me.pc.c;
      var s' := s.(procs := s.procs[c := s.procs[c].(semaExit := s.procs[c].semaExit + 1)]);
      State(s'.procs[p := s'.procs[p].(pc := Running)], s.reaped[c := me.pc.st],
            s.log + [Answer(p, c, me.pc.st, true)])
    case CallExit(p, upped) =>
      var procs := Orphaned(s.procs, p, upped);
      s.(procs := procs[p := procs[p].(children := [], pc := Cleaning)])
    case UpWait(p) => s.(procs := s.procs[p := me.(semaWait := me.semaWait + 1, pc := Leaving)])
    case DownExit(p) => s.(procs := s.procs[p := me.(semaExit := me.semaExit - 1, pc := Gone)])
  }

  // ---------- the invariant ----------

  /** Process_wait for `c` has got past its sema_down. */
  predicate PastDown(pc: Pc, c: Tid) {
    pc == Reading(c) || (pc.Unlinking? && pc.c == c) || (pc.Finishing? && pc.c == c)
  }

  /** A child and its living parent agree on how far they have got.  The child is `linked` until the parent
      is past its sema_down, and `over` once the parent is done with it: sema_wait is up exactly while a
      leaving child is linked, sema_exit exactly while it is over and the child has not left. */
  predicate Agree(ch: Process, par: Process, c: Tid, reaped: map<Tid, int>) {
    var linked := c in par.children && !PastDown(par.pc, c);
    var over := c !in par.children && !PastDown(par.pc, c);
    && ch.semaWait == (if linked && ch.pc == Leaving then 1 else 0)
    && ch.semaExit == (if over && ch.pc == Leaving then 1 else 0)
    && (c in reaped <==> over) && (over ==> reaped[c] == ch.status)
    && (ch.pc == Gone ==> over) && (!linked ==> ch.pc == Leaving || ch.pc == Gone)
    && (PastDown(par.pc, c) ==> (par.pc.Finishing? <==> c !in par.children))
    && (PastDown(par.pc, c) && !par.pc.Reading? ==> par.pc.st == ch.status)
  }

  /** `c` is a child whose parent has not exited without it. */
  ghost predicate ChildOf(s: State, c: Tid, p: Tid) {
    c in s.procs && s.procs[c].parent == Some(p) && !s.procs[c].orphan
  }

  ghost predicate Agreed(s: State) {
    forall c, p | ChildOf(s, c, p) :: p in s.procs && p != c && Agree(s.procs[c], s.procs[p], c, s.reaped)
  }

  /** Lists and waits name own children only; waiting is for a child on the list. */
  ghost predicate Tree(s: State) {
    && (forall p, c | p in s.procs && c in s.procs[p].children :: ChildOf(s, c, p))
    && (forall p | p in s.procs && InWait(s.procs[p].pc) :: ChildOf(s, s.procs[p].pc.c, p))
    && (forall p | p in s.procs && s.procs[p].pc.Waiting? :: s.procs[p].pc.c in s.procs[p].children)
  }

  predicate InWait(pc: Pc) { pc.Waiting? || pc.Reading? || pc.Unlinking? || pc.Finishing? }

  /** Answers that waited are the recorded statuses, one for each child; the others are errors. */
  ghost predicate Logged(s: State) {
    && (forall c | c in s.reaped :: exists p :: ChildOf(s, c, p))
    && (forall i | 0 <= i < |s.log| && s.log[i].waited ::
          s.log[i].child in s.reaped && s.reaped[s.log[i].child] == s.log[i].status)
    && (forall i | 0 <= i < |s.log| && !s.log[i].waited :: s.log[i].status == TID_ERROR)
    && (forall i, j | 0 <= i < j < |s.log| && s.log[i].waited && s.log[j].waited :: s.log[i].child != s.log[j].child)
  }

  ghost predicate Inv(s: State) { Tree(s) && Agreed(s) && Logged(s) }

  /** What the tree says of the process that takes a step. */
  ghost predicate Local(s: State, q: Tid)
    requires q in s.procs
  {
    && (InWait(s.procs[q].pc) ==> ChildOf(s, s.procs[q].pc.c, q))
    && (s.procs[q].pc.Waiting? ==> s.procs[q].pc.c in s.procs[q].children)
    && (forall c | c in s.procs[q].children :: ChildOf(s, c, q))
  }

  ghost predicate PairAgrees(s: State, c: Tid, p: Tid) {
    ChildOf(s, c, p) && p in s.procs && p != c && Agree(s.procs[c], s.procs[p], c, s.reaped)
  }

  /** The steps of process_wait. */
  predicate IsWait(e: Event) { e.CallWait? || e.DownWait? || e.ReadStatus? || e.Unlink? || e.UpExit? }

  lemma PairKeepsWaiting(s: State, e: Event, c: Tid, p: Tid)
    requires Enabled(s, e) && IsWait(e) && Local(s, e.p) && PairAgrees(s, c, p)
    ensures PairAgrees(Step(s, e), c, p)
  {
    match e
    case CallWait(_, _) =>
    case DownWait(_) =>
    case ReadStatus(_) =>
    case Unlink(_) =>
    case UpExit(_) =>
  }

  lemma PairKeepsOther(s: State, e: Event, c: Tid, p: Tid)
    requires Enabled(s, e) && !IsWait(e) && Local(s, e.p) && PairAgrees(s, c, p) && ChildOf(Step(s, e), c, p)
    ensures PairAgrees(Step(s, e), c, p)
  {
    match e
    case Create(_, _) =>
    case SetStatus(_, _) =>
    case CallExit(_, _) =>
    case UpWait(_) =>
    case DownExit(_) =>
  }

  /** A pair of child and parent that agree still agree after any step of any process. */
  lemma PairKeeps(s: State, e: Event, c: Tid, p: Tid)
    requires Enabled(s, e) && Local(s, e.p) && PairAgrees(s, c, p) && ChildOf(Step(s, e), c, p)
    ensures PairAgrees(Step(s, e), c, p)
  {
    if IsWait(e) {
      PairKeepsWaiting(s, e, c, p);
    } else {
      PairKeepsOther(s, e, c, p);
    }
  }

  /** A child pair after a step was one before, unless the step created the child. */
  lemma ChildBefore(s: State, e: Event, c: Tid, p: Tid)
    requires Enabled(s, e) && ChildOf(Step(s, e), c, p)
    ensures ChildOf(s, c, p) || e == Create(p, c)
  {
  }

  /** A child stays one, unless the step is its parent's exit. */
  lemma ChildAfter(s: State, e: Event, c: Tid, p: Tid)
    requires Enabled(s, e) && Local(s, e.p) && ChildOf(s, c, p)
    ensures ChildOf(Step(s, e), c, p) || (e.CallExit? && e.p == p && c in s.procs[p].children)
  {
  }

  lemma StepKeepsAgreed(s: State, e: Event)
    requires Tree(s) && Agreed(s) && Logged(s) && Enabled(s, e)
    ensures Agreed(Step(s, e))
  {
    forall c, p | ChildOf(Step(s, e), c, p)
      ensures p in Step(s, e).procs && p != c && Agree(Step(s, e).procs[c], Step(s, e).procs[p], c, Step(s, e).reaped)
    {
      ChildBefore(s, e, c, p);
      if ChildOf(s, c, p) {
        PairKeeps(s, e, c, p);
      } else {
        assert c !in s.procs && c !in s.reaped;
      }
    }
  }

  /** The list and the wait of one process after a step. */
  lemma ListKeeps(s: State, e: Event, p: Tid, c: Tid)
    requires Enabled(s, e) && Tree(s) && p in Step(s, e).procs && c in Step(s, e).procs[p].children
    ensures ChildOf(Step(s, e), c, p)
  {
    assert Local(s, e.p);
    if p in s.procs && c in s.procs[p].children {
      ChildAfter(s, e, c, p);
    }
  }

  lemma WaitKeeps(s: State, e: Event, p: Tid)
    requires Enabled(s, e) && Tree(s) && p in Step(s, e).procs && InWait(Step(s, e).procs[p].pc)
    ensures ChildOf(Step(s, e), Step(s, e).procs[p].pc.c, p)
    ensures Step(s, e).procs[p].pc.Waiting? ==> Step(s, e).procs[p].pc.c in Step(s, e).procs[p].children
  {
    assert Local(s, e.p);
    assert p in s.procs;
    var c := Step(s, e).procs[p].pc.c;
    if InWait(s.procs[p].pc) && s.procs[p].pc.c == c {
      ChildAfter(s, e, c, p);
    }
  }

  lemma StepKeepsTree(s: State, e: Event)
    requires Tree(s) && Enabled(s, e)
    ensures Tree(Step(s, e))
  {
    forall p, c | p in Step(s, e).procs && c in Step(s, e).procs[p].children ensures ChildOf(Step(s, e), c, p) {
      ListKeeps(s, e, p, c);
    }
    forall p | p in Step(s, e).procs && InWait(Step(s, e).procs[p].pc)
      ensures ChildOf(Step(s, e), Step(s, e).procs[p].pc.c, p)
      ensures Step(s, e).procs[p].pc.Waiting? ==> Step(s, e).procs[p].pc.c in Step(s, e).procs[p].children
    {
      WaitKeeps(s, e, p);
    }
  }

  lemma ReapedKeeps(s: State, e: Event, c: Tid)
    requires Tree(s) && Agreed(s) && Logged(s) && Enabled(s, e) && c in Step(s, e).reaped
    ensures exists p :: ChildOf(Step(s, e), c, p)
  {
    assert Local(s, e.p);
    if c in s.reaped {
      var p :| ChildOf(s, c, p);
      assert Agree(s.procs[c], s.procs[p], c, s.reaped);
      ChildAfter(s, e, c, p);
    } else {
      ChildAfter(s, e, c, e.p);
    }
  }

  /** A child is not reaped before its parent answers. */
  lemma FinishingIsNew(s: State, p: Tid)
    requires Tree(s) && Agreed(s) && p in s.procs && s.procs[p].pc.Finishing?
    ensures s.procs[p].pc.c !in s.reaped
  {
    assert ChildOf(s, s.procs[p].pc.c, p);
  }

  lemma StepKeepsLogged(s: State, e: Event)
    requires Tree(s) && Agreed(s) && Logged(s) && Enabled(s, e)
    ensures Logged(Step(s, e))
  {
    hide ChildOf, Agree;
    forall c | c in Step(s, e).reaped ensures exists p :: ChildOf(Step(s, e), c, p) {
      ReapedKeeps(s, e, c);
    }
    if e.UpExit? {
      FinishingIsNew(s, e.p);
    }
  }

  lemma StepKeeps(s: State, e: Event)
    requires Inv(s) && Enabled(s, e)
    ensures Inv(Step(s, e))
  {
    StepKeepsTree(s, e);
    StepKeepsAgreed(s, e);
    StepKeepsLogged(s, e);
  }

  ghost predicate Run(s: State, r: seq<Event>, s': State)
    decreases r
  {
    if r == [] then s == s'
    else Enabled(s, r[0]) && Run(Step(s, r[0]), r[1..], s')
  }

  lemma {:induction false} RunKeeps(s: State, r: seq<Event>, s': State)
    requires Inv(s) && Run(s, r, s')
    ensures Inv(s')
    decreases r
  {
    if r != [] {
      StepKeeps(s, r[0]);
      RunKeeps(Step(s, r[0]), r[1..], s');
    }
  }

  // ---------- what every run guarantees ----------

  /** The argument of the last SetStatus of `c` in `r`, or `st` if there is none. */
  function LastStatus(r: seq<Event>, c: Tid, st: int): int
    decreases r
  {
    if r == [] then st
    else LastStatus(r[1..], c, if r[0].SetStatus? && r[0].p == c then r[0].st else st)
  }

  /** A process has the status it set last; it starts with 0. */
  lemma {:induction false} StatusIsLast(s: State, r: seq<Event>, s': State, c: Tid)
    requires Run(s, r, s') && c in s'.procs
    ensures s'.procs[c].status == LastStatus(r, c, if c in s.procs then s.procs[c].status else 0)
    decreases r
  {
    if r != [] {
      StatusIsLast(Step(s, r[0]), r[1..], s', c);
    }
  }

  /** process_wait waits exactly for a child of the caller that was not waited for before; for anything else it answers
      -1 at once.  It does nothing else. */
  lemma WaitsForOwnChild(main: Tid, r: seq<Event>, s: State, p: Tid, c: Tid)
    requires Run(Initial(main), r, s) && p in s.procs && s.procs[p].pc == Running
    ensures var s' := Step(s, CallWait(p, c));
            if ChildOf(s, c, p) && c !in s.reaped then
              && s'.procs[p].pc == Waiting(c) && s'.log == s.log && s'.reaped == s.reaped
              && s'.procs == s.procs[p := s.procs[p].(pc := Waiting(c))]
            else
              s'.procs == s.procs && s'.reaped == s.reaped && s'.log == s.log + [Answer(p, c, -1, false)]
  {
    RunKeeps(Initial(main), r, s);
    if ChildOf(s, c, p) {
      assert Agree(s.procs[c], s.procs[p], c, s.reaped);
    }
  }

  /** The steps of process_wait after its sema_down can complete. */
  function Returning(p: Tid): seq<Event> { [DownWait(p), ReadStatus(p), Unlink(p), UpExit(p)] }

  lemma RunFrom(s: State, e: Event, r: seq<Event>, s': State)
    requires Enabled(s, e) && Run(Step(s, e), r, s')
    ensures Run(s, [e] + r, s')
  {
    assert ([e] + r)[1..] == r;
  }

  lemma ReturningRuns(s: State, p: Tid, s': State)
    requires Enabled(s, DownWait(p)) && Enabled(Step(s, DownWait(p)), ReadStatus(p))
    requires var s2 := Step(Step(s, DownWait(p)), ReadStatus(p));
             Enabled(s2, Unlink(p)) && Enabled(Step(s2, Unlink(p)), UpExit(p)) &&
             s' == Step(Step(s2, Unlink(p)), UpExit(p))
    ensures Run(s, Returning(p), s')
  {
    hide Step, Enabled;
    var s1 := Step(s, DownWait(p));
    var s2 := Step(s1, ReadStatus(p));
    var s3 := Step(s2, Unlink(p));
    RunFrom(s3, UpExit(p), [], s');
    RunFrom(s2, Unlink(p), [UpExit(p)], s');
    RunFrom(s1, ReadStatus(p), [Unlink(p)] + [UpExit(p)], s');
    RunFrom(s, DownWait(p), [ReadStatus(p)] + ([Unlink(p)] + [UpExit(p)]), s');
    assert [UpExit(p)] + [] == [UpExit(p)];
    assert Returning(p) == [DownWait(p)] + ([ReadStatus(p)] + ([Unlink(p)] + [UpExit(p)]));
  }

  /** Those steps, one after the other. */
  lemma ReturnSteps(s: State, p: Tid, c: Tid) returns (s': State)
    requires p in s.procs && c in s.procs && p != c && s.procs[p].pc == Waiting(c) && s.procs[c].semaWait > 0
    ensures Run(s, Returning(p), s') && s'.log == s.log + [Answer(p, c, s.procs[c].status, true)]
    ensures p in s'.procs && s'.procs[p].pc == Running && c !in s'.procs[p].children
    ensures c in s'.procs && s'.procs[c].pc == s.procs[c].pc && s'.procs[c].semaExit == s.procs[c].semaExit + 1
  {
    var s1 := Step(s, DownWait(p));
    assert Enabled(s1, ReadStatus(p)) && s1.procs[p].pc == Reading(c) && s1.procs[c].status == s.procs[c].status;
    var s2 := Step(s1, ReadStatus(p));
    assert Enabled(s2, Unlink(p)) && s2.procs[p].pc == Unlinking(c, s.procs[c].status);
    var s3 := Step(s2, Unlink(p));
    assert Enabled(s3, UpExit(p)) && s3.procs[p].pc == Finishing(c, s.procs[c].status) && c !in s3.procs[p].children;
    s' := Step(s3, UpExit(p));
    ReturningRuns(s, p, s');
  }

  lemma WaitingPair(s: State, p: Tid, c: Tid)
    requires Inv(s) && p in s.procs && s.procs[p].pc == Waiting(c)
    ensures ChildOf(s, c, p) && p != c && Agree(s.procs[c], s.procs[p], c, s.reaped)
    ensures c in s.procs[p].children
  {
  }

  /** A parent that waits for `c` can go on exactly when the child has upped sema_wait; it then returns, in four steps
      of its own, with the status the child set last, and the child can go on in turn. */
  lemma WaitReturns(main: Tid, r: seq<Event>, s: State, p: Tid, c: Tid) returns (s': State)
    requires Run(Initial(main), r, s) && p in s.procs && s.procs[p].pc == Waiting(c)
    ensures c in s.procs && (Enabled(s, DownWait(p)) <==> s.procs[c].pc == Leaving)
    ensures s.procs[c].pc == Leaving ==>
              && Run(s, Returning(p), s') && s'.log == s.log + [Answer(p, c, LastStatus(r, c, 0), true)]
              && p in s'.procs && s'.procs[p].pc == Running && c !in s'.procs[p].children && Enabled(s', DownExit(c))
  {
    hide Step, Run;
    RunKeeps(Initial(main), r, s);
    WaitingPair(s, p, c);
    hide Tree, Agreed, Logged;
    StatusIsLast(Initial(main), r, s, c);
    s' := s;
    if s.procs[c].pc == Leaving {
      s' := ReturnSteps(s, p, c);
    }
  }

  /** A process that exits is before its sema_down (sema_exit) after two steps of its own, with sema_wait up. */
  lemma ExitLeaves(s: State, c: Tid, upped: set<Tid>)
    requires Enabled(s, CallExit(c, upped))
    ensures var s1 := Step(s, CallExit(c, upped));
            && Enabled(s1, UpWait(c))
            && var s2 := Step(s1, UpWait(c));
            && s2.procs[c].pc == Leaving && s2.log == s.log
            && s2.procs[c].status == s.procs[c].status
            && forall p | p in s.procs && p != c :: s2.procs[p].pc == s.procs[p].pc
  {
  }

  /** An exiting process leaves its children without a parent; those whose sema_exit it ups can get past their
      sema_down, and no other process changes. */
  lemma ExitFreesChildren(s: State, p: Tid, upped: set<Tid>, c: Tid)
    requires Enabled(s, CallExit(p, upped)) && c in s.procs && c != p
    ensures var s' := Step(s, CallExit(p, upped));
            && s'.procs[p].pc == Cleaning && s'.procs[p].children == [] && c in s'.procs
            && (c !in s.procs[p].children ==> s'.procs[c] == s.procs[c])
            && (c in s.procs[p].children ==> s'.procs[c].orphan && !ChildOf(s', c, p))
            && (c in s.procs[p].children && c in upped && s.procs[c].pc == Leaving ==> Enabled(s', DownExit(c)))
  {
  }

  /** A wait that found its child answers with the status the child set last, after the child has upped sema_wait, and
      every other answer for the same child, before or after, is an error. */
  lemma WaitAnswers(main: Tid, r: seq<Event>, s: State, i: nat, j: nat)
    requires Run(Initial(main), r, s) && i < |s.log| && j < |s.log|
    ensures s.log[i].waited ==>
              && s.log[i].child in s.procs
              && (s.procs[s.log[i].child].pc == Leaving || s.procs[s.log[i].child].pc == Gone)
              && s.log[i].status == s.procs[s.log[i].child].status == LastStatus(r, s.log[i].child, 0)
    ensures !s.log[i].waited ==> s.log[i].status == TID_ERROR
    ensures i != j && s.log[i].waited && s.log[j].child == s.log[i].child ==>
              s.log[j].status == TID_ERROR && !s.log[j].waited
  {
    RunKeeps(Initial(main), r, s);
    if s.log[i].waited {
      var c := s.log[i].child;
      var p :| ChildOf(s, c, p);
      assert Agree(s.procs[c], s.procs[p], c, s.reaped);
      StatusIsLast(Initial(main), r, s, c);
    }
  }

  /** At the moment process_wait returns, the child has upped sema_wait, stands before its sema_down
      (sema_exit), still has the status that is returned, and is no longer on the list. */
  lemma ReturnIsTimely(main: Tid, r: seq<Event>, s: State, p: Tid)
    requires Run(Initial(main), r, s) && p in s.procs && s.procs[p].pc.Finishing?
    ensures var c := s.procs[p].pc.c;
            && ChildOf(s, c, p) && s.procs[c].pc == Leaving && s.procs[c].semaExit == 0
            && s.procs[p].pc.st == s.procs[c].status && c !in s.procs[p].children
  {
    RunKeeps(Initial(main), r, s);
    assert ChildOf(s, s.procs[p].pc.c, p);
  }

  /** A child whose parent has not exited without it gets past process_exit only after the parent has read its
      status, unlinked it and answered. */
  lemma ChildOutlivesWait(main: Tid, r: seq<Event>, s: State, c: Tid, p: Tid)
    requires Run(Initial(main), r, s) && ChildOf(s, c, p) && s.procs[c].pc == Gone
    ensures c in s.reaped && s.reaped[c] == s.procs[c].status
    ensures p in s.procs && c !in s.procs[p].children && !(InWait(s.procs[p].pc) && s.procs[p].pc.c == c)
  {
    RunKeeps(Initial(main), r, s);
  }

  /** Neither side is left hanging: a parent before its sema_down can go on once the child has upped
      sema_wait, and a child can go on once its parent has answered. */
  lemma NobodyHangs(main: Tid, r: seq<Event>, s: State, c: Tid, p: Tid)
    requires Run(Initial(main), r, s) && ChildOf(s, c, p) && s.procs[c].pc == Leaving
    ensures p in s.procs
    ensures s.procs[p].pc == Waiting(c) ==> Enabled(s, DownWait(p))
    ensures c in s.reaped ==> Enabled(s, DownExit(c))
  {
    RunKeeps(Initial(main), r, s);
  }

  predicate Exiting(pc: Pc) { pc == Cleaning || pc == Leaving || pc == Gone }

  /** The status of an exiting process is final. */
  lemma {:induction false} StatusFinal(s: State, r: seq<Event>, s': State, c: Tid)
    requires Run(s, r, s') && c in s.procs && Exiting(s.procs[c].pc)
    ensures c in s'.procs && Exiting(s'.procs[c].pc) && s'.procs[c].status == s.procs[c].status
    decreases r
  {
    if r != [] {
      StatusFinal(Step(s, r[0]), r[1..], s', c);
    }
  }
}
