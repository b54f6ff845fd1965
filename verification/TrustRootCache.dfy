/** The live trust root (pkg/core/verify/sigstore_native.go): one package variable behind a
    mutex, filled by a constructor that may fail and is then tried again. */
module TrustRootCache {
  import opened Prelude

  // The identity of a live trusted root.
  type Root = nat

  // --- One call, run under the lock ------------------------------------------------------

  // What a call returns and leaves in the cache, given the cache it found and what the
  // constructor gave; it is not run on a hit.
  ghost predicate ActsLikeFetch(before: Option<Root>, constructed: Option<Root>, after: Option<Root>,
      result: Option<Root>) {
    result == after && after == if before.Some? then before else constructed
  }

  class LiveRoot {
    var live: Option<Root>

    constructor ()
      ensures live == None
    {
      live := None;
    }

    // constructed is what the constructor would return; it is consulted only on a miss.
    method Fetch(constructed: Option<Root>) returns (result: Option<Root>)
      modifies this
      ensures ActsLikeFetch(old(live), constructed, live, result)
    {
      if live.Some? {
        return live;
      }
      if constructed.None? {
        return None;
      }
      live := constructed;
      return live;
    }
  }

  // --- Any number of callers, step by step ------------------------------------------------

  type Caller = nat

  // Where a caller is in fetchPublicGoodLiveRoot.
  datatype Pc =
    | Idle
    | Waiting                       // at Lock
    | Testing                       // holds the lock, before the nil test
    | Constructing                  // inside the constructor
    | Storing(root: Root)           // the constructor succeeded, before the assignment
    | Leaving(result: Option<Root>) // before the deferred Unlock

  datatype Event =
    | Start(who: Caller)
    | Fail(who: Caller)
    | Succeed(who: Caller, root: Root)
    | Return(who: Caller, result: Option<Root>)

  datatype State = State(
    callers: map<Caller, Pc>,
    holder: Option<Caller>,
    cache: Option<Root>,
    log: seq<Event>)

  ghost predicate Init(s: State) {
    (forall c | c in s.callers :: s.callers[c].Idle?) && s.holder.None? && s.cache.None? && s.log == []
  }

  // Caller c moves to pc; the other components are given.
  ghost predicate Moves(s: State, s': State, c: Caller, pc: Pc, holder: Option<Caller>, cache: Option<Root>,
      events: seq<Event>) {
    s' == State(s.callers[c := pc], holder, cache, s.log + events)
  }

  ghost predicate Step(s: State, s': State, c: Caller) {
    c in s.callers &&
    match s.callers[c]
    case Idle => Moves(s, s', c, Waiting, s.holder, s.cache, [])
    case Waiting => s.holder.None? && Moves(s, s', c, Testing, Some(c), s.cache, [])
    case Testing =>
      if s.cache.Some? then Moves(s, s', c, Leaving(s.cache), s.holder, s.cache, [])
      else Moves(s, s', c, Constructing, s.holder, s.cache, [Start(c)])
    case Constructing =>
      || Moves(s, s', c, Leaving(None), s.holder, s.cache, [Fail(c)])
      || exists root :: Moves(s, s', c, Storing(root), s.holder, s.cache, [Succeed(c, root)])
    case Storing(root) => Moves(s, s', c, Leaving(Some(root)), s.holder, Some(root), [])
    case Leaving(result) => Moves(s, s', c, Idle, None, s.cache, [Return(c, result)])
  }

  ghost predicate Next(s: State, s': State) {
    exists c :: Step(s, s', c)
  }

  // Any interleaving: at each step some caller moves.
  ghost predicate IsRun(run: seq<State>) {
    run != [] && Init(run[0]) && forall i | 1 <= i < |run| :: Next(run[i - 1], run[i])
  }

  // --- The sequential behaviour the log must show ------------------------------------------

  datatype Phase = Absent | Running(who: Caller) | Failed(who: Caller) | Present(root: Root)

  // None: the event may not happen in this phase.
  ghost function After(p: Phase, e: Event): Option<Phase> {
    match (p, e)
    case (Absent, Start(c)) => Some(Running(c))
    case (Running(d), Fail(c)) => if c == d then Some(Failed(c)) else None
    case (Running(d), Succeed(c, root)) => if c == d then Some(Present(root)) else None
    case (Failed(d), Return(c, result)) => if c == d && result == None then Some(Absent) else None
    case (Present(root), Return(c, result)) => if result == Some(root) then Some(p) else None
    case _ => None
  }

  ghost function Replay(log: seq<Event>): Option<Phase> {
    if log == [] then Some(Absent)
    else
      match Replay(log[..|log| - 1])
      case None => None
      case Some(p) => After(p, log[|log| - 1])
  }

  // --- The invariant ----------------------------------------------------------------------

  ghost predicate Holds(pc: Pc) {
    !pc.Idle? && !pc.Waiting?
  }

  ghost predicate MutualExclusion(s: State) {
    forall c | c in s.callers :: Holds(s.callers[c]) <==> s.holder == Some(c)
  }

  // What the lock holder's position must be in each phase of the log.
  ghost predicate Agrees(s: State, p: Phase) {
    match p
    case Absent => s.cache.None?
        && (s.holder.Some? ==> s.holder.value in s.callers && s.callers[s.holder.value].Testing?)
    case Running(c) => s.cache.None? && s.holder == Some(c) && c in s.callers && s.callers[c].Constructing?
    case Failed(c) => s.cache.None? && s.holder == Some(c) && c in s.callers && s.callers[c] == Leaving(None)
    case Present(root) =>
      (s.holder.Some? ==> s.holder.value in s.callers) &&
      if s.cache.None? then s.holder.Some? && s.callers[s.holder.value] == Storing(root)
      else
        && s.cache == Some(root)
        && (s.holder.Some? ==>
              s.callers[s.holder.value].Testing? || s.callers[s.holder.value] == Leaving(Some(root)))
  }

  ghost predicate Inv(s: State) {
    MutualExclusion(s) && Replay(s.log).Some? && Agrees(s, Replay(s.log).value)
  }

  lemma ReplayAppend(log: seq<Event>, e: Event)
    ensures Replay(log + [e]) == match Replay(log) case None => None case Some(p) => After(p, e)
  {
    assert (log + [e])[..|log|] == log;
  }

  lemma MutualExclusionIsKept(s: State, s': State, c: Caller)
    requires Inv(s) && Step(s, s', c)
    ensures MutualExclusion(s')
  {
    hide Replay, Agrees;
  }

  /** Every step of every caller keeps the invariant. */
  lemma StepKeepsInv(s: State, s': State, c: Caller)
    requires Inv(s) && Step(s, s', c)
    ensures Inv(s')
  {
    hide Replay, After;
    MutualExclusionIsKept(s, s', c);
    assert s.log + [] == s.log;
    assert Holds(s.callers[c]) <==> s.holder == Some(c);
    match s.callers[c]
    case Idle =>
    case Waiting =>
    case Testing =>
      if s.cache.None? { Appends(s.log, Start(c)); }
    case Constructing =>
      Appends(s.log, s'.log[|s.log|]);
    case Storing(root) =>
    case Leaving(result) => Appends(s.log, Return(c, result));
  }

  lemma Appends(log: seq<Event>, e: Event)
    requires Replay(log).Some?
    ensures var p := Replay(log).value;
            Replay(log + [e]) ==
            match e
            case Start(c) => if p.Absent? then Some(Running(c)) else None
            case Fail(c) => if p == Running(c) then Some(Failed(c)) else None
            case Succeed(c, root) => if p == Running(c) then Some(Present(root)) else None
            case Return(c, result) =>
              if p == Failed(c) && result == None then Some(Absent)
              else if p.Present? && result == Some(p.root) then Some(p) else None
  {
    hide Replay;
    ReplayAppend(log, e);
  }

  lemma {:induction false} RunKeepsInv(run: seq<State>, i: nat)
    requires IsRun(run) && i < |run|
    ensures Inv(run[i])
  {
    if i > 0 {
      RunKeepsInv(run, i - 1);
      assert Next(run[i - 1], run[i]);
      var c :| Step(run[i - 1], run[i], c);
      StepKeepsInv(run[i - 1], run[i], c);
    }
  }

  // What c's own constructor call gave, if c made one since the log was `before`.
  ghost predicate Constructed(before: seq<Event>, after: seq<Event>, c: Caller, constructed: Option<Root>) {
    after == before + [Start(c), if constructed.Some? then Succeed(c, constructed.value) else Fail(c)]
  }

  // What c may have done since it got the lock, by where it stands.
  ghost predicate Tenure(before: State, s: State, c: Caller) {
    c in s.callers &&
    match s.callers[c]
    case Testing => s.cache == before.cache && s.log == before.log
    case Constructing => before.cache.None? && s.cache.None? && s.log == before.log + [Start(c)]
    case Storing(root) => before.cache.None? && s.cache.None? && Constructed(before.log, s.log, c, Some(root))
    case Leaving(result) =>
      if before.cache.Some? then s.log == before.log && ActsLikeFetch(before.cache, None, s.cache, result)
      else Constructed(before.log, s.log, c, result) && ActsLikeFetch(before.cache, result, s.cache, result)
    case _ => false
  }

  /** Each call acts like Fetch at one instant: from the moment c gets the lock until it is about
      to release it, nobody else touches the cache or calls the constructor. On a hit c calls it
      not at all and returns the cached root; on a miss c calls it exactly once, and returns and
      leaves what that call gave. */
  lemma {:induction false} TenureActsLikeFetch(run: seq<State>, i: nat, j: nat, c: Caller)
    requires IsRun(run) && i <= j < |run|
    requires forall k | i <= k <= j :: run[k].holder == Some(c)
    requires c in run[i].callers && run[i].callers[c].Testing?
    ensures Tenure(run[i], run[j], c)
    decreases j
  {
    hide Replay, Agrees;
    if i < j {
      TenureActsLikeFetch(run, i, j - 1, c);
      RunKeepsInv(run, j - 1);
      assert Next(run[j - 1], run[j]);
      var d :| Step(run[j - 1], run[j], d);
      OnlyTheHolderMoves(run[j - 1], run[j], c, d);
      TenureStep(run[i], run[j - 1], run[j], c, d);
    }
  }

  lemma TenureStep(before: State, s: State, s': State, c: Caller, d: Caller)
    requires Tenure(before, s, c) && Step(s, s', d) && s'.holder == Some(c)
    requires d != c ==> s'.cache == s.cache && s'.log == s.log && s'.callers[c] == s.callers[c]
    ensures Tenure(before, s', c)
  {
    assert forall e1, e2 :: before.log + [e1] + [e2] == before.log + [e1, e2];
    assert s.log + [] == s.log;
  }

  // c alone moves, from state to state.
  ghost predicate Solo(path: seq<State>, c: Caller) {
    path != [] && forall i | 1 <= i < |path| :: Step(path[i - 1], path[i], c)
  }

  /** Whatever the constructor gives, a call can run to its end while the lock is free, and it then
      acts like Fetch: with the cache empty it reports the constructor's outcome and leaves it
      there, with a root cached it returns that root. */
  lemma CallCanRun(s: State, c: Caller, constructed: Option<Root>) returns (path: seq<State>)
    requires c in s.callers && s.callers[c].Idle? && s.holder.None?
    ensures Solo(path, c) && path[0] == s
    ensures var s' := path[|path| - 1];
            var result := if s.cache.Some? then s.cache else constructed;
            && ActsLikeFetch(s.cache, constructed, s'.cache, result)
            && s'.callers == s.callers && s'.holder.None?
            && s'.log == s.log
               + (if s.cache.Some? then [] else
                    [Start(c), if constructed.Some? then Succeed(c, constructed.value) else Fail(c)])
               + [Return(c, result)]
  {
    hide Solo;
    var waiting := State(s.callers[c := Waiting], s.holder, s.cache, s.log + []);
    var testing := State(waiting.callers[c := Testing], Some(c), s.cache, waiting.log + []);
    path := OneStepMore([s], waiting, c);
    path := OneStepMore(path, testing, c);
    if s.cache.Some? {
      path := OneStepMore(path, State(testing.callers[c := Leaving(s.cache)], Some(c), s.cache, testing.log + []), c);
    } else {
      path := Construct(path, c, constructed);
    }
    var last := path[|path| - 1];
    var result := if s.cache.Some? then s.cache else constructed;
    path := OneStepMore(path, State(last.callers[c := Idle], None, last.cache, last.log + [Return(c, result)]), c);
  }

  // From the empty cache to the moment before the lock is released.
  lemma Construct(path: seq<State>, c: Caller, constructed: Option<Root>) returns (longer: seq<State>)
    requires path != [] && Solo(path, c)
    requires var s := path[|path| - 1]; c in s.callers && s.callers[c].Testing? && s.cache.None? && s.holder == Some(c)
    ensures longer != [] && Solo(longer, c) && longer[0] == path[0]
    ensures var s, s' := path[|path| - 1], longer[|longer| - 1];
            && s'.callers == s.callers[c := Leaving(constructed)] && s'.holder == Some(c) && s'.cache == constructed
            && s'.log == s.log + [Start(c), if constructed.Some? then Succeed(c, constructed.value) else Fail(c)]
  {
    hide Solo;
    var s := path[|path| - 1];
    var building := State(s.callers[c := Constructing], s.holder, s.cache, s.log + [Start(c)]);
    longer := OneStepMore(path, building, c);
    if constructed.Some? {
      var root := constructed.value;
      var storing := State(building.callers[c := Storing(root)], Some(c), s.cache, building.log + [Succeed(c, root)]);
      assert Moves(building, storing, c, Storing(root), building.holder, building.cache, [Succeed(c, root)]);
      longer := OneStepMore(longer, storing, c);
      longer := OneStepMore(
        longer, State(storing.callers[c := Leaving(constructed)], Some(c), constructed, storing.log + []), c);
    } else {
      longer := OneStepMore(
        longer, State(building.callers[c := Leaving(None)], Some(c), s.cache, building.log + [Fail(c)]), c);
    }
  }

  lemma OneStepMore(path: seq<State>, s: State, c: Caller) returns (longer: seq<State>)
    requires path != [] && (|path| == 1 || Solo(path, c)) && Step(path[|path| - 1], s, c)
    ensures longer == path + [s] && Solo(longer, c)
  {
    hide Step;
    longer := path + [s];
  }

  // While c keeps the lock, another caller can at most queue up.
  lemma OnlyTheHolderMoves(s: State, s': State, c: Caller, d: Caller)
    requires Inv(s) && Step(s, s', d) && s.holder == s'.holder == Some(c) && c in s.callers
    ensures d != c ==> s'.cache == s.cache && s'.log == s.log && s'.callers[c] == s.callers[c]
  {
    hide Replay, Agrees;
    if d != c {
      assert !Holds(s.callers[d]);
    }
  }

  // --- What the log shows, for every run ----------------------------------------------------

  lemma {:induction false} PrefixReplays(log: seq<Event>, i: nat)
    requires Replay(log).Some? && i <= |log|
    ensures Replay(log[..i]).Some?
  {
    if i == |log| {
      assert log[..i] == log;
    } else {
      PrefixReplays(log[..|log| - 1], i);
      assert log[..|log| - 1][..i] == log[..i];
    }
  }

  // The phase before event i allowed it.
  lemma EventWasAllowed(log: seq<Event>, i: nat)
    requires Replay(log).Some? && i < |log|
    ensures Replay(log[..i]).Some? && After(Replay(log[..i]).value, log[i]).Some?
    ensures Replay(log[..i + 1]) == After(Replay(log[..i]).value, log[i])
  {
    PrefixReplays(log, i + 1);
    assert log[..i + 1][..i] == log[..i];
  }

  // Once a root is there it stays, and nothing but returns of it can follow.
  lemma {:induction false} PresentStays(log: seq<Event>, i: nat, j: nat)
    requires Replay(log).Some? && i <= j <= |log|
    requires Replay(log[..i]).Some? && Replay(log[..i]).value.Present?
    ensures Replay(log[..j]) == Replay(log[..i])
    ensures forall k | i <= k < j :: log[k].Return? && log[k].result == Some(Replay(log[..i]).value.root)
    decreases j
  {
    if i < j {
      PresentStays(log, i, j - 1);
      EventWasAllowed(log, j - 1);
    }
  }

  // A constructor that runs is still running until its own caller reports an end.
  lemma {:induction false} RunningEndsFirst(log: seq<Event>, i: nat, j: nat)
    requires Replay(log).Some? && i < j < |log| && log[i].Start? && log[j].Start?
    ensures exists k :: i < k < j && log[k] == Fail(log[i].who)
  {
    EventWasAllowed(log, i);
    EventWasAllowed(log, j);
    EventWasAllowed(log, i + 1);
    if log[i + 1].Succeed? {
      PresentStays(log, i + 2, j);
    }
  }

  /** For every interleaving of any number of callers: constructor calls never overlap, at
      most one succeeds and none starts after it, and all roots handed out are that one. */
  lemma OneRootForAll(run: seq<State>, i: nat, j: nat)
    requires IsRun(run)
    ensures var log := run[|run| - 1].log;
            i < j < |log| ==>
              && (log[i].Start? && log[j].Start? ==> exists k :: i < k < j && log[k] == Fail(log[i].who))
              && (log[i].Succeed? ==>
                    !log[j].Start? && !log[j].Succeed? && log[j] == Return(log[j].who, Some(log[i].root)))
              && (log[i].Return? && log[i].result.Some? ==> log[j] == Return(log[j].who, log[i].result))
  {
    var log := run[|run| - 1].log;
    RunKeepsInv(run, |run| - 1);
    if i < j < |log| {
      EventWasAllowed(log, i);
      if log[i].Start? && log[j].Start? {
        RunningEndsFirst(log, i, j);
      }
      if log[i].Succeed? || (log[i].Return? && log[i].result.Some?) {
        PresentStays(log, i + 1, j + 1);
      }
    }
  }

  /** A root is returned only after the constructor produced that very root. */
  lemma {:induction false} ReturnedRootWasConstructed(log: seq<Event>, j: nat)
    requires Replay(log).Some? && j <= |log| && Replay(log[..j]).Some? && Replay(log[..j]).value.Present?
    ensures exists i, c :: 0 <= i < j && log[i] == Succeed(c, Replay(log[..j]).value.root)
  {
    if j > 0 {
      EventWasAllowed(log, j - 1);
      if log[j - 1].Return? {
        ReturnedRootWasConstructed(log, j - 1);
      } else {
        assert log[j - 1] == Succeed(log[j - 1].who, Replay(log[..j]).value.root);
      }
    }
  }

  // What the calls of one caller returned, in order.
  ghost function ReturnsTo(c: Caller, log: seq<Event>): seq<Option<Root>> {
    if log == [] then []
    else
      var last := log[|log| - 1];
      ReturnsTo(c, log[..|log| - 1]) + (if last.Return? && last.who == c then [last.result] else [])
  }

  // Once an answer is a root, every later one is that root.
  ghost predicate Kept(answers: seq<Option<Root>>) {
    forall a, b | 0 <= a <= b < |answers| && answers[a].Some? :: answers[b] == answers[a]
  }

  lemma {:induction false} ReturnsFollowThePhase(c: Caller, log: seq<Event>)
    requires Replay(log).Some?
    ensures Kept(ReturnsTo(c, log))
    ensures forall r | r in ReturnsTo(c, log) && r.Some? :: Replay(log) == Some(Present(r.value))
  {
    if log != [] {
      ReturnsFollowThePhase(c, log[..|log| - 1]);
    }
  }

  /** In every run, whatever the other callers do: once a call of c got a root, each later call of
      c gets that root. */
  lemma RootsAreKept(run: seq<State>, c: Caller)
    requires IsRun(run)
    ensures Kept(ReturnsTo(c, run[|run| - 1].log))
  {
    RunKeepsInv(run, |run| - 1);
    ReturnsFollowThePhase(c, run[|run| - 1].log);
  }

  // An error in the log follows its caller's own failure and is followed by a fresh attempt.
  lemma FailureInLog(log: seq<Event>, i: nat)
    requires Replay(log).Some? && i < |log| && log[i].Return? && log[i].result.None?
    ensures i > 0 && log[i - 1] == Fail(log[i].who)
    ensures i + 1 < |log| ==> log[i + 1].Start?
  {
    hide Replay;
    EventWasAllowed(log, i);
    NothingReplaysToAbsent();
    assert log[..0] == [];
    assert i > 0;
    EventWasAllowed(log, i - 1);
    if i + 1 < |log| {
      EventWasAllowed(log, i + 1);
    }
  }

  lemma NothingReplaysToAbsent()
    ensures Replay([]) == Some(Absent)
  {
  }

  /** Errors are not cached: a caller gets an error only from its own constructor call, just
      before, and whatever happens next in the log is a fresh attempt. */
  lemma FailuresAreRetried(run: seq<State>, i: nat)
    requires IsRun(run)
    ensures var log := run[|run| - 1].log;
            i < |log| && log[i].Return? && log[i].result.None? ==>
              && i > 0 && log[i - 1] == Fail(log[i].who)
              && (i + 1 < |log| ==> log[i + 1].Start?)
  {
    hide Replay, Agrees;
    var log := run[|run| - 1].log;
    RunKeepsInv(run, |run| - 1);
    if i < |log| && log[i].Return? && log[i].result.None? {
      FailureInLog(log, i);
    }
  }

  /** A successful return in a run hands out a root some constructor call of that run produced earlier. */
  lemma SuccessesAreReal(run: seq<State>, j: nat)
    requires IsRun(run)
    ensures var log := run[|run| - 1].log;
            j < |log| && log[j].Return? && log[j].result.Some? ==>
              exists i, c :: 0 <= i < j && log[i] == Succeed(c, log[j].result.value)
  {
    var log := run[|run| - 1].log;
    RunKeepsInv(run, |run| - 1);
    if j < |log| && log[j].Return? && log[j].result.Some? {
      EventWasAllowed(log, j);
      ReturnedRootWasConstructed(log, j);
    }
  }

  /** No run gets stuck: while some caller is inside a call, a caller inside a call can move. */
  lemma NoDeadlock(run: seq<State>, c: Caller)
    requires IsRun(run)
    requires var s := run[|run| - 1]; c in s.callers && !s.callers[c].Idle?
    ensures var s := run[|run| - 1];
            exists d, s' :: d in s.callers && !s.callers[d].Idle? && Step(s, s', d)
  {
    var s := run[|run| - 1];
    RunKeepsInv(run, |run| - 1);
    var d := if s.holder.Some? && s.holder.value in s.callers then s.holder.value else c;
    var next :=
      match s.callers[d]
      case Idle => s
      case Waiting => State(s.callers[d := Testing], Some(d), s.cache, s.log + [])
      case Testing =>
        if s.cache.Some? then State(s.callers[d := Leaving(s.cache)], s.holder, s.cache, s.log + [])
        else State(s.callers[d := Constructing], s.holder, s.cache, s.log + [Start(d)])
      case Constructing => State(s.callers[d := Leaving(None)], s.holder, s.cache, s.log + [Fail(d)])
      case Storing(root) => State(s.callers[d := Leaving(Some(root))], s.holder, Some(root), s.log + [])
      case Leaving(result) => State(s.callers[d := Idle], None, s.cache, s.log + [Return(d, result)]);
    assert Step(s, next, d);
  }
}
