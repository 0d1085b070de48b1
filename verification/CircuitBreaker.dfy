/** The breaker object itself, and the delivery of its state-change notifications. */
module CircuitBreaker {
  import opened Options
  import opened Breaker

  datatype Change = Change(from: State, to: State)

  /** What a step has to announce once the lock is released. */
  function ChangeOf(before: Fields, after: Fields): Option<Change> {
    if before.state == after.state then None else Some(Change(before.state, after.state))
  }

  function Notes(note: Option<Change>): seq<Change> {
    if note.Some? then [note.value] else []
  }

  datatype Answer = Rejected | Cancelled | Failed | Succeeded

  /** The object.  `trace` records the lock sections executed so far, so that every fact
      about runs holds of every reachable object. */
  class CircuitBreaker {
    const cfg: Config
    var state: State
    var failures: int
    var lastFailureTime: int
    var windowStart: int
    var halfOpenProbe: bool
    ghost const born: int
    ghost var trace: seq<Step>

    ghost function Model(): Fields
      reads this
    {
      Fields(state, failures, lastFailureTime, windowStart, halfOpenProbe)
    }

    ghost predicate Valid()
      reads this
    {
      && IsRun(cfg, born, trace)
      && Model() == At(cfg, born, trace, |trace|)
    }

    /** The changes of state made so far. */
    ghost function Made(): seq<Change>
      reads this
    {
      Changes(cfg, born, trace, |trace|)
    }

    ghost function Now(): int
      reads this
    {
      Clock(born, trace, |trace|)
    }

    constructor (maxFailures: int, openTimeout: int, failureWindow: int, now: int)
      requires Config(maxFailures, openTimeout, failureWindow).Valid()
      ensures Valid() && trace == [] && born == now
      ensures cfg == Config(maxFailures, openTimeout, failureWindow)
    {
      cfg := Config(maxFailures, openTimeout, failureWindow);
      state, failures, lastFailureTime, windowStart, halfOpenProbe := Closed, 0, 0, now, false;
      born, trace := now, [];
    }

    /** First lock section of `Do`. */
    method AdmitSection(now: int) returns (admitted: bool, note: Option<Change>)
      requires Valid() && Now() <= now
      modifies this
      ensures Valid() && trace == old(trace) + [Step(Admit, now)]
      ensures admitted == Admits(cfg, old(Model()), now)
      ensures admitted <==> match old(state)
                            case Closed => true
                            case HalfOpen => !old(halfOpenProbe)
                            case Open => now - old(lastFailureTime) > cfg.openTimeout
      ensures !admitted || old(state) == Closed ==> state == old(state) && halfOpenProbe == old(halfOpenProbe)
      ensures admitted && old(state) != Closed ==> state == HalfOpen && halfOpenProbe
      ensures failures == old(failures) && lastFailureTime == old(lastFailureTime) && windowStart == old(windowStart)
      ensures note == ChangeOf(old(Model()), Model())
      ensures note == if state == old(state) then None else Some(Change(old(state), state))
      ensures Made() == old(Made()) + Notes(note)
    {
      admitted, note := true, None;
      match state {
        case Open =>
          if now - lastFailureTime <= cfg.openTimeout {
            admitted := false;
          } else {
            note := Some(Change(state, HalfOpen));
            state := HalfOpen;
            halfOpenProbe := true;
          }
        case HalfOpen =>
          if halfOpenProbe {
            admitted := false;
          } else {
            halfOpenProbe := true;
          }
        case Closed =>
      }
      Recorded(Admit, now);
    }

    /** The section run when the caller's context is already done. */
    method CancelSection(now: int)
      requires Valid() && Now() <= now
      modifies this
      ensures Valid() && trace == old(trace) + [Step(Cancel, now)]
      ensures state == old(state) && failures == old(failures)
      ensures lastFailureTime == old(lastFailureTime) && windowStart == old(windowStart)
      ensures halfOpenProbe == (old(halfOpenProbe) && state != HalfOpen)
      ensures Made() == old(Made())
    {
      if state == HalfOpen {
        halfOpenProbe := false;
      }
      Recorded(Cancel, now);
    }

    /** The section run when the upstream returned an error. */
    method FailureSection(now: int) returns (note: Option<Change>)
      requires Valid() && Now() <= now
      modifies this
      ensures Valid() && trace == old(trace) + [Step(Failure, now)]
      ensures lastFailureTime == now && !halfOpenProbe
      ensures old(state) == HalfOpen ==> state == Open && failures == old(failures) && windowStart == old(windowStart)
      ensures old(state) != HalfOpen && now - old(windowStart) > cfg.failureWindow ==>
                failures == 1 && windowStart == now
      ensures old(state) != HalfOpen && now - old(windowStart) <= cfg.failureWindow ==>
                failures == old(failures) + 1 && windowStart == old(windowStart)
      ensures old(state) == Closed ==> state == if failures >= cfg.maxFailures then Open else Closed
      ensures old(state) == Open ==> state == Open
      ensures note == ChangeOf(old(Model()), Model())
      ensures note == if state == old(state) then None else Some(Change(old(state), state))
      ensures Made() == old(Made()) + Notes(note)
    {
      note := None;
      if state == HalfOpen {
        halfOpenProbe := false;
        note := Some(Change(state, Open));
        state := Open;
        lastFailureTime := now;
      } else {
        halfOpenProbe := false;
        if now - windowStart > cfg.failureWindow {
          failures := 0;
          windowStart := now;
        }
        failures := failures + 1;
        lastFailureTime := now;
        if failures >= cfg.maxFailures && state != Open {
          note := Some(Change(state, Open));
          state := Open;
        }
      }
      Recorded(Failure, now);
    }

    /** The section run when the upstream succeeded. */
    method SuccessSection(now: int) returns (note: Option<Change>)
      requires Valid() && Now() <= now
      modifies this
      ensures Valid() && trace == old(trace) + [Step(Success, now)]
      ensures state == (if old(state) == HalfOpen then Closed else old(state)) && !halfOpenProbe
      ensures failures == 0 && windowStart == now && lastFailureTime == old(lastFailureTime)
      ensures note == ChangeOf(old(Model()), Model())
      ensures note == if state == old(state) then None else Some(Change(old(state), state))
      ensures Made() == old(Made()) + Notes(note)
    {
      note := None;
      if state == HalfOpen {
        note := Some(Change(state, Closed));
        state := Closed;
        halfOpenProbe := false;
        failures := 0;
        windowStart := now;
      } else {
        halfOpenProbe := false;
        failures := 0;
        windowStart := now;
      }
      Recorded(Success, now);
    }

    /** Extends the trace with a section whose effect the fields already show. */
    ghost method Recorded(section: Section, now: int)
      requires IsRun(cfg, born, trace) && Now() <= now
      requires Model() == Next(cfg, At(cfg, born, trace, |trace|), Step(section, now))
      modifies `trace
      ensures Valid() && trace == old(trace) + [Step(section, now)]
      ensures Made() == old(Made()) + Notes(ChangeOf(At(cfg, born, old(trace), |old(trace)|), Model()))
    {
      RunGrows(cfg, born, trace, Step(section, now));
      trace := trace + [Step(section, now)];
    }

    /** One call with no other call's section in between: admission, then at most one report.
        `done` says whether the caller's context is done, `upstreamFails` how the upstream
        answers; `admitAt` and `reportAt` are the clock readings of the two sections. */
    method Do(done: bool, upstreamFails: bool, admitAt: int, reportAt: int)
      returns (answer: Answer, notes: seq<Change>)
      requires Valid() && Now() <= admitAt <= reportAt
      modifies this
      ensures Valid()
      ensures answer.Rejected? <==> !Admits(cfg, old(Model()), admitAt)
      ensures trace == old(trace) + [Step(Admit, admitAt)] +
                match answer
                case Rejected => []
                case Cancelled => [Step(Cancel, reportAt)]
                case Failed => [Step(Failure, reportAt)]
                case Succeeded => [Step(Success, reportAt)]
      ensures !answer.Rejected? ==> answer == if done then Cancelled else if upstreamFails then Failed else Succeeded
      ensures answer.Rejected? ==> Model() == old(Model()) && notes == []
      ensures Made() == old(Made()) + notes
    {
      ghost var start := Model();
      notes := [];
      var admitted, note := AdmitSection(admitAt);
      AtPrefix(cfg, born, old(trace), [Step(Admit, admitAt)], |old(trace)|);
      Transitions(cfg, start, Step(Admit, admitAt));
      if !admitted {
        return Rejected, notes;
      }
      notes := notes + Notes(note);
      if done {
        CancelSection(reportAt);
        return Cancelled, notes;
      }
      if upstreamFails {
        note := FailureSection(reportAt);
        answer := Failed;
      } else {
        note := SuccessSection(reportAt);
        answer := Succeeded;
      }
      notes := notes + Notes(note);
    }
  }

  // ----- notifications

  /** Announcements run after the lock is released, so they may be delayed and overtake
      each other: `Notify` delivers any change that is still pending. */
  datatype Event = Lock(step: Step) | Notify(change: Change)

  datatype Board = Board(breaker: Fields, steps: seq<Step>, pending: multiset<Change>, delivered: seq<Change>)

  function StartBoard(born: int): Board {
    Board(Initial(born), [], multiset{}, [])
  }

  predicate CanHappen(board: Board, event: Event) {
    event.Notify? ==> event.change in board.pending
  }

  function React(cfg: Config, board: Board, event: Event): Board {
    match event
    case Notify(change) =>
      board.(pending := board.pending - multiset{change}, delivered := board.delivered + [change])
    case Lock(step) =>
      var after := Next(cfg, board.breaker, step);
      var note := ChangeOf(board.breaker, after);
      board.(breaker := after, steps := board.steps + [step],
             pending := board.pending + if note.Some? then multiset{note.value} else multiset{})
  }

  function Replay(cfg: Config, born: int, events: seq<Event>): Board
    decreases |events|
  {
    if events == [] then StartBoard(born)
    else React(cfg, Replay(cfg, born, events[..|events| - 1]), events[|events| - 1])
  }

  predicate Possible(cfg: Config, born: int, events: seq<Event>)
    decreases |events|
  {
    events == []
    || var before := events[..|events| - 1];
       Possible(cfg, born, before) && CanHappen(Replay(cfg, born, before), events[|events| - 1])
  }

  /** The changes of state made by the first `i` sections, in order. */
  function Changes(cfg: Config, born: int, steps: seq<Step>, i: nat): seq<Change>
    requires i <= |steps|
  {
    if i == 0 then []
    else
      var note := ChangeOf(At(cfg, born, steps, i - 1), At(cfg, born, steps, i));
      Changes(cfg, born, steps, i - 1) + Notes(note)
  }

  lemma {:induction false} ChangesPrefix(cfg: Config, born: int, steps: seq<Step>, more: seq<Step>, i: nat)
    requires i <= |steps|
    ensures Changes(cfg, born, steps + more, i) == Changes(cfg, born, steps, i)
  {
    AtPrefix(cfg, born, steps, more, i);
    if i > 0 {
      AtPrefix(cfg, born, steps, more, i - 1);
      ChangesPrefix(cfg, born, steps, more, i - 1);
    }
  }

  /** A section appended to a run. */
  lemma RunGrows(cfg: Config, born: int, steps: seq<Step>, step: Step)
    requires IsRun(cfg, born, steps) && Clock(born, steps, |steps|) <= step.now
    ensures var n, more := |steps|, steps + [step];
            && IsRun(cfg, born, more)
            && At(cfg, born, more, n + 1) == Next(cfg, At(cfg, born, steps, n), step)
            && Changes(cfg, born, more, n + 1)
            == Changes(cfg, born, steps, n) + Notes(ChangeOf(At(cfg, born, steps, n), At(cfg, born, more, n + 1)))
  {
    var n, more := |steps|, steps + [step];
    AtPrefix(cfg, born, steps, [step], n);
    ChangesPrefix(cfg, born, steps, [step], n);
    OrderedGrows(born, steps, step);
  }

  /** No announcement is lost or invented: delivered and pending ones together are the
      changes the sections made, each as often as it was made. */
  ghost predicate Matched(cfg: Config, born: int, board: Board) {
    && board.breaker == At(cfg, born, board.steps, |board.steps|)
    && multiset(board.delivered) + board.pending == multiset(Changes(cfg, born, board.steps, |board.steps|))
  }

  lemma ReactKeepsMatched(cfg: Config, born: int, board: Board, event: Event)
    requires Matched(cfg, born, board) && CanHappen(board, event)
    ensures Matched(cfg, born, React(cfg, board, event))
  {
    if event.Lock? {
      var n, steps := |board.steps|, board.steps + [event.step];
      AtPrefix(cfg, born, board.steps, [event.step], n);
      ChangesPrefix(cfg, born, board.steps, [event.step], n);
      var note := ChangeOf(At(cfg, born, steps, n), At(cfg, born, steps, n + 1));
      assert Changes(cfg, born, steps, n + 1) == Changes(cfg, born, steps, n) + Notes(note);
    }
  }

  lemma {:induction false} NotificationsMatchChanges(cfg: Config, born: int, events: seq<Event>)
    requires Possible(cfg, born, events)
    ensures Matched(cfg, born, Replay(cfg, born, events))
    decreases |events|
  {
    if events != [] {
      NotificationsMatchChanges(cfg, born, events[..|events| - 1]);
      ReactKeepsMatched(cfg, born, Replay(cfg, born, events[..|events| - 1]), events[|events| - 1]);
    }
  }

  function CountTo(changes: seq<Change>, s: State): nat {
    if changes == [] then 0
    else CountTo(changes[..|changes| - 1], s) + if changes[|changes| - 1].to == s then 1 else 0
  }

  lemma CountSnoc(changes: seq<Change>, note: Option<Change>, s: State)
    ensures CountTo(changes + Notes(note), s) == CountTo(changes, s) + if note.Some? && note.value.to == s then 1 else 0
  {
    if note.Some? {
      assert (changes + [note.value])[..|changes|] == changes;
    } else {
      assert changes + [] == changes;
    }
  }

  /** The changes announced towards a state are as many as its entries; with `EntriesBalance`,
      announced trips exceed announced trials by one exactly while the breaker is open. */
  lemma {:induction false} ChangesAreEntries(cfg: Config, born: int, steps: seq<Step>, s: State, i: nat)
    requires i <= |steps|
    ensures CountTo(Changes(cfg, born, steps, i), s) == Entries(cfg, born, steps, s, i)
  {
    if i > 0 {
      ChangesAreEntries(cfg, born, steps, s, i - 1);
      var note := ChangeOf(At(cfg, born, steps, i - 1), At(cfg, born, steps, i));
      CountSnoc(Changes(cfg, born, steps, i - 1), note, s);
    }
  }
}
