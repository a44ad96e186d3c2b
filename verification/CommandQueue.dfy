/**
 The commander as a system of steps: clients push commands into a queue and may wait, one worker takes
 them out and executes them. All that is done under the lock is one step.
 */
module CommandQueue {
  import opened Commands
  import opened CommandHistory

  datatype Kind<!S> = Plain(command: Command<S>) | UndoKind | RedoKind | Kill

  /** A queued command. For undo and redo, `id` is the undo id that the client asked for. */
  datatype Entry<!S> = Entry(kind: Kind<S>, isSynchronous: bool, id: nat)

  datatype Worker<!S> = Ready | Sleeping | Executing(entry: Entry<S>) | Finished(entry: Entry<S>) | Stopped

  /** A call in progress has pushed `count` commands, the first of them as number `first`. */
  datatype Call = Call(first: nat, count: nat, mayLeave: bool)

  datatype State<!S> = State(
    queue: seq<Entry<S>>,
    hasCommandsToExecute: bool,
    numSynchronousCommands: nat,
    undoId: nat,
    redoId: nat,
    worker: Worker<S>,
    calls: map<nat, Call>,
    pushed: seq<Entry<S>>,
    executed: seq<Entry<S>>,
    timelines: imap<nat, Timeline<S>>)
  {
    /** The number of commands that were taken from the queue. */
    ghost function Begun(): int { |pushed| - |queue| }

    /** The number of commands that are over and done with: counted down, if they are synchronous. */
    ghost function Completed(): int {
      if worker.Executing? || worker.Finished? then Begun() - 1 else Begun()
    }
  }

  // ---------------------------------------------------------------------------------------------
  // The steps.

  ghost predicate Init<S(!new)>(s: State<S>) {
    && s.queue == [] && !s.hasCommandsToExecute && s.numSynchronousCommands == 0 && s.worker == Ready
    && s.calls == map[] && s.pushed == [] && s.executed == []
    && forall i: nat :: i in s.timelines && s.timelines[i].Valid()
  }

  /** What the four calls push: one command, many commands, undo, or redo. */
  ghost predicate Pushable<S(!new)>(entries: seq<Entry<S>>) {
    || (forall k :: 0 <= k < |entries| ==> entries[k].kind.Plain?)
    || (|entries| == 1 && entries[0].isSynchronous && !entries[0].kind.Plain?)
  }

  ghost function SyncFrom<S>(log: seq<Entry<S>>, i: nat): nat
    decreases |log| - i
  {
    if i >= |log| then 0 else (if log[i].isSynchronous then 1 else 0) + SyncFrom(log, i + 1)
  }

  ghost function Register<S>(entries: seq<Entry<S>>, kind: Kind<S>, id: nat): nat {
    if |entries| == 1 && entries[0].kind == kind then entries[0].id else id
  }

  /** A client that is not in a call starts one: its commands are counted and queued, and the worker is notified. */
  ghost predicate Push<S(!new)>(s: State<S>, s': State<S>, client: nat, entries: seq<Entry<S>>, single: bool) {
    && client !in s.calls && Pushable(entries) && (single ==> |entries| == 1)
    && s' == s.(
         queue := s.queue + entries, hasCommandsToExecute := true,
         numSynchronousCommands := s.numSynchronousCommands + SyncFrom(entries, 0),
         undoId := Register(entries, UndoKind, s.undoId), redoId := Register(entries, RedoKind, s.redoId),
         calls := s.calls[client := Call(|s.pushed|, |entries|, single && !entries[0].isSynchronous)],
         pushed := s.pushed + entries)
  }

  /** A client leaves: it pushed one command that is not synchronous, or it sees that none is outstanding. */
  ghost predicate Leave<S(!new)>(s: State<S>, s': State<S>, client: nat) {
    && client in s.calls && (s.calls[client].mayLeave || s.numSynchronousCommands == 0)
    && s' == s.(calls := s.calls - {client})
  }

  ghost predicate Pop<S(!new)>(s: State<S>, s': State<S>) {
    && s.worker == Ready && |s.queue| > 0
    && s' == s.(worker := Executing(s.queue[0]), queue := s.queue[1..])
  }

  ghost predicate Sleep<S(!new)>(s: State<S>, s': State<S>) {
    && s.worker == Ready && s.queue == []
    && s' == s.(worker := Sleeping, hasCommandsToExecute := false)
  }

  ghost predicate Wake<S(!new)>(s: State<S>, s': State<S>) {
    && s.worker == Sleeping && s.hasCommandsToExecute
    && s' == s.(worker := Ready)
  }

  /** What executing an entry means: undo and redo go by the id that their one shared command holds. */
  ghost function Effective<S>(e: Entry<S>, undoId: nat, redoId: nat): Entry<S> {
    match e.kind
    case UndoKind => e.(id := undoId)
    case RedoKind => e.(id := redoId)
    case _ => e
  }

  ghost function AfterEntry<S(!new)>(timelines: imap<nat, Timeline<S>>, e: Entry<S>): (r: imap<nat, Timeline<S>>)
    requires forall i: nat :: i in timelines && timelines[i].Valid()
    ensures forall i: nat :: i in r && r[i].Valid()
  {
    match e.kind
    case Plain(c) => After(timelines, Do(c))
    case UndoKind => After(timelines, Undo(e.id))
    case RedoKind => After(timelines, Redo(e.id))
    case Kill => timelines
  }

  ghost predicate Execute<S(!new)>(s: State<S>, s': State<S>) {
    && s.worker.Executing?
    && (forall i: nat :: i in s.timelines && s.timelines[i].Valid())
    && var e := Effective(s.worker.entry, s.undoId, s.redoId);
    && s' == s.(worker := Finished(s.worker.entry), executed := s.executed + [e], timelines := AfterEntry(s.timelines, e))
  }

  /** The end of an execution is counted, if it is one that clients wait for. */
  ghost predicate Complete<S(!new)>(s: State<S>, s': State<S>) {
    && s.worker.Finished?
    && (s.worker.entry.isSynchronous ==> s.numSynchronousCommands > 0)
    && s' == s.(
         worker := if s.worker.entry.kind.Kill? then Stopped else Ready,
         numSynchronousCommands := s.numSynchronousCommands - if s.worker.entry.isSynchronous then 1 else 0)
  }

  datatype Move<!S> = Pushing(client: nat, entries: seq<Entry<S>>, single: bool) | Leaving(client: nat)
    | Popping | GoingToSleep | Waking | Performing | Completing

  ghost predicate Next<S(!new)>(s: State<S>, s': State<S>, m: Move<S>) {
    match m
    case Pushing(client, entries, single) => Push(s, s', client, entries, single)
    case Leaving(client) => Leave(s, s', client)
    case Popping => Pop(s, s')
    case GoingToSleep => Sleep(s, s')
    case Waking => Wake(s, s')
    case Performing => Execute(s, s')
    case Completing => Complete(s, s')
  }

  /** A run: `moves[k]` leads from `states[k]` to `states[k + 1]`. */
  ghost predicate Run<S(!new)>(states: seq<State<S>>, moves: seq<Move<S>>) {
    && |states| == |moves| + 1 && Init(states[0])
    && forall k :: 0 <= k < |moves| ==> Next(states[k], states[k + 1], moves[k])
  }

  // ---------------------------------------------------------------------------------------------
  // What every step keeps.

  ghost function Replay<S(!new)>(timelines: imap<nat, Timeline<S>>, executed: seq<Entry<S>>, k: nat): (r: imap<nat, Timeline<S>>)
    requires (forall i: nat :: i in timelines && timelines[i].Valid()) && k <= |executed|
    ensures forall i: nat :: i in r && r[i].Valid()
  {
    if k == 0 then timelines else AfterEntry(Replay(timelines, executed, k - 1), executed[k - 1])
  }

  /** The id that the last entry of a kind asks for. */
  ghost function LastAsked<S(!new)>(pushed: seq<Entry<S>>, k: nat, kind: Kind<S>, otherwise: nat): nat
    requires k <= |pushed|
  {
    if k == 0 then otherwise
    else if pushed[k - 1].kind == kind then pushed[k - 1].id
    else LastAsked(pushed, k - 1, kind, otherwise)
  }

  /** First in, first out: what was pushed is, in this order, completed, in the hands of the worker, or queued. */
  ghost predicate InOrder<S(!new)>(s: State<S>) {
    && 0 <= s.Completed() && |s.queue| <= |s.pushed|
    && s.queue == s.pushed[s.Begun()..]
    && (s.worker.Executing? || s.worker.Finished? ==> s.worker.entry == s.pushed[s.Begun() - 1])
    && |s.executed| == s.Begun() - (if s.worker.Executing? then 1 else 0)
    && (forall k :: 0 <= k < |s.executed| ==>
          s.executed[k].kind == s.pushed[k].kind && s.executed[k].isSynchronous == s.pushed[k].isSynchronous)
  }

  ghost predicate Inv<S(!new)>(s0: State<S>, s: State<S>) {
    && InOrder(s)
    && s.numSynchronousCommands == SyncFrom(s.pushed, s.Completed())
    && (s.queue != [] ==> s.hasCommandsToExecute)
    && (forall c :: c in s.calls ==> s.calls[c].first + s.calls[c].count <= |s.pushed|)
    && (forall c :: c in s.calls && s.calls[c].mayLeave ==>
          s.calls[c].count == 1 && !s.pushed[s.calls[c].first].isSynchronous)
    && s.undoId == LastAsked(s.pushed, |s.pushed|, UndoKind, s0.undoId)
    && s.redoId == LastAsked(s.pushed, |s.pushed|, RedoKind, s0.redoId)
    && (forall i: nat :: i in s0.timelines && s0.timelines[i].Valid())
    && s.timelines == Replay(s0.timelines, s.executed, |s.executed|)
  }

  lemma {:induction false} SyncFromAppend<S>(a: seq<Entry<S>>, b: seq<Entry<S>>, i: nat)
    requires i <= |a|
    ensures SyncFrom(a + b, i) == SyncFrom(a, i) + SyncFrom(b, 0)
    decreases |a| - i
  {
    if i < |a| {
      SyncFromAppend(a, b, i + 1);
    } else {
      SyncFromShift(a, b, 0);
    }
  }

  lemma {:induction false} SyncFromShift<S>(a: seq<Entry<S>>, b: seq<Entry<S>>, i: nat)
    ensures SyncFrom(a + b, |a| + i) == SyncFrom(b, i)
    decreases |b| - i
  {
    if i < |b| { SyncFromShift(a, b, i + 1); }
  }

  lemma {:induction false} LastAskedPrefix<S(!new)>(a: seq<Entry<S>>, b: seq<Entry<S>>, k: nat, kind: Kind<S>, id: nat)
    requires k <= |a|
    ensures LastAsked(a + b, k, kind, id) == LastAsked(a, k, kind, id)
  {
    if k > 0 { LastAskedPrefix(a, b, k - 1, kind, id); }
  }

  lemma {:induction false} LastAskedPlain<S(!new)>(a: seq<Entry<S>>, k: nat, n: nat, kind: Kind<S>, id: nat)
    requires k <= n <= |a| && !kind.Plain? && forall i :: k <= i < n ==> a[i].kind.Plain?
    ensures LastAsked(a, n, kind, id) == LastAsked(a, k, kind, id)
  {
    if k < n { LastAskedPlain(a, k, n - 1, kind, id); }
  }

  lemma RegisterIsLastAsked<S(!new)>(a: seq<Entry<S>>, entries: seq<Entry<S>>, kind: Kind<S>, id: nat)
    requires Pushable(entries) && !kind.Plain?
    ensures Register(entries, kind, LastAsked(a, |a|, kind, id)) == LastAsked(a + entries, |a + entries|, kind, id)
  {
    LastAskedPrefix(a, entries, |a|, kind, id);
    if forall k :: 0 <= k < |entries| ==> entries[k].kind.Plain? {
      LastAskedPlain(a + entries, |a|, |a + entries|, kind, id);
    }
  }

  lemma {:induction false} ReplayPrefixes<S(!new)>(timelines: imap<nat, Timeline<S>>, a: seq<Entry<S>>, b: seq<Entry<S>>, k: nat)
    requires (forall i: nat :: i in timelines && timelines[i].Valid()) && k <= |a| && k <= |b|
    requires forall i :: 0 <= i < k ==> a[i] == b[i]
    ensures Replay(timelines, a, k) == Replay(timelines, b, k)
  {
    if k > 0 { ReplayPrefixes(timelines, a, b, k - 1); }
  }

  lemma PushKeeps<S(!new)>(s0: State<S>, s: State<S>, s': State<S>, client: nat, entries: seq<Entry<S>>, single: bool)
    requires Inv(s0, s) && Push(s, s', client, entries, single)
    ensures Inv(s0, s')
  {
    hide SyncFrom, LastAsked, Replay, Register, Pushable;
    SyncFromAppend(s.pushed, entries, s.Completed());
    RegisterIsLastAsked(s.pushed, entries, UndoKind, s0.undoId);
    RegisterIsLastAsked(s.pushed, entries, RedoKind, s0.redoId);
  }

  lemma PopKeeps<S(!new)>(s0: State<S>, s: State<S>, s': State<S>)
    requires Inv(s0, s) && Pop(s, s')
    ensures Inv(s0, s')
  {
    hide SyncFrom, LastAsked, Replay;
  }

  lemma ExecuteKeeps<S(!new)>(s0: State<S>, s: State<S>, s': State<S>)
    requires Inv(s0, s) && Execute(s, s')
    ensures Inv(s0, s')
  {
    hide SyncFrom, LastAsked, AfterEntry, AfterAll, After;
    ReplayPrefixes(s0.timelines, s.executed, s'.executed, |s.executed|);
  }

  lemma CompleteKeeps<S(!new)>(s0: State<S>, s: State<S>, s': State<S>)
    requires Inv(s0, s) && Complete(s, s')
    ensures Inv(s0, s')
  {
    hide LastAsked, Replay;
  }

  /** The count of synchronous commands never gets below zero. */
  lemma CompleteIsEnabled<S(!new)>(s0: State<S>, s: State<S>)
    requires Inv(s0, s) && s.worker.Finished? && s.worker.entry.isSynchronous
    ensures s.numSynchronousCommands > 0
  {
    hide LastAsked, Replay;
  }

  lemma NextKeeps<S(!new)>(s0: State<S>, s: State<S>, s': State<S>, m: Move<S>)
    requires Inv(s0, s) && Next(s, s', m)
    ensures Inv(s0, s')
  {
    hide SyncFrom, LastAsked, Replay, Push, Pop, Execute, Complete;
    match m
    case Pushing(client, entries, single) => PushKeeps(s0, s, s', client, entries, single);
    case Popping => PopKeeps(s0, s, s');
    case Performing => ExecuteKeeps(s0, s, s');
    case Completing => CompleteKeeps(s0, s, s');
    case _ =>
  }

  lemma {:induction false} RunKeeps<S(!new)>(states: seq<State<S>>, moves: seq<Move<S>>, k: nat)
    requires Run(states, moves) && k < |states|
    ensures Inv(states[0], states[k])
  {
    hide Next;
    if k > 0 {
      RunKeeps(states, moves, k - 1);
      NextKeeps(states[0], states[k - 1], states[k], moves[k - 1]);
    }
  }

  // ---------------------------------------------------------------------------------------------
  // What clients can rely on.

  lemma {:induction false} SyncFromQueue<S>(log: seq<Entry<S>>, n: nat, i: nat)
    requires n <= |log|
    ensures SyncFrom(log[n..], i) == SyncFrom(log, n + i)
    decreases |log| - i
  {
    if n + i < |log| { SyncFromQueue(log, n, i + 1); }
  }

  /** The count is that of the synchronous commands in the queue, and the one that the worker has taken. */
  lemma CountIsOutstanding<S(!new)>(states: seq<State<S>>, moves: seq<Move<S>>, k: nat)
    requires Run(states, moves) && k < |states|
    ensures
      var s := states[k];
      var taken := (s.worker.Executing? || s.worker.Finished?) && s.worker.entry.isSynchronous;
      s.numSynchronousCommands == SyncFrom(s.queue, 0) + if taken then 1 else 0
  {
    hide Next, LastAsked, Replay;
    RunKeeps(states, moves, k);
    SyncFromQueue(states[k].pushed, states[k].Begun(), 0);
  }

  lemma {:induction false} NoneOutstanding<S>(log: seq<Entry<S>>, i: nat, j: nat)
    requires SyncFrom(log, i) == 0 && i <= j < |log|
    ensures !log[j].isSynchronous
    decreases j - i
  {
    if i < j { NoneOutstanding(log, i + 1, j); }
  }

  lemma StepOf<S(!new)>(states: seq<State<S>>, moves: seq<Move<S>>, k: nat)
    requires Run(states, moves) && k < |moves|
    ensures |states| == |moves| + 1 && Next(states[k], states[k + 1], moves[k])
  {
    hide Next, Init;
  }

  /** A client leaves its call only after each synchronous command that it pushed is over and done with. */
  lemma LeavingMeansDone<S(!new)>(states: seq<State<S>>, moves: seq<Move<S>>, k: nat, client: nat, i: nat)
    requires Run(states, moves) && k < |moves| && moves[k] == Leaving(client)
    requires client in states[k].calls && states[k].calls[client].first <= i
    requires i < states[k].calls[client].first + states[k].calls[client].count
    ensures i < |states[k].pushed|
    ensures states[k].pushed[i].isSynchronous ==> i < states[k].Completed() <= |states[k].executed|
  {
    hide Run, SyncFrom, LastAsked, Replay;
    StepOf(states, moves, k);
    RunKeeps(states, moves, k);
    var s := states[k];
    if s.pushed[i].isSynchronous && s.Completed() <= i {
      NoneOutstanding(s.pushed, s.Completed(), i);
      assert false;
    }
  }

  /**
   An undo is carried out with the undo id that was asked for if and only if the last undo that was
   pushed asked for that id too.
   */
  lemma UndoUsesLastAsked<S(!new)>(states: seq<State<S>>, moves: seq<Move<S>>, k: nat)
    requires Run(states, moves) && k < |moves| && moves[k].Performing?
    requires states[k].worker.Executing? && states[k].worker.entry.kind.UndoKind?
    ensures
      var s, n := states[k], |states[k].executed|;
      && n < |s.pushed| && s.pushed[n].kind.UndoKind?
      && |states[k + 1].executed| == n + 1
      && (states[k + 1].executed[n] == s.pushed[n]
          <==> LastAsked(s.pushed, |s.pushed|, UndoKind, states[0].undoId) == s.pushed[n].id)
  {
    hide Run, SyncFrom, LastAsked, Replay, AfterEntry;
    StepOf(states, moves, k);
    RunKeeps(states, moves, k);
  }

  /** So is a redo, with the id that the last redo asked for. */
  lemma RedoUsesLastAsked<S(!new)>(states: seq<State<S>>, moves: seq<Move<S>>, k: nat)
    requires Run(states, moves) && k < |moves| && moves[k].Performing?
    requires states[k].worker.Executing? && states[k].worker.entry.kind.RedoKind?
    ensures
      var s, n := states[k], |states[k].executed|;
      && n < |s.pushed| && s.pushed[n].kind.RedoKind?
      && |states[k + 1].executed| == n + 1
      && (states[k + 1].executed[n] == s.pushed[n]
          <==> LastAsked(s.pushed, |s.pushed|, RedoKind, states[0].redoId) == s.pushed[n].id)
  {
    hide Run, SyncFrom, LastAsked, Replay, AfterEntry;
    StepOf(states, moves, k);
    RunKeeps(states, moves, k);
  }

  // ---------------------------------------------------------------------------------------------
  // What the execution of an entry does to the histories.

  /** A plain command acts on the state of its id, can be undone, and leaves nothing to redo. Other ids are not touched. */
  lemma PlainIsDone<S(!new)>(states: seq<State<S>>, moves: seq<Move<S>>, k: nat, c: Command<S>)
    requires Run(states, moves) && k < |moves| && moves[k].Performing?
    requires states[k].worker.Executing? && states[k].worker.entry.kind == Plain(c)
    ensures forall i: nat :: i in states[k].timelines && i in states[k + 1].timelines
    ensures
      var t, t' := states[k].timelines[c.undoRedoTypeId], states[k + 1].timelines[c.undoRedoTypeId];
      && t.Valid() && t'.Valid() && t'.State() == Apply(c, t.State())
      && t'.cursor == |t'.commands| == t.cursor + 1 && t'.commands[t.cursor] == c
      && t'.commands[..t.cursor] == t.commands[..t.cursor]
    ensures forall i: nat :: i != c.undoRedoTypeId ==> states[k + 1].timelines[i] == states[k].timelines[i]
  {
    hide Run, Apply, ApplyAll;
    StepOf(states, moves, k);
    states[k].timelines[c.undoRedoTypeId].NewCommandTruncates(c, 0);
  }

  /** An undo takes the last command of an id back, if there is one: the state is that before the command. */
  lemma UndoGoesBack<S(!new)>(states: seq<State<S>>, moves: seq<Move<S>>, k: nat)
    requires Run(states, moves) && k < |moves| && moves[k].Performing?
    requires states[k].worker.Executing? && states[k].worker.entry.kind.UndoKind?
    ensures forall i: nat :: i in states[k].timelines && i in states[k + 1].timelines
    ensures
      var id := states[k].undoId;
      var t, t' := states[k].timelines[id], states[k + 1].timelines[id];
      && t.Valid() && t'.Valid() && t'.commands == t.commands
      && (t.cursor == 0 ==> t' == t)
      && (t.cursor > 0 ==> t'.cursor == t.cursor - 1 && t.State() == Apply(t.commands[t.cursor - 1], t'.State()))
    ensures forall i: nat :: i != states[k].undoId ==> states[k + 1].timelines[i] == states[k].timelines[i]
  {
    hide Run, Apply;
    StepOf(states, moves, k);
  }

  /** A redo does the command again that was undone last, if there is one. */
  lemma RedoGoesOn<S(!new)>(states: seq<State<S>>, moves: seq<Move<S>>, k: nat)
    requires Run(states, moves) && k < |moves| && moves[k].Performing?
    requires states[k].worker.Executing? && states[k].worker.entry.kind.RedoKind?
    ensures forall i: nat :: i in states[k].timelines && i in states[k + 1].timelines
    ensures
      var id := states[k].redoId;
      var t, t' := states[k].timelines[id], states[k + 1].timelines[id];
      && t.Valid() && t'.Valid() && t'.commands == t.commands
      && (t.cursor == |t.commands| ==> t' == t)
      && (t.cursor < |t.commands| ==> t'.cursor == t.cursor + 1 && t'.State() == Apply(t.commands[t.cursor], t.State()))
    ensures forall i: nat :: i != states[k].redoId ==> states[k + 1].timelines[i] == states[k].timelines[i]
  {
    hide Run, Apply;
    StepOf(states, moves, k);
  }

  /** The worker executes an entry on the stacks and the state; it stops after the command that ends it. */
  method Dispatch<S(!new)>(commander: Commander<S>, entry: Entry<S>, undoId: nat, redoId: nat) returns (keepRunning: bool)
    requires commander.Valid() && (entry.kind.Plain? ==> Undoable(entry.kind.command))
    modifies commander
    ensures commander.Valid() && (keepRunning <==> !entry.kind.Kill?)
    ensures forall s, s' ::
      (Execute(s, s') && s.worker.entry == entry && s.undoId == undoId && s.redoId == redoId
       && s.timelines == old(commander.timelines)) ==>
        s'.timelines == commander.timelines
  {
    hide Commander.Valid, After, Undoable;
    match entry.kind
    case UndoKind =>
      commander.TryUndo(undoId);
      return true;
    case RedoKind =>
      commander.TryRedo(redoId);
      return true;
    case Kill =>
      return false;
    case Plain(command) =>
      commander.DoAndRecord(command);
      return true;
  }

  /** Two clients undo at the same time: what the first one asked for is never undone. */
  lemma TwoClientsUndo<S(!new)>(s: State<S>) returns (states: seq<State<S>>, moves: seq<Move<S>>)
    requires Init(s)
    ensures Run(states, moves) && states[0] == s
    ensures
      var last := states[|states| - 1];
      && last.pushed == [Entry(UndoKind, true, 1), Entry(UndoKind, true, 2)]
      && last.executed == [Entry(UndoKind, true, 2)]
      && last.timelines == After(s.timelines, Undo(2))
  {
    hide After;
    var one, two := Entry<S>.Entry(UndoKind, true, 1), Entry<S>.Entry(UndoKind, true, 2);
    assert SyncFrom([one], 0) == 1 && SyncFrom([two], 0) == 1;
    var s1 := s.(queue := [one], hasCommandsToExecute := true, numSynchronousCommands := 1, undoId := 1,
                 calls := map[0 := Call(0, 1, false)], pushed := [one]);
    var s2 := s1.(queue := [one, two], numSynchronousCommands := 2, undoId := 2,
                  calls := map[0 := Call(0, 1, false), 1 := Call(1, 1, false)], pushed := [one, two]);
    var s3 := s2.(worker := Executing(one), queue := [two]);
    var s4 := s3.(worker := Finished(one), executed := [two], timelines := After(s.timelines, Undo(2)));
    states := [s, s1, s2, s3, s4];
    moves := [Pushing(0, [one], true), Pushing(1, [two], true), Popping, Performing];
    assert Push(s, s1, 0, [one], true);
    assert Push(s1, s2, 1, [two], true) by {
      assert s1.queue + [two] == [one, two] && s1.pushed + [two] == [one, two];
      assert s2.calls == s1.calls[1 := Call(1, 1, false)];
    }
    assert Pop(s2, s3);
    assert Execute(s3, s4);
  }

  // ---------------------------------------------------------------------------------------------
  // A single client.

  /** Every undo that is still to be carried out asks for the id that it will be carried out with. */
  ghost predicate Undistorted<S(!new)>(s: State<S>) {
    && |s.executed| <= |s.pushed|
    && s.executed == s.pushed[..|s.executed|]
    && (forall k :: |s.executed| <= k < |s.pushed| ==> Effective(s.pushed[k], s.undoId, s.redoId) == s.pushed[k])
  }

  /** Nothing synchronous is outstanding while the client is not in a call that waits. */
  ghost predicate Calm<S(!new)>(s: State<S>, client: nat) {
    && (forall c :: c in s.calls ==> c == client)
    && (client !in s.calls || s.calls[client].mayLeave ==> s.numSynchronousCommands == 0)
    && (forall k :: 0 <= k < |s.pushed| ==> s.pushed[k].kind.Plain? || s.pushed[k].isSynchronous)
  }

  lemma SinglePush<S(!new)>(s0: State<S>, s: State<S>, s': State<S>, client: nat, entries: seq<Entry<S>>, single: bool)
    requires Inv(s0, s) && Push(s, s', client, entries, single) && Undistorted(s) && Calm(s, client)
    ensures Undistorted(s') && Calm(s', client)
  {
    hide LastAsked, Replay;
    forall k | |s.executed| <= k < |s'.pushed| ensures Effective(s'.pushed[k], s'.undoId, s'.redoId) == s'.pushed[k] {
      if k < |s.pushed| { NoneOutstanding(s.pushed, s.Completed(), k); }
    }
    assert single ==> SyncFrom(entries, 0) == if entries[0].isSynchronous then 1 else 0;
  }

  lemma SingleStep<S(!new)>(s0: State<S>, s: State<S>, s': State<S>, m: Move<S>, client: nat)
    requires Inv(s0, s) && Next(s, s', m) && Undistorted(s) && Calm(s, client)
    requires m.Pushing? ==> m.client == client
    ensures Undistorted(s') && Calm(s', client)
  {
    hide LastAsked, Replay, SyncFrom, Push, AfterEntry;
    match m
    case Pushing(_, entries, single) => SinglePush(s0, s, s', client, entries, single);
    case _ =>
  }

  /** If there is one client only, all that was executed is what was asked for, in order, and the history is a replay of it. */
  lemma {:induction false} SingleClient<S(!new)>(states: seq<State<S>>, moves: seq<Move<S>>, client: nat, k: nat)
    requires Run(states, moves) && k < |states|
    requires forall j :: 0 <= j < |moves| && moves[j].Pushing? ==> moves[j].client == client
    ensures Inv(states[0], states[k]) && Undistorted(states[k]) && Calm(states[k], client)
    ensures states[k].timelines == Replay(states[0].timelines, states[k].pushed, |states[k].executed|)
  {
    hide Next, LastAsked, Replay, Inv, Undistorted, Calm;
    RunKeeps(states, moves, k);
    if k > 0 {
      SingleClient(states, moves, client, k - 1);
      SingleStep(states[0], states[k - 1], states[k], moves[k - 1], client);
    } else {
      SingleStart(states[0], client);
    }
    AsAsked(states[0], states[k]);
  }

  lemma SingleStart<S(!new)>(s: State<S>, client: nat)
    requires Init(s)
    ensures Undistorted(s) && Calm(s, client)
  {
  }

  lemma AsAsked<S(!new)>(s0: State<S>, s: State<S>)
    requires Inv(s0, s) && Undistorted(s)
    ensures s.timelines == Replay(s0.timelines, s.pushed, |s.executed|)
  {
    hide LastAsked, Replay, SyncFrom;
    ReplayPrefixes(s0.timelines, s.executed, s.pushed, |s.executed|);
  }

  /** When the only client returns from a call whose last command is synchronous, all it ever asked for has been done. */
  lemma SingleClientReturns<S(!new)>(states: seq<State<S>>, moves: seq<Move<S>>, client: nat, k: nat)
    requires Run(states, moves) && k < |moves| && moves[k] == Leaving(client)
    requires forall j :: 0 <= j < |moves| && moves[j].Pushing? ==> moves[j].client == client
    requires |states[k].pushed| > 0 && states[k].pushed[|states[k].pushed| - 1].isSynchronous
    ensures states[k].executed == states[k].pushed
    ensures states[k].timelines == Replay(states[0].timelines, states[k].pushed, |states[k].pushed|)
  {
    hide Run, LastAsked, Replay, SyncFrom;
    StepOf(states, moves, k);
    SingleClient(states, moves, client, k);
    var s := states[k];
    if s.Completed() < |s.pushed| && s.numSynchronousCommands == 0 {
      NoneOutstanding(s.pushed, s.Completed(), |s.pushed| - 1);
      assert false;
    }
  }

  lemma {:induction false} PushedGrows<S(!new)>(states: seq<State<S>>, moves: seq<Move<S>>, j: nat, k: nat)
    requires Run(states, moves) && j <= k < |states|
    ensures states[j].pushed <= states[k].pushed
    decreases k - j
  {
    hide Run, Init, SyncFrom, AfterEntry, Register;
    RunLength(states, moves);
    if j < k {
      PushedGrows(states, moves, j, k - 1);
      StepOf(states, moves, k - 1);
    }
  }

  lemma RunLength<S(!new)>(states: seq<State<S>>, moves: seq<Move<S>>)
    requires Run(states, moves)
    ensures |states| == |moves| + 1
  {
  }

  /** A single client does, undoes and redoes a command: the history of its id is as it was after the command. */
  lemma DoUndoRedo<S(!new)>(states: seq<State<S>>, moves: seq<Move<S>>, client: nat, j: nat, k: nat, c: Command<S>)
    requires Run(states, moves) && j <= k < |states|
    requires forall i :: 0 <= i < |moves| && moves[i].Pushing? ==> moves[i].client == client
    requires
      var n := |states[j].executed|;
      && n > 0 && |states[k].executed| == n + 2 <= |states[k].pushed| && states[k].pushed[n - 1].kind == Plain(c)
      && states[k].pushed[n].kind == UndoKind && states[k].pushed[n].id == c.undoRedoTypeId
      && states[k].pushed[n + 1].kind == RedoKind && states[k].pushed[n + 1].id == c.undoRedoTypeId
    ensures c.undoRedoTypeId in states[j].timelines && c.undoRedoTypeId in states[k].timelines
    ensures states[k].timelines[c.undoRedoTypeId] == states[j].timelines[c.undoRedoTypeId]
  {
    hide Run, Inv, Undistorted, Calm, Replay;
    SingleClient(states, moves, client, j);
    SingleClient(states, moves, client, k);
    PushedGrows(states, moves, j, k);
    var n := |states[j].executed|;
    assert |states[j].executed| <= |states[j].pushed| && (forall i: nat :: i in states[0].timelines && states[0].timelines[i].Valid()) by {
      Bounds(states[0], states[j]);
    }
    ReplayPrefixes(states[0].timelines, states[j].pushed, states[k].pushed, n);
    ReplayThree(states[0].timelines, states[k].pushed, n, c);
  }

  lemma Bounds<S(!new)>(s0: State<S>, s: State<S>)
    requires Inv(s0, s) && Undistorted(s)
    ensures |s.executed| <= |s.pushed| && forall i: nat :: i in s0.timelines && s0.timelines[i].Valid()
  {
    hide Replay, LastAsked, SyncFrom;
  }

  lemma ReplayThree<S(!new)>(timelines: imap<nat, Timeline<S>>, log: seq<Entry<S>>, n: nat, c: Command<S>)
    requires (forall i: nat :: i in timelines && timelines[i].Valid()) && 0 < n && n + 2 <= |log|
    requires log[n - 1].kind == Plain(c) && log[n].kind == UndoKind && log[n + 1].kind == RedoKind
    requires log[n].id == log[n + 1].id == c.undoRedoTypeId
    ensures Replay(timelines, log, n + 2)[c.undoRedoTypeId] == Replay(timelines, log, n)[c.undoRedoTypeId]
  {
    var id := c.undoRedoTypeId;
    var before, after := Replay(timelines, log, n - 1), Replay(timelines, log, n);
    assert after[id] == before[id].Done(c);
    var back := Replay(timelines, log, n + 1);
    assert back == After(after, Undo(id)) && back[id] == after[id].Undone();
    assert Replay(timelines, log, n + 2) == After(back, Redo(id));
  }
}
