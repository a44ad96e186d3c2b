/**
 Commands, what doing and undoing them does to a state, and the history of the commands that were
 done: one line of commands with a cursor, where undo moves the cursor back and redo moves it on.
 */
module Commands {

  /** A command, done by its parts if it has any. */
  datatype Command<!S> = Command(undoRedoTypeId: nat, run: S -> S, revert: S -> S, subCommands: seq<Command<S>>)

  function Apply<S>(c: Command<S>, s: S): S {
    if |c.subCommands| > 0 then ApplyAll(c.subCommands, |c.subCommands|, s) else c.run(s)
  }

  /** The first `k` commands are done, the first one first. */
  function ApplyAll<S>(cs: seq<Command<S>>, k: nat, s: S): S
    requires k <= |cs|
    decreases cs, k
  {
    if k == 0 then s else Apply(cs[k - 1], ApplyAll(cs, k - 1, s))
  }

  function Revert<S>(c: Command<S>, s: S): S {
    if |c.subCommands| > 0 then RevertAll(c.subCommands, |c.subCommands|, s) else c.revert(s)
  }

  /** The first `k` commands are undone, the first one first. */
  function RevertAll<S>(cs: seq<Command<S>>, k: nat, s: S): S
    requires k <= |cs|
    decreases cs, k
  {
    if k == 0 then s else Revert(cs[k - 1], RevertAll(cs, k - 1, s))
  }

  /** The first `k` commands are done, the last one first. */
  ghost function ApplyBackwards<S>(cs: seq<Command<S>>, k: nat, s: S): S
    requires k <= |cs|
  {
    if k == 0 then s else ApplyBackwards(cs, k - 1, Apply(cs[k - 1], s))
  }

  /** Undoing the command right after it was done restores the state. */
  ghost predicate Undoable<S(!new)>(c: Command<S>) {
    forall s :: Revert(c, Apply(c, s)) == s
  }

  /** Also, doing the command right after it was undone restores the state. */
  ghost predicate Invertible<S(!new)>(c: Command<S>) {
    Undoable(c) && forall s :: Apply(c, Revert(c, s)) == s
  }

  lemma {:induction false} RevertThenBackwards<S(!new)>(cs: seq<Command<S>>, k: nat, s: S)
    requires k <= |cs| && forall i :: 0 <= i < |cs| ==> Invertible(cs[i])
    ensures ApplyBackwards(cs, k, RevertAll(cs, k, s)) == s
  {
    if k > 0 {
      assert Invertible(cs[k - 1]);
      RevertThenBackwards(cs, k - 1, s);
    }
  }

  lemma {:induction false} BackwardsThenRevert<S(!new)>(cs: seq<Command<S>>, k: nat, s: S)
    requires k <= |cs| && forall i :: 0 <= i < |cs| ==> Invertible(cs[i])
    ensures RevertAll(cs, k, ApplyBackwards(cs, k, s)) == s
  {
    if k > 0 {
      assert Invertible(cs[k - 1]);
      BackwardsThenRevert(cs, k - 1, Apply(cs[k - 1], s));
    }
  }

  /**
   The parts of a command are undone in the order in which they were done. That restores the state if and
   only if doing them in the reverse order would have led to the same state.
   */
  lemma CompositeUndo<S(!new)>(c: Command<S>, s: S)
    requires |c.subCommands| > 0 && forall i :: 0 <= i < |c.subCommands| ==> Invertible(c.subCommands[i])
    ensures Revert(c, Apply(c, s)) == s <==> ApplyBackwards(c.subCommands, |c.subCommands|, s) == Apply(c, s)
  {
    var cs, n := c.subCommands, |c.subCommands|;
    RevertThenBackwards(cs, n, Apply(c, s));
    BackwardsThenRevert(cs, n, s);
  }

  ghost predicate Commute<S(!new)>(a: Command<S>, b: Command<S>) {
    forall s :: Apply(a, Apply(b, s)) == Apply(b, Apply(a, s))
  }

  lemma {:induction false} MovesPast<S(!new)>(cs: seq<Command<S>>, k: nat, c: Command<S>, s: S)
    requires k <= |cs| && forall i :: 0 <= i < k ==> Commute(cs[i], c)
    ensures ApplyAll(cs, k, Apply(c, s)) == Apply(c, ApplyAll(cs, k, s))
  {
    if k > 0 {
      MovesPast(cs, k - 1, c, s);
      assert Commute(cs[k - 1], c);
    }
  }

  lemma {:induction false} OrderDoesNotMatter<S(!new)>(cs: seq<Command<S>>, k: nat, s: S)
    requires k <= |cs| && forall i, j :: 0 <= i < j < |cs| ==> Commute(cs[i], cs[j])
    ensures ApplyBackwards(cs, k, s) == ApplyAll(cs, k, s)
  {
    if k > 0 {
      OrderDoesNotMatter(cs, k - 1, Apply(cs[k - 1], s));
      MovesPast(cs, k - 1, cs[k - 1], s);
    }
  }

  /** A command whose parts commute can be undone. */
  lemma CommutingPartsUndo<S(!new)>(c: Command<S>)
    requires |c.subCommands| > 0 && forall i :: 0 <= i < |c.subCommands| ==> Invertible(c.subCommands[i])
    requires forall i, j :: 0 <= i < j < |c.subCommands| ==> Commute(c.subCommands[i], c.subCommands[j])
    ensures Undoable(c)
  {
    forall s ensures Revert(c, Apply(c, s)) == s {
      OrderDoesNotMatter(c.subCommands, |c.subCommands|, s);
      CompositeUndo(c, s);
    }
  }

  /** Count up the first of two numbers, then swap them: each of the two can be undone, both together cannot. */
  lemma CompositeUndoCanFail() returns (c: Command<(int, int)>)
    ensures forall i :: 0 <= i < |c.subCommands| ==> Invertible(c.subCommands[i])
    ensures Apply(c, (0, 0)) == (0, 1) && Revert(c, (0, 1)) == (1, -1)
  {
    var up: Command<(int, int)> := Command(0, (s: (int, int)) => (s.0 + 1, s.1), (s: (int, int)) => (s.0 - 1, s.1), []);
    var swap: Command<(int, int)> := Command(0, (s: (int, int)) => (s.1, s.0), (s: (int, int)) => (s.1, s.0), []);
    var cs := [up, swap];
    c := Command(0, s => s, s => s, cs);
    assert Apply(up, (0, 0)) == (1, 0) && Apply(swap, (1, 0)) == (0, 1);
    assert ApplyAll(cs, 0, (0, 0)) == (0, 0) && ApplyAll(cs, 1, (0, 0)) == (1, 0);
    assert ApplyAll(cs, 2, (0, 0)) == Apply(cs[1], ApplyAll(cs, 1, (0, 0)));
    assert Revert(up, (0, 1)) == (-1, 1) && Revert(swap, (-1, 1)) == (1, -1);
    assert RevertAll(cs, 0, (0, 1)) == (0, 1) && RevertAll(cs, 1, (0, 1)) == Revert(cs[0], RevertAll(cs, 0, (0, 1)));
    assert RevertAll(cs, 2, (0, 1)) == Revert(cs[1], RevertAll(cs, 1, (0, 1)));
  }

  // ---------------------------------------------------------------------------------------------
  // The example commands, which append to a text.

  function TakeOff(addition: string, text: string): string {
    if |addition| <= |text| then text[..|text| - |addition|] else text
  }

  function Appending(addition: string): Command<string> {
    Command(0, (text: string) => text + addition, (text: string) => TakeOff(addition, text), [])
  }

  ghost function TotalLength(additions: seq<string>, k: nat): nat
    requires k <= |additions|
  {
    if k == 0 then 0 else TotalLength(additions, k - 1) + |additions[k - 1]|
  }

  lemma {:induction false} AppendsGrow(additions: seq<string>, cs: seq<Command<string>>, k: nat, text: string)
    requires |cs| == |additions| && forall i :: 0 <= i < |cs| ==> cs[i] == Appending(additions[i])
    requires k <= |cs|
    ensures text <= ApplyAll(cs, k, text)
    ensures |ApplyAll(cs, k, text)| == |text| + TotalLength(additions, k)
  {
    if k > 0 {
      AppendsGrow(additions, cs, k - 1, text);
      assert Apply(cs[k - 1], ApplyAll(cs, k - 1, text)) == ApplyAll(cs, k - 1, text) + additions[k - 1];
    }
  }

  lemma {:induction false} TakeOffsShrink(additions: seq<string>, cs: seq<Command<string>>, k: nat, text: string)
    requires |cs| == |additions| && forall i :: 0 <= i < |cs| ==> cs[i] == Appending(additions[i])
    requires k <= |cs| && TotalLength(additions, k) <= |text|
    ensures RevertAll(cs, k, text) == text[..|text| - TotalLength(additions, k)]
  {
    if k > 0 {
      TakeOffsShrink(additions, cs, k - 1, text);
      var t := RevertAll(cs, k - 1, text);
      assert Revert(cs[k - 1], t) == TakeOff(additions[k - 1], t);
    }
  }

  /** Example commands do not commute, and still a composite of them can be undone: only the lengths count. */
  lemma ExampleCompositeUndo(additions: seq<string>, c: Command<string>)
    requires |c.subCommands| == |additions| > 0
    requires forall i :: 0 <= i < |additions| ==> c.subCommands[i] == Appending(additions[i])
    ensures Undoable(c)
  {
    forall text ensures Revert(c, Apply(c, text)) == text {
      AppendsGrow(additions, c.subCommands, |additions|, text);
      TakeOffsShrink(additions, c.subCommands, |additions|, Apply(c, text));
    }
  }
}

module CommandHistory {
  import opened Commands

  /** What happened to the state of one undo id: the commands from `base` on, of which those before `cursor` are in force. */
  datatype Timeline<!S> = Timeline(base: S, commands: seq<Command<S>>, cursor: nat) {
    ghost predicate Valid() { cursor <= |commands| }

    ghost function State(): S
      requires Valid()
    {
      ApplyAll(commands, cursor, base)
    }

    /** A new command replaces all that could have been redone. */
    ghost function Done(c: Command<S>): (r: Timeline<S>)
      requires Valid()
      ensures r.Valid()
    {
      Timeline(base, commands[..cursor] + [c], cursor + 1)
    }

    ghost function Undone(): (r: Timeline<S>)
      ensures Valid() ==> r.Valid()
    {
      if cursor > 0 then this.(cursor := cursor - 1) else this
    }

    ghost function Redone(): (r: Timeline<S>)
      ensures Valid() ==> r.Valid()
    {
      if cursor < |commands| then this.(cursor := cursor + 1) else this
    }

    ghost function UndoneTimes(k: nat): Timeline<S> {
      if k == 0 then this else UndoneTimes(k - 1).Undone()
    }

    ghost function RedoneTimes(k: nat): Timeline<S> {
      if k == 0 then this else RedoneTimes(k - 1).Redone()
    }

    lemma {:induction false} UndoneTimesAt(k: nat)
      requires Valid()
      ensures UndoneTimes(k) == this.(cursor := if k <= cursor then cursor - k else 0)
    {
      if k > 0 { UndoneTimesAt(k - 1); }
    }

    lemma {:induction false} RedoneTimesAt(k: nat)
      requires Valid()
      ensures RedoneTimes(k) == this.(cursor := if cursor + k <= |commands| then cursor + k else |commands|)
    {
      if k > 0 { RedoneTimesAt(k - 1); }
    }

    /** `k` undos and then `k` redos change nothing, exactly if there was enough to undo, or nothing to redo. */
    lemma UndoThenRedo(k: nat)
      requires Valid()
      ensures UndoneTimes(k).RedoneTimes(k) == this <==> k <= cursor || cursor == |commands|
    {
      UndoneTimesAt(k);
      UndoneTimes(k).RedoneTimesAt(k);
    }

    /** After a new command, redo does nothing, and undo goes back to the state before it. */
    lemma NewCommandTruncates(c: Command<S>, k: nat)
      requires Valid()
      ensures Done(c).RedoneTimes(k) == Done(c)
      ensures Done(c).State() == Apply(c, State())
      ensures Done(c).Undone().State() == State()
    {
      Done(c).RedoneTimesAt(k);
      ReplayPrefix(commands, Done(c).commands, cursor, base);
    }
  }

  /** A replay depends on no more commands than it does. */
  lemma {:induction false} ReplayPrefix<S>(a: seq<Command<S>>, b: seq<Command<S>>, k: nat, base: S)
    requires k <= |a| && k <= |b| && forall i :: 0 <= i < k ==> a[i] == b[i]
    ensures ApplyAll(a, k, base) == ApplyAll(b, k, base)
  {
    if k > 0 { ReplayPrefix(a, b, k - 1, base); }
  }

  /** What the worker does on behalf of a client. */
  datatype Operation<!S> = Do(command: Command<S>) | Undo(undoId: nat) | Redo(redoId: nat)

  ghost function After<S(!new)>(timelines: imap<nat, Timeline<S>>, op: Operation<S>): (r: imap<nat, Timeline<S>>)
    requires forall i: nat :: i in timelines && timelines[i].Valid()
    ensures forall i: nat :: i in r && r[i].Valid()
  {
    match op
    case Do(c) => timelines[c.undoRedoTypeId := timelines[c.undoRedoTypeId].Done(c)]
    case Undo(id) => timelines[id := timelines[id].Undone()]
    case Redo(id) => timelines[id := timelines[id].Redone()]
  }

  ghost function IdOf<S>(op: Operation<S>): nat {
    match op
    case Do(c) => c.undoRedoTypeId
    case Undo(id) => id
    case Redo(id) => id
  }

  /** The first `k` operations are carried out. */
  ghost function AfterAll<S(!new)>(timelines: imap<nat, Timeline<S>>, ops: seq<Operation<S>>, k: nat): (r: imap<nat, Timeline<S>>)
    requires (forall i: nat :: i in timelines && timelines[i].Valid()) && k <= |ops|
    ensures forall i: nat :: i in r && r[i].Valid()
  {
    if k == 0 then timelines else After(AfterAll(timelines, ops, k - 1), ops[k - 1])
  }

  /** Those of the first `k` operations that are on `id` are carried out on its timeline alone. */
  ghost function Own<S>(t: Timeline<S>, ops: seq<Operation<S>>, k: nat, id: nat): (r: Timeline<S>)
    requires t.Valid() && k <= |ops|
    ensures r.Valid()
  {
    if k == 0 then t
    else
      var before := Own(t, ops, k - 1, id);
      if IdOf(ops[k - 1]) != id then before
      else
        match ops[k - 1]
        case Do(c) => before.Done(c)
        case Undo(_) => before.Undone()
        case Redo(_) => before.Redone()
  }

  /** What happens to one undo id depends on the operations on that id alone, however they are interleaved with others. */
  lemma {:induction false} IdsAreIndependent<S(!new)>(timelines: imap<nat, Timeline<S>>, ops: seq<Operation<S>>, k: nat, id: nat)
    requires (forall i: nat :: i in timelines && timelines[i].Valid()) && k <= |ops|
    ensures AfterAll(timelines, ops, k)[id] == Own(timelines[id], ops, k, id)
  {
    if k > 0 { IdsAreIndependent(timelines, ops, k - 1, id); }
  }

  /** The two stacks are the two parts of the timeline, tops at the cursor, and the state is a replay of the first. */
  ghost predicate Matches<S(!new)>(undo: seq<Command<S>>, redo: seq<Command<S>>, s: S, t: Timeline<S>, id: nat) {
    && t.Valid()
    && undo == t.commands[..t.cursor]
    && |redo| == |t.commands| - t.cursor
    && (forall k :: 0 <= k < |redo| ==> redo[k] == t.commands[|t.commands| - 1 - k])
    && s == t.State()
    && (forall k :: 0 <= k < |t.commands| ==> Undoable(t.commands[k]) && t.commands[k].undoRedoTypeId == id)
  }

  lemma MatchesDone<S(!new)>(undo: seq<Command<S>>, redo: seq<Command<S>>, s: S, t: Timeline<S>, id: nat, c: Command<S>)
    requires Matches(undo, redo, s, t, id) && Undoable(c) && c.undoRedoTypeId == id
    ensures Matches(undo + [c], [], Apply(c, s), t.Done(c), id)
  {
    hide Apply, ApplyAll, Undoable;
    t.NewCommandTruncates(c, 0);
  }

  lemma MatchesUndone<S(!new)>(undo: seq<Command<S>>, redo: seq<Command<S>>, s: S, t: Timeline<S>, id: nat)
    requires Matches(undo, redo, s, t, id)
    ensures undo == [] ==> t.Undone() == t
    ensures undo != [] ==>
      var c := undo[|undo| - 1];
      Matches(undo[..|undo| - 1], redo + [c], Revert(c, s), t.Undone(), id)
  {
    hide Apply, Revert, RevertAll;
    assert undo != [] ==> t.State() == Apply(undo[|undo| - 1], t.Undone().State());
  }

  lemma MatchesRedone<S(!new)>(undo: seq<Command<S>>, redo: seq<Command<S>>, s: S, t: Timeline<S>, id: nat)
    requires Matches(undo, redo, s, t, id)
    ensures redo == [] ==> t.Redone() == t
    ensures redo != [] ==>
      var c := redo[|redo| - 1];
      Matches(undo + [c], redo[..|redo| - 1], Apply(c, s), t.Redone(), id)
  {
    hide Apply, Undoable;
  }

  /** The timeline determines the stacks and the state. */
  lemma MatchesOne<S(!new)>(undo: seq<Command<S>>, redo: seq<Command<S>>, s: S,
                            undo': seq<Command<S>>, redo': seq<Command<S>>, s': S, t: Timeline<S>, id: nat)
    requires Matches(undo, redo, s, t, id) && Matches(undo', redo', s', t, id)
    ensures undo == undo' && redo == redo' && s == s'
  {
  }

  /** The part of the commander that its worker thread alone uses, and the state that its commands change. */
  class Commander<S(!new)> {
    var undoBuffers: map<nat, seq<Command<S>>>
    var redoBuffers: map<nat, seq<Command<S>>>
    var state: imap<nat, S>
    ghost var timelines: imap<nat, Timeline<S>>

    /** The undo stack of an id, its top last. */
    ghost function UndoStack(id: nat): seq<Command<S>>
      reads `undoBuffers
    {
      if id in undoBuffers then undoBuffers[id] else []
    }

    ghost function RedoStack(id: nat): seq<Command<S>>
      reads `redoBuffers
    {
      if id in redoBuffers then redoBuffers[id] else []
    }

    ghost predicate Valid()
      reads this
    {
      && (forall id: nat :: id in timelines && id in state && timelines[id].Valid())
      && (forall id: nat :: Matches(UndoStack(id), RedoStack(id), state[id], timelines[id], id))
    }

    constructor (initial: imap<nat, S>)
      requires forall id: nat :: id in initial
      ensures Valid() && state == initial
      ensures timelines == imap id: nat :: Timeline(initial[id], [], 0)
    {
      undoBuffers, redoBuffers, state := map[], map[], initial;
      timelines := imap id: nat :: Timeline(initial[id], [], 0);
      new;
      forall id: nat ensures Matches(UndoStack(id), RedoStack(id), state[id], timelines[id], id) {
        assert timelines[id].State() == initial[id];
      }
    }

    method DoCommand(command: Command<S>, id: nat)
      requires id in state
      modifies `state
      ensures state == old(state)[id := Apply(command, old(state[id]))]
      decreases command
    {
      if |command.subCommands| > 0 {
        for i := 0 to |command.subCommands|
          invariant state == old(state)[id := ApplyAll(command.subCommands, i, old(state[id]))]
        {
          DoCommand(command.subCommands[i], id);
        }
      } else {
        state := state[id := command.run(state[id])];
      }
    }

    method UndoCommand(command: Command<S>, id: nat)
      requires id in state
      modifies `state
      ensures state == old(state)[id := Revert(command, old(state[id]))]
      decreases command
    {
      if |command.subCommands| > 0 {
        for i := 0 to |command.subCommands|
          invariant state == old(state)[id := RevertAll(command.subCommands, i, old(state[id]))]
        {
          UndoCommand(command.subCommands[i], id);
        }
      } else {
        state := state[id := command.revert(state[id])];
      }
    }

    method ClipRedos(id: nat)
      modifies `redoBuffers
      ensures RedoStack(id) == []
      ensures forall i :: i != id ==> RedoStack(i) == old(RedoStack(i))
    {
      if id in redoBuffers {
        while redoBuffers[id] != []
          invariant id in redoBuffers
          invariant forall i :: i != id ==> RedoStack(i) == old(RedoStack(i))
          decreases |redoBuffers[id]|
        {
          redoBuffers := redoBuffers[id := redoBuffers[id][..|redoBuffers[id]| - 1]];
        }
      }
    }

    method AddUndo(id: nat, command: Command<S>)
      modifies `undoBuffers
      ensures UndoStack(id) == old(UndoStack(id)) + [command]
      ensures forall i :: i != id ==> UndoStack(i) == old(UndoStack(i))
    {
      if id in undoBuffers {
        undoBuffers := undoBuffers[id := undoBuffers[id] + [command]];
      } else {
        undoBuffers := undoBuffers[id := [command]];
      }
    }

    method AddRedo(id: nat, command: Command<S>)
      modifies `redoBuffers
      ensures RedoStack(id) == old(RedoStack(id)) + [command]
      ensures forall i :: i != id ==> RedoStack(i) == old(RedoStack(i))
    {
      if id in redoBuffers {
        redoBuffers := redoBuffers[id := redoBuffers[id] + [command]];
      } else {
        redoBuffers := redoBuffers[id := [command]];
      }
    }

    /** A command that is neither undo nor redo is done and can be undone from now on. */
    method DoAndRecord(command: Command<S>)
      requires Valid() && Undoable(command)
      modifies this
      ensures Valid() && timelines == After(old(timelines), Do(command))
    {
      hide Matches, Apply, Undoable, Timeline.Valid, Timeline.Done, Timeline.Redone, Timeline.Undone;
      var id := command.undoRedoTypeId;
      ghost var t := timelines[id];
      MatchesDone(UndoStack(id), RedoStack(id), state[id], t, id, command);
      DoCommand(command, id);
      ClipRedos(id);
      AddUndo(id, command);
      timelines := timelines[id := t.Done(command)];
      forall i: nat ensures Matches(UndoStack(i), RedoStack(i), state[i], timelines[i], i) {
        assert i != id ==> old(Matches(UndoStack(i), RedoStack(i), state[i], timelines[i], i));
      }
    }

    method TryUndo(id: nat)
      requires Valid()
      modifies this
      ensures Valid() && timelines == After(old(timelines), Undo(id))
    {
      hide Matches, Revert, Undoable, Timeline.Valid, Timeline.Done, Timeline.Redone, Timeline.Undone;
      ghost var t := timelines[id];
      MatchesUndone(UndoStack(id), RedoStack(id), state[id], t, id);
      if id in undoBuffers {
        var undoBuffer := undoBuffers[id];
        if undoBuffer != [] {
          var command := undoBuffer[|undoBuffer| - 1];
          undoBuffers := undoBuffers[id := undoBuffer[..|undoBuffer| - 1]];
          UndoCommand(command, id);
          AddRedo(id, command);
        }
      }
      timelines := timelines[id := t.Undone()];
      forall i: nat ensures Matches(UndoStack(i), RedoStack(i), state[i], timelines[i], i) {
        assert i != id ==> old(Matches(UndoStack(i), RedoStack(i), state[i], timelines[i], i));
      }
    }

    method TryRedo(id: nat)
      requires Valid()
      modifies this
      ensures Valid() && timelines == After(old(timelines), Redo(id))
    {
      hide Matches, Apply, Undoable, Timeline.Valid, Timeline.Done, Timeline.Redone, Timeline.Undone;
      ghost var t := timelines[id];
      MatchesRedone(UndoStack(id), RedoStack(id), state[id], t, id);
      if id in redoBuffers {
        var redoBuffer := redoBuffers[id];
        if redoBuffer != [] {
          var command := redoBuffer[|redoBuffer| - 1];
          redoBuffers := redoBuffers[id := redoBuffer[..|redoBuffer| - 1]];
          DoCommand(command, id);
          AddUndo(id, command);
        }
      }
      timelines := timelines[id := t.Redone()];
      forall i: nat ensures Matches(UndoStack(i), RedoStack(i), state[i], timelines[i], i) {
        assert i != id ==> old(Matches(UndoStack(i), RedoStack(i), state[i], timelines[i], i));
      }
    }

    /** `k` undos, and then `k` redos: if there was enough to undo, or nothing to redo, everything is as it was before. */
    method UndoAndRedo(id: nat, k: nat)
      requires Valid()
      modifies this
      ensures Valid() && timelines == old(timelines)[id := old(timelines[id]).UndoneTimes(k).RedoneTimes(k)]
      ensures timelines == old(timelines) <==> k <= |old(UndoStack(id))| || old(RedoStack(id)) == []
      ensures k <= |old(UndoStack(id))| || old(RedoStack(id)) == [] ==>
        && state == old(state)
        && forall i: nat :: UndoStack(i) == old(UndoStack(i)) && RedoStack(i) == old(RedoStack(i))
    {
      hide Matches, Apply, Undoable, Timeline.Done, Timeline.Redone, Timeline.Undone;
      ghost var t := timelines[id];
      Sizes(id);
      for j := 0 to k
        invariant Valid() && timelines == old(timelines)[id := t.UndoneTimes(j)]
      {
        TryUndo(id);
      }
      ghost var u := timelines[id];
      for j := 0 to k
        invariant Valid() && timelines == old(timelines)[id := u.RedoneTimes(j)]
      {
        TryRedo(id);
      }
      t.UndoThenRedo(k);
      assert timelines == old(timelines) <==> timelines[id] == t;
      if timelines[id] == t {
        forall i: nat
          ensures UndoStack(i) == old(UndoStack(i)) && RedoStack(i) == old(RedoStack(i)) && state[i] == old(state[i])
        {
          assert old(Matches(UndoStack(i), RedoStack(i), state[i], timelines[i], i));
          MatchesOne(UndoStack(i), RedoStack(i), state[i], old(UndoStack(i)), old(RedoStack(i)), old(state[i]), timelines[i], i);
        }
        assert state == old(state);
      }
    }

    lemma Sizes(id: nat)
      requires Valid()
      ensures |UndoStack(id)| == timelines[id].cursor <= |timelines[id].commands|
      ensures RedoStack(id) == [] <==> timelines[id].cursor == |timelines[id].commands|
    {
    }
  }
}
