/**
  The command surface of the bot: each chat command is dispatched to its
  handler in `ListStore`, one at a time, and a session is a sequence of
  commands applied in order. The lemmas here relate several commands:
  undo after a mutation, undo twice, a run of adds, and the item
  well-formedness every command keeps.
 */
module Commands {
  import opened ListStore

  datatype Command =
    | ListItems
    | AddItems(args: seq<string>)
    | RemoveItem(args: seq<string>)
    | ClearList
    | UndoLast

  datatype Reply =
    | Shown(view: View)
    | AddReplies(added: seq<AddReply>)
    | RemoveResult(removed: RemoveReply)
    | Cleared
    | Restored(view: View)

  /** The state after one command, and the reply it sent. */
  datatype Handled = Handled(state: State, reply: Reply)

  /** The commands that take a fresh undo backup. */
  predicate IsMutation(c: Command) {
    c.AddItems? || c.RemoveItem? || c.ClearList?
  }

  /** One command handled to completion. Listing changes nothing, every
      mutation backs up the list it found, and undo copies the backup into
      the list without touching the backup. */
  function Step(s: State, c: Command): (r: Handled)
    ensures c.ListItems? ==> r.state == s
    ensures IsMutation(c) ==> r.state.backup == s.list
    ensures c.UndoLast? ==> r.state == State(s.backup, s.backup)
  {
    match c
    case ListItems => Handled(s, Shown(Show(s)))
    case AddItems(args) =>
      var added := Add(s, args);
      Handled(added.state, AddReplies(added.replies))
    case RemoveItem(args) =>
      var removed := Remove(s, args);
      Handled(removed.state, RemoveResult(removed.reply))
    case ClearList => Handled(Clear(s), Cleared)
    case UndoLast =>
      var undone := Undo(s);
      Handled(undone.state, Restored(undone.view))
  }

  /** The state after handling `cmds` in order. A session of `/list`
      commands only changes nothing, and a session that ends in `/undo`
      leaves the list equal to its backup. */
  function Run(s: State, cmds: seq<Command>): (r: State)
    ensures (forall k :: 0 <= k < |cmds| ==> cmds[k].ListItems?) ==> r == s
    ensures |cmds| > 0 && cmds[|cmds| - 1].UndoLast? ==> r.list == r.backup
    decreases |cmds|
  {
    if |cmds| == 0 then s
    else
      var rest := cmds[1..];
      assert |rest| > 0 ==> rest[|rest| - 1] == cmds[|cmds| - 1];
      Run(Step(s, cmds[0]).state, rest)
  }

  /** Running one more command is one more step. */
  lemma {:induction false} RunSnoc(s: State, cmds: seq<Command>, c: Command)
    ensures Run(s, cmds + [c]) == Step(Run(s, cmds), c).state
    decreases |cmds|
  {
    if |cmds| == 0 {
      assert cmds + [c] == [c];
    } else {
      assert (cmds + [c])[1..] == cmds[1..] + [c];
      RunSnoc(Step(s, cmds[0]).state, cmds[1..], c);
    }
  }

  /** Undo right after add, remove or clear brings back the list exactly as
      it was before that command. */
  lemma UndoRevertsMutation(s: State, c: Command)
    requires IsMutation(c)
    ensures Step(Step(s, c).state, UndoLast).state.list == s.list
  {
  }

  /** The same at the end of any session: whatever came before, a mutation
      followed by undo leaves the list it started from. */
  lemma UndoRevertsLastMutation(s: State, cmds: seq<Command>, c: Command)
    requires IsMutation(c)
    ensures Run(s, cmds + [c, UndoLast]).list == Run(s, cmds).list
  {
    assert cmds + [c, UndoLast] == (cmds + [c]) + [UndoLast];
    RunSnoc(s, cmds + [c], UndoLast);
    RunSnoc(s, cmds, c);
  }

  /** Undo takes no backup of its own, so a second undo has no further
      effect: the undo history is one level deep. */
  lemma UndoTwiceIsUndoOnce(s: State)
    ensures Step(Step(s, UndoLast).state, UndoLast) == Step(s, UndoLast)
  {
  }

  /** Undo before any mutation empties the list, even when a stored list was
      restored at startup: restoring replaces only the list. */
  lemma UndoBeforeAnyMutation(stored: Option<seq<string>>)
    ensures Step(Startup(stored), UndoLast).state.list == []
  {
  }

  /** Everything a run of add commands appends, in command-then-segment
      order. */
  function AddedBy(cmds: seq<Command>): seq<string>
    requires forall k :: 0 <= k < |cmds| ==> cmds[k].AddItems?
  {
    if |cmds| == 0 then [] else Kept(Segments(cmds[0].args)) + AddedBy(cmds[1..])
  }

  /** A run of adds appends every non-empty segment of every call, in
      call-then-segment order, and never drops an earlier item. */
  lemma {:induction false} RunOfAdds(s: State, cmds: seq<Command>)
    requires forall k :: 0 <= k < |cmds| ==> cmds[k].AddItems?
    ensures Run(s, cmds).list == s.list + AddedBy(cmds)
    decreases |cmds|
  {
    if |cmds| > 0 {
      var first := Kept(Segments(cmds[0].args));
      var next := Add(s, cmds[0].args).state;
      assert Step(s, cmds[0]).state == next;
      assert Run(s, cmds) == Run(next, cmds[1..]);
      RunOfAdds(next, cmds[1..]);
      assert next.list == s.list + first;
      var later := AddedBy(cmds[1..]);
      assert AddedBy(cmds) == first + later;
      AppendAssociative(s.list, first, later);
    }
  }

  /** Every command keeps all items well formed. */
  lemma StepKeepsWellFormed(s: State, c: Command)
    requires WellFormed(s)
    ensures WellFormed(Step(s, c).state)
  {
    match c
    case AddItems(args) =>
      KeptAreItems(Segments(args));
      var next := Add(s, args).state;
      assert Step(s, c).state == next;
      assert next.list == s.list + Kept(Segments(args));
    case RemoveItem(args) =>
      var next := Remove(s, args).state;
      assert Step(s, c).state == next;
      if Remove(s, args).reply.Removed? {
        forall x | x in next.list
          ensures x in s.list
        {
          assert x in multiset(next.list);
          assert x in multiset(s.list);
        }
      }
    case _ =>
  }

  /** A session that starts from well-formed items (in particular from an
      empty list, or from a list saved by an earlier session) only ever
      holds well-formed items. */
  lemma {:induction false} RunKeepsWellFormed(s: State, cmds: seq<Command>)
    requires WellFormed(s)
    ensures WellFormed(Run(s, cmds))
    decreases |cmds|
  {
    if |cmds| > 0 {
      StepKeepsWellFormed(s, cmds[0]);
      RunKeepsWellFormed(Step(s, cmds[0]).state, cmds[1..]);
    }
  }
}
