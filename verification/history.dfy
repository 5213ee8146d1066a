/**
 * The undo history of the composition being edited (src/history.rs): a list
 * of snapshots, oldest first, and a cursor on the one being shown.  Undo and
 * redo move the cursor one step and say whether they could.
 *
 * `S` stands for the composition snapshot type (`CompSpec`), whose contents
 * the history never looks at.
 */
module UndoHistory {

  class History<S> {
    /** The snapshots, in chronological order: the most recent edit is last. */
    var history: seq<S>
    /** The index in `history` of the snapshot being shown. */
    var currentUndoIndex: nat

    /** The cursor always points at a snapshot. */
    ghost predicate Valid()
      reads this
    {
      currentUndoIndex < |history|
    }

    /** `History::new`: a history holding only `spec`, which is shown. */
    constructor (spec: S)
      ensures Valid()
      ensures history == [spec] && currentUndoIndex == 0
      ensures CompSpec() == spec
    {
      history := [spec];
      currentUndoIndex := 0;
    }

    /**
     * `undo`: step back to the previous snapshot; `false`, and no change, when
     * already at the oldest one.  The snapshots themselves never change.
     */
    method Undo() returns (moved: bool)
      requires Valid()
      modifies this
      ensures Valid()
      ensures history == old(history)
      ensures moved <==> old(currentUndoIndex) > 0
      ensures currentUndoIndex == if moved then old(currentUndoIndex) - 1 else old(currentUndoIndex)
    {
      if currentUndoIndex == 0 {
        moved := false;
      } else {
        currentUndoIndex := currentUndoIndex - 1;
        moved := true;
      }
    }

    /**
     * `redo`: step forward to the next snapshot; `false`, and no change, when
     * already at the most recent one.  The snapshots themselves never change.
     */
    method Redo() returns (moved: bool)
      requires Valid()
      modifies this
      ensures Valid()
      ensures history == old(history)
      ensures moved <==> old(currentUndoIndex) < |history| - 1
      ensures currentUndoIndex == if moved then old(currentUndoIndex) + 1 else old(currentUndoIndex)
    {
      if currentUndoIndex == |history| - 1 {
        moved := false;
      } else {
        currentUndoIndex := currentUndoIndex + 1;
        moved := true;
      }
    }

    /** `comp_spec`: the snapshot being shown. */
    function CompSpec(): (s: S)
      requires Valid()
      reads this
      ensures s in history
    {
      history[currentUndoIndex]
    }
  }
}
