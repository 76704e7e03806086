/** Sequences of mutations applied to one adapter, as the hosting screen
    issues them. An out-of-range `insert` throws, which ends the sequence. */
module Sessions {
  import opened Files
  import opened Outcome
  import opened FileListAdapter
  import opened Rows

  datatype Op =
    | AddOp(f: Entry)
    | RemoveOp(f: Entry)
    | InsertOp(f: Entry, index: int)
    | ClearOp
    | SetOp(d: seq<Entry>)

  /** One public mutation of the adapter. */
  function Apply(a: Adapter, op: Op): (r: Result<Adapter>)
    ensures r.Failure? <==> op.InsertOp? && !(0 <= op.index <= Count(a))
    ensures r.Failure? ==> r.error == IndexOutOfBounds(op.index, Count(a))
    ensures r.Ok? ==> SignalledOnce(a, r.value)
  {
    match op
    case AddOp(f) => Ok(Add(a, f))
    case RemoveOp(f) => Ok(Remove(a, f))
    case InsertOp(f, index) => Insert(a, f, index)
    case ClearOp => Ok(Clear(a))
    case SetOp(d) => Ok(SetListItems(a, d))
  }

  /** The mutations in order, stopping at the first one that throws. */
  function Run(a: Adapter, ops: seq<Op>): Result<Adapter>
    decreases |ops|
  {
    if |ops| == 0 then Ok(a)
    else
      var b :- Apply(a, ops[0]);
      Run(b, ops[1..])
  }

  /** Over any sequence of mutations that completes: the selection mode
      never changes, earlier refreshes are kept, each mutation adds exactly
      one refresh, and the last refresh announces the final contents. */
  lemma {:induction false} RunSignalsEachMutation(a: Adapter, ops: seq<Op>)
    requires Run(a, ops).Ok?
    ensures Run(a, ops).value.selectFolder == a.selectFolder
    ensures Refreshes(Run(a, ops).value) == Refreshes(a) + |ops|
    ensures Run(a, ops).value.shown[..Refreshes(a)] == a.shown
    ensures ops != [] ==> Run(a, ops).value.shown[Refreshes(a) + |ops| - 1] == Run(a, ops).value.items
    decreases |ops|
  {
    if |ops| > 0 {
      var b := Apply(a, ops[0]).value;
      assert Run(a, ops) == Run(b, ops[1..]);
      assert SignalledOnce(a, b);
      RunSignalsEachMutation(b, ops[1..]);
      var r := Run(b, ops[1..]).value;
      assert r.shown[..Refreshes(a)] == r.shown[..Refreshes(b)][..Refreshes(a)];
      if |ops| == 1 {
        assert r == b;
      }
    }
  }

  /** A sequence fails only at an `insert`: every mutation before it
      completed, its index lay outside `[0, count]` of the list they left,
      and the failure reports that index and that count. */
  lemma {:induction false} RunFailsOnlyOnBadInsert(a: Adapter, ops: seq<Op>)
    requires Run(a, ops).Failure?
    ensures exists i ::
      && 0 <= i < |ops|
      && Run(a, ops[..i]).Ok?
      && ops[i].InsertOp?
      && !(0 <= ops[i].index <= Count(Run(a, ops[..i]).value))
      && Run(a, ops).error == IndexOutOfBounds(ops[i].index, Count(Run(a, ops[..i]).value))
    decreases |ops|
  {
    var r := Apply(a, ops[0]);
    if r.Failure? {
      assert ops[..0] == [];
      assert Run(a, ops[..0]) == Ok(a);
    } else {
      RunFailsOnlyOnBadInsert(r.value, ops[1..]);
      var i :| 0 <= i < |ops[1..]| && Run(r.value, ops[1..][..i]).Ok? && ops[1..][i].InsertOp?
        && !(0 <= ops[1..][i].index <= Count(Run(r.value, ops[1..][..i]).value))
        && Run(r.value, ops[1..]).error == IndexOutOfBounds(ops[1..][i].index, Count(Run(r.value, ops[1..][..i]).value));
      assert ops[i + 1] == ops[1..][i];
      assert ops[..i + 1][0] == ops[0];
      assert ops[..i + 1][1..] == ops[1..][..i];
      assert Run(a, ops[..i + 1]) == Run(r.value, ops[1..][..i]);
    }
  }

  /** The worked example: a folder-select adapter filled with the
      directory "Photos", the file "a.txt" and the directory "Music". */
  const Photos := Entry("/sd/Photos", "Photos", true)
  const TextFile := Entry("/sd/a.txt", "a.txt", false)
  const Music := Entry("/sd/Music", "Music", true)

  function ExampleAdapter(): (a: Adapter)
    ensures a.items == [Photos, TextFile, Music]
    ensures a.selectFolder && Refreshes(a) == 1
  {
    SetListItems(New(true), [Photos, TextFile, Music])
  }

  /** In the example the directories get the folder-select template and
      the file gets a plain row with the file icon. */
  lemma ExampleViewTypes()
    ensures GetItemViewType(ExampleAdapter(), 0) == Ok(FolderSelectType)
    ensures GetItemViewType(ExampleAdapter(), 1) == Ok(FileType)
    ensures GetItem(ExampleAdapter(), 2).value.name == "Music"
    ensures GetView(ExampleAdapter(), 1) == Ok(FileRow("a.txt", FileIcon))
  {
  }

  /** Removing the file from the example leaves the two directories, with
      "Music" moved up to position 1, after a second refresh. */
  lemma ExampleRemove()
    ensures Remove(ExampleAdapter(), TextFile).items == [Photos, Music]
    ensures GetItem(Remove(ExampleAdapter(), TextFile), 1).value.name == "Music"
    ensures Refreshes(Remove(ExampleAdapter(), TextFile)) == 2
  {
  }
}
