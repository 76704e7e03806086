/** The list bookkeeping of the file list adapter: an ordered list of
    entries, a selection-mode flag fixed at construction, and the refresh
    signals the adapter has sent to the list widget. */
module FileListAdapter {
  import opened Files
  import opened Outcome
  import Lists

  /** `shown` records every refresh signal, oldest first, as the contents
      the adapter held when it sent it; the number of refreshes is its
      length. */
  datatype Adapter = Adapter(items: seq<Entry>, selectFolder: bool, shown: seq<seq<Entry>>)

  function Refreshes(a: Adapter): nat {
    |a.shown|
  }

  /** `r` is `a` after a mutation that sent exactly one refresh, announcing
      the new contents, and left the selection mode alone. */
  predicate SignalledOnce(a: Adapter, r: Adapter) {
    && r.selectFolder == a.selectFolder
    && r.shown == a.shown + [r.items]
  }

  /** The `notifyDataSetChanged()` call each mutation ends with
      (FileListAdapter.java lines 58, 63, 68, 73 and 103): it records one
      refresh announcing the current contents. */
  function Notify(a: Adapter): (r: Adapter)
    ensures r.items == a.items && SignalledOnce(a, r)
  {
    a.(shown := a.shown + [a.items])
  }

  /** A fresh adapter holds no entries and has signalled nothing. */
  function New(selectFolder: bool): (a: Adapter)
    ensures Count(a) == 0 && Refreshes(a) == 0
    ensures a.selectFolder == selectFolder
  {
    Adapter([], selectFolder, [])
  }

  /** `getCount`: the number of rows, which is exactly the number of
      positions `getItem` accepts. */
  function Count(a: Adapter): (n: nat)
    ensures forall p :: GetItem(a, p).Ok? <==> 0 <= p < n
  {
    |a.items|
  }

  /** `getItem`: the entry at `position`, or the exception `List.get`
      throws outside `[0, count)`. */
  function GetItem(a: Adapter, position: int): (r: Result<Entry>)
    ensures r.Ok? <==> 0 <= position < |a.items|
    ensures r.Ok? ==> r.value == a.items[position]
    ensures r.Failure? ==> r.error == IndexOutOfBounds(position, |a.items|)
  {
    if 0 <= position < |a.items| then Ok(a.items[position])
    else Failure(IndexOutOfBounds(position, |a.items|))
  }

  /** `getItemId`: a row's id is its position, so looking the id up
      gives the row's own entry (or the same failure). */
  function GetItemId(a: Adapter, position: int): (id: int)
    ensures id == position
    ensures GetItem(a, id) == GetItem(a, position)
  {
    position
  }

  /** Ids are distinct for distinct positions. */
  lemma ItemIdIdentifiesRow(a: Adapter, p: int, q: int)
    ensures GetItemId(a, p) == GetItemId(a, q) ==> p == q
  {
  }

  /** `add`: append at the end; everything already there stays put. */
  function Add(a: Adapter, f: Entry): (r: Adapter)
    ensures Count(r) == Count(a) + 1
    ensures GetItem(r, Count(a)) == Ok(f)
    ensures forall i :: 0 <= i < Count(a) ==> GetItem(r, i) == GetItem(a, i)
    ensures SignalledOnce(a, r)
  {
    Notify(a.(items := a.items + [f]))
  }

  /** `remove`: delete the first entry equal to `f`. An absent `f` leaves
      the list as it was, but the refresh is sent all the same. */
  function Remove(a: Adapter, f: Entry): (r: Adapter)
    ensures f !in a.items ==> r.items == a.items
    ensures f in a.items ==> Count(r) == Count(a) - 1
    ensures f in a.items ==>
      var k := Lists.IndexOf(a.items, f);
      0 <= k && r.items == a.items[..k] + a.items[k + 1..]
    ensures f in a.items ==> multiset(r.items) + multiset{f} == multiset(a.items)
    ensures SignalledOnce(a, r)
  {
    if f in a.items then
      Lists.RemoveFirstSplices(a.items, f);
      Notify(a.(items := Lists.RemoveFirst(a.items, f)))
    else
      Notify(a.(items := Lists.RemoveFirst(a.items, f)))
  }

  /** `insert`: place `f` at `index`. Outside `[0, count]` the list throws
      before the refresh line is reached, so nothing changes. */
  function Insert(a: Adapter, f: Entry, index: int): (r: Result<Adapter>)
    ensures r.Ok? <==> 0 <= index <= Count(a)
    ensures r.Failure? ==> r.error == IndexOutOfBounds(index, Count(a))
    ensures r.Ok? ==>
      && Count(r.value) == Count(a) + 1
      && GetItem(r.value, index) == Ok(f)
      && (forall i :: 0 <= i < index ==> GetItem(r.value, i) == GetItem(a, i))
      && (forall i :: index < i <= Count(a) ==> GetItem(r.value, i) == GetItem(a, i - 1))
      && SignalledOnce(a, r.value)
  {
    if 0 <= index <= |a.items| then
      Ok(Notify(a.(items := Lists.InsertAt(a.items, index, f))))
    else
      Failure(IndexOutOfBounds(index, |a.items|))
  }

  /** `clear`: empty the list and signal once. */
  function Clear(a: Adapter): (r: Adapter)
    ensures Count(r) == 0
    ensures forall p :: GetItem(r, p).Failure?
    ensures SignalledOnce(a, r)
  {
    Notify(a.(items := []))
  }

  /** `getListItems`: the whole list, holding at each position the entry
      `getItem` returns there. */
  function ListItems(a: Adapter): (r: seq<Entry>)
    ensures |r| == Count(a)
    ensures forall i :: 0 <= i < |r| ==> GetItem(a, i) == Ok(r[i])
  {
    a.items
  }

  /** `setListItems`: replace the contents wholesale with a single refresh,
      so the only contents the widget is told about are `d` itself. */
  function SetListItems(a: Adapter, d: seq<Entry>): (r: Adapter)
    ensures ListItems(r) == d
    ensures Count(r) == |d|
    ensures forall i :: 0 <= i < |d| ==> GetItem(r, i) == Ok(d[i])
    ensures SignalledOnce(a, r)
    ensures r.shown[Refreshes(a)..] == [d]
  {
    Notify(a.(items := d))
  }

  /** Appending the entries of `d` one `add` at a time. */
  function AddAll(a: Adapter, d: seq<Entry>): (r: Adapter)
    decreases |d|
  {
    if |d| == 0 then a else AddAll(Add(a, d[0]), d[1..])
  }

  /** Adding the entries one by one appends them all and sends one refresh
      per entry, each announcing the contents of that moment. */
  lemma {:induction false} AddAllAppends(a: Adapter, d: seq<Entry>)
    ensures AddAll(a, d).items == a.items + d
    ensures AddAll(a, d).selectFolder == a.selectFolder
    ensures Refreshes(AddAll(a, d)) == Refreshes(a) + |d|
    ensures AddAll(a, d).shown[..Refreshes(a)] == a.shown
    ensures forall j :: 0 < j <= |d| ==> AddAll(a, d).shown[Refreshes(a) + j - 1] == a.items + d[..j]
    decreases |d|
  {
    if |d| > 0 {
      var b := Add(a, d[0]);
      AddAllAppends(b, d[1..]);
      var r := AddAll(b, d[1..]);
      assert a.items + d == b.items + d[1..];
      assert r.shown[..Refreshes(a)] == r.shown[..Refreshes(b)][..Refreshes(a)];
      forall j | 0 < j <= |d|
        ensures r.shown[Refreshes(a) + j - 1] == a.items + d[..j]
      {
        if j > 1 {
          assert d[..j] == [d[0]] + d[1..][..j - 1];
        } else {
          assert r.shown[Refreshes(a)] == r.shown[..Refreshes(b)][Refreshes(a)];
        }
      }
    }
  }

  /** The scroll-preserving design of `setListItems`: clearing and then
      refilling ends with the same contents, but it makes the widget see
      an empty list in between, which `setListItems` never does. */
  lemma ClearThenRefillShowsEmpty(a: Adapter, d: seq<Entry>)
    requires d != []
    ensures Refreshes(AddAll(Clear(a), d)) == Refreshes(a) + 1 + |d|
    ensures AddAll(Clear(a), d).items == SetListItems(a, d).items
    ensures [] in AddAll(Clear(a), d).shown[Refreshes(a)..]
    ensures [] !in SetListItems(a, d).shown[Refreshes(a)..]
  {
    var c := Clear(a);
    AddAllAppends(c, d);
    assert AddAll(c, d).shown[Refreshes(a)..][0] == c.shown[Refreshes(a)];
  }
}
