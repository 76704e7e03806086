# File list adapter of aFileChooser, in Dafny

aFileChooser's `FileListAdapter` binds an ordered list of file-system
entries to an Android list widget. Without the Android toolkit two things
remain, and this project models and proves both:

- **List bookkeeping.** The adapter holds a list of entries and a
  selection-mode flag fixed at construction. `add`, `remove`, `insert`,
  `clear` and `setListItems` change the list and each sends one refresh
  signal (`notifyDataSetChanged`). `getItem`, `getCount` and `getItemId`
  read it. Positions outside the list raise the `IndexOutOfBoundsException`
  of `java.util.List`, modelled as a `Failure` result.
- **Row classification.** `getItemViewType` sorts every position into the
  folder-select template (type 0, selection mode on and the entry a
  directory) or the plain file template (type 1); `getViewTypeCount` is 2.
  `getView` makes the same decision to pick the template, writes the
  entry's name, picks the folder or file icon, and on a folder-select row
  wires the checkbox to report the entry captured at render time.

Modules, one per concept:

- `files.dfy` (`Files`): the `Entry(path, name, isDir)` value.
- `outcome.dfy` (`Outcome`): `Result` (value or `IndexOutOfBounds(index, size)`) and `Option`.
- `lists.dfy` (`Lists`): the two `java.util.List` mutations the adapter
  calls whose semantics are more than a sequence expression,
  `remove(Object)` and `add(int, E)` (`add(E)` and `clear()` are modelled
  directly in the adapter), with their splice and round-trip lemmas.
  `IndexOf` specifies the position where `remove(Object)` cuts; the adapter
  itself never calls `indexOf`.
- `adapter.dfy` (`FileListAdapter`): the adapter state and its list operations.
  The refresh signal is recorded as `shown`, the contents the adapter held at
  each signal; `Refreshes(a)` is its length. `Count` is `getCount`.
- `rows.dfy` (`Rows`): view types (`ViewTypeCount` is `getViewTypeCount`),
  the rendered `Row` value, `getView`, and the checkbox tap.
- `sessions.dfy` (`Sessions`): arbitrary sequences of mutations, and a
  worked folder-select example.

## Model

| member | source | states |
|---|---|---|
| Lists.IndexOf | aFileChooser/src/com/ipaulpro/afilechooser/FileListAdapter.java:61-64 | the first position holding the entry, or -1 exactly when the entry is absent; no earlier position holds it |
| Lists.IndexOfIsFirst | aFileChooser/src/com/ipaulpro/afilechooser/FileListAdapter.java:61-64 | any position holding the entry with none before it is the one `indexOf` reports |
| Lists.RemoveFirst | aFileChooser/src/com/ipaulpro/afilechooser/FileListAdapter.java:61-64 | `remove(Object)` leaves an absent entry's list unchanged; otherwise the result is one element shorter and together with the removed entry holds exactly the original elements |
| Lists.RemoveFirstSplices | aFileChooser/src/com/ipaulpro/afilechooser/FileListAdapter.java:61-64 | removal cuts out exactly the first equal element and keeps the others in order |
| Lists.InsertAt | aFileChooser/src/com/ipaulpro/afilechooser/FileListAdapter.java:66-69 | `add(index, e)` puts `e` at `index`, keeps the elements before it and shifts the later ones up by one |
| Lists.InsertAtUndone | aFileChooser/src/com/ipaulpro/afilechooser/FileListAdapter.java:66-69 | deleting the inserted position gives back the original list |
| Lists.InsertThenRemove | aFileChooser/src/com/ipaulpro/afilechooser/FileListAdapter.java:61-69 | inserting an entry with no equal entry before it and then removing it restores the list |
| FileListAdapter.New | aFileChooser/src/com/ipaulpro/afilechooser/FileListAdapter.java:48-54 | a new adapter is empty, has sent no refresh and keeps the requested selection mode |
| FileListAdapter.GetItem | aFileChooser/src/com/ipaulpro/afilechooser/FileListAdapter.java:76-79 | returns the entry at a position inside `[0, count)` and raises out-of-range with that index and size otherwise |
| FileListAdapter.Count | aFileChooser/src/com/ipaulpro/afilechooser/FileListAdapter.java:86-89 | the count is exactly the number of positions `getItem` accepts |
| FileListAdapter.GetItemId | aFileChooser/src/com/ipaulpro/afilechooser/FileListAdapter.java:81-84 | a row's id is its position, and looked up with `getItem` it gives that row's own entry (or the same failure) |
| FileListAdapter.ItemIdIdentifiesRow | aFileChooser/src/com/ipaulpro/afilechooser/FileListAdapter.java:81-84 | distinct positions have distinct ids |
| FileListAdapter.Add | aFileChooser/src/com/ipaulpro/afilechooser/FileListAdapter.java:56-59 | the count grows by one, the new entry is last, earlier entries stay put, exactly one refresh is sent |
| FileListAdapter.Remove | aFileChooser/src/com/ipaulpro/afilechooser/FileListAdapter.java:61-64 | only the first equal entry is removed and the rest keep their order; an absent entry leaves the list unchanged; one refresh is sent either way |
| FileListAdapter.Insert | aFileChooser/src/com/ipaulpro/afilechooser/FileListAdapter.java:66-69 | succeeds exactly for `0 <= index <= count`: then the entry is at `index`, earlier entries stay, later ones shift up and one refresh is sent; otherwise out-of-range and nothing changes |
| FileListAdapter.Clear | aFileChooser/src/com/ipaulpro/afilechooser/FileListAdapter.java:71-74 | the list is empty, every lookup fails, one refresh is sent |
| FileListAdapter.ListItems | aFileChooser/src/com/ipaulpro/afilechooser/FileListAdapter.java:91-93 | the returned list has `count` entries, each the one `getItem` returns at its position |
| FileListAdapter.SetListItems | aFileChooser/src/com/ipaulpro/afilechooser/FileListAdapter.java:91-104 | `getListItems` then returns `d`, every position holds `d`'s entry, and the only refresh sent announces `d` itself |
| FileListAdapter.AddAllAppends | aFileChooser/src/com/ipaulpro/afilechooser/FileListAdapter.java:56-59 | adding entries one by one appends them in order, sending one refresh per entry with the contents of that moment |
| FileListAdapter.ClearThenRefillShowsEmpty | aFileChooser/src/com/ipaulpro/afilechooser/FileListAdapter.java:95-104 | clearing then refilling reaches the same contents but shows the widget an empty list, which `setListItems` never does |
| Rows.ViewTypeCount | aFileChooser/src/com/ipaulpro/afilechooser/FileListAdapter.java:106-109 | the count is the number of distinct type codes, 2; every entry's view type lies below it and both types occur |
| Rows.ViewTypeOf | aFileChooser/src/com/ipaulpro/afilechooser/FileListAdapter.java:106-119 | the view type is one of the two type codes, and the folder-select type exactly in selection mode on a directory |
| Rows.GetItemViewType | aFileChooser/src/com/ipaulpro/afilechooser/FileListAdapter.java:111-119 | fails out of range like `getItem`; otherwise in `[0, getViewTypeCount())` and 0 exactly when selection mode is on and the entry is a directory |
| Rows.Render | aFileChooser/src/com/ipaulpro/afilechooser/FileListAdapter.java:127-160 | the row shows the entry's name, the folder icon exactly for directories, the folder-select template exactly for view type 0, and such a row captures the entry |
| Rows.GetView | aFileChooser/src/com/ipaulpro/afilechooser/FileListAdapter.java:121-164 | fails out of range like `getItem`; otherwise the row shows the entry's name and the folder icon exactly for a directory |
| Rows.Click | aFileChooser/src/com/ipaulpro/afilechooser/FileListAdapter.java:145-150 | a tap reports an entry exactly on a folder-select row, the only row with a checkbox, and that entry is the one the row captured |
| Rows.GetViewAgreesWithViewType | aFileChooser/src/com/ipaulpro/afilechooser/FileListAdapter.java:111-136 | the template `getView` picks agrees with `getItemViewType`, and a folder-select row always shows the folder icon |
| Rows.ClickReportsRenderedEntry | aFileChooser/src/com/ipaulpro/afilechooser/FileListAdapter.java:136-150 | a rendered row's checkbox exists exactly for view type 0 and reports the entry that was at the position when rendered |
| Sessions.Apply | aFileChooser/src/com/ipaulpro/afilechooser/FileListAdapter.java:56-104 | a mutation fails exactly as an out-of-range insert, reporting its index and the count, and a mutation that completes sends exactly one refresh and keeps the selection mode |
| Sessions.RunSignalsEachMutation | aFileChooser/src/com/ipaulpro/afilechooser/FileListAdapter.java:45-104 | over any completed sequence of mutations the selection mode never changes, each mutation adds one refresh, and the last refresh announces the final contents |
| Sessions.RunFailsOnlyOnBadInsert | aFileChooser/src/com/ipaulpro/afilechooser/FileListAdapter.java:66-69 | a failing sequence of mutations stops at an insert: the mutations before it completed, its index lay outside `[0, count]` of the list they left, and the failure reports that index and count |
| Sessions.ExampleViewTypes | aFileChooser/src/com/ipaulpro/afilechooser/FileListAdapter.java:111-160 | in selection mode with a directory "Photos", a file "a.txt" and a directory "Music": type 0 for "Photos", type 1 and a plain row with the file icon for "a.txt", and "Music" at position 2 |
| Sessions.ExampleRemove | aFileChooser/src/com/ipaulpro/afilechooser/FileListAdapter.java:61-64 | removing "a.txt" from that list leaves "Photos" and "Music", with "Music" now at position 1, after one more refresh |

## Left out

- Android inflation, `View`/`TextView`/`CheckBox`/`ImageView`, the `ViewHolder` with `findViewById`, and `setTag`/`getTag`: toolkit calls; the `Row` value records the template and what is written into it instead.
- Rows.GetView: `convertView` recycling and the casts on a recycled row are not modelled; the model always renders a fresh row. Whether a recycled row fits depends on the hosting widget honouring `getItemViewType`, which is outside this class.
- `R.drawable.*` and `R.layout.*` resource ids: modelled as the `Icon` values and the two `Row` constructors, not as integers.
- Rows.Click: `FileChooserActivity.finishWithResult` is not part of this model; a tap is modelled as returning the captured entry.
- `File.isDirectory()` and `File.getName()` query the file system or the path; both are stored fields of `Entry`.
- `File.equals` compares paths; the model compares whole entries, which agrees as long as name and directory flag are functions of the path.
- `getListItems` hands out the adapter's own list and `setListItems` adopts the caller's list by reference; the model uses values, so later changes through such aliases are not modelled, nor is a caller-supplied list that refuses mutation.
- A `null` entry or list is not modelled.
- Java `int` positions and the `long` item id are modelled as unbounded integers; a list of more than 2^31 - 1 entries is not modelled.
- Threading: all calls happen on the UI thread, so the model is sequential.
