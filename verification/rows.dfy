/** What the adapter hands the list widget for one position: the view type
    that keys the widget's recycling, and the populated row. The toolkit's
    views are replaced by a value that records which template was chosen
    and what was written into it. */
module Rows {
  import opened Files
  import opened Outcome
  import opened FileListAdapter

  datatype Icon = FolderIcon | FileIcon

  /** A folder row built from the folder-select template (name, icon and a
      checkbox whose click reports `onCheck`), or a plain file row built
      from the single-text-line template. */
  datatype Row =
    | FolderSelectRow(name: string, icon: Icon, onCheck: Entry)
    | FileRow(name: string, icon: Icon)

  const FolderSelectType := 0
  const FileType := 1

  /** `getViewTypeCount`: the number of row templates, one per distinct
      type code. Every entry's view type lies below it, and both types
      below it occur. */
  function ViewTypeCount(): (n: int)
    ensures n == |{FolderSelectType, FileType}|
    ensures forall selectFolder: bool, e: Entry :: 0 <= ViewTypeOf(selectFolder, e) < n
    ensures exists selectFolder: bool, e: Entry :: ViewTypeOf(selectFolder, e) == FolderSelectType
    ensures exists selectFolder: bool, e: Entry :: ViewTypeOf(selectFolder, e) == FileType
  {
    assert ViewTypeOf(true, Entry([], [], true)) == FolderSelectType;
    assert ViewTypeOf(false, Entry([], [], true)) == FileType;
    2
  }

  /** The view type of an entry: the folder-select template in selection
      mode for a directory, the plain template otherwise. */
  function ViewTypeOf(selectFolder: bool, e: Entry): (t: int)
    ensures t == FolderSelectType || t == FileType
    ensures t == FolderSelectType <==> selectFolder && e.isDir
    ensures t == FileType <==> !(selectFolder && e.isDir)
  {
    if selectFolder && e.isDir then FolderSelectType else FileType
  }

  /** `getItemViewType`: looks the entry up first, so a position out of
      range throws as `getItem` does. */
  function GetItemViewType(a: Adapter, position: int): (r: Result<int>)
    ensures r.Ok? <==> 0 <= position < Count(a)
    ensures r.Failure? ==> r.error == IndexOutOfBounds(position, Count(a))
    ensures r.Ok? ==> 0 <= r.value < ViewTypeCount()
    ensures r.Ok? ==> (r.value == FolderSelectType <==> a.selectFolder && a.items[position].isDir)
  {
    var file :- GetItem(a, position);
    Ok(ViewTypeOf(a.selectFolder, file))
  }

  /** The row `getView` populates for `e`. */
  function Render(selectFolder: bool, e: Entry): (row: Row)
    ensures row.name == e.name
    ensures row.icon == FolderIcon <==> e.isDir
    ensures row.FolderSelectRow? <==> ViewTypeOf(selectFolder, e) == FolderSelectType
    ensures row.FolderSelectRow? ==> row.icon == FolderIcon && row.onCheck == e
  {
    if selectFolder && e.isDir then
      FolderSelectRow(e.name, FolderIcon, e)
    else
      FileRow(e.name, if e.isDir then FolderIcon else FileIcon)
  }

  /** `getView` on a freshly inflated row. It only reads the adapter. */
  function GetView(a: Adapter, position: int): (r: Result<Row>)
    ensures r.Ok? <==> 0 <= position < Count(a)
    ensures r.Failure? ==> r.error == IndexOutOfBounds(position, Count(a))
    ensures r.Ok? ==> r.value.name == a.items[position].name
    ensures r.Ok? ==> (r.value.icon == FolderIcon <==> a.items[position].isDir)
  {
    var file :- GetItem(a, position);
    Ok(Render(a.selectFolder, file))
  }

  /** Tapping a row's checkbox: a folder row reports the entry it captured
      when it was rendered; a plain row has no checkbox. */
  function Click(row: Row): (r: Option<Entry>)
    ensures r.Some? <==> row.FolderSelectRow?
    ensures r.Some? ==> r.value == row.onCheck
  {
    match row
    case FolderSelectRow(_, _, e) => Some(e)
    case FileRow(_, _) => None
  }

  /** The template `getView` picks agrees with the view type the widget
      keys its recycling on, and a folder-select row always shows the
      folder icon. */
  lemma GetViewAgreesWithViewType(a: Adapter, position: int)
    requires 0 <= position < Count(a)
    ensures GetView(a, position).value.FolderSelectRow? <==> GetItemViewType(a, position) == Ok(FolderSelectType)
    ensures GetView(a, position).value.FileRow? <==> GetItemViewType(a, position) == Ok(FileType)
    ensures GetView(a, position).value.FolderSelectRow? ==> GetView(a, position).value.icon == FolderIcon
  {
  }

  /** The checkbox of a rendered row exists exactly on folder-select rows
      and reports the entry at that position when the row was rendered.
      The row is a value with no link to the list, so later changes to the
      adapter cannot alter what a pending tap reports. */
  lemma ClickReportsRenderedEntry(a: Adapter, position: int)
    requires 0 <= position < Count(a)
    ensures Click(GetView(a, position).value).Some? <==> GetItemViewType(a, position) == Ok(FolderSelectType)
    ensures Click(GetView(a, position).value).Some? ==> Click(GetView(a, position).value).value == a.items[position]
  {
  }
}
