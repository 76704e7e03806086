/** A file-system entry as the file chooser sees it. */
module Files {

  /** An entry is compared by value: the model treats two entries as the
      same file only when path, name and is-directory flag all agree.
      `File.equals` compares paths alone, so the two agree only while the
      name and flag stored for a path do not vary. */
  datatype Entry = Entry(path: string, name: string, isDir: bool)
}
