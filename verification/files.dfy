/** The attributes of a file that the loader reads: its name, whether it is
    a regular file, its modification time and its length. The filesystem
    itself is not modelled; these are given values. */
module Files {
  datatype FileEntry = FileEntry(name: string, isFile: bool, lastModified: int, length: int)
}
