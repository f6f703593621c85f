/** The parts of the file system that the mod manager reads, passed in as data. */
module FileSystem {

  /** What a path names at the moment it is read: nothing, a text file given
      as its lines (each as iterated by Python, line ending included), or a
      directory given as its listing in the order `os.listdir` returns it. */
  datatype Node =
    | Missing
    | File(lines: seq<string>)
    | Directory(names: seq<string>)

  /** The exceptions the core raises when a path exists but has the wrong kind. */
  datatype IoError =
    | OpenedDirectory     // `open` on a path that is a directory
    | ListedFile          // `os.listdir` on a path that is a file

  datatype Result<T> = Ok(value: T) | Err(error: IoError)
}
