/** Values that stand for the outside world of a CondIO object: file handles,
    the targets they are opened on, the KeyError it raises, and the ordered
    record of what it opens, writes and closes. */
module Effects {

  datatype Option<T> = None | Some(value: T)

  /** A normal return carrying `value`, or the exception Python raises: KeyError
      for `key`, UnsupportedOperation when writing to a file not opened for
      writing, TypeError when writing text to a file opened in binary mode. */
  datatype Result<T> = Ok(value: T) | KeyError(key: string) | UnsupportedOperation | TypeError

  /** What `open` is called on: the entry's own path, or the null device. */
  datatype Target = Real(path: string) | DevNull

  /** An `open` mode allows writing when it asks to write, append, create or update. */
  predicate Writable(mode: string)
  {
    'w' in mode || 'a' in mode || 'x' in mode || '+' in mode
  }

  /** An `open` mode gives a binary file, which accepts bytes and not text. */
  predicate Binary(mode: string)
  {
    'b' in mode
  }

  /** The file object an entry holds once it has been opened. */
  datatype Handle = Handle(target: Target, mode: string)

  /** One observable I/O action, in the order the object performs them. */
  datatype Event =
    | Open(key: string, target: Target, mode: string)
    | Close(key: string)
    | WriteFile(target: Target, text: string)
    | WriteStdout(text: string)
}
