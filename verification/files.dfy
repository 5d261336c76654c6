/** The local file system the download and merge steps act on, as a map from path to bytes. */
module Files {
  import opened Outcomes

  newtype byte = b: int | 0 <= b < 256

  type Bytes = seq<byte>

  type FileSystem = map<string, Bytes>

  /** The result of a file operation: the file system afterwards and how the call ended. */
  datatype Effect = Effect(fs: FileSystem, status: Status)

  /** The content of `name`, or nothing if there is no such file yet. */
  function ContentOrEmpty(fs: FileSystem, name: string): Bytes
  {
    if name in fs then fs[name] else []
  }

  /** `with open(name, 'wb'): pass` — the file exists afterwards and is empty; no other file changes. */
  function CreateEmpty(fs: FileSystem, name: string): (r: FileSystem)
    ensures name in r && r[name] == []
    ensures r.Keys == fs.Keys + {name}
    ensures forall n :: n in fs && n != name ==> r[n] == fs[n]
  {
    fs[name := []]
  }

  /** The size of the buffer `open(name, 'ab')` gives the file it returns:
      `io.DEFAULT_BUFFER_SIZE`, which `open` uses where the platform reports no block size, as
      on the Windows systems whose `\\`-separated paths this code builds. */
  const WriteBuffer: nat := 8192

  /** Appending a file to itself when it does not fit the write buffer. `copyfileobj` reads,
      then writes what it read; a write longer than the buffer goes straight to the disk, so
      the next read finds the bytes just appended and the end of the file is never reached.
      The copy goes on until a write fails. */
  predicate RunsAway(fs: FileSystem, dest: string, src: string)
  {
    src == dest && src in fs && |fs[src]| > WriteBuffer
  }

  /** `_concatenateFile(dest, src)`: `dest` is opened for appending first (and so exists
      afterwards even when `src` cannot be opened); then the content of `src` is copied to its
      end, or `FileNotFoundError` is raised when `src` does not exist. A file appended to
      itself within the write buffer receives one copy of the content it had when the copy
      began, flushed when the file is closed; a larger one runs away and ends in `OSError`.
      No other file changes. */
  function ConcatenateFile(fs: FileSystem, dest: string, src: string): (r: Effect)
    ensures r.fs.Keys == fs.Keys + {dest}
    ensures r.status == Done <==> (src in fs || src == dest) && !RunsAway(fs, dest, src)
    ensures r.status == Raised(FileNotFoundError(src)) <==> src !in fs && src != dest
    ensures r.status == Raised(OSError(dest)) <==> RunsAway(fs, dest, src)
    ensures r.status == Done ==> r.fs[dest] == ContentOrEmpty(fs, dest) + ContentOrEmpty(fs, src)
    ensures r.status.Raised? ==> ContentOrEmpty(fs, dest) <= r.fs[dest]
    ensures r.status == Raised(FileNotFoundError(src)) ==> r.fs[dest] == ContentOrEmpty(fs, dest)
    ensures forall n :: n in fs && n != dest ==> r.fs[n] == fs[n]
  {
    var appendable := fs[dest := ContentOrEmpty(fs, dest)];
    if RunsAway(fs, dest, src) then Effect(appendable, Raised(OSError(dest)))
    else if src in appendable then Effect(appendable[dest := appendable[dest] + appendable[src]], Done)
    else Effect(appendable, Raised(FileNotFoundError(src)))
  }

  /** `os.remove(name)`: the file is gone afterwards; `FileNotFoundError` if it never existed.
      No other file changes. */
  function RemoveFile(fs: FileSystem, name: string): (r: Effect)
    ensures r.fs.Keys == fs.Keys - {name}
    ensures r.status == Done <==> name in fs
    ensures r.status.Raised? ==> r.status.error == FileNotFoundError(name)
    ensures forall n :: n in r.fs ==> r.fs[n] == fs[n]
  {
    if name in fs then Effect(fs - {name}, Done)
    else Effect(fs, Raised(FileNotFoundError(name)))
  }
}
