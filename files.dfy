/**
 * The output side of the file system, kept abstract: the set of category directories
 * and a map from output path to file contents. Whether `mkdir` or a write raises is
 * decided by the two fixed oracles of a `Disk`, since the real outcome depends on the disk.
 */
module Files {
  import opened Base

  /** `os.path.join(output_root, category)` */
  datatype Dir = Dir(root: string, category: string)

  /** `os.path.join(category_folder, file_name)` */
  datatype Path = Path(dir: Dir, name: string)

  /** The error text of writing into a directory that does not exist. */
  const NO_SUCH_DIRECTORY: string := "No such file or directory"

  /**
   * How a write into an existing directory goes wrong: either `open(p, "wb")` raises and
   * the file is left alone, or the file is opened, which empties it, and the write raises
   * once its first `written` bytes have reached the disk.
   */
  datatype WriteFault =
    | OpenRefused(message: string)
    | WriteBroken(message: string, written: nat)

  /** What the file holds after writing `contents` met `fault`: None when it was never opened. */
  function Leftover(fault: Option<WriteFault>, contents: Bytes): (left: Option<Bytes>)
    ensures fault == None ==> left == Some(contents)
    ensures left.Some? ==> left.value <= contents
    ensures left == None <==> fault.Some? && fault.value.OpenRefused?
  {
    match fault
    case None => Some(contents)
    case Some(OpenRefused(_)) => None
    case Some(WriteBroken(_, n)) => Some(contents[..Min(n, |contents|)])
  }

  /**
   * The disk's behaviour, fixed for a run: the error creating a missing directory raises,
   * and how writing a file goes wrong, when it does.
   */
  datatype Disk = Disk(mkdirError: Dir -> Option<string>, writeFault: Path -> Option<WriteFault>)
  {
    /** What `mkdir(parents=True, exist_ok=True)` raises when the folders `dirs` exist. */
    function MkdirError(dirs: set<Dir>, d: Dir): Option<string> {
      if d in dirs then None else mkdirError(d)
    }

    /** What writing `p` raises once its directory exists. */
    function WriteError(p: Path): Option<string> {
      if writeFault(p) == None then None else Some(writeFault(p).value.message)
    }

    /** A disk on which no mkdir and no write ever raises. */
    ghost predicate Healthy() {
      (forall d :: mkdirError(d) == None) && (forall p :: writeFault(p) == None)
    }
  }

  class FileSystem {
    var dirs: set<Dir>
    var files: map<Path, Bytes>
    const disk: Disk

    constructor (dirs0: set<Dir>, files0: map<Path, Bytes>, disk: Disk)
      ensures this.dirs == dirs0 && this.files == files0 && this.disk == disk
    {
      this.dirs := dirs0;
      this.files := files0;
      this.disk := disk;
    }

    /** `Path(d).mkdir(parents=True, exist_ok=True)`: succeeds at once for an existing directory. */
    method MakeDirs(d: Dir) returns (err: Option<string>)
      modifies this
      ensures err == disk.MkdirError(old(dirs), d)
      ensures dirs == (if err == None then old(dirs) + {d} else old(dirs))
      ensures files == old(files)
    {
      if d in dirs {
        err := None;
      } else {
        err := disk.mkdirError(d);
        if err == None {
          dirs := dirs + {d};
        }
      }
    }

    /**
     * `with open(p, "wb") as f: f.write(contents)`. On success the file holds the contents.
     * A write that raises after the open leaves the file holding only the bytes written so
     * far, possibly none; an open that raises leaves it alone. `left` is what the file holds
     * afterwards when it was opened.
     */
    method WriteFile(p: Path, contents: Bytes) returns (err: Option<string>, left: Option<Bytes>)
      modifies this
      ensures p.dir !in old(dirs) ==> err == Some(NO_SUCH_DIRECTORY) && left == None
      ensures p.dir in old(dirs) ==> err == disk.WriteError(p) && left == Leftover(disk.writeFault(p), contents)
      ensures err == None ==> left == Some(contents)
      ensures left.Some? ==> left.value <= contents
      ensures files == (if left.Some? then old(files)[p := left.value] else old(files))
      ensures dirs == old(dirs)
    {
      if p.dir !in dirs {
        err, left := Some(NO_SUCH_DIRECTORY), None;
      } else {
        var fault := disk.writeFault(p);
        err := if fault == None then None else Some(fault.value.message);
        left := Leftover(fault, contents);
        if left.Some? {
          files := files[p := left.value];
        }
      }
    }
  }
}
