/** The two operating-system calls the image handlers make: os.Stat and os.WriteFile. */
module OsFiles {
  import opened Hex

  /** os.Stat reduced to its three outcomes: success, os.ErrNotExist, any other error. */
  datatype StatResult = Exists | NotExist | OtherError

  /**
   * The file system as the handlers see it: the contents of each file by path,
   * the paths whose os.Stat fails for a reason other than absence (permissions,
   * I/O), and the paths os.WriteFile cannot write.
   */
  class FileSystem {
    var files: map<string, seq<byte>>
    var statFaults: set<string>
    var writeFaults: set<string>

    constructor (files: map<string, seq<byte>>, statFaults: set<string>, writeFaults: set<string>)
      ensures this.files == files && this.statFaults == statFaults && this.writeFaults == writeFaults
    {
      this.files := files;
      this.statFaults := statFaults;
      this.writeFaults := writeFaults;
    }

    /** os.Stat(path). */
    function Stat(path: string): StatResult
      reads this
    {
      if path in statFaults then OtherError
      else if path in files then Exists
      else NotExist
    }

    /** os.WriteFile(path, data, 0644): creates or replaces the file, unless the path is not writable. */
    method WriteFile(path: string, data: seq<byte>) returns (ok: bool)
      modifies this`files
      ensures ok <==> path !in writeFaults
      ensures files == if ok then old(files)[path := data] else old(files)
    {
      ok := path !in writeFaults;
      if ok {
        files := files[path := data];
      }
    }
  }
}
