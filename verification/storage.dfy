/**
 * The local filesystem the controller writes to (the temporary PDF folder
 * and the extracted-text folder), and the path joining of `os.path.join`.
 */
module Storage {

  type Byte = bv8

  /** What a file holds: the uploaded bytes, or text written in text mode. */
  datatype FileContent = Binary(bytes: seq<Byte>) | Text(chars: string)

  /** The filesystem: every existing file, by path. */
  class FileSystem {
    var files: map<string, FileContent>

    constructor (files: map<string, FileContent>)
      ensures this.files == files
    {
      this.files := files;
    }
  }

  /**
   * `os.path.join(dir, name)` on POSIX: an absolute `name` replaces `dir`;
   * otherwise a separator is inserted unless `dir` is empty or ends in one.
   */
  function Join(dir: string, name: string): (r: string)
    ensures |r| >= |name| && r[|r| - |name|..] == name
    ensures (|name| == 0 || name[0] != '/') && |dir| > 0 && dir[|dir| - 1] != '/' ==> r == dir + "/" + name
  {
    if |name| > 0 && name[0] == '/' then name
    else if |dir| == 0 || dir[|dir| - 1] == '/' then dir + name
    else dir + "/" + name
  }
}
