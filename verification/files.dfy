/**
 * The file system the editor reads and writes, reduced to what open and save
 * can observe. A path mapped to Some(c) is a readable, writable file whose
 * text-mode read gives c, with line endings already translated to "\n"; a
 * path mapped to None names no file yet but may be created; a path with no
 * entry cannot be opened at all, so both reading and writing it fail.
 */
module Files {
  import opened Wrappers

  type FileMap = map<string, Option<string>>

  /** open(path, 'r').read(): the text the map records for the path, or None
      when opening or reading fails. */
  function ReadResult(files: FileMap, path: string): (r: Option<string>)
    ensures r.Some? ==> path in files && files[path] == r
    ensures path in files ==> r == files[path]
  {
    if path in files then files[path] else None
  }

  /** open(path, 'w').write(data): the file holds data afterwards, or nothing
      changes when the path cannot be opened for writing. */
  function Written(files: FileMap, path: string, data: string): (r: FileMap)
    ensures path in files ==> ReadResult(r, path) == Some(data)
    ensures path !in files ==> r == files
    ensures r.Keys == files.Keys
    ensures forall q :: q != path ==> ReadResult(r, q) == ReadResult(files, q)
  {
    if path in files then files[path := Some(data)] else files
  }

  class FileSystem {
    var files: FileMap

    constructor (files: FileMap)
      ensures this.files == files
    {
      this.files := files;
    }

    /** Writes data to path; ok tells whether the write took place. */
    method Write(path: string, data: string) returns (ok: bool)
      modifies this
      ensures ok == (path in old(files))
      ensures files == Written(old(files), path, data)
    {
      ok := path in files;
      if ok {
        files := files[path := Some(data)];
      }
    }
  }
}
