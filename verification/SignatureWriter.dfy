/** `write_file` of rs/src/ops/file_utils.rs as it is executed, proved to carry out the program of
    module BatchJobs: without force an exclusive create, with force a refusal of links and then the
    atomic replacement. */
module SignatureWriter {
  import opened Disk
  import opened Paths
  import opened BatchJobs
  import A = AtomicWrite
  import F = FileWriter

  method WriteFileAt(fs: FileSystem, tmp: Name, dest: Name, kind: Entry, file: File, force: bool)
    returns (r: Verdict)
    modifies fs
    ensures (fs.disk, fs.clock, r) == old(fs.Outcome(WriteFile(tmp, dest, kind, file, force)))
  {
    ghost var plan := WriteFile(tmp, dest, kind, file, force);
    if force {
      var reply;
      reply, plan := fs.Call(Inspect(dest), plan);
      if reply != Fine { return Failure(FileWrite(dest)); }
      if kind.SymLink? { return Failure(OutputIsSymlink(dest)); }
      if kind.SubDir? {
        r := OntoDirectory(fs, tmp, dest, file);
        return r;
      }
      r := F.AtomicReplaceFile(fs, dest, tmp, file, false);
      return r;
    }
    if kind.SymLink? || kind.SubDir? {
      var reply;
      reply, plan := fs.Call(Inspect(dest), plan);
      return Failure(if reply == Fine then FileExists(dest) else FileWrite(dest));
    }
    r := F.WriteFileNew(fs, dest, file);
  }

  /** The rename over a directory fails, and the staged file goes. */
  method OntoDirectory(fs: FileSystem, tmp: Name, dest: Name, file: File) returns (r: Verdict)
    modifies fs
    ensures (fs.disk, fs.clock, r) ==
              old(fs.Outcome(A.Stage(tmp, file, false, A.DropTmp(tmp, Failure(FileWrite(dest))),
                                     A.DropTmp(tmp, Failure(FileWrite(tmp))), A.DropTmp(tmp, Failure(FileWrite(tmp))))))
  {
    ghost var failed := A.DropTmp(tmp, Failure(FileWrite(tmp)));
    var s := F.Stage(fs, tmp, file, false, A.DropTmp(tmp, Failure(FileWrite(dest))), failed, failed);
    r := Failure(FileWrite(if s == F.Complete then dest else tmp));
    F.DropTmp(fs, tmp, r);
  }
}
