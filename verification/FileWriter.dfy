/** The single-file writers as they are executed, proved to carry out the programs in
    `AtomicWrite`. */
module FileWriter {
  import opened Disk
  import A = AtomicWrite

  datatype Staged = Complete | ModeFailed | WriteFailed

  /** Open exclusively, set the mode if asked to, write everything, sync. */
  method Stage(fs: FileSystem, tmp: Name, file: File, mode: bool,
               ghost fine: Prog, ghost failed: Prog, ghost modeFailed: Prog)
    returns (s: Staged)
    modifies fs
    ensures fs.Outcome(match s case Complete => fine case ModeFailed => modeFailed case WriteFailed => failed)
         == old(fs.Outcome(A.Stage(tmp, file, mode, fine, failed, modeFailed)))
  {
    ghost var plan := A.Stage(tmp, file, mode, fine, failed, modeFailed);
    var reply;
    reply, plan := fs.Call(CreateNew(tmp, file.ino), plan);
    if reply != Fine { return WriteFailed; }
    if mode {
      reply, plan := fs.Call(SetMode(tmp), plan);
      if reply != Fine { return ModeFailed; }
    }
    reply, plan := fs.Call(WriteSome(tmp, file.data), plan);
    if reply != Fine { return WriteFailed; }
    reply, plan := fs.Call(WriteRest(tmp, file.data), plan);
    if reply != Fine { return WriteFailed; }
    reply, plan := fs.Call(SyncFile(tmp), plan);
    return if reply == Fine then Complete else WriteFailed;
  }

  method DropTmp(fs: FileSystem, tmp: Name, ghost r: Verdict)
    modifies fs
    ensures fs.Outcome(Done(r)) == old(fs.Outcome(A.DropTmp(tmp, r)))
  {
    var _, rest := fs.Call(Remove(tmp), A.DropTmp(tmp, r));
  }

  method AtomicReplaceFile(fs: FileSystem, path: Name, tmp: Name, file: File, mode: bool)
    returns (r: Verdict)
    modifies fs
    ensures (fs.disk, fs.clock, r) == old(fs.Outcome(A.AtomicReplace(path, tmp, file, mode)))
  {
    ghost var failed := A.DropTmp(tmp, Failure(FileWrite(tmp)));
    ghost var rename := Step(Rename(tmp, path), Forward,
      Step(SyncDir(path), Forward, Done(Success), Done(Failure(ParentSync(path)))),
      A.DropTmp(tmp, Failure(FileWrite(path))));
    var s := Stage(fs, tmp, file, mode, rename, failed, failed);
    if s != Complete {
      DropTmp(fs, tmp, Failure(FileWrite(tmp)));
      return Failure(FileWrite(tmp));
    }
    var reply;
    reply, rename := fs.Call(Rename(tmp, path), rename);
    if reply != Fine {
      DropTmp(fs, tmp, Failure(FileWrite(path)));
      return Failure(FileWrite(path));
    }
    reply, rename := fs.Call(SyncDir(path), rename);
    return if reply == Fine then Success else Failure(ParentSync(path));
  }

  method AtomicCreateSecretKey(fs: FileSystem, path: Name, tmp: Name, file: File)
    returns (r: Verdict)
    modifies fs
    ensures (fs.disk, fs.clock, r) == old(fs.Outcome(A.AtomicCreate(path, tmp, file)))
  {
    ghost var link := Do(Link(tmp, path), Forward,
      Step(SyncDir(path), Forward,
           A.DropTmp(tmp, Success), A.DropTmp(tmp, Failure(ParentSync(path)))),
      A.DropTmp(tmp, Failure(FileExists(path))),
      A.DropTmp(tmp, Failure(FileWrite(path))));
    var s := Stage(fs, tmp, file, true, link,
                   A.DropTmp(tmp, Failure(FileWrite(tmp))), A.DropTmp(tmp, Failure(FileWrite(path))));
    if s == Complete {
      var reply;
      reply, link := fs.Call(Link(tmp, path), link);
      if reply == Fine {
        reply, link := fs.Call(SyncDir(path), link);
        r := if reply == Fine then Success else Failure(ParentSync(path));
      } else {
        r := Failure(if reply == AlreadyExists then FileExists(path) else FileWrite(path));
      }
    } else {
      r := Failure(FileWrite(if s == ModeFailed then path else tmp));
    }
    DropTmp(fs, tmp, r);
  }

  method WriteFileNew(fs: FileSystem, path: Name, file: File) returns (r: Verdict)
    modifies fs
    ensures (fs.disk, fs.clock, r) == old(fs.Outcome(A.WriteNew(path, file)))
  {
    ghost var plan := A.WriteNew(path, file);
    var reply;
    reply, plan := fs.Call(CreateNew(path, file.ino), plan);
    if reply == AlreadyExists { return Failure(FileExists(path)); }
    if reply == Failed { return Failure(FileWrite(path)); }
    reply, plan := fs.Call(WriteSome(path, file.data), plan);
    if reply != Fine { return Failure(FileWrite(path)); }
    reply, plan := fs.Call(WriteRest(path, file.data), plan);
    return if reply == Fine then Success else Failure(FileWrite(path));
  }
}
