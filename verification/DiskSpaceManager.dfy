/** Layer 1 as the source has it: page counts and files updated in place. */
module DiskSpaceManager {
  import opened Pages
  import opened Log
  import opened Engine

  class Disk {
    const pageSize: nat
    var files: Files               // the data files
    var filePages: map<string, nat>
    var wal: seq<Rec>              // wal.log
    var master: int                // master.rec
    ghost var hist: seq<Durable>   // every durable state so far

    /** The disk is the disk part of `c`. */
    ghost predicate Matches(c: Core)
      reads this
    {
      && c.cfg.pageSize == pageSize && c.files == files && c.numPages == filePages
      && c.wal == wal && c.master == master && c.hist == hist
    }

    method FileExists(f: string) returns (r: bool)
      ensures r <==> ValidFileId(f) && f in files
    {
      r := ValidFileId(f) && f in files;
    }

    method CreateFile(f: string, ghost c: Core)
      requires Matches(c)
      modifies this
      ensures Matches(Engine.CreateFile(c, f))
    {
      if f !in files {
        files := files[f := []];
        filePages := filePages[f := 0];
        hist := hist + [Durable(wal, files, master)];
      }
    }

    method NumPages(f: string) returns (n: nat)
      ensures n == if f in filePages then filePages[f] else 0
    {
      n := if f in filePages then filePages[f] else 0;
    }

    /** Reserves the next page id; nothing reaches the disk. */
    method AllocatePage(f: string, ghost c: Core) returns (pid: nat)
      requires Matches(c) && files.Keys == filePages.Keys
      modifies this
      ensures Matches(DiskAllocate(c, f).0) && pid == DiskAllocate(c, f).1
    {
      if f !in filePages {
        CreateFile(f, c);
      }
      pid := filePages[f];
      filePages := filePages[f := pid + 1];
    }

    method ReadPage(k: PageKey, ghost c: Core) returns (r: Option<Bytes>)
      requires Matches(c)
      ensures r == DiskRead(c, k)
    {
      var present := FileExists(k.file);
      var n := NumPages(k.file);
      if !present || k.pid >= n {
        return None;
      }
      if k.pid < |files[k.file]| {
        return Some(files[k.file][k.pid]);
      }
      return Some(Zeros(pageSize));    // a hole at the end of the file reads as zeros
    }

    method WritePage(k: PageKey, data: Bytes, ghost c: Core) returns (ok: bool)
      requires Matches(c)
      modifies this
      ensures Matches(DiskWrite(c, k, data).0) && ok == DiskWrite(c, k, data).1
    {
      if !ValidFileId(k.file) || |data| != pageSize {
        return false;
      }
      var present := FileExists(k.file);
      if !present {
        CreateFile(k.file, c);
      }
      var n := NumPages(k.file);
      if k.pid > n {
        return false;
      }
      RawWrite(k, data, Engine.CreateFile(c, k.file));
      return true;
    }

    method RawWrite(k: PageKey, data: Bytes, ghost c: Core)
      requires Matches(c) && k.file in files
      modifies this
      ensures Matches(Engine.RawWrite(c, k, data))
    {
      var pages := files[k.file];
      if k.pid < |pages| {
        pages := pages[k.pid := data];
      } else {
        pages := pages + seq(k.pid - |pages|, _ => Zeros(pageSize)) + [data];   // seek past the end
      }
      files := files[k.file := pages];
      if !(k.file in filePages && k.pid < filePages[k.file]) {
        filePages := filePages[k.file := k.pid + 1];
      }
      hist := hist + [Durable(wal, files, master)];
    }

    method LogAppend(r: Rec)
      modifies this`wal, this`hist
      ensures wal == old(wal) + [r] && hist == old(hist) + [Durable(wal, files, master)]
    {
      wal := wal + [r];
      hist := hist + [Durable(wal, files, master)];
    }

    method WriteMaster(lsn: int)
      modifies this`master, this`hist
      ensures master == lsn && hist == old(hist) + [Durable(wal, files, NO_LSN), Durable(wal, files, master)]
    {
      master := NO_LSN;
      hist := hist + [Durable(wal, files, master)];   // the file is opened for writing
      master := lsn;
      hist := hist + [Durable(wal, files, master)];
    }
  }
}
