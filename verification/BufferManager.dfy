/** Layer 2 as the source has it: the ordered pool and the dirty map, updated in place, over the
    disk and the recovery manager. Every method is proved to take the whole engine from one value
    of the state machine to the next. */
module BufferManager {
  import opened Pages
  import opened Log
  import opened Engine
  import opened Pool
  import opened DiskSpaceManager
  import opened RecoveryManager

  lemma HasHeader(s: Sys)
    requires FramesOk(s)
    ensures s.core.cfg.pageSize >= HEADER_SIZE
  {
  }

  lemma FramesStay(s: Sys, c: Core)
    requires FramesOk(s) && c.cfg == s.core.cfg
    ensures FramesOk(s.(core := c))
  {
  }

  class Buffer {
    const disk: Disk
    const recovery: Recoverer
    const poolSize: nat
    const policy: Policy
    var order: seq<PageKey>            // keys of the pool, least recently used first
    var pool: map<PageKey, Bytes>
    var dirty: map<PageKey, bool>

    ghost function View(): Sys
      reads this, recovery, disk, recovery.disk
    {
      Sys(recovery.View(), poolSize, policy, order, pool, dirty)
    }

    ghost predicate Valid()
      reads this, recovery, disk, recovery.disk
    {
      recovery.disk == disk && FramesOk(View())
    }

    constructor (disk: Disk, recovery: Recoverer, poolSize: nat, policy: Policy)
      requires poolSize >= 1 && disk.pageSize >= HEADER_SIZE && recovery.disk == disk
      ensures Valid() && View() == Sys(recovery.View(), poolSize, policy, [], map[], map[])
      ensures this.disk == disk && this.recovery == recovery
    {
      this.disk, this.recovery, this.poolSize, this.policy := disk, recovery, poolSize, policy;
      order, pool, dirty := [], map[], map[];
    }

    /** `_make_room` */
    method MakeRoom() returns (ok: bool)
      requires Valid()
      modifies this, recovery, disk
      ensures Pool.MakeRoom(old(View())) == (View(), ok)
      ensures recovery.currentXid == old(recovery.currentXid)
    {
      if |order| < poolSize {
        return true;
      }
      var victim := VictimOf(policy, order);
      assert victim in order;
      var data := pool[victim];
      if victim in dirty && dirty[victim] {
        ok := WriteBackPage(victim, data);
        if !ok {
          return;
        }
      }
      ok := true;
      order := Without(order, victim);
      pool := pool - {victim};
      dirty := dirty - {victim};
    }

    /** WAL #1, then the page write; a page that reached the disk leaves the dirty page table. */
    method WriteBackPage(k: PageKey, data: Bytes) returns (ok: bool)
      requires recovery.disk == disk && |data| >= HEADER_SIZE
      modifies recovery, disk
      ensures WriteBack(old(recovery.View()), k, data) == (recovery.View(), ok)
      ensures recovery.currentXid == old(recovery.currentXid)
    {
      recovery.FlushLogUpTo(PageLsn(data));
      ok := disk.WritePage(k, data, recovery.View());
      if ok {
        recovery.PageFlushed(k);
      }
    }

    method GetPage(k: PageKey) returns (r: Option<Bytes>)
      requires Valid()
      modifies this, recovery, disk
      ensures Pool.GetPage(old(View()), k) == (View(), r)
      ensures recovery.currentXid == old(recovery.currentXid)
    {
      if k in pool {
        r := Some(pool[k]);
        order := Touch(order, k);
        return;
      }
      r := disk.ReadPage(k, recovery.View());
      if r.None? {
        return;
      }
      var ok := MakeRoom();
      if !ok {
        return None;
      }
      SetFrame(k, r.value, false);
    }

    /** Assignment to the pool and to the dirty map. */
    method SetFrame(k: PageKey, data: Bytes, isDirty: bool)
      requires recovery.disk == disk
      modifies this
      ensures View() == PutFrame(old(View()), k, data, isDirty)
    {
      if k !in pool {
        order := order + [k];
      }
      pool := pool[k := data];
      dirty := dirty[k := isDirty];
    }

    method CurrentPage(k: PageKey) returns (r: Option<Bytes>)
      requires Valid()
      ensures r == CurrentBytes(View(), k)
    {
      if k in pool {
        return Some(pool[k]);
      }
      r := disk.ReadPage(k, recovery.View());
    }

    method WritePage(k: PageKey, data: Bytes) returns (r: Option<Bytes>)
      requires Valid() && recovery.nextLsn < LSN_LIMIT
      modifies this, recovery, disk
      ensures Pool.WritePage(old(View()), old(recovery.currentXid), k, data) == (View(), r)
      ensures recovery.currentXid == old(recovery.currentXid)
    {
      hide ValidFileId, Engine.LogPageUpdate, Pool.StoreFrame, FramesOk, CurrentBytes;
      HasHeader(View());
      var present := disk.FileExists(k.file);
      var n := disk.NumPages(k.file);
      if !ValidFileId(k.file) || |data| != disk.pageSize || (!present && k.pid != 0) || (present && k.pid > n) {
        return None;
      }
      var before := CurrentPage(k);
      var page := recovery.LogPageUpdate(k, before, data);
      FramesStay(old(View()), recovery.View());
      r := StoreFrame(k, page);
    }

    /** The new content of a page, in its frame or in one made free for it. */
    method StoreFrame(k: PageKey, page: Bytes) returns (r: Option<Bytes>)
      requires Valid()
      modifies this, recovery, disk
      ensures Pool.StoreFrame(old(View()), k, page) == (View(), r)
      ensures recovery.currentXid == old(recovery.currentXid)
    {
      hide Pool.MakeRoom, Touch;
      if k in pool {
        SetFrame(k, page, true);
        order := Touch(order, k);
        return Some(page);
      }
      var ok := MakeRoom();
      if !ok {
        return None;
      }
      SetFrame(k, page, true);
      return Some(page);
    }

    method AllocatePage(f: string) returns (r: Option<nat>)
      requires Valid() && disk.files.Keys == disk.filePages.Keys
      modifies this, recovery, disk
      ensures Pool.AllocatePage(old(View()), f) == (View(), r)
      ensures recovery.currentXid == old(recovery.currentXid)
    {
      var pid := disk.AllocatePage(f, recovery.View());
      var k := PageKey(f, pid);
      if k !in pool && |order| >= poolSize {
        var ok := MakeRoom();
        if !ok {
          return None;
        }
      }
      SetFrame(k, Zeros(disk.pageSize), true);
      return Some(pid);
    }

    method Flush() returns (ok: bool)
      requires Valid()
      modifies this, recovery, disk
      ensures FlushFrames(old(View()), old(order)) == (View(), ok)
    {
      hide WriteBack;
      var keys := order;
      for i := 0 to |keys|
        invariant Valid() && order == keys && pool == old(pool)
        invariant FlushFrames(old(View()), keys) == FlushFrames(View(), keys[i..])
      {
        var k := keys[i];
        assert keys[i..][0] == k && keys[i..][1..] == keys[i + 1..];
        assert k in order;
        if k in dirty && dirty[k] {
          ok := WriteBackPage(k, pool[k]);
          if !ok {
            return false;
          }
          dirty := dirty[k := false];
        }
      }
      return true;
    }
  }
}
