/** The handle class, updating its fields and the kernel's tables in place. */
module SharedHandle {
  import opened Words
  import opened Payloads
  import M = HandleModel

  /** The part of the kernel that handles see. */
  class Kernel {
    var names: map<string, nat>
    var objects: seq<Bytes>

    constructor ()
      ensures View() == M.Os(map[], [])
    {
      names := map[];
      objects := [];
    }

    ghost function View(): M.Os
      reads this
    {
      M.Os(names, objects)
    }

    method ShmOpen(name: string, mode: M.Mode, luck: M.Luck) returns (fd: Option<nat>)
      modifies this
      ensures (View(), fd) == M.ShmOpen(old(View()), name, mode, luck)
    {
      fd := None;
      if luck == M.OpenFails {
        return;
      }
      if name in names {
        if mode != M.Create {
          fd := Some(names[name]);
        }
      } else if mode != M.Open {
        fd := Some(|objects|);
        names := names[name := |objects|];
        objects := objects + [[]];
      }
    }

    method ShmUnlink(name: string)
      modifies this`names
      ensures View() == M.ShmUnlink(old(View()), name)
    {
      names := map n | n in names && n != name :: names[n];
    }

    method Truncate(obj: nat, size: nat)
      requires obj < |objects|
      modifies this`objects
      ensures objects == old(objects)[obj := M.Resized(old(objects)[obj], size)]
    {
      objects := objects[obj := M.Resized(objects[obj], size)];
    }

    /** fetch_add on the counter of a mapping; the result is the value before. */
    method AddCounter(obj: nat, size: nat, delta: int) returns (before: nat)
      requires obj < |objects| && M.INFO_SIZE <= size <= |objects[obj]|
      modifies this`objects
      ensures before == M.Counter(old(View()), obj, size)
      ensures View() == M.WithCounter(old(View()), obj, size, Wrap32(before + delta))
    {
      var at := M.CounterOffset(size);
      before := Load32(objects[obj], at);
      objects := objects[obj := Store(objects[obj], at, Word32(Wrap32(before + delta)))];
    }
  }

  class Handle {
    var fd: Option<nat>
    var mem: Option<nat>
    var size: nat
    var name: string

    ghost function View(): M.Handle
      reads this
    {
      M.Handle(fd, mem, size, name)
    }

    constructor ()
      ensures View() == M.CLOSED
    {
      fd, mem, size, name := None, None, 0, "";
    }

    /** Move construction. */
    constructor Move(rhs: Handle)
      modifies rhs
      ensures (View(), rhs.View()) == M.MoveSpec(old(rhs.View()))
    {
      fd := rhs.fd;
      mem := rhs.mem;
      size := rhs.size;
      name := rhs.name;
      new;
      rhs.fd := None;
      rhs.mem := None;
      rhs.size := 0;
      rhs.name := "";
    }

    method Release(k: Kernel) returns (ret: int)
      requires M.HandleOk(k.View(), View())
      modifies this, k
      ensures (k.View(), View(), ret) == M.ReleaseSpec(old(k.View()), old(View()))
    {
      ret := -1;
      if mem.Some? && size != 0 {
        var before := k.AddCounter(mem.value, size, -1);
        ret := M.Signed(before);
        if ret <= 1 && name != "" {
          k.ShmUnlink(name);
        }
      }
      fd, mem, size, name := None, None, 0, "";
    }

    /** The first half of get: settle the size to map, truncating a requested one. */
    method SettleSize(k: Kernel, luck: M.Luck) returns (fits: bool)
      requires fd.Some? && fd.value < |k.objects| && size < M.SIZE_LIMIT
      modifies this`size, k`objects
      ensures (k.View(), size, fits) == M.SizeToMap(old(k.View()), old(View()), luck)
    {
      if size == 0 {
        size := |k.objects[fd.value]|;
        return M.OpenAccepts(size);
      }
      size := M.MappedSize(size);
      if luck == M.TruncateFails {
        return false;
      }
      k.Truncate(fd.value, size);
      return true;
    }

    method Get(k: Kernel, luck: M.Luck) returns (ok: bool)
      requires M.HandleOk(k.View(), View())
      modifies this, k`objects
      ensures (k.View(), View(), ok) == M.GetSpec(old(k.View()), old(View()), luck)
    {
      if mem.Some? {
        return true;
      }
      if fd.None? {
        return false;
      }
      var fits := SettleSize(k, luck);
      M.GetOnceSized(old(k.View()), old(View()), luck, k.View(), size, fits);
      if !fits || luck == M.MapFails || size < M.INFO_SIZE {
        return false;
      }
      MapObject(k);
      return true;
    }

    /** The mapping itself: the descriptor is closed, and the handle is counted in. */
    method MapObject(k: Kernel)
      requires fd.Some? && fd.value < |k.objects| && M.INFO_SIZE <= size <= |k.objects[fd.value]|
      modifies this`fd, this`mem, k`objects
      ensures k.View() == M.Mapped(old(k.View()), old(fd.value), size)
      ensures fd == None && mem == old(fd)
    {
      var obj := fd.value;
      fd, mem := None, Some(obj);
      var _ := k.AddCounter(obj, size, 1);
    }

    method Acquire(k: Kernel, name: string, size: nat, mode: M.Mode, luck: M.Luck) returns (ok: bool)
      requires M.HandleOk(k.View(), View()) && size < M.SIZE_LIMIT
      modifies this, k
      ensures (k.View(), View(), ok) == M.AcquireSpec(old(k.View()), old(View()), name, size, mode, luck)
    {
      var _ := Release(k);
      if name == "" {
        return false;
      }
      ok := OpenAndGet(k, "/" + name, size, mode, luck);
    }

    /** The rest of acquire, after its release of what the handle held. */
    method OpenAndGet(k: Kernel, name: string, size: nat, mode: M.Mode, luck: M.Luck) returns (ok: bool)
      requires M.TableOk(k.View()) && View() == M.CLOSED && size < M.SIZE_LIMIT
      modifies this, k
      ensures (k.View(), View(), ok) == M.OpenSpec(old(k.View()), name, size, mode, luck)
    {
      var found := k.ShmOpen(name, mode, luck);
      if found.None? {
        return false;
      }
      this.fd := found;
      this.size := if mode == M.Open then 0 else size;
      this.name := name;
      ok := Get(k, luck);
    }
  }
}
