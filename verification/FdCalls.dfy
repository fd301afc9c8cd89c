/**
  The system calls on the descriptor pool, as they change the array, the mark and errno in place.
 */
module FdCalls {
  import opened FdTable

  class Calls {
    const fds: array<Fd>
    var max: int
    var errno: int

    ghost function Now(): State
      reads this, fds
    {
      State(fds[..], max, errno)
    }

    constructor (size: nat, nullDev: nat)
      requires 3 <= size
      ensures fresh(fds) && Now() == Reset(size, nullDev)
    {
      fds := new Fd[size](i => Fd(if i < 3 then Device(nullDev) else Nothing, 0, 0));
      max, errno := -1, 0;
      new;
      assert fds[..] == Reset(size, nullDev).fds;
    }

    /** First free slot, or a negative error number. */
    method GetFd(dev: Target) returns (rc: int)
      modifies this, fds
      ensures var i := FirstFree(old(fds[..]), 0);
              if i == fds.Length then rc == -EMFILE && Now() == old(Now())
              else rc == i && Now() == Allocate(old(Now()), dev)
    {
      rc := -EMFILE;
      var i := 0;
      while i < fds.Length
        invariant 0 <= i <= fds.Length && FirstFree(fds[..], 0) == FirstFree(fds[..], i)
        invariant rc == -EMFILE && Now() == old(Now())
      {
        if fds[i].dev == Nothing {
          fds[i] := fds[i].(dev := dev);
          if i > max {
            max := i;
          }
          rc := i;
          assert fds[..] == old(fds[..])[i := old(fds[..])[i].(dev := dev)];
          return;
        }
        i := i + 1;
      }
    }

    method ReleaseFd(fd: int)
      requires fd < fds.Length
      modifies fds
      ensures fds[..] == Release(old(fds[..]), fd)
    {
      if fd > 2 {
        fds[fd] := fds[fd].(flags := 0);
        fds[fd] := fds[fd].(dev := Nothing);
      }
    }

    /** Marks the descriptor as a device's, then looks for another that holds the device. */
    method FileLocked(fd: nat) returns (rc: int)
      requires fd < fds.Length && fd <= max < fds.Length
      modifies fds
      ensures Now() == WithFlags(old(Now()), fd, Marked(old(fds[fd].flags)))
      ensures rc == if LockedByOther(Now(), fd) then -EACCES else 0
    {
      fds[fd] := fds[fd].(flags := Marked(fds[fd].flags));
      var i := 0;
      while i <= max
        invariant 0 <= i <= max + 1
        invariant forall j :: 0 <= j < i ==> !Clash(fds[..], j, fd)
      {
        if fds[i].dev == fds[fd].dev && Locked(fds[i]) && i != fd {
          assert Clash(fds[..], i, fd);
          rc := -EACCES;
          return;
        }
        i := i + 1;
      }
      rc := 0;
    }

    /** `target` is what the name was found to be, `driver` what its open callback returns, if called. */
    method Open(target: Target, flags: bv32, driver: int) returns (r: int)
      requires Valid(Now())
      modifies this, fds
      ensures (Now(), r) == FdTable.Open(old(Now()), target, flags, driver)
    {
      var index, status := -1, -ENODEV;
      if target != Nothing {
        index := GetFd(target);
        if index < 0 {
          status := index;
        } else {
          ghost var t := Now();
          FreeIsUnlocked(old(Now()), index);
          fds[index] := fds[index].(flags := Plain(flags));
          assert fds[..] == WithFlags(t, index, Plain(flags)).fds;
          if target.Device? {
            status := FileLocked(index);
            assert fds[..] == WithFlags(t, index, Marked(Plain(flags))).fds;
          }
          if target.Filesystem? || status >= 0 {
            status := driver;
          }
        }
      }
      if status < 0 {
        ReleaseFd(index);
        errno := -status;
        return -1;
      }
      return index;
    }

    method Close(file: int, driver: int) returns (r: int)
      requires file < fds.Length
      modifies this`errno, fds
      ensures (Now(), r) == FdTable.Close(old(Now()), file, driver)
    {
      if file >= 0 {
        ReleaseFd(file);
        if driver < 0 {
          errno := -driver;
          return -1;
        }
        return 0;
      }
      errno := EBADFD;
      return -1;
    }

    /** The scan for rivals leaves out the descriptor at the high-water mark. */
    method LockFd(fd: nat) returns (rc: int)
      requires fd < fds.Length && max < fds.Length
      modifies fds
      ensures rc == if Granted(old(Now()), fd) then 0 else -EACCES
      ensures Now() == if rc == 0 then WithFlags(old(Now()), fd, Lock(old(fds[fd].flags))) else old(Now())
    {
      var i := 0;
      while i < max
        invariant 0 <= i <= Max(max, 0)
        invariant forall j :: 0 <= j < i && j != fd ==> fds[j].dev != fds[fd].dev
        invariant fds[..] == old(fds[..])
      {
        if i != fd && fds[i].dev == fds[fd].dev {
          assert !Granted(Now(), fd);
          return -EACCES;
        }
        i := i + 1;
      }
      fds[fd] := fds[fd].(flags := Lock(fds[fd].flags));
      assert fds[..] == WithFlags(old(Now()), fd, Lock(old(fds[fd].flags))).fds;
      return 0;
    }

    method UnlockFd(fd: nat) returns (rc: int)
      requires fd < fds.Length
      modifies fds
      ensures rc == 0 && Now() == WithFlags(old(Now()), fd, Unlock(old(fds[fd].flags)))
    {
      fds[fd] := fds[fd].(flags := Unlock(fds[fd].flags));
      return 0;
    }

    /** `driver` is what the driver's own handler returns, or -ENOTTY when it has none. */
    method Ioctl(file: int, req: int, driver: int) returns (rc: int)
      requires file < fds.Length && max < fds.Length
      modifies this`errno, fds
      ensures (Now(), rc) == FdTable.Ioctl(old(Now()), file, req, driver)
    {
      if file >= 0 {
        if IsDevice(fds[file]) && req == TIOCEXCL {
          rc := LockFd(file);
        } else if IsDevice(fds[file]) && req == TIOCNXCL {
          rc := UnlockFd(file);
        } else {
          rc := driver;
        }
      } else {
        rc := -EBADFD;
      }
      if rc < 0 {
        errno := -rc;
      }
    }

    method Fcntl(file: int, cmd: int, arg: bv32) returns (r: Reply)
      requires file < fds.Length
      modifies this`errno, fds
      ensures (Now(), r) == FdTable.Fcntl(old(Now()), file, cmd, arg)
    {
      if file >= 0 {
        if cmd == F_GETFL {
          return Flags(Plain(fds[file].flags));
        } else if cmd == F_SETFL {
          fds[file] := fds[file].(flags := Updated(fds[file].flags, arg));
          assert fds[..] == WithFlags(old(Now()), file, Updated(old(fds[file].flags), arg)).fds;
          return Status(0);
        }
        errno := EINVAL;
        return Status(-1);
      }
      errno := EBADFD;
      return Status(-1);
    }

    method OpenFd(file: nat, target: Target, flags: bv32, driver: int)
      requires Valid(Now()) && file < 3
      modifies this, fds
      ensures Now() == Redirect(old(Now()), file, target, flags, driver)
      ensures Valid(Now()) && (old(Exclusive(fds[..])) ==> Exclusive(fds[..]))
    {
      RedirectKeeps(Now(), file, target, flags, driver);
      OpenKeeps(Now(), target, flags, driver);
      var source := Open(target, flags, driver);
      if source >= 0 {
        label Opened:
        fds[file] := fds[source];
        assert fds[..] == old@Opened(fds[..])[file := old@Opened(fds[..])[source]];
        ReleaseFd(source);
      }
    }

    /** The three standard descriptors, output first. */
    method IoRedirect(out: Target, input: Target, err: Target, outDriver: int, inDriver: int, errDriver: int)
      requires Valid(Now())
      modifies this, fds
      ensures var s1 := Redirect(old(Now()), 1, out, O_WRONLY, outDriver);
              |s1.fds| == fds.Length &&
              var s2 := Redirect(s1, 0, input, O_RDONLY, inDriver);
              |s2.fds| == fds.Length &&
              Now() == Redirect(s2, 2, err, O_WRONLY, errDriver)
      ensures Valid(Now()) && (old(Exclusive(fds[..])) ==> Exclusive(fds[..]))
    {
      OpenFd(1, out, O_WRONLY, outDriver);
      OpenFd(0, input, O_RDONLY, inDriver);
      OpenFd(2, err, O_WRONLY, errDriver);
    }
  }
}
