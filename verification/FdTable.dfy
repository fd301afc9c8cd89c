/**
  The file descriptor pool as a value: what each system call does to it, and the exclusive access
  that locking a descriptor is meant to give over any sequence of calls.
 */
module FdTable {

  const EACCES := 13
  const EINVAL := 22
  const EMFILE := 24
  const ENODEV := 19
  const ENOTTY := 25
  const EBADFD := 81

  const EXCL: bv32 := 0x8000_0000
  const DEV: bv32 := 0x4000_0000
  const FLAGS_MASK: bv32 := 0xC000_0000
  const SETTABLE: bv32 := 0x4008

  const TIOCEXCL := 0x740D
  const TIOCNXCL := 0x740E
  const F_GETFL := 3
  const F_SETFL := 4
  const O_RDONLY: bv32 := 0
  const O_WRONLY: bv32 := 1

  /** What a descriptor, or a name, refers to. A device and a filesystem are never the same object. */
  datatype Target = Nothing | Device(id: nat) | Filesystem(id: nat)

  datatype Fd = Fd(dev: Target, priv: int, flags: bv32)

  /** The pool, its high-water mark and errno. */
  datatype State = State(fds: seq<Fd>, max: int, errno: int)

  predicate Locked(fd: Fd) {
    fd.flags & EXCL != 0
  }

  predicate IsDevice(fd: Fd) {
    fd.flags & DEV != 0
  }

  /** The flags that open() gives a new descriptor, before and after it is marked as a device's. */
  function Plain(flags: bv32): (r: bv32)
    ensures r & EXCL == 0 && r & DEV == 0
  {
    flags & !FLAGS_MASK
  }

  function Marked(flags: bv32): (r: bv32)
    ensures r & EXCL == flags & EXCL && r & DEV != 0
  {
    flags | DEV
  }

  function Lock(flags: bv32): (r: bv32)
    ensures r & EXCL != 0 && r & DEV == flags & DEV
  {
    flags | EXCL
  }

  function Unlock(flags: bv32): (r: bv32)
    ensures r & EXCL == 0 && r & DEV == flags & DEV
  {
    flags & !EXCL
  }

  function Updated(flags: bv32, arg: bv32): (r: bv32)
    ensures r & EXCL == flags & EXCL && r & DEV == flags & DEV
  {
    (flags & !SETTABLE) | (arg & SETTABLE)
  }

  /** Two descriptors share a target although the first is locked. */
  predicate Clash(fds: seq<Fd>, i: int, j: int) {
    && 0 <= i < |fds| && 0 <= j < |fds| && i != j
    && Locked(fds[i]) && fds[i].dev == fds[j].dev
  }

  /** A locked descriptor is its target's only one. */
  ghost predicate Exclusive(fds: seq<Fd>) {
    forall i, j :: !Clash(fds, i, j)
  }

  /** Whoever shares the target of a locked descriptor has a higher number than it. */
  ghost predicate Ordered(fds: seq<Fd>) {
    forall i, j :: Clash(fds, i, j) ==> i < j
  }

  /** No two descriptors hold the lock of one device. */
  ghost predicate OneHolder(fds: seq<Fd>) {
    forall i, j :: 0 <= i < j < |fds| && Locked(fds[i]) && Locked(fds[j]) ==> fds[i].dev != fds[j].dev
  }

  ghost predicate NoNewClash(fds: seq<Fd>, fds': seq<Fd>) {
    forall i, j :: Clash(fds', i, j) ==> Clash(fds, i, j)
  }

  /** What holds of every slot whichever calls were made. */
  predicate SlotOk(s: State, i: int)
    requires 0 <= i < |s.fds|
  {
    && (i < 3 ==> s.fds[i].dev != Nothing)
    && (i >= 3 && i > s.max ==> s.fds[i].dev == Nothing)
    && (Locked(s.fds[i]) || IsDevice(s.fds[i]) ==> s.fds[i].dev.Device? && s.max >= 3)
    && (Locked(s.fds[i]) ==> IsDevice(s.fds[i]))
  }

  ghost predicate Valid(s: State) {
    && 3 <= |s.fds| && (s.max == -1 || 3 <= s.max < |s.fds|)
    && forall i :: 0 <= i < |s.fds| ==> SlotOk(s, i)
  }

  /** The state at reset: the three standard descriptors refer to the null device, the rest are free. */
  function Reset(size: nat, nullDev: nat): State
    requires 3 <= size
  {
    State(seq(size, i => Fd(if i < 3 then Device(nullDev) else Nothing, 0, 0)), -1, 0)
  }

  lemma ResetIsValid(size: nat, nullDev: nat)
    requires 3 <= size
    ensures Valid(Reset(size, nullDev)) && Exclusive(Reset(size, nullDev).fds) && Ordered(Reset(size, nullDev).fds)
  {
    var s := Reset(size, nullDev);
    forall i | 0 <= i < |s.fds|
      ensures SlotOk(s, i) && !Locked(s.fds[i])
    {
    }
  }

  function FirstFree(fds: seq<Fd>, from: nat): (i: nat)
    requires from <= |fds|
    ensures from <= i <= |fds| && (i < |fds| ==> fds[i].dev == Nothing)
    ensures forall j :: from <= j < i ==> fds[j].dev != Nothing
    decreases |fds| - from
  {
    if from == |fds| || fds[from].dev == Nothing then from else FirstFree(fds, from + 1)
  }

  function Max(a: int, b: int): int {
    if a < b then b else a
  }

  function Allocate(s: State, dev: Target): State
    requires FirstFree(s.fds, 0) < |s.fds|
  {
    var i := FirstFree(s.fds, 0);
    State(s.fds[i := s.fds[i].(dev := dev)], Max(s.max, i), s.errno)
  }

  /** The standard descriptors cannot be released. */
  function Release(fds: seq<Fd>, i: int): seq<Fd>
    requires i < |fds|
  {
    if i > 2 then fds[i := fds[i].(flags := 0, dev := Nothing)] else fds
  }

  function WithFlags(s: State, i: int, flags: bv32): State
    requires 0 <= i < |s.fds|
  {
    s.(fds := s.fds[i := s.fds[i].(flags := flags)])
  }

  /** Some other descriptor up to the high-water mark holds the lock on descriptor `i`'s target. */
  ghost predicate LockedByOther(s: State, i: int)
    requires 0 <= i < |s.fds|
  {
    exists j :: 0 <= j <= s.max && Clash(s.fds, j, i)
  }

  ghost function Open(s: State, target: Target, flags: bv32, driver: int): (State, int) {
    var i := FirstFree(s.fds, 0);
    if target == Nothing then (s.(errno := ENODEV), -1)
    else if i == |s.fds| then (s.(errno := EMFILE), -1)
    else
      var t := Allocate(s, target);
      if target.Filesystem? then Opened(WithFlags(t, i, Plain(flags)), i, driver)
      else
        var t' := WithFlags(t, i, Marked(Plain(flags)));
        Opened(t', i, if LockedByOther(t', i) then -EACCES else driver)
  }

  /** The end of open(): clean up after a failure, or return the descriptor. */
  function Opened(s: State, i: nat, status: int): (State, int)
    requires i < |s.fds|
  {
    if status < 0 then (State(Release(s.fds, i), s.max, -status), -1) else (s, i as int)
  }

  function Close(s: State, file: int, driver: int): (State, int)
    requires file < |s.fds|
  {
    if file < 0 then (s.(errno := EBADFD), -1)
    else
      var t := s.(fds := Release(s.fds, file));
      if driver < 0 then (t.(errno := -driver), -1) else (t, 0)
  }

  /** The scan for other descriptors of the same target stops before the high-water mark. */
  ghost predicate Granted(s: State, file: nat)
    requires file < |s.fds|
  {
    forall j :: 0 <= j < s.max && j < |s.fds| && j != file ==> s.fds[j].dev != s.fds[file].dev
  }

  ghost function Ioctl(s: State, file: int, req: int, driver: int): (State, int)
    requires file < |s.fds|
  {
    if file < 0 then Failing(s, -EBADFD)
    else if IsDevice(s.fds[file]) && req == TIOCEXCL then
      if Granted(s, file) then (WithFlags(s, file, Lock(s.fds[file].flags)), 0) else Failing(s, -EACCES)
    else if IsDevice(s.fds[file]) && req == TIOCNXCL then
      (WithFlags(s, file, Unlock(s.fds[file].flags)), 0)
    else Failing(s, driver)
  }

  function Failing(s: State, rc: int): (State, int) {
    (if rc < 0 then s.(errno := -rc) else s, rc)
  }

  /** What fcntl() returns: a status, or the flags as a word whose two top bits are clear. */
  datatype Reply = Status(code: int) | Flags(word: bv32)

  function Fcntl(s: State, file: int, cmd: int, arg: bv32): (State, Reply)
    requires file < |s.fds|
  {
    if file < 0 then (s.(errno := EBADFD), Status(-1))
    else if cmd == F_GETFL then (s, Flags(Plain(s.fds[file].flags)))
    else if cmd == F_SETFL then (WithFlags(s, file, Updated(s.fds[file].flags, arg)), Status(0))
    else (s.(errno := EINVAL), Status(-1))
  }

  /** A standard descriptor is redirected by opening the name, moving the fields and freeing the slot. */
  ghost function Redirect(s: State, file: nat, target: Target, flags: bv32, driver: int): State
    requires file < |s.fds|
  {
    var (t, moved) := Open(s, target, flags, driver);
    if moved >= 0 && moved < |t.fds| then t.(fds := Release(t.fds[file := t.fds[moved]], moved)) else t
  }

  datatype Call =
    | OpenCall(target: Target, flags: bv32, driver: int)
    | CloseCall(file: int, driver: int)
    | IoctlCall(file: int, req: int, driver: int)
    | FcntlCall(file: int, cmd: int, arg: bv32)
    | RedirectCall(file: int, target: Target, flags: bv32, driver: int)

  /** Callers pass a negative number or a descriptor; close and driver requests need it to be open. */
  predicate Legal(s: State, call: Call) {
    match call
    case OpenCall(_, _, _) => true
    case CloseCall(file, _) => file < |s.fds| && (0 <= file ==> s.fds[file].dev != Nothing)
    case IoctlCall(file, _, _) => file < |s.fds| && (0 <= file ==> s.fds[file].dev != Nothing)
    case FcntlCall(file, _, _) => file < |s.fds|
    case RedirectCall(file, _, _, _) => 0 <= file < 3 <= |s.fds|
  }

  ghost function Step(s: State, call: Call): State
    requires Legal(s, call)
  {
    match call
    case OpenCall(target, flags, driver) => Open(s, target, flags, driver).0
    case CloseCall(file, driver) => Close(s, file, driver).0
    case IoctlCall(file, req, driver) => Ioctl(s, file, req, driver).0
    case FcntlCall(file, cmd, arg) => Fcntl(s, file, cmd, arg).0
    case RedirectCall(file, target, flags, driver) => Redirect(s, file, target, flags, driver)
  }

  // Changing one slot

  /** Changing one slot keeps the pool valid if the new contents suit the slot. */
  lemma ReplaceKeepsValid(s: State, t: State, i: nat, fd: Fd)
    requires Valid(s) && i < |s.fds| && t.fds == s.fds[i := fd]
    requires t.max == s.max || (i >= 3 && t.max == Max(s.max, i))
    requires SlotOk(t, i)
    ensures Valid(t)
  {
    forall k | 0 <= k < |t.fds|
      ensures SlotOk(t, k)
    {
      assert SlotOk(s, k);
    }
  }

  /** Validity speaks of the pool and the mark only. */
  lemma SamePool(s: State, t: State)
    requires Valid(s) && t.fds == s.fds && t.max == s.max
    ensures Valid(t)
  {
    forall k | 0 <= k < |t.fds|
      ensures SlotOk(t, k)
    {
      assert SlotOk(s, k);
    }
  }

  ghost predicate NoneHoldsAgainst(fds: seq<Fd>, i: int) {
    forall j :: !Clash(fds, j, i)
  }

  /** An unlocked descriptor of a target that nothing else has locked clashes with nothing. */
  lemma ReplaceAddsNoClash(fds: seq<Fd>, i: nat, fd: Fd)
    requires i < |fds|
    requires !Locked(fd) || (Locked(fds[i]) && fd.dev == fds[i].dev)
    requires fd.dev == fds[i].dev || NoneHoldsAgainst(fds[i := fd], i)
    ensures NoNewClash(fds, fds[i := fd])
  {
    var fds' := fds[i := fd];
    forall j, k | Clash(fds', j, k)
      ensures Clash(fds, j, k)
    {
      assert k == i && fd.dev != fds[i].dev ==> !Clash(fds', j, i);
    }
  }

  lemma FreeIsUnlocked(s: State, i: nat)
    requires Valid(s) && i < |s.fds| && s.fds[i].dev == Nothing
    ensures i >= 3 && !Locked(s.fds[i])
  {
    assert SlotOk(s, i);
  }

  /** Every lock is held at or below the high-water mark, so the scan in open() misses none. */
  lemma ScanIsComplete(s: State, i: nat)
    requires Valid(s) && i < |s.fds|
    ensures LockedByOther(s, i) <==> !NoneHoldsAgainst(s.fds, i)
  {
    forall j | Clash(s.fds, j, i)
      ensures 0 <= j <= s.max
    {
      assert SlotOk(s, j);
    }
  }

  lemma FilesystemsAreUnlocked(s: State, i: nat)
    requires Valid(s) && i < |s.fds| && s.fds[i].dev.Filesystem?
    ensures NoneHoldsAgainst(s.fds, i)
  {
    forall j
      ensures !Clash(s.fds, j, i)
    {
      if 0 <= j < |s.fds| {
        assert SlotOk(s, j);
      }
    }
  }

  // Each call

  /** open() with a free slot: the slot it takes, the pool before the outcome is known, and its flags. */
  function Prepared(s: State, target: Target, flags: bv32): State
    requires FirstFree(s.fds, 0) < |s.fds|
  {
    var f := if target.Filesystem? then Plain(flags) else Marked(Plain(flags));
    WithFlags(Allocate(s, target), FirstFree(s.fds, 0), f)
  }

  lemma PreparedIsValid(s: State, target: Target, flags: bv32)
    requires Valid(s) && FirstFree(s.fds, 0) < |s.fds| && target != Nothing
    ensures var i, t := FirstFree(s.fds, 0), Prepared(s, target, flags);
            && i >= 3 && Valid(t) && !Locked(t.fds[i]) && t.fds[i].dev == target
            && t.fds == s.fds[i := t.fds[i]]
  {
    var i, t := FirstFree(s.fds, 0), Prepared(s, target, flags);
    FreeIsUnlocked(s, i);
    ReplaceKeepsValid(s, t, i, t.fds[i]);
  }

  /** A failed open() frees the slot again. */
  lemma CleanUp(s: State, target: Target, flags: bv32)
    requires Valid(s) && FirstFree(s.fds, 0) < |s.fds| && target != Nothing
    ensures var i, t := FirstFree(s.fds, 0), Prepared(s, target, flags);
            && t.max == Max(s.max, i)
            && Release(t.fds, i) == s.fds[i := s.fds[i].(flags := 0)]
  {
    PreparedIsValid(s, target, flags);
  }

  /** open() written with the slot it prepares. */
  lemma OpenByCases(s: State, target: Target, flags: bv32, driver: int)
    requires Valid(s) && FirstFree(s.fds, 0) < |s.fds| && target != Nothing
    ensures var i, t := FirstFree(s.fds, 0), Prepared(s, target, flags);
            var refused := target.Device? && !NoneHoldsAgainst(t.fds, i);
            var status := if refused then -EACCES else driver;
            Open(s, target, flags, driver) ==
            (if status < 0 then (State(s.fds[i := s.fds[i].(flags := 0)], t.max, -status), -1) else (t, i as int))
  {
    var i, t := FirstFree(s.fds, 0), Prepared(s, target, flags);
    PreparedIsValid(s, target, flags);
    CleanUp(s, target, flags);
    ScanIsComplete(t, i);
  }

  lemma ClearedSlotKeeps(s: State, t: State, i: nat)
    requires Valid(s) && 3 <= i < |s.fds| && s.fds[i].dev == Nothing
    requires t.fds == s.fds[i := s.fds[i].(flags := 0)] && t.max == Max(s.max, i)
    ensures Valid(t) && NoNewClash(s.fds, t.fds)
  {
    ReplaceKeepsValid(s, t, i, t.fds[i]);
    ReplaceAddsNoClash(s.fds, i, t.fds[i]);
  }

  lemma OpenKeeps(s: State, target: Target, flags: bv32, driver: int)
    requires Valid(s)
    ensures var (t, r) := Open(s, target, flags, driver);
            && Valid(t) && NoNewClash(s.fds, t.fds)
            && r < |t.fds| == |s.fds| && (r >= 0 ==> r >= 3)
  {
    var i := FirstFree(s.fds, 0);
    if target != Nothing && i < |s.fds| {
      var t := Prepared(s, target, flags);
      PreparedIsValid(s, target, flags);
      OpenByCases(s, target, flags, driver);
      var (u, r) := Open(s, target, flags, driver);
      if r < 0 {
        ClearedSlotKeeps(s, u, i);
      } else {
        if target.Filesystem? {
          FilesystemsAreUnlocked(t, i);
        }
        ReplaceAddsNoClash(s.fds, i, t.fds[i]);
      }
    } else {
      SamePool(s, Open(s, target, flags, driver).0);
    }
  }

  /**
    A failed open() changes nothing but the flags of the slot it tried, which it clears: the pool is
    unchanged exactly when it tried no slot or that slot's flags were clear. The high-water mark stays
    exactly when it tried no slot above it.
   */
  lemma FailedOpenChangesNothingIff(s: State, target: Target, flags: bv32, driver: int)
    requires Valid(s) && Open(s, target, flags, driver).1 < 0
    ensures var t, i := Open(s, target, flags, driver).0, FirstFree(s.fds, 0);
            && |t.fds| == |s.fds|
            && (forall j :: 0 <= j < |s.fds| ==> t.fds[j].dev == s.fds[j].dev)
            && (forall j :: 0 <= j < |s.fds| && j != i ==> t.fds[j] == s.fds[j])
            && (t.fds == s.fds <==> target == Nothing || i == |s.fds| || s.fds[i].flags == 0)
            && (t.max == s.max <==> target == Nothing || i == |s.fds| || i <= s.max)
  {
    var i := FirstFree(s.fds, 0);
    if target != Nothing && i < |s.fds| {
      OpenByCases(s, target, flags, driver);
      var t := Open(s, target, flags, driver).0;
      if t.fds == s.fds {
        assert t.fds[i].flags == 0;
      }
    }
  }

  /** Somebody has `target` for exclusive use. */
  ghost predicate Held(fds: seq<Fd>, target: Target) {
    exists j :: 0 <= j < |fds| && Locked(fds[j]) && fds[j].dev == target
  }

  /** What the scan in open() finds against the new descriptor is what held the device before. */
  lemma HeldIsAgainst(s: State, target: Target, flags: bv32)
    requires Valid(s) && FirstFree(s.fds, 0) < |s.fds| && target != Nothing
    ensures Held(s.fds, target) <==> !NoneHoldsAgainst(Prepared(s, target, flags).fds, FirstFree(s.fds, 0))
  {
    var i, t := FirstFree(s.fds, 0), Prepared(s, target, flags);
    PreparedIsValid(s, target, flags);
    FreeIsUnlocked(s, i);
    if Held(s.fds, target) {
      var j :| 0 <= j < |s.fds| && Locked(s.fds[j]) && s.fds[j].dev == target;
      assert Clash(t.fds, j, i);
    }
    if !NoneHoldsAgainst(t.fds, i) {
      var j :| Clash(t.fds, j, i);
      assert Locked(s.fds[j]) && s.fds[j].dev == target;
    }
  }

  /**
    open() succeeds exactly when the name is known, there is a slot, nobody holds the device and the
    driver agrees. errno names the first of these that failed.
   */
  lemma OpenSucceedsIff(s: State, target: Target, flags: bv32, driver: int)
    requires Valid(s)
    ensures var (t, r) := Open(s, target, flags, driver);
            var full, held := FirstFree(s.fds, 0) == |s.fds|, target.Device? && Held(s.fds, target);
            && (r >= 0 <==> target != Nothing && !full && !held && driver >= 0)
            && (r >= 0 ==> r < |t.fds| && t.fds[r].dev == target && (IsDevice(t.fds[r]) <==> target.Device?))
            && (r >= 0 ==> s.fds[r].dev == Nothing && t.errno == s.errno)
            && (r < 0 ==> r == -1 && t.errno == if target == Nothing then ENODEV else if full then EMFILE
                                                else if held then EACCES else -driver)
  {
    var i := FirstFree(s.fds, 0);
    if target != Nothing && i < |s.fds| {
      OpenByCases(s, target, flags, driver);
      PreparedIsValid(s, target, flags);
      if target.Device? {
        HeldIsAgainst(s, target, flags);
      }
    }
  }

  /** Nothing but one slot differs between two tables, and the marks are the same. */
  ghost predicate OnlySlot(s: State, t: State, i: int) {
    && |t.fds| == |s.fds| && t.max == s.max
    && forall j :: 0 <= j < |s.fds| && j != i ==> t.fds[j] == s.fds[j]
  }

  /** A successful open() takes the lowest free number and changes that slot only; the mark is raised to it. */
  lemma OpenTakesLowest(s: State, target: Target, flags: bv32, driver: int)
    requires Valid(s)
    ensures var (t, r) := Open(s, target, flags, driver);
            r >= 0 ==>
              && r < |s.fds| && s.fds[r].dev == Nothing && (forall j :: 0 <= j < r ==> s.fds[j].dev != Nothing)
              && OnlySlot(s, t.(max := s.max), r) && t.max == Max(s.max, r) && t.errno == s.errno
              && t.fds[r].flags == if target.Device? then Marked(Plain(flags)) else Plain(flags)
  {
    var i := FirstFree(s.fds, 0);
    if target != Nothing && i < |s.fds| {
      OpenByCases(s, target, flags, driver);
    }
  }

  /** The new slot has the flags asked for, the two reserved bits apart, of which it has the device's. */
  lemma ReservedBits(f: bv32)
    ensures Plain(f) & 0x3FFF_FFFF == f & 0x3FFF_FFFF && Plain(f) & 0xC000_0000 == 0
    ensures Marked(Plain(f)) & 0x3FFF_FFFF == f & 0x3FFF_FFFF && Marked(Plain(f)) & 0xC000_0000 == 0x4000_0000
  {
  }

  /**
    close() frees the slot of every descriptor but the three standard ones, whatever it is open on,
    locked or not and whatever its driver answers. errno and the result say what failed.
   */
  lemma CloseFrees(s: State, file: int, driver: int)
    requires file < |s.fds|
    ensures var (t, r) := Close(s, file, driver);
            && OnlySlot(s, t, file)
            && (file > 2 ==> t.fds[file].dev == Nothing && t.fds[file].flags == 0)
            && (file <= 2 ==> t.fds == s.fds)
            && r == (if file < 0 || driver < 0 then -1 else 0)
            && t.errno == if file < 0 then EBADFD else if driver < 0 then -driver else s.errno
  {
  }

  /** A device that is opened, closed and opened again gets the same number again. */
  lemma OpenCloseOpen(s: State, target: Target, flags: bv32, driver: int, closing: int, again: bv32, driver': int)
    requires Valid(s) && Open(s, target, flags, driver).1 >= 0 && driver' >= 0
    ensures var (t, r) := Open(s, target, flags, driver);
            r < |t.fds| && Open(Close(t, r, closing).0, target, again, driver').1 == r
  {
    var (t, r) := Open(s, target, flags, driver);
    OpenSucceedsIff(s, target, flags, driver);
    OpenTakesLowest(s, target, flags, driver);
    OpenKeeps(s, target, flags, driver);
    CloseKeeps(t, r, closing);
    CloseFrees(t, r, closing);
    var u := Close(t, r, closing).0;
    assert Held(u.fds, target) ==> Held(s.fds, target) by {
      if Held(u.fds, target) {
        var j :| 0 <= j < |u.fds| && Locked(u.fds[j]) && u.fds[j].dev == target;
        assert s.fds[j] == u.fds[j];
      }
    }
    assert FirstFree(u.fds, 0) == r by {
      var i := FirstFree(u.fds, 0);
      assert i <= r;
      assert i < r ==> u.fds[i] == s.fds[i];
    }
    OpenSucceedsIff(u, target, again, driver');
    OpenTakesLowest(u, target, again, driver');
  }

  lemma CloseKeeps(s: State, file: int, driver: int)
    requires Valid(s) && file < |s.fds|
    ensures var t := Close(s, file, driver).0;
            Valid(t) && NoNewClash(s.fds, t.fds) && |t.fds| == |s.fds|
  {
    var t := Close(s, file, driver).0;
    if file <= 2 {
      SamePool(s, t);
    } else {
      ReplaceKeepsValid(s, t, file, t.fds[file]);
      forall j, k
        ensures !Clash(s.fds, j, k) ==> !Clash(t.fds, j, k)
      {
        if 0 <= j < |t.fds| {
          assert SlotOk(t, j);
        }
      }
    }
  }

  /** Closing the holder's descriptor lifts its lock exactly when it is not a standard descriptor. */
  lemma CloseUnlocksIff(s: State, file: nat, driver: int)
    requires Valid(s) && Ordered(s.fds) && file < |s.fds| && Locked(s.fds[file])
    ensures Held(Close(s, file, driver).0.fds, s.fds[file].dev) <==> file <= 2
  {
    var t := Close(s, file, driver).0;
    assert SlotOk(s, file);
    if file > 2 && Held(t.fds, s.fds[file].dev) {
      var j :| 0 <= j < |t.fds| && Locked(t.fds[j]) && t.fds[j].dev == s.fds[file].dev;
      assert Clash(s.fds, j, file) && Clash(s.fds, file, j);
    }
  }

  lemma FlagsKeep(s: State, i: nat, flags: bv32)
    requires Valid(s) && i < |s.fds| && flags & DEV == s.fds[i].flags & DEV
    requires flags & EXCL == 0 || IsDevice(s.fds[i])
    ensures Valid(WithFlags(s, i, flags))
    ensures flags & EXCL == 0 || Locked(s.fds[i]) ==> NoNewClash(s.fds, WithFlags(s, i, flags).fds)
  {
    var t := WithFlags(s, i, flags);
    assert SlotOk(s, i);
    ReplaceKeepsValid(s, t, i, t.fds[i]);
    if flags & EXCL == 0 || Locked(s.fds[i]) {
      ReplaceAddsNoClash(s.fds, i, t.fds[i]);
    }
  }

  /** The descriptor at the high-water mark, which the scan in alt_fd_lock() leaves out, is no rival. */
  predicate MarkIsNoRival(s: State, file: nat)
    requires file < |s.fds| && 0 <= s.max < |s.fds|
  {
    s.max == file || s.fds[s.max].dev != s.fds[file].dev
  }

  /** What a granted lock can clash with is the descriptor at the high-water mark, above its own. */
  lemma LockClashes(s: State, file: nat, j: int, k: int)
    requires Valid(s) && file < |s.fds| && IsDevice(s.fds[file]) && Granted(s, file)
    requires Clash(WithFlags(s, file, Lock(s.fds[file].flags)).fds, j, k) && !Clash(s.fds, j, k)
    ensures j == file < k == s.max && !MarkIsNoRival(s, file)
  {
    assert SlotOk(s, file) && SlotOk(s, k);
  }

  /** A granted lock adds no clash, and is exclusive, exactly when the descriptor at the mark is no rival. */
  lemma LockIsExclusiveIff(s: State, file: nat)
    requires Valid(s) && file < |s.fds| && IsDevice(s.fds[file]) && Granted(s, file)
    ensures var t := WithFlags(s, file, Lock(s.fds[file].flags));
            && s.max >= 3 && Valid(t) && (MarkIsNoRival(s, file) ==> NoNewClash(s.fds, t.fds))
            && (Exclusive(s.fds) ==> (Exclusive(t.fds) <==> MarkIsNoRival(s, file)))
            && (Ordered(s.fds) ==> Ordered(t.fds))
  {
    assert SlotOk(s, file);
    var t := WithFlags(s, file, Lock(s.fds[file].flags));
    FlagsKeep(s, file, Lock(s.fds[file].flags));
    forall j, k | Clash(t.fds, j, k) && !Clash(s.fds, j, k)
      ensures j < k && !MarkIsNoRival(s, file)
    {
      LockClashes(s, file, j, k);
    }
    if !MarkIsNoRival(s, file) {
      assert Clash(t.fds, file, s.max);
    }
  }

  /** Another descriptor below the mark shares the device. */
  ghost predicate HasRival(s: State, file: nat)
    requires file < |s.fds|
  {
    exists j :: 0 <= j < s.max && j < |s.fds| && j != file && s.fds[j].dev == s.fds[file].dev
  }

  /** The lock bit is the top one, and the device bit the next. */
  lemma LockBit(f: bv32)
    ensures Lock(f) == f | 0x8000_0000 && Unlock(f) == f & 0x7FFF_FFFF
  {
  }

  lemma ReservedBitsMean(fd: Fd)
    ensures Locked(fd) <==> fd.flags & 0x8000_0000 != 0
    ensures IsDevice(fd) <==> fd.flags & 0x4000_0000 != 0
  {
  }

  /** A lock is granted exactly without such a rival; a refusal is an error and changes nothing else. */
  lemma LockMeans(s: State, file: nat, driver: int)
    requires file < |s.fds| && IsDevice(s.fds[file])
    ensures Ioctl(s, file, 0x740D, driver) ==
            if HasRival(s, file) then (s.(errno := EACCES), -EACCES)
            else (s.(fds := s.fds[file := s.fds[file].(flags := Lock(s.fds[file].flags))]), 0)
  {
    assert Granted(s, file) <==> !HasRival(s, file);
  }

  lemma UnlockMeans(s: State, file: nat, driver: int)
    requires file < |s.fds| && IsDevice(s.fds[file])
    ensures Ioctl(s, file, 0x740E, driver) ==
            (s.(fds := s.fds[file := s.fds[file].(flags := Unlock(s.fds[file].flags))]), 0)
  {
  }

  /** Every other request is the driver's to answer, and errno follows what it answers. */
  lemma OtherRequests(s: State, file: int, req: int, driver: int)
    requires file < |s.fds|
    requires file < 0 || !IsDevice(s.fds[file]) || (req != 0x740D && req != 0x740E)
    ensures var rc := if file < 0 then -EBADFD else driver;
            Ioctl(s, file, req, driver) == (s.(errno := if rc < 0 then -rc else s.errno), rc)
  {
  }

  lemma IoctlKeepsIff(s: State, file: int, req: int, driver: int)
    requires Valid(s) && file < |s.fds|
    ensures var t := Ioctl(s, file, req, driver).0;
            && Valid(t) && |t.fds| == |s.fds|
            && (Exclusive(s.fds) ==> (Exclusive(t.fds) <==>
                (file >= 0 && req == TIOCEXCL && IsDevice(s.fds[file]) && Granted(s, file) && s.max >= 0
                 ==> MarkIsNoRival(s, file))))
            && (Ordered(s.fds) ==> Ordered(t.fds))
  {
    var t := Ioctl(s, file, req, driver).0;
    if file >= 0 && IsDevice(s.fds[file]) && req == TIOCEXCL && Granted(s, file) {
      LockIsExclusiveIff(s, file);
    } else if file >= 0 && IsDevice(s.fds[file]) && req == TIOCNXCL {
      FlagsKeep(s, file, Unlock(s.fds[file].flags));
    } else {
      SamePool(s, t);
    }
  }

  /** Giving a granted lock back undoes it: the pool is as it was. */
  lemma UnlockUndoesLock(s: State, file: nat, driver: int)
    requires file < |s.fds| && IsDevice(s.fds[file]) && !Locked(s.fds[file]) && Granted(s, file)
    ensures var t := Ioctl(s, file, TIOCEXCL, driver).0; Ioctl(t, file, TIOCNXCL, driver) == (s, 0)
  {
    var f := s.fds[file].flags;
    assert Unlock(Lock(f)) == f;
    var t := Ioctl(s, file, TIOCEXCL, driver).0;
    var u := Ioctl(t, file, TIOCNXCL, driver).0;
    assert u.fds == s.fds;
  }

  lemma UpdateKeeps(s: State, file: nat, arg: bv32)
    requires Valid(s) && file < |s.fds|
    ensures var t := WithFlags(s, file, Updated(s.fds[file].flags, arg));
            Valid(t) && NoNewClash(s.fds, t.fds)
  {
    assert SlotOk(s, file);
    FlagsKeep(s, file, Updated(s.fds[file].flags, arg));
  }

  lemma FcntlKeeps(s: State, file: int, cmd: int, arg: bv32)
    requires Valid(s) && file < |s.fds|
    ensures var t := Fcntl(s, file, cmd, arg).0;
            Valid(t) && NoNewClash(s.fds, t.fds) && |t.fds| == |s.fds|
  {
    var t := Fcntl(s, file, cmd, arg).0;
    if file >= 0 && cmd == F_SETFL {
      UpdateKeeps(s, file, arg);
    } else {
      SamePool(s, t);
    }
  }

  /** A negative number and a command other than 3 and 4, F_GETFL and F_SETFL, are errors and change nothing else. */
  lemma FcntlRefuses(s: State, file: int, cmd: int, arg: bv32)
    requires file < |s.fds| && (file < 0 || (cmd != 3 && cmd != 4))
    ensures Fcntl(s, file, cmd, arg) == (s.(errno := if file < 0 then EBADFD else EINVAL), Status(-1))
  {
  }

  /** The result of F_GETFL as a function of the flags alone. */
  lemma GetFlags(s: State, file: nat, arg: bv32)
    requires file < |s.fds|
    ensures Fcntl(s, file, F_GETFL, arg) == (s, Flags(Plain(s.fds[file].flags)))
  {
  }

  /** What F_GETFL shows of the flags: all but the two top bits. */
  lemma PlainBits(f: bv32)
    ensures Plain(f) == f & 0x3FFF_FFFF
  {
  }

  /** F_GETFL returns the flags that the file was opened with, but for the two reserved bits. */
  lemma OpenThenGetFlags(s: State, target: Target, flags: bv32, driver: int, arg: bv32)
    requires Valid(s)
    ensures var (t, r) := Open(s, target, flags, driver);
            0 <= r < |t.fds| ==> Fcntl(t, r, F_GETFL, arg) == (t, Flags(flags & 0x3FFF_FFFF))
  {
    OpenTakesLowest(s, target, flags, driver);
    var (t, r) := Open(s, target, flags, driver);
    if 0 <= r < |t.fds| {
      GetFlags(t, r, arg);
      PlainBits(t.fds[r].flags);
      ReservedBits(flags);
    }
  }

  /** The bits of O_APPEND and O_NONBLOCK, 0x8 and 0x4000. */
  lemma SettableBits(f: bv32, arg: bv32)
    ensures Replaced(f, arg, Updated(f, arg))
  {
  }

  /** The flags after a masked update. */
  lemma SetFlags(s: State, file: nat, arg: bv32)
    requires file < |s.fds|
    ensures var (t, reply) := Fcntl(s, file, F_SETFL, arg);
            && reply == Status(0) && OnlySlot(s, t, file) && t.errno == s.errno
            && t.fds[file] == s.fds[file].(flags := Updated(s.fds[file].flags, arg))
  {
  }

  /** Two words that agree in the settable bits with the argument, and in the others with the old flags. */
  predicate Replaced(old': bv32, arg: bv32, new': bv32) {
    new' & 0x4008 == arg & 0x4008 && new' & 0xFFFF_BFF7 == old' & 0xFFFF_BFF7
  }

  /** F_SETFL replaces O_APPEND and O_NONBLOCK and leaves the other bits, and F_GETFL returns the outcome. */
  lemma SetThenGetFlags(s: State, file: nat, arg: bv32, other: bv32)
    requires file < |s.fds|
    ensures var t := Fcntl(s, file, F_SETFL, arg).0;
            && |t.fds| == |s.fds| && Replaced(s.fds[file].flags, arg, t.fds[file].flags)
            && Fcntl(t, file, F_GETFL, other) == (t, Flags(Plain(t.fds[file].flags)))
  {
    SetFlags(s, file, arg);
    GetFlags(Fcntl(s, file, F_SETFL, arg).0, file, other);
    SettableBits(s.fds[file].flags, arg);
  }

  /** Moving an open unlocked descriptor onto a standard one and freeing its slot. */
  lemma MoveKeeps(s: State, file: nat, from: nat)
    requires Valid(s) && file < 3 <= from < |s.fds|
    requires s.fds[from].dev != Nothing && !Locked(s.fds[from]) && NoneHoldsAgainst(s.fds, from)
    ensures var t := s.(fds := Release(s.fds[file := s.fds[from]], from));
            Valid(t) && NoNewClash(s.fds, t.fds)
  {
    var moved := s.(fds := s.fds[file := s.fds[from]]);
    var t := s.(fds := Release(moved.fds, from));
    assert SlotOk(s, from);
    ReplaceKeepsValid(s, moved, file, s.fds[from]);
    ReplaceKeepsValid(moved, t, from, t.fds[from]);
    forall j, k
      ensures !Clash(s.fds, j, k) ==> !Clash(t.fds, j, k)
    {
      assert !Clash(s.fds, j, from);
      if 0 <= j < |t.fds| {
        assert SlotOk(t, j);
      }
    }
  }

  lemma RedirectKeeps(s: State, file: nat, target: Target, flags: bv32, driver: int)
    requires Valid(s) && file < 3
    ensures var t := Redirect(s, file, target, flags, driver);
            Valid(t) && NoNewClash(s.fds, t.fds) && |t.fds| == |s.fds|
  {
    OpenKeeps(s, target, flags, driver);
    var (t, from) := Open(s, target, flags, driver);
    if from >= 0 {
      OpenByCases(s, target, flags, driver);
      PreparedIsValid(s, target, flags);
      if target.Filesystem? {
        FilesystemsAreUnlocked(t, from);
      }
      MoveKeeps(t, file, from);
    }
  }

  /**
    A redirection either moves the opened target to the standard descriptor or, when the open fails,
    leaves it alone. No other descriptor changes except that the slot tried is left with clear flags.
   */
  lemma RedirectMovesOrLeaves(s: State, file: nat, target: Target, flags: bv32, driver: int)
    requires Valid(s) && file < 3
    ensures var t, r, i := Redirect(s, file, target, flags, driver), Open(s, target, flags, driver).1,
                           FirstFree(s.fds, 0);
            && |t.fds| == |s.fds|
            && (r < 0 ==> t.fds[file] == s.fds[file])
            && (r >= 0 ==> t.fds[file] == Open(s, target, flags, driver).0.fds[r] && t.fds[file].dev == target)
            && (r >= 0 ==> !Locked(t.fds[file]) && t.fds[r].dev == Nothing && t.fds[r].flags == 0)
            && (forall j :: 0 <= j < |s.fds| && j != file ==> t.fds[j].dev == s.fds[j].dev)
            && (forall j :: 0 <= j < |s.fds| && j != file && j != i ==> t.fds[j] == s.fds[j])
  {
    var i := FirstFree(s.fds, 0);
    if target != Nothing && i < |s.fds| {
      OpenByCases(s, target, flags, driver);
      PreparedIsValid(s, target, flags);
    }
  }

  // Any sequence of calls

  /** The only call that can break exclusive access: a granted lock beside a rival at the mark. */
  ghost predicate Safe(s: State, call: Call) {
    (&& call.IoctlCall? && call.req == TIOCEXCL && 0 <= call.file < |s.fds| && IsDevice(s.fds[call.file])
     && 0 <= s.max < |s.fds| && Granted(s, call.file))
    ==> MarkIsNoRival(s, call.file)
  }

  /** Every call keeps the pool valid and ordered, and keeps exclusive access exactly when it is safe. */
  lemma StepKeepsIff(s: State, call: Call)
    requires Valid(s) && Legal(s, call)
    ensures Valid(Step(s, call)) && |Step(s, call).fds| == |s.fds|
    ensures Exclusive(s.fds) ==> (Exclusive(Step(s, call).fds) <==> Safe(s, call))
    ensures Ordered(s.fds) ==> Ordered(Step(s, call).fds)
  {
    match call
    case OpenCall(target, flags, driver) => OpenKeeps(s, target, flags, driver);
    case CloseCall(file, driver) => CloseKeeps(s, file, driver);
    case IoctlCall(file, req, driver) => IoctlKeepsIff(s, file, req, driver);
    case FcntlCall(file, cmd, arg) => FcntlKeeps(s, file, cmd, arg);
    case RedirectCall(file, target, flags, driver) => RedirectKeeps(s, file, target, flags, driver);
  }

  /** Every call of the sequence is legal when its turn comes. */
  ghost predicate AllLegal(s: State, calls: seq<Call>)
    decreases |calls|
  {
    calls == [] || (Legal(s, calls[0]) && AllLegal(Step(s, calls[0]), calls[1..]))
  }

  ghost function Run(s: State, calls: seq<Call>): State
    requires AllLegal(s, calls)
    decreases |calls|
  {
    if calls == [] then s else Run(Step(s, calls[0]), calls[1..])
  }

  /** No call of the sequence gets a lock beside a rival at the mark. */
  ghost predicate AllSafe(s: State, calls: seq<Call>)
    requires AllLegal(s, calls)
    decreases |calls|
  {
    calls == [] || (Safe(s, calls[0]) && AllSafe(Step(s, calls[0]), calls[1..]))
  }

  /** Whoever gets a lock has the device alone until it gives the lock up, whatever is called. */
  lemma {:induction false} RunIsExclusive(s: State, calls: seq<Call>)
    requires Valid(s) && Exclusive(s.fds) && AllLegal(s, calls) && AllSafe(s, calls)
    ensures Valid(Run(s, calls)) && Exclusive(Run(s, calls).fds)
    decreases |calls|
  {
    if calls == [] {
    } else {
      StepKeepsIff(s, calls[0]);
      RunIsExclusive(Step(s, calls[0]), calls[1..]);
    }
  }

  /** Whatever is called, safe or not, no two descriptors ever hold the lock of one device. */
  lemma {:induction false} RunHasOneHolder(s: State, calls: seq<Call>)
    requires Valid(s) && Ordered(s.fds) && AllLegal(s, calls)
    ensures Ordered(Run(s, calls).fds) && OneHolder(Run(s, calls).fds)
    decreases |calls|
  {
    if calls == [] {
      forall i, j | 0 <= i < j < |s.fds| && Locked(s.fds[i]) && Locked(s.fds[j])
        ensures s.fds[i].dev != s.fds[j].dev
      {
        assert !Clash(s.fds, j, i);
      }
    } else {
      StepKeepsIff(s, calls[0]);
      RunHasOneHolder(Step(s, calls[0]), calls[1..]);
    }
  }

  /** The calls that give up the lock of descriptor `f`. */
  predicate GivesUp(call: Call, f: nat) {
    || (call.CloseCall? && call.file == f && f > 2)
    || (call.IoctlCall? && call.file == f && call.req == TIOCNXCL)
    || (call.RedirectCall? && call.file == f)
  }

  /** open() touches no descriptor that is in use. */
  lemma OpenLeavesOthers(s: State, target: Target, flags: bv32, driver: int, f: nat)
    requires Valid(s) && f < |s.fds| && s.fds[f].dev != Nothing
    ensures var (t, r) := Open(s, target, flags, driver);
            |t.fds| == |s.fds| && r < |t.fds| && r != f && t.fds[f] == s.fds[f] && (r < 0 || r > 2)
  {
    if target != Nothing && FirstFree(s.fds, 0) < |s.fds| {
      OpenByCases(s, target, flags, driver);
      PreparedIsValid(s, target, flags);
    }
  }

  lemma RedirectLeavesOthers(s: State, file: nat, target: Target, flags: bv32, driver: int, f: nat)
    requires Valid(s) && file < 3 && f < |s.fds| && s.fds[f].dev != Nothing && file != f
    ensures var t := Redirect(s, file, target, flags, driver); |t.fds| == |s.fds| && t.fds[f] == s.fds[f]
  {
    OpenLeavesOthers(s, target, flags, driver, f);
  }

  predicate StillLocked(s: State, t: State, f: nat)
    requires f < |s.fds|
  {
    |t.fds| == |s.fds| && Locked(t.fds[f]) && t.fds[f].dev == s.fds[f].dev
  }

  lemma NewFlagsLeaveLock(s: State, i: nat, flags: bv32, f: nat)
    requires f < |s.fds| && Locked(s.fds[f]) && i < |s.fds| && (i == f ==> flags & EXCL != 0)
    ensures StillLocked(s, WithFlags(s, i, flags), f)
  {
  }

  lemma IoctlLeavesLock(s: State, file: int, req: int, driver: int, f: nat)
    requires f < |s.fds| && Locked(s.fds[f]) && file < |s.fds| && (file != f || req != TIOCNXCL)
    ensures StillLocked(s, Ioctl(s, file, req, driver).0, f)
  {
    if file >= 0 && IsDevice(s.fds[file]) {
      if req == TIOCEXCL {
        NewFlagsLeaveLock(s, file, Lock(s.fds[file].flags), f);
      } else if req == TIOCNXCL {
        NewFlagsLeaveLock(s, file, Unlock(s.fds[file].flags), f);
      }
    }
  }

  lemma FcntlLeavesLock(s: State, file: int, cmd: int, arg: bv32, f: nat)
    requires f < |s.fds| && Locked(s.fds[f]) && file < |s.fds|
    ensures StillLocked(s, Fcntl(s, file, cmd, arg).0, f)
  {
    if file >= 0 && cmd == F_SETFL {
      NewFlagsLeaveLock(s, file, Updated(s.fds[file].flags, arg), f);
    }
  }

  lemma LockOutlivesStep(s: State, call: Call, f: nat)
    requires Valid(s) && Legal(s, call) && f < |s.fds| && Locked(s.fds[f])
    requires !GivesUp(call, f)
    ensures StillLocked(s, Step(s, call), f)
  {
    assert SlotOk(s, f);
    match call
    case OpenCall(target, flags, driver) => OpenLeavesOthers(s, target, flags, driver, f);
    case CloseCall(_, _) =>
    case IoctlCall(file, req, driver) => IoctlLeavesLock(s, file, req, driver, f);
    case FcntlCall(file, cmd, arg) => FcntlLeavesLock(s, file, cmd, arg, f);
    case RedirectCall(file, target, flags, driver) => RedirectLeavesOthers(s, file, target, flags, driver, f);
  }

  /** A lock lasts, and keeps every open() of its device out, until the holder gives it up. */
  lemma {:induction false} LockOutlivesRun(s: State, calls: seq<Call>, f: nat, flags: bv32, driver: int)
    requires Valid(s) && AllLegal(s, calls) && f < |s.fds| && Locked(s.fds[f])
    requires forall call :: call in calls ==> !GivesUp(call, f)
    ensures var t := Run(s, calls);
            && f < |t.fds| && Locked(t.fds[f]) && t.fds[f].dev == s.fds[f].dev
            && Open(t, s.fds[f].dev, flags, driver).1 == -1
    decreases |calls|
  {
    if calls == [] {
      assert SlotOk(s, f) && Held(s.fds, s.fds[f].dev);
      OpenSucceedsIff(s, s.fds[f].dev, flags, driver);
    } else {
      StepKeepsIff(s, calls[0]);
      LockOutlivesStep(s, calls[0], f);
      LockOutlivesRun(Step(s, calls[0]), calls[1..], f, flags, driver);
    }
  }

  lemma FirstSlot(s: State)
    requires |s.fds| >= 4 && s.fds[3].dev == Nothing
    requires s.fds[0].dev != Nothing && s.fds[1].dev != Nothing && s.fds[2].dev != Nothing
    ensures FirstFree(s.fds, 0) == 3
  {
  }

  /**
    The gap is reachable in three calls from reset: standard output is redirected to a device, the
    device is opened again, and standard output is then granted a lock that it does not have alone.
   */
  lemma LockBesideMark(size: nat, nullDev: nat, uart: nat)
    requires size >= 4 && uart != nullDev
    ensures var s0 := Reset(size, nullDev);
            var s1 := Redirect(s0, 1, Device(uart), O_WRONLY, 0);
            var s2 := Open(s1, Device(uart), O_WRONLY, 0).0;
            && |s2.fds| == size
            && var (t, rc) := Ioctl(s2, 1, TIOCEXCL, 0);
               rc == 0 && Clash(t.fds, 1, 3)
  {
    var target := Device(uart);
    var s0 := Reset(size, nullDev);
    ResetIsValid(size, nullDev);
    FirstSlot(s0);
    OpenSucceedsIff(s0, target, O_WRONLY, 0);
    OpenByCases(s0, target, O_WRONLY, 0);
    RedirectKeeps(s0, 1, target, O_WRONLY, 0);
    var s1 := Redirect(s0, 1, target, O_WRONLY, 0);
    FirstSlot(s1);
    assert !Held(s1.fds, target);
    OpenSucceedsIff(s1, target, O_WRONLY, 0);
    OpenByCases(s1, target, O_WRONLY, 0);
  }

  /** The number of the descriptor that a call is made on. */
  predicate OnFile(call: Call, file: int) {
    || (call.CloseCall? && call.file == file)
    || (call.IoctlCall? && call.file == file)
    || (call.FcntlCall? && call.file == file)
  }

  /**
    A program that never looks at the result of open(): whatever it calls with the number that a failed
    open() returned, the pool and the mark stay as the open left them and errno says so.
   */
  lemma {:induction false} FailedOpenIsHarmless(s: State, target: Target, flags: bv32, driver: int, calls: seq<Call>)
    requires Valid(s)
    requires Open(s, target, flags, driver).1 < 0 && AllLegal(Open(s, target, flags, driver).0, calls)
    requires forall call :: call in calls ==> OnFile(call, Open(s, target, flags, driver).1)
    ensures var t := Open(s, target, flags, driver).0;
            Run(t, calls) == if calls == [] then t else t.(errno := EBADFD)
  {
    NegativeRun(Open(s, target, flags, driver).0, Open(s, target, flags, driver).1, calls);
  }

  lemma {:induction false} NegativeRun(s: State, file: int, calls: seq<Call>)
    requires file < 0 && AllLegal(s, calls)
    requires forall call :: call in calls ==> OnFile(call, file)
    ensures Run(s, calls) == if calls == [] then s else s.(errno := EBADFD)
    decreases |calls|
  {
    if calls == [] {
    } else {
      assert OnFile(calls[0], file);
      NegativeRun(Step(s, calls[0]), file, calls[1..]);
    }
  }

  /** From reset: flags set on a closed descriptor are lost in a failed open(), which thus changes the pool. */
  lemma FailedOpenChangesPool(size: nat, nullDev: nat, uart: nat)
    requires size >= 4
    ensures var s0 := Reset(size, nullDev);
            var s1 := Fcntl(s0, 3, F_SETFL, 0x8).0;
            var (s2, r) := Open(s1, Device(uart), 0, -5);
            r == -1 && s2.fds != s1.fds
  {
    var s0 := Reset(size, nullDev);
    ResetIsValid(size, nullDev);
    FcntlKeeps(s0, 3, F_SETFL, 0x8);
    var s1 := Fcntl(s0, 3, F_SETFL, 0x8).0;
    FirstSlot(s1);
    SettableBits(0, 0x8);
    assert s1.fds[3].flags & 0x4008 == 0x8;
    OpenSucceedsIff(s1, Device(uart), 0, -5);
    FailedOpenChangesNothingIff(s1, Device(uart), 0, -5);
  }

  /** From reset: standard output is redirected to a device, locks it and is closed, and the lock is still held. */
  lemma CloseKeepsLock(size: nat, nullDev: nat, uart: nat)
    requires size >= 4 && uart != nullDev
    ensures var s0 := Reset(size, nullDev);
            var s1 := Redirect(s0, 1, Device(uart), O_WRONLY, 0);
            |s1.fds| == size &&
            var (s2, locked) := Ioctl(s1, 1, TIOCEXCL, 0);
            var (s3, closed) := Close(s2, 1, 0);
            locked == 0 && closed == 0 && Held(s3.fds, Device(uart))
  {
    var s0 := Reset(size, nullDev);
    ResetIsValid(size, nullDev);
    FirstSlot(s0);
    OpenSucceedsIff(s0, Device(uart), O_WRONLY, 0);
    OpenByCases(s0, Device(uart), O_WRONLY, 0);
    var s1 := Redirect(s0, 1, Device(uart), O_WRONLY, 0);
    RedirectMovesOrLeaves(s0, 1, Device(uart), O_WRONLY, 0);
    assert IsDevice(s1.fds[1]) && Granted(s1, 1);
    var s2 := Ioctl(s1, 1, TIOCEXCL, 0).0;
    assert Locked(s2.fds[1]) && s2.fds[1].dev == Device(uart);
  }
}
