/** The descriptor table of selector.c. */
module Selector {
  import opened Common

  const FD_UNUSED: int := -1

  datatype Item<+D> = Item(fd: int, interest: Interest, handler: HandlerId, data: Option<D>)

  function Cleared<D>(fd: int): Item<D> {
    Item(fd, OP_NOOP, NullHandler, None)
  }

  // ---------------------------------------------------------------- capacities

  function Pow2(k: nat): nat
    ensures Pow2(k) > 0
  {
    if k == 0 then 1 else 2 * Pow2(k - 1)
  }

  lemma {:induction false} Pow2Monotone(a: nat, b: nat)
    requires a <= b
    ensures Pow2(a) <= Pow2(b)
  {
    if a < b { Pow2Monotone(a, b - 1); }
  }

  function Bits(n: nat): nat {
    if n == 0 then 0 else 1 + Bits(n / 2)
  }

  ghost predicate LeastPowerAbove(p: nat, n: nat) {
    && n < p
    && (exists k: nat :: p == Pow2(k))
    && (forall k: nat :: n < Pow2(k) ==> p <= Pow2(k))
  }

  lemma {:induction false} BitsGiveLeastPower(n: nat)
    ensures LeastPowerAbove(Pow2(Bits(n)), n)
  {
    if n > 0 {
      BitsGiveLeastPower(n / 2);
      forall k: nat | n < Pow2(k) ensures Pow2(Bits(n)) <= Pow2(k) {
        assert k > 0;
        assert n / 2 < Pow2(k - 1);
      }
    }
  }

  /** One more than the least power of two above n, capped. */
  ghost predicate CapacityFor(capacity: nat, n: nat) {
    exists p: nat :: LeastPowerAbove(p, n) && capacity == 1 + if p > ITEMS_MAX_SIZE then ITEMS_MAX_SIZE else p
  }

  /** next_capacity, for the arguments on which its 64-bit shift is defined. */
  method NextCapacity(n: nat) returns (capacity: nat)
    requires n < 0x8000_0000_0000_0000
    ensures CapacityFor(capacity, n)
  {
    var bits: nat := 0;
    var tmp: nat := n;
    while tmp != 0
      invariant bits + Bits(tmp) == Bits(n)
    {
      tmp := tmp / 2;
      bits := bits + 1;
    }
    tmp := Pow2(bits);
    BitsGiveLeastPower(n);
    if tmp > ITEMS_MAX_SIZE {
      tmp := ITEMS_MAX_SIZE;
    }
    capacity := tmp + 1;
  }

  // ---------------------------------------------------------------- the table

  /** `max` is the largest key of the table, or 0 when the table is empty. */
  ghost predicate IsMaxFd<D>(m: map<int, Slot<D>>, max: int) {
    && (m == map[] ==> max == 0)
    && (m != map[] ==> max in m)
    && (forall fd :: fd in m ==> fd <= max)
  }

  /**
   * Whether selector_register stays inside the table: its guard `ufd > fd_size` leaves exactly one
   * descriptor unprotected, the one equal to the current size.
   */
  predicate RegisterInBounds(fd: int, fdSize: nat) {
    InvalidFd(fd) || fd != fdSize
  }

  /** The guard is enough exactly for the descriptors it is documented for, whatever the table grows to. */
  lemma GuardMissesOneDescriptor(fd: int, fdSize: nat, grown: nat)
    requires !InvalidFd(fd) && fd < grown
    ensures RegisterInBounds(fd, fdSize) <==> fd < if fd > fdSize then grown else fdSize
    ensures fdSize == ITEMS_MAX_SIZE + 1 ==> RegisterInBounds(fd, fdSize)
    ensures fdSize == 2 && fd == 2 ==> !RegisterInBounds(fd, fdSize)
  {}

  /** Slot i of the jump table is unused or holds descriptor i. */
  ghost predicate WellIndexed<D>(s: seq<Item<D>>) {
    forall i :: 0 <= i < |s| && s[i].fd != FD_UNUSED ==> s[i].fd == i && !InvalidFd(i)
  }

  /**
   * An unused slot asks for nothing.  The second check of handle_iteration needs it of a slot that the
   * first callback has just cleared; selector_unregister_fd sees to that.
   */
  ghost predicate Blank<D>(s: seq<Item<D>>) {
    forall i :: 0 <= i < |s| && s[i].fd == FD_UNUSED ==> s[i].interest == OP_NOOP
  }

  function SlotOf<D>(item: Item<D>): Slot<D> {
    Slot(item.handler, item.interest, item.data)
  }

  /** The map from descriptors to slots that the table stands for. */
  ghost function TableOf<D>(s: seq<Item<D>>): map<int, Slot<D>> {
    map i | 0 <= i < |s| && s[i].fd != FD_UNUSED :: SlotOf(s[i])
  }

  /** The prototype sets given to select(2): exactly the descriptors with that interest. */
  ghost predicate MastersMatch<D>(m: map<int, Slot<D>>, masterR: set<int>, masterW: set<int>) {
    && (forall fd :: fd in masterR <==> fd in m && WantsRead(m[fd].interest))
    && (forall fd :: fd in masterW <==> fd in m && WantsWrite(m[fd].interest))
  }

  lemma UsedItem<D>(s: seq<Item<D>>, fd: int, item: Item<D>)
    requires WellIndexed(s) && 0 <= fd < |s| && !InvalidFd(fd) && item.fd == fd
    ensures WellIndexed(s[fd := item])
    ensures TableOf(s[fd := item]) == TableOf(s)[fd := SlotOf(item)]
  {}

  lemma UnusedItem<D>(s: seq<Item<D>>, fd: int, item: Item<D>)
    requires WellIndexed(s) && 0 <= fd < |s| && item.fd == FD_UNUSED
    ensures WellIndexed(s[fd := item])
    ensures TableOf(s[fd := item]) == TableOf(s) - {fd}
  {}

  lemma GrownTable<D>(s: seq<Item<D>>, s': seq<Item<D>>)
    requires WellIndexed(s) && |s| <= |s'| && s'[..|s|] == s
    requires forall i :: |s| <= i < |s'| ==> s'[i].fd == FD_UNUSED
    ensures WellIndexed(s') && TableOf(s') == TableOf(s)
  {
    forall i | 0 <= i < |s| ensures s'[i] == s[i] { assert s'[..|s|][i] == s[i]; }
  }

  lemma AllBlank<D>(s: seq<Item<D>>)
    requires forall i :: 0 <= i < |s| ==> s[i] == Cleared(FD_UNUSED)
    ensures Blank(s)
  {}

  lemma MaxAfterAdding<D>(m: map<int, Slot<D>>, max: int, fd: int, slot: Slot<D>)
    requires IsMaxFd(m, max) && 0 <= fd && fd !in m
    ensures IsMaxFd(m[fd := slot], if fd > max then fd else max)
  {}

  class Selector<D> {
    /** Of length 0 while the source's pointer is null. */
    var fds: array<Item<D>>
    var fdSize: nat
    var maxFd: int
    var masterR: set<int>
    var masterW: set<int>

    /** All memory of the table came from calloc, so that Blank holds of the slots never used as well. */
    ghost var zeroed: bool

    ghost predicate Valid()
      reads this, fds
    {
      && fdSize == fds.Length <= ITEMS_MAX_SIZE + 1
      && WellIndexed(fds[..])
      && (zeroed ==> Blank(fds[..]))
      && MastersMatch(Contents(), masterR, masterW)
      && IsMaxFd(Contents(), maxFd)
    }

    ghost function Contents(): map<int, Slot<D>>
      reads this, fds
    {
      TableOf(fds[..])
    }

    /** The empty table that selector_new passes to ensure_capacity. */
    constructor ()
      ensures Valid() && Contents() == map[] && fresh(fds) && fdSize == 0 && zeroed
    {
      fds := new Item<D>[0];
      fdSize, maxFd, masterR, masterW, zeroed := 0, 0, {}, {}, true;
    }

    /** items_init: marks the elements from `last` on as unused. */
    method ItemsInit(last: nat)
      requires last <= fdSize == fds.Length
      modifies fds
      ensures fds[..last] == old(fds[..last])
      ensures forall i :: last <= i < fdSize ==> fds[i] == old(fds[i]).(fd := FD_UNUSED)
    {
      var i := last;
      while i < fdSize
        invariant last <= i <= fdSize
        invariant fds[..last] == old(fds[..last])
        invariant forall k :: last <= k < i ==> fds[k] == old(fds[k]).(fd := FD_UNUSED)
        invariant forall k :: i <= k < fdSize ==> fds[k] == old(fds[k])
      {
        fds[i] := fds[i].(fd := FD_UNUSED);
        i := i + 1;
      }
    }

    /** ensure_capacity; `allocOk` is whether calloc or realloc finds the memory. */
    method EnsureCapacity(n: nat, allocOk: bool) returns (status: Status)
      requires Valid()
      modifies this, fds
      ensures Valid() && Contents() == old(Contents()) && maxFd == old(maxFd)
      ensures status == (if n < old(fdSize) then Success
                         else if n > ITEMS_MAX_SIZE then MaxFd
                         else if allocOk then Success else NoMem)
      ensures status == Success ==> n < fdSize
      ensures status == Success && old(fdSize) <= n ==> CapacityFor(fdSize, n)
      ensures fdSize >= old(fdSize)
      ensures status != Success || n < old(fdSize) ==> fds == old(fds) && fdSize == old(fdSize)
      ensures fds == old(fds) || fresh(fds)
      ensures old(fdSize) == 0 && status == Success ==> zeroed
      ensures status != Success || n < old(fdSize) ==> zeroed == old(zeroed)
      ensures n == ITEMS_MAX_SIZE && status == Success ==> fdSize == ITEMS_MAX_SIZE + 1
    {
      if n < fdSize {
        return Success;
      } else if n > ITEMS_MAX_SIZE {
        return MaxFd;
      }
      var newSize := NextCapacity(n);
      if !allocOk {
        return NoMem;
      }
      hide WellIndexed, Blank, MastersMatch, TableOf;
      ghost var before := fds[..];
      if fds.Length == 0 {
        fds := new Item<D>[newSize](_ => Cleared(0));
        fdSize, zeroed := newSize, true;
        ItemsInit(0);
        assert fds[..0] == before;
        AllBlank(fds[..]);
      } else {
        var tmp := new Item<D>[newSize];
        forall i | 0 <= i < fdSize {
          tmp[i] := fds[i];
        }
        var oldSize := fdSize;
        fds := tmp;
        fdSize, zeroed := newSize, false;
        assert fds[..oldSize] == before;
        ItemsInit(oldSize);
      }
      GrownTable(before, fds[..]);
      status := Success;
    }

    /** items_max_fd. */
    method ItemsMaxFd() returns (max: int)
      requires fdSize == fds.Length && WellIndexed(fds[..]) && 0 <= maxFd < fdSize
      requires forall fd :: fd in Contents() ==> fd <= maxFd
      ensures IsMaxFd(Contents(), max)
    {
      max := 0;
      var i := 0;
      while i <= maxFd
        invariant 0 <= i <= maxFd + 1
        invariant 0 <= max && (max in Contents() || (max == 0 && forall k :: 0 <= k < i ==> k !in Contents()))
        invariant forall k :: 0 <= k < i && k in Contents() ==> k <= max
      {
        if fds[i].fd != FD_UNUSED {
          if fds[i].fd > max {
            max := fds[i].fd;
          }
          assert fds[..][i] == fds[i];
          assert i in Contents();
        }
        i := i + 1;
      }
      if Contents() != map[] {
        var fd :| fd in Contents();
        assert fd <= maxFd;
      }
    }

    /** items_update_fdset_for_fd. */
    method UpdateFdset(i: int)
      requires 0 <= i < fds.Length && fds[i].fd == i
      modifies this`masterR, this`masterW
      ensures masterR == old(masterR) - {i} + (if WantsRead(fds[i].interest) then {i} else {})
      ensures masterW == old(masterW) - {i} + (if WantsWrite(fds[i].interest) then {i} else {})
    {
      masterR := masterR - {fds[i].fd};
      masterW := masterW - {fds[i].fd};
      if fds[i].fd != FD_UNUSED {
        if WantsRead(fds[i].interest) {
          masterR := masterR + {fds[i].fd};
        }
        if WantsWrite(fds[i].interest) {
          masterW := masterW + {fds[i].fd};
        }
      }
    }

    method Register(fd: int, handler: HandlerId, interest: Interest, data: Option<D>, allocOk: bool)
      returns (status: Status)
      requires Valid() && RegisterInBounds(fd, fdSize)
      modifies this, fds
      ensures Valid() && fdSize >= old(fdSize)
      ensures fd < old(fdSize) || InvalidFd(fd) ==>
        fds == old(fds) && fdSize == old(fdSize) && zeroed == old(zeroed)
      ensures fds == old(fds) || fresh(fds)
      ensures fdSize == old(fdSize) || CapacityFor(fdSize, fd)
      ensures status == (if InvalidFd(fd) || handler == NullHandler then IArgs
                         else if fd > old(fdSize) && !allocOk then NoMem
                         else if fd in old(Contents()) then FdInUse else Success)
      ensures Contents() == if status == Success
                            then old(Contents())[fd := Slot(handler, interest, data)] else old(Contents())
    {
      if InvalidFd(fd) || handler == NullHandler {
        return IArgs;
      }
      if fd > fdSize {
        status := EnsureCapacity(fd, allocOk);
        if status != Success {
          return;
        }
      }
      assert fds[..][fd] == fds[fd];
      if fds[fd].fd != FD_UNUSED {
        return FdInUse;
      }
      Occupy(fd, handler, interest, data);
      status := Success;
    }

    /** The part of selector_register that fills an unused slot. */
    method Occupy(fd: int, handler: HandlerId, interest: Interest, data: Option<D>)
      requires Valid() && !InvalidFd(fd) && fd < fdSize && fd !in Contents()
      modifies this`maxFd, this`masterR, this`masterW, fds
      ensures Valid()
      ensures Contents() == old(Contents())[fd := Slot(handler, interest, data)]
    {
      ghost var before := fds[..];
      UsedItem(before, fd, Item(fd, interest, handler, data));
      MaxAfterAdding(TableOf(before), maxFd, fd, Slot(handler, interest, data));
      fds[fd] := Item(fd, interest, handler, data);
      assert fds[..] == before[fd := Item(fd, interest, handler, data)];
      if fd > maxFd {
        maxFd := fd;
      }
      UpdateFdset(fd);
    }

    /** Changes the interest of a used slot and both prototype sets with it. */
    method ChangeInterest(fd: int, i: Interest)
      requires Valid() && fd in Contents()
      modifies this`masterR, this`masterW, fds
      ensures Valid()
      ensures Contents() == old(Contents())[fd := old(Contents())[fd].(interest := i)]
    {
      ghost var before := fds[..];
      UsedItem(before, fd, before[fd].(interest := i));
      fds[fd] := fds[fd].(interest := i);
      assert fds[..] == before[fd := before[fd].(interest := i)];
      UpdateFdset(fd);
    }

    /** What selector_unregister_fd does after the close handler has run. */
    method Release(fd: int)
      requires Valid() && fd in Contents()
      modifies this`maxFd, this`masterR, this`masterW, fds
      ensures Valid()
      ensures Contents() == old(Contents()) - {fd}
    {
      hide WellIndexed, Blank, MastersMatch, TableOf, IsMaxFd;
      Forget(fd);
      maxFd := ItemsMaxFd();
    }

    /** The slot and both prototype sets, before the maximum is computed anew. */
    method Forget(fd: int)
      requires Valid() && fd in Contents()
      modifies this`masterR, this`masterW, fds
      ensures fdSize == fds.Length && WellIndexed(fds[..]) && (zeroed ==> Blank(fds[..]))
      ensures MastersMatch(Contents(), masterR, masterW)
      ensures Contents() == old(Contents()) - {fd}
      ensures 0 <= maxFd < fdSize && forall f :: f in Contents() ==> f <= maxFd
    {
      assert 0 <= maxFd < fdSize;
      hide WellIndexed, Blank, MastersMatch, TableOf;
      ChangeInterest(fd, OP_NOOP);
      ClearItem(fd);
    }

    /** The memset and item_init of a slot that neither prototype set holds any more. */
    method ClearItem(fd: int)
      requires Valid() && fd in Contents() && Contents()[fd].interest == OP_NOOP
      modifies fds
      ensures WellIndexed(fds[..]) && (zeroed ==> Blank(fds[..])) && MastersMatch(Contents(), masterR, masterW)
      ensures Contents() == old(Contents()) - {fd}
    {
      ghost var before := fds[..];
      UnusedItem(before, fd, Cleared(FD_UNUSED));
      fds[fd] := Cleared(0);
      fds[fd] := fds[fd].(fd := FD_UNUSED);
      assert fds[..] == before[fd := Cleared(FD_UNUSED)];
    }

    method SetInterest(fd: int, i: Interest) returns (status: Status)
      requires Valid() && (InvalidFd(fd) || fd < fdSize)
      modifies this`masterR, this`masterW, fds
      ensures Valid()
      ensures status == if fd in old(Contents()) then Success else IArgs
      ensures Contents() == if status == Success
                            then old(Contents())[fd := old(Contents())[fd].(interest := i)] else old(Contents())
    {
      if InvalidFd(fd) {
        return IArgs;
      }
      assert fds[..][fd] == fds[fd];
      if fds[fd].fd == FD_UNUSED {
        return IArgs;
      }
      ChangeInterest(fd, i);
      status := Success;
    }

    /** What item i of the jump table says about descriptor i. */
    lemma ItemAt(i: int)
      requires Valid() && 0 <= i < fdSize
      ensures fdSize == fds.Length
      ensures fds[i].fd != FD_UNUSED <==> i in Contents()
      ensures i in Contents() ==> Contents()[i] == SlotOf(fds[i])
      ensures zeroed && i !in Contents() ==> fds[i].interest == OP_NOOP
    {
      assert fds[..][i] == fds[i];
    }
  }

  /** selector_new: null when the table cannot be allocated.  main.c asks for 1024 elements. */
  method SelectorNew<D>(initialElements: nat, allocOk: bool) returns (s: Selector?<D>)
    ensures s != null <==> initialElements <= ITEMS_MAX_SIZE && allocOk
    ensures s != null ==> s.Valid() && s.Contents() == map[] && fresh(s) && fresh(s.fds)
    ensures s != null ==> CapacityFor(s.fdSize, initialElements)
    ensures s != null && initialElements == ITEMS_MAX_SIZE ==>
      s.fdSize == ITEMS_MAX_SIZE + 1 && s.zeroed && forall fd :: RegisterInBounds(fd, s.fdSize)
  {
    var t := new Selector<D>();
    var status := t.EnsureCapacity(initialElements, allocOk);
    s := if status == Success then t else null;
  }

  // ---------------------------------------------------------------- runs

  datatype TableOp<+D> =
    | RegisterOp(fd: int, slot: Slot<D>)
    | ReleaseOp(fd: int)
    | SetInterestOp(fd: int, interest: Interest)

  /** The operations on the abstract map. */
  function Apply<D>(m: map<int, Slot<D>>, op: TableOp<D>): map<int, Slot<D>> {
    match op
    case RegisterOp(fd, slot) =>
      if InvalidFd(fd) || slot.handler == NullHandler || fd in m then m else m[fd := slot]
    case ReleaseOp(fd) => m - {fd}
    case SetInterestOp(fd, i) => if fd in m then m[fd := m[fd].(interest := i)] else m
  }

  function ApplyAll<D>(m: map<int, Slot<D>>, ops: seq<TableOp<D>>): map<int, Slot<D>> {
    if ops == [] then m else Apply(ApplyAll(m, ops[..|ops| - 1]), ops[|ops| - 1])
  }

  /** Any sequence of operations on a table of 1024 elements does to it what it does to the map. */
  method RunOps<D>(s: Selector<D>, ops: seq<TableOp<D>>)
    requires s.Valid() && s.fdSize == ITEMS_MAX_SIZE + 1
    modifies s, s.fds
    ensures s.Valid() && s.fds == old(s.fds) && s.fdSize == ITEMS_MAX_SIZE + 1
    ensures s.Contents() == ApplyAll(old(s.Contents()), ops)
  {
    var i := 0;
    while i < |ops|
      invariant i <= |ops|
      invariant s.Valid() && s.fds == old(s.fds) && s.fdSize == ITEMS_MAX_SIZE + 1
      invariant s.Contents() == ApplyAll(old(s.Contents()), ops[..i])
    {
      assert ops[..i + 1][..i] == ops[..i];
      match ops[i] {
        case RegisterOp(fd, slot) =>
          var _ := s.Register(fd, slot.handler, slot.interest, slot.data, false);
        case ReleaseOp(fd) =>
          if !InvalidFd(fd) {
            s.ItemAt(fd);
            if s.fds[fd].fd != FD_UNUSED {
              s.Release(fd);
            } else {
              assert s.Contents() - {fd} == s.Contents();
            }
          } else {
            assert s.Contents() - {fd} == s.Contents();
          }
        case SetInterestOp(fd, interest) =>
          var _ := s.SetInterest(fd, interest);
      }
      i := i + 1;
    }
    assert ops[..|ops|] == ops;
  }
}
