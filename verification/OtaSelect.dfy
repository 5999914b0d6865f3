/** Choice of the partition to boot (esp_ota_ops.c with the selection rules of
    bootloader_common_loader.c): two sectors each hold an entry with a sequence
    number; the valid entry with the greater number names the slot. */
module OtaSelect {
  import opened Arithmetic
  import opened Bytes

  datatype ImageState = New | PendingVerify | Confirmed | Rejected | Aborted | Undefined

  datatype Entry = Entry(number: nat, state: ImageState, crc: nat)

  /** The two sectors. */
  datatype Otadata = Otadata(e0: Entry, e1: Entry) {
    function Get(i: nat): Entry {
      if i == 0 then e0 else e1
    }

    function Set(i: nat, e: Entry): Otadata {
      if i == 0 then Otadata(e, e1) else Otadata(e0, e)
    }
  }

  datatype Partition = Factory | Ota(slot: nat) | Test

  /** What the code asks of the rest of the system: the checksum of a sequence
      number, the partition table, the image check, and the state a fresh image
      gets. */
  datatype Device = Device(crc: nat -> nat, slots: set<nat>, factory: bool, test: bool,
                           imageOk: Partition -> bool, newState: ImageState)
  {
    predicate Valid() {
      (forall i | i in slots :: i < 16) && (newState.New? || newState.Undefined?)
    }
  }

  const ERASED := Entry(UINT32_MAX, Undefined, UINT32_MAX)

  // The selection rules

  predicate SelectInvalid(e: Entry) {
    e.number == UINT32_MAX || e.state.Rejected? || e.state.Aborted?
  }

  predicate SelectValid(dev: Device, e: Entry) {
    !SelectInvalid(e) && e.crc == dev.crc(e.number)
  }

  /** bootloader_common_get_active_otadata: the valid entry with the greater
      number, the first on a tie. */
  function Active(dev: Device, d: Otadata): (a: Option<nat>)
    ensures a.Some? ==> a.value <= 1
    ensures a.Some? ==>
              var e, other := d.Get(a.value), d.Get(1 - a.value);
              && e.number != UINT32_MAX && !e.state.Rejected? && !e.state.Aborted? && e.crc == dev.crc(e.number)
              && (SelectValid(dev, other) ==> other.number < e.number || (other.number == e.number && a.value == 0))
    ensures a.None? ==> forall i | 0 <= i < 2 :: !SelectValid(dev, d.Get(i))
  {
    if SelectValid(dev, d.e0) && SelectValid(dev, d.e1) then
      Some(if d.e0.number >= d.e1.number then 0 else 1)
    else if SelectValid(dev, d.e0) then Some(0)
    else if SelectValid(dev, d.e1) then Some(1)
    else None
  }

  /** esp_ota_get_app_partition_count: consecutive slots from 0 on. */
  function CountFrom(slots: set<nat>, i: nat): (n: nat)
    requires i <= 16
    ensures i <= n <= 16 && (forall k | i <= k < n :: k in slots) && (n < 16 ==> n !in slots)
    decreases 16 - i
  {
    if i < 16 && i in slots then CountFrom(slots, i + 1) else i
  }

  function AppCount(dev: Device): (n: nat)
    ensures n <= 16 && forall k | 0 <= k < n :: k in dev.slots
  {
    CountFrom(dev.slots, 0)
  }

  function FindOta(dev: Device, slot: nat): Option<Partition> {
    if slot in dev.slots then Some(Ota(slot)) else None
  }

  function FirstOta(dev: Device, i: nat): (r: Option<Partition>)
    ensures r.Some? ==> exists k :: i <= k < 16 && k in dev.slots && r.value == Ota(k) && forall j | i <= j < k :: j !in dev.slots
    ensures r.None? ==> forall j | i <= j < 16 :: j !in dev.slots
    decreases 16 - i
  {
    if i >= 16 then None else if i in dev.slots then Some(Ota(i)) else FirstOta(dev, i + 1)
  }

  /** find_default_boot_partition. */
  function DefaultBoot(dev: Device): Option<Partition> {
    if dev.factory then Some(Factory)
    else if FirstOta(dev, 0).Some? then FirstOta(dev, 0)
    else if dev.test then Some(Test)
    else None
  }

  /** Without a factory image the least slot is booted by default. */
  lemma DefaultIsLeast(dev: Device)
    ensures dev.factory ==> DefaultBoot(dev) == Some(Factory)
    ensures !dev.factory && 0 in dev.slots ==> DefaultBoot(dev) == Some(Ota(0))
    ensures !dev.factory && DefaultBoot(dev).Some? && DefaultBoot(dev).value.Ota? ==>
              forall j | 0 <= j < DefaultBoot(dev).value.slot :: j !in dev.slots
    ensures !dev.factory && (exists j :: 0 <= j < 16 && j in dev.slots) ==> DefaultBoot(dev).Some? && DefaultBoot(dev).value.Ota?
  {
  }

  /** The slot of a sequence number: (number - 1) % count in 32-bit arithmetic. */
  function Slot(number: nat, count: nat): nat
    requires count > 0
  {
    (number + UINT32_MAX) % (UINT32_MAX + 1) % count
  }

  /** esp_ota_get_boot_partition. */
  function Boot(dev: Device, d: Otadata): Option<Partition> {
    var count := AppCount(dev);
    if (SelectInvalid(d.e0) && SelectInvalid(d.e1)) || count == 0 then DefaultBoot(dev)
    else match Active(dev, d)
      case Some(a) => FindOta(dev, Slot(d.Get(a).number, count))
      case None => DefaultBoot(dev)
  }

  /** The entry rewrite_ota_seq writes. */
  function Rewritten(dev: Device, number: nat, state: ImageState): Entry {
    Entry(number, state, dev.crc(number))
  }

  /** Otadata after power was lost while sector k was erased and rewritten: the
      sector is as it was, holds the new entry, or holds a torn one, which the
      checks do not accept. */
  ghost predicate MayRemain(dev: Device, before: Otadata, k: nat, entry: Entry, d: Otadata) {
    exists e: Entry :: d == before.Set(k, e) && (e == before.Get(k) || e == entry || !SelectValid(dev, e))
  }

  // Switching the boot slot

  /** The first number from the given one on that is congruent to target modulo
      count. */
  ghost predicate IsNextNumber(x: nat, number: nat, target: nat, count: nat)
    requires count > 0
  {
    number <= x < number + count && x % count == target % count
  }

  lemma NextNumberUnique(x: nat, y: nat, number: nat, target: nat, count: nat)
    requires count > 0 && IsNextNumber(x, number, target, count) && IsNextNumber(y, number, target, count)
    ensures x == y
  {
    if x < y {
      DistinctModulo(x, y, count);
    } else if y < x {
      DistinctModulo(y, x, count);
    }
  }

  /** A number congruent to sub + 1 selects slot sub. */
  lemma SlotOf(x: nat, sub: nat, count: nat)
    requires 0 < x <= UINT32_MAX && sub < count && x % count == (sub + 1) % count
    ensures Slot(x, count) == sub
  {
    assert (x + UINT32_MAX) % (UINT32_MAX + 1) == x - 1;
    NextModulo(x - 1, count);
    var r := (x - 1) % count;
    assert (r + 1) % count == (sub + 1) % count;
    if r < sub {
      DistinctModulo(r + 1, sub + 1, count);
    } else if sub < r {
      DistinctModulo(sub + 1, r + 1, count);
    }
  }

  /** The search loop of esp_rewrite_ota_data; it ends without 32-bit wrap-around
      while number + count fits. */
  method NextNumber(number: nat, sub: nat, count: nat) returns (x: nat)
    requires sub < count && number + count <= UINT32_MAX + 1
    ensures IsNextNumber(x, number, sub + 1, count) && x <= UINT32_MAX
  {
    var r := (sub + 1) % count;
    var i := 0;
    MulStep(0, count);
    while number > r + i * count
      invariant r + i * count < number + count
      decreases number - i * count
    {
      MulStep(i, count);
      i := i + 1;
    }
    x := r + i * count;
    DivModUnique(x, count, i, r);
  }

  lemma MulStep(i: nat, n: nat)
    ensures 0 * n == 0 && (i + 1) * n == i * n + n
  {
  }

  /** The sector a switch rewrites: the one not in use. */
  function SwitchSector(dev: Device, d: Otadata): nat {
    match Active(dev, d)
    case Some(a) => 1 - a
    case None => 0
  }

  /** The sequence number a switch to slot sub gives. */
  ghost predicate IsSwitchNumber(dev: Device, d: Otadata, sub: nat, x: nat) {
    match Active(dev, d)
    case Some(a) => AppCount(dev) > 0 && IsNextNumber(x, d.Get(a).number, sub + 1, AppCount(dev))
    case None => x == sub + 1
  }

  /** The numbers in use start at 1. */
  ghost predicate Positive(dev: Device, d: Otadata) {
    && (SelectValid(dev, d.e0) ==> 1 <= d.e0.number)
    && (SelectValid(dev, d.e1) ==> 1 <= d.e1.number)
  }

  /** A switch takes effect exactly when its number is not the erased value; then
      the next boot is from the slot asked for. */
  lemma SwitchBoots(dev: Device, d: Otadata, sub: nat, x: nat)
    requires dev.Valid() && Positive(dev, d) && sub < AppCount(dev)
    requires IsSwitchNumber(dev, d, sub, x) && x <= UINT32_MAX
    ensures var after := d.Set(SwitchSector(dev, d), Rewritten(dev, x, dev.newState));
            if x != UINT32_MAX then Boot(dev, after) == Some(Ota(sub)) && Positive(dev, after)
            else Boot(dev, after) == Boot(dev, d)
  {
    SlotOf(x, sub, AppCount(dev));
  }

  /** Power loss at any point of a switch leaves the old boot partition or the new
      one. */
  lemma SwitchAtomic(dev: Device, before: Otadata, entry: Entry, d: Otadata)
    requires MayRemain(dev, before, SwitchSector(dev, before), entry, d)
    ensures Boot(dev, d) == Boot(dev, before)
            || Boot(dev, d) == Boot(dev, before.Set(SwitchSector(dev, before), entry))
  {
  }

  class OtaStore {
    const dev: Device
    var d: Otadata

    constructor (dev: Device)
      ensures this.dev == dev && d == Otadata(ERASED, ERASED)
    {
      this.dev, d := dev, Otadata(ERASED, ERASED);
    }

    /** esp_rewrite_ota_data: switches to the slot of a partition subtype. */
    method Switch(subtype: nat) returns (ok: bool)
      requires dev.Valid() && Positive(dev, d)
      requires Active(dev, d).Some? ==> d.Get(Active(dev, d).value).number + AppCount(dev) <= UINT32_MAX + 1
      modifies this
      ensures ok <==> subtype % 16 < AppCount(dev)
      ensures !ok ==> d == old(d)
      ensures ok ==> var k := SwitchSector(dev, old(d));
                     var x := d.Get(k).number;
                     && d == old(d).Set(k, Rewritten(dev, x, dev.newState))
                     && d.Get(k).state == dev.newState && d.Get(k).crc == dev.crc(x)
                     && IsSwitchNumber(dev, old(d), subtype % 16, x)
                     && (Boot(dev, d) == Some(Ota(subtype % 16)) || (x == UINT32_MAX && Boot(dev, d) == Boot(dev, old(d))))
    {
      var count := AppCount(dev);
      var sub := subtype % 16;
      if sub >= count {
        return false;
      }
      var active := Active(dev, d);
      if active.Some? {
        var x := NextNumber(d.Get(active.value).number, sub, count);
        SwitchBoots(dev, d, sub, x);
        d := d.Set(1 - active.value, Rewritten(dev, x, dev.newState));
      } else {
        SwitchBoots(dev, d, sub, sub + 1);
        d := d.Set(0, Rewritten(dev, sub + 1, dev.newState));
      }
      return true;
    }

    /** esp_ota_current_ota_is_workable(true). */
    method MarkValid() returns (ok: bool)
      modifies this
      ensures ok <==> Active(dev, old(d)).Some? && AppCount(dev) != 0
      ensures !ok ==> d == old(d)
      ensures ok ==> var a := Active(dev, old(d)).value;
                     d == old(d).Set(a, old(d).Get(a).(state := Confirmed)) && Boot(dev, d) == Boot(dev, old(d))
    {
      var active := Active(dev, d);
      if active.None? || AppCount(dev) == 0 {
        return false;
      }
      var e := d.Get(active.value);
      if !e.state.Confirmed? {
        d := d.Set(active.value, Rewritten(dev, e.number, Confirmed));
      }
      return true;
    }

    /** esp_ota_current_ota_is_workable(false): true when the restart is reached. */
    method MarkInvalid() returns (restart: bool)
      modifies this
      ensures restart <==> Active(dev, old(d)).Some? && AppCount(dev) != 0 && RollbackTarget(dev, old(d)).Some?
      ensures !restart ==> d == old(d)
      ensures restart ==> var a := Active(dev, old(d)).value;
                          d == old(d).Set(a, old(d).Get(a).(state := Rejected))
      // to the other entry's slot, or to factory if that entry is not valid
      ensures Active(dev, old(d)).Some? && AppCount(dev) != 0 ==>
                var other := old(d).Get(1 - Active(dev, old(d)).value);
                if SelectValid(dev, other) then
                  var slot := Slot(other.number, AppCount(dev));
                  restart <==> slot in dev.slots && dev.imageOk(Ota(slot))
                else restart <==> dev.factory && dev.imageOk(Factory)
      ensures restart ==> var other := old(d).Get(1 - Active(dev, old(d)).value);
                          Boot(dev, d) == Some(if SelectValid(dev, other) then Ota(Slot(other.number, AppCount(dev))) else Factory)
      ensures restart ==> Boot(dev, d) == RollbackTarget(dev, old(d)) && dev.imageOk(Boot(dev, d).value)
    {
      var active := Active(dev, d);
      if active.None? || AppCount(dev) == 0 {
        return false;
      }
      if RollbackTarget(dev, d).None? {
        return false;
      }
      var e := d.Get(active.value);
      RollbackBoots(dev, d);
      d := d.Set(active.value, Rewritten(dev, e.number, Rejected));
      return true;
    }
  }

  // Rollback

  /** esp_ota_check_rollback_is_possible, anti-rollback off: the partition whose
      image it verified, if any. */
  function RollbackTarget(dev: Device, d: Otadata): Option<Partition> {
    var count := AppCount(dev);
    var active := Active(dev, d);
    if count == 0 || active.None? then None
    else
      var last := d.Get(1 - active.value);
      if !SelectValid(dev, last) then
        if dev.factory && dev.imageOk(Factory) then Some(Factory) else None
      else
        match FindOta(dev, Slot(last.number, count))
        case Some(p) => if dev.imageOk(p) then Some(p) else None
        case None => None
  }

  /** The entry in use, once rejected, leaves exactly the checked partition to
      boot. */
  lemma RollbackBoots(dev: Device, d: Otadata)
    requires RollbackTarget(dev, d).Some?
    ensures var a := Active(dev, d).value;
            Boot(dev, d.Set(a, Rewritten(dev, d.Get(a).number, Rejected))) == RollbackTarget(dev, d)
    ensures dev.imageOk(RollbackTarget(dev, d).value)
  {
  }

  /** Power loss during a rollback: the old partition, or the checked one. */
  lemma RollbackAtomic(dev: Device, before: Otadata, d: Otadata)
    requires RollbackTarget(dev, before).Some?
    requires var a := Active(dev, before).value;
             MayRemain(dev, before, a, Rewritten(dev, before.Get(a).number, Rejected), d)
    ensures Boot(dev, d) == Boot(dev, before) || Boot(dev, d) == RollbackTarget(dev, before)
  {
    RollbackBoots(dev, before);
  }

  /** Otadata after power was lost while the running image was being confirmed: the
      entry in use is rewritten, unless it is confirmed already. */
  ghost predicate MayRemainConfirming(dev: Device, before: Otadata, d: Otadata)
    requires Active(dev, before).Some?
  {
    var a := Active(dev, before).value;
    if before.Get(a).state.Confirmed? || AppCount(dev) == 0 then d == before
    else MayRemain(dev, before, a, Rewritten(dev, before.Get(a).number, Confirmed), d)
  }

  /** Confirming the running image is safe under power loss exactly when nothing is
      written, or when the other entry, or the default if that is not valid, names
      the partition that the entry in use names. */
  lemma MarkValidAtomicIff(dev: Device, before: Otadata)
    requires Active(dev, before).Some?
    ensures var a, count := Active(dev, before).value, AppCount(dev);
            var e, other := before.Get(a), before.Get(1 - a);
            (forall d | MayRemainConfirming(dev, before, d) :: Boot(dev, d) == Boot(dev, before))
            <==> (e.state.Confirmed? || count == 0
                  || FindOta(dev, Slot(e.number, count))
                     == if SelectValid(dev, other) then FindOta(dev, Slot(other.number, count)) else DefaultBoot(dev))
  {
    var a := Active(dev, before).value;
    if !before.Get(a).state.Confirmed? && AppCount(dev) > 0 {
      var lost := before.Set(a, ERASED);
      assert MayRemainConfirming(dev, before, lost);
      assert Boot(dev, lost) == if SelectValid(dev, before.Get(1 - a))
        then FindOta(dev, Slot(before.Get(1 - a).number, AppCount(dev))) else DefaultBoot(dev);
    }
  }

  /** Such a loss on two slots: the image in slot 1 is running for the first time,
      the one in slot 0 was confirmed before. */
  lemma MarkValidNotAtomic(dev: Device)
    requires dev.slots == {0, 1} && dev.Valid()
    ensures var before := Otadata(Rewritten(dev, 2, PendingVerify), Rewritten(dev, 1, Confirmed));
            var lost := Otadata(ERASED, before.e1);
            && Active(dev, before) == Some(0) && MayRemainConfirming(dev, before, lost)
            && Boot(dev, before) == Some(Ota(1)) && Boot(dev, lost) == Some(Ota(0))
  {
    TwoSlots(dev);
    var before := Otadata(Rewritten(dev, 2, PendingVerify), Rewritten(dev, 1, Confirmed));
    assert Otadata(ERASED, before.e1) == before.Set(0, ERASED) && !SelectValid(dev, ERASED);
  }

  // Returning to the factory image

  /** Otadata after power was lost while both sectors were erased, the first
      before the second. */
  ghost predicate MayRemainErasing(dev: Device, before: Otadata, d: Otadata) {
    || (d.e1 == before.e1 && (d.e0 == before.e0 || !SelectValid(dev, d.e0)))
    || (d.e0 == ERASED && (d.e1 == ERASED || !SelectValid(dev, d.e1)))
  }

  /** Setting the factory image erases both sectors; power loss in between is
      harmless exactly when the second entry is not valid or names the partition
      booted before. */
  lemma FactoryAtomicIff(dev: Device, before: Otadata)
    requires dev.factory && AppCount(dev) > 0
    ensures Boot(dev, Otadata(ERASED, ERASED)) == Some(Factory)
    ensures (forall d | MayRemainErasing(dev, before, d) :: Boot(dev, d) == Boot(dev, before) || Boot(dev, d) == Some(Factory))
            <==> (!SelectValid(dev, before.e1)
                  || FindOta(dev, Slot(before.e1.number, AppCount(dev))) == Boot(dev, before))
  {
    var half := Otadata(ERASED, before.e1);
    assert MayRemainErasing(dev, before, half);
    if SelectValid(dev, before.e1) {
      assert Boot(dev, half) == FindOta(dev, Slot(before.e1.number, AppCount(dev)));
    }
  }

  /** Such a loss on two slots: the entry in use is in the first sector, the
      other one names the other slot. */
  lemma FactoryNotAtomic(dev: Device)
    requires dev.factory && dev.slots == {0, 1} && dev.Valid()
    ensures var before := Otadata(Rewritten(dev, 2, dev.newState), Rewritten(dev, 1, dev.newState));
            var half := Otadata(ERASED, before.e1);
            && MayRemainErasing(dev, before, half)
            && Boot(dev, before) == Some(Ota(1)) && Boot(dev, half) == Some(Ota(0))
  {
    TwoSlots(dev);
  }

  lemma TwoSlots(dev: Device)
    requires dev.slots == {0, 1}
    ensures AppCount(dev) == 2
  {
    assert 0 in dev.slots && 1 in dev.slots && 2 !in dev.slots;
  }

  /** At the end of the number range a switch is lost: from number 2^32 - 2 on two
      slots, the next number for slot 0 is the erased value. */
  lemma LastSwitchLost(dev: Device)
    requires dev.slots == {0, 1} && dev.Valid()
    ensures var d := Otadata(Rewritten(dev, UINT32_MAX - 1, dev.newState), ERASED);
            && IsSwitchNumber(dev, d, 0, UINT32_MAX)
            && Boot(dev, d) == Some(Ota(1))
            && Boot(dev, d.Set(SwitchSector(dev, d), Rewritten(dev, UINT32_MAX, dev.newState))) == Some(Ota(1))
  {
    TwoSlots(dev);
  }

  // Runs

  /** One switch; with an entry, power is lost and that entry is left in the
      sector. */
  datatype Attempt = Attempt(subtype: nat, left: Option<Entry>)

  /** What one attempt may do to the boot partition and the number in use. */
  ghost predicate Transition(dev: Device, attempt: Attempt, boot: Option<Partition>, number: nat, boot': Option<Partition>, number': nat) {
    var target := Some(Ota(attempt.subtype % 16));
    && (boot' == boot || boot' == target)
    && (attempt.left.None? ==> boot' == target && number' >= 1)
    && number <= number'
    && (number >= 1 ==> number' < number + AppCount(dev))
  }

  /** Over every sequence of switches to existing slots, completed or cut short by
      power loss: each leaves the old boot partition or the one asked for, a
      completed one leaves the one asked for, and the number in use starts at 1,
      never decreases and grows by less than the number of slots. */
  method RunSwitches(dev: Device, attempts: seq<Attempt>) returns (boots: seq<Option<Partition>>, numbers: seq<nat>)
    requires dev.Valid()
    requires forall k | 0 <= k < |attempts| :: attempts[k].subtype % 16 < AppCount(dev)
    requires 16 * (|attempts| + 1) <= UINT32_MAX
    ensures |boots| == |numbers| == |attempts| + 1
    ensures boots[0] == DefaultBoot(dev) && numbers[0] == 0
    ensures forall k | 0 <= k < |attempts| :: Transition(dev, attempts[k], boots[k], numbers[k], boots[k + 1], numbers[k + 1])
  {
    var store := new OtaStore(dev);
    boots, numbers := [Boot(dev, store.d)], [0];
    for k := 0 to |attempts|
      invariant fresh(store) && store.dev == dev && Positive(dev, store.d)
      invariant |boots| == |numbers| == k + 1
      invariant boots[0] == DefaultBoot(dev) && numbers[0] == 0
      invariant boots[k] == Boot(dev, store.d) && numbers[k] == NumberInUse(dev, store.d) <= 16 * k
      invariant forall i | 0 <= i < k :: Transition(dev, attempts[i], boots[i], numbers[i], boots[i + 1], numbers[i + 1])
    {
      SwitchOrCrash(store, attempts[k]);
      boots := boots + [Boot(dev, store.d)];
      numbers := numbers + [NumberInUse(dev, store.d)];
    }
  }

  function NumberInUse(dev: Device, d: Otadata): nat {
    match Active(dev, d)
    case Some(a) => d.Get(a).number
    case None => 0
  }

  method SwitchOrCrash(store: OtaStore, attempt: Attempt)
    requires store.dev.Valid() && Positive(store.dev, store.d) && attempt.subtype % 16 < AppCount(store.dev)
    requires NumberInUse(store.dev, store.d) + 16 < UINT32_MAX
    modifies store
    ensures Positive(store.dev, store.d)
    ensures NumberInUse(store.dev, store.d) <= NumberInUse(store.dev, old(store.d)) + 16
    // power loss leaves the sector being switched as it was or torn
    ensures attempt.left.Some? ==>
              var k, e := SwitchSector(store.dev, old(store.d)), attempt.left.value;
              e == old(store.d).Get(k) || !SelectValid(store.dev, e) ==> store.d == old(store.d).Set(k, e)
    ensures Transition(store.dev, attempt, Boot(store.dev, old(store.d)), NumberInUse(store.dev, old(store.d)),
                       Boot(store.dev, store.d), NumberInUse(store.dev, store.d))
  {
    var before := store.d;
    var k := SwitchSector(store.dev, before);
    var ok := store.Switch(attempt.subtype);
    assert !SelectInvalid(store.d.Get(k));
    if attempt.left.Some? {
      // power is lost: the sector is as before, as after, or torn
      var e := attempt.left.value;
      if e == before.Get(k) || !SelectValid(store.dev, e) {
        SwitchAtomic(store.dev, before, store.d.Get(k), before.Set(k, e));
        store.d := before.Set(k, e);
      }
    }
  }
}
