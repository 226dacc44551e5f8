/** The Magic Keyboard: six key slots, a modifier byte and a dirty flag (hw/usb/dev-hid.c). */
module Keyboard {
  import Words
  import opened Usb

  /** A usage code of the keyboard page, or a byte of a report. */
  type Byte = bv8

  const NUM_KEYS := 6
  const REPORT_LEN := 10
  const REPORT_ID: Byte := 1
  const EP_VENDOR_IN := 1
  const EP_BOOT_IN := 2

  predicate IsModifier(usage: Byte) {
    0xe0 <= usage <= 0xe7
  }

  predicate IsKey(usage: Byte) {
    usage != 0 && !IsModifier(usage)
  }

  /** `1u << (usage - 0xe0)`. */
  function Bit(usage: Byte): Byte
    requires IsModifier(usage)
  {
    if usage == 0xe0 then 0x01
    else if usage == 0xe1 then 0x02
    else if usage == 0xe2 then 0x04
    else if usage == 0xe3 then 0x08
    else if usage == 0xe4 then 0x10
    else if usage == 0xe5 then 0x20
    else if usage == 0xe6 then 0x40
    else 0x80
  }

  function WithBit(modifiers: Byte, usage: Byte, down: bool): Byte
    requires IsModifier(usage)
  {
    if down then modifiers | Bit(usage) else modifiers & !Bit(usage)
  }

  /** The keys pressed, in slot order; the slots after them are empty. */
  datatype State = State(modifiers: Byte, keys: seq<Byte>, changed: bool)

  function Padded(keys: seq<Byte>): (slots: seq<Byte>)
    requires |keys| <= NUM_KEYS
    ensures |slots| == NUM_KEYS
  {
    keys + Words.Repeated(0, NUM_KEYS - |keys|)
  }

  predicate Distinct(keys: seq<Byte>) {
    forall i, j :: 0 <= i < j < |keys| ==> keys[i] != keys[j]
  }

  predicate WellFormed(s: State) {
    |s.keys| <= NUM_KEYS && Distinct(s.keys) && forall k :: k in s.keys ==> IsKey(k)
  }

  /** The list without its first occurrence of `usage`. */
  function Remove(keys: seq<Byte>, usage: Byte): (rest: seq<Byte>)
    ensures |rest| == |keys| - (if usage in keys then 1 else 0)
  {
    if keys == [] then []
    else if keys[0] == usage then keys[1..]
    else [keys[0]] + Remove(keys[1..], usage)
  }

  lemma {:induction false} RemoveAt(keys: seq<Byte>, i: nat)
    requires i < |keys| && keys[i] !in keys[..i]
    ensures Remove(keys, keys[i]) == keys[..i] + keys[i + 1..]
    decreases |keys|
  {
    if i > 0 {
      assert keys[1..][..i - 1] == keys[..i][1..];
      RemoveAt(keys[1..], i - 1);
      assert keys[..i] == [keys[0]] + keys[1..][..i - 1];
      assert keys[1..][i..] == keys[i + 1..];
    }
  }

  lemma {:induction false} RemoveAbsent(keys: seq<Byte>, usage: Byte)
    requires usage !in keys
    ensures Remove(keys, usage) == keys
    decreases |keys|
  {
    if keys != [] {
      RemoveAbsent(keys[1..], usage);
    }
  }

  /** `apple_magic_kbd_apply_usage`: the new state, and whether anything changed. */
  function Apply(s: State, usage: Byte, down: bool): (State, bool) {
    if usage == 0 then (s, false)
    else if IsModifier(usage) then
      var modifiers := WithBit(s.modifiers, usage, down);
      (s.(modifiers := modifiers), modifiers != s.modifiers)
    else if down then
      if usage in s.keys || |s.keys| == NUM_KEYS then (s, false) else (s.(keys := s.keys + [usage]), true)
    else
      (s.(keys := Remove(s.keys, usage)), usage in s.keys)
  }

  /** `apple_magic_kbd_input_event` for a key that has a usage. */
  function Press(s: State, usage: Byte, down: bool): State {
    var (s', changed) := Apply(s, usage, down);
    s'.(changed := s.changed || changed)
  }

  /** `apple_magic_kbd_pack_boot_report`. */
  function Packed(s: State): (report: seq<Byte>)
    requires |s.keys| <= NUM_KEYS
    ensures |report| == REPORT_LEN
  {
    [REPORT_ID, s.modifiers, 0] + Padded(s.keys) + [0]
  }

  const RELEASED := State(0, [], false)

  /** A packed report determines the keys and the modifiers: no two states look alike to the host. */
  lemma PackedIsFaithful(s: State, t: State)
    requires WellFormed(s) && WellFormed(t) && Packed(s) == Packed(t)
    ensures s.modifiers == t.modifiers && s.keys == t.keys
  {
    assert s.modifiers == Packed(s)[1] == Packed(t)[1] == t.modifiers;
    var slots := Packed(s)[3..9];
    assert slots == Padded(s.keys) && slots == Padded(t.keys);
    KeysOfSlots(s, slots);
    KeysOfSlots(t, slots);
    assert |s.keys| == |t.keys|;
    assert s.keys == slots[..|s.keys|] == t.keys;
  }

  lemma KeysOfSlots(s: State, slots: seq<Byte>)
    requires WellFormed(s) && slots == Padded(s.keys)
    ensures forall i :: 0 <= i < |s.keys| ==> slots[i] == s.keys[i] && slots[i] != 0
    ensures |s.keys| < NUM_KEYS ==> slots[|s.keys|] == 0
  {
    forall i | 0 <= i < |s.keys|
      ensures s.keys[i] != 0
    {
      assert IsKey(s.keys[i]);
    }
  }

  /** What a host makes of the six slots. */
  function Pressed(slots: seq<Byte>): seq<Byte> {
    if slots == [] then [] else (if slots[0] == 0 then [] else [slots[0]]) + Pressed(slots[1..])
  }

  lemma {:induction false} PressedPadded(keys: seq<Byte>, n: nat)
    requires forall k :: k in keys ==> k != 0
    ensures Pressed(keys + Words.Repeated(0, n)) == keys
    decreases |keys| + n
  {
    var slots := keys + Words.Repeated(0, n);
    if keys != [] {
      assert slots[0] == keys[0] && slots[1..] == keys[1..] + Words.Repeated(0, n);
      assert keys[0] in keys && forall k :: k in keys[1..] ==> k in keys;
      PressedPadded(keys[1..], n);
    } else if n > 0 {
      assert slots[1..] == [] + Words.Repeated(0, n - 1);
      PressedPadded([], n - 1);
    }
  }

  /** The host reads the report back: its number, the modifiers, and in its slots the keys in press order. */
  lemma PackedRoundTrip(s: State)
    requires WellFormed(s)
    ensures var report := Packed(s);
      |report| == 10 && report[0] == 1 && report[1] == s.modifiers && Pressed(report[3..9]) == s.keys
      && report[2] == 0 && report[9] == 0
  {
    hide IsModifier;
    assert Packed(s)[3..9] == s.keys + Words.Repeated(0, NUM_KEYS - |s.keys|);
    forall k | k in s.keys
      ensures k != 0
    {
      assert IsKey(k);
    }
    PressedPadded(s.keys, NUM_KEYS - |s.keys|);
  }

  /** A key event asks for a report exactly if the report would differ from the one before. */
  lemma ChangedExactly(s: State, usage: Byte, down: bool)
    requires WellFormed(s) && !s.changed
    ensures WellFormed(Press(s, usage, down))
    ensures Press(s, usage, down).changed <==> Packed(Press(s, usage, down)) != Packed(s)
  {
    ApplyKeepsWellFormed(s, usage, down);
    ChangeIsSeen(s, usage, down);
    hide Apply, Packed, Distinct, IsKey;
    var s' := Apply(s, usage, down).0;
    if Packed(s') == Packed(s) {
      PackedIsFaithful(s', s);
    }
    PackedIgnoresFlag(s', Press(s, usage, down));
  }

  lemma ChangeIsSeen(s: State, usage: Byte, down: bool)
    requires WellFormed(s)
    ensures var (s', changed) := Apply(s, usage, down);
      s'.changed == s.changed && (changed <==> s'.modifiers != s.modifiers || s'.keys != s.keys)
  {
    hide Bit;
    if usage !in s.keys {
      RemoveAbsent(s.keys, usage);
    }
  }

  lemma PackedIgnoresFlag(s: State, t: State)
    requires |s.keys| <= NUM_KEYS && s.keys == t.keys && s.modifiers == t.modifiers
    ensures Packed(s) == Packed(t)
  {
  }

  // ----- histories since reset -----

  datatype Operation = Key(usage: Byte, down: bool) | Poll(size: nat)

  /** `report` is what the host last received on the boot endpoint; before the first poll it assumes all keys released. */
  datatype History = History(device: State, report: seq<Byte>)

  const AFTER_RESET := History(RELEASED, Packed(RELEASED))

  /** `usb_apple_magic_kbd_handle_data` on the boot endpoint: NAK if nothing changed, else the report, cut to the packet. */
  function Polled(h: History, size: nat): History
    requires |h.device.keys| <= NUM_KEYS
  {
    if !h.device.changed then h
    else History(h.device.(changed := false), Packed(h.device)[..if size < REPORT_LEN then size else REPORT_LEN])
  }

  function Step(h: History, op: Operation): History
    requires |h.device.keys| <= NUM_KEYS
  {
    match op
    case Key(usage, down) => h.(device := Press(h.device, usage, down))
    case Poll(size) => Polled(h, size)
  }

  predicate Synchronised(h: History) {
    WellFormed(h.device) && (!h.device.changed ==> h.report <= Packed(h.device))
  }

  lemma ApplyKeepsWellFormed(s: State, usage: Byte, down: bool)
    requires WellFormed(s)
    ensures WellFormed(Apply(s, usage, down).0)
    ensures !Apply(s, usage, down).1 ==> Apply(s, usage, down).0 == s
  {
    hide Bit;
    RemoveKeepsKeys(s.keys, usage);
    if usage !in s.keys {
      RemoveAbsent(s.keys, usage);
    }
  }

  lemma RemoveKeepsKeys(keys: seq<Byte>, usage: Byte)
    requires Distinct(keys) && forall k :: k in keys ==> IsKey(k)
    ensures Distinct(Remove(keys, usage)) && forall k :: k in Remove(keys, usage) ==> IsKey(k)
  {
    hide Remove, IsKey;
    if usage in keys {
      var i := IndexOf(keys, usage);
      RemoveAt(keys, i);
    } else {
      RemoveAbsent(keys, usage);
    }
  }

  lemma {:induction false} IndexOf(keys: seq<Byte>, usage: Byte) returns (i: nat)
    requires usage in keys
    ensures i < |keys| && keys[i] == usage && usage !in keys[..i]
    decreases |keys|
  {
    if keys[0] == usage {
      i := 0;
    } else {
      var j := IndexOf(keys[1..], usage);
      i := j + 1;
      assert keys[..i] == [keys[0]] + keys[1..][..j];
    }
  }

  lemma StepSynchronised(h: History, op: Operation)
    requires Synchronised(h)
    ensures Synchronised(Step(h, op))
  {
    match op
    case Key(usage, down) => ApplyKeepsWellFormed(h.device, usage, down);
    case Poll(size) =>
  }

  function After(h: History, ops: seq<Operation>): (h': History)
    requires Synchronised(h)
    ensures Synchronised(h')
    decreases |ops|
  {
    if ops == [] then h
    else
      StepSynchronised(h, ops[0]);
      After(Step(h, ops[0]), ops[1..])
  }

  predicate FullPolls(ops: seq<Operation>) {
    forall i :: 0 <= i < |ops| && ops[i].Poll? ==> ops[i].size >= REPORT_LEN
  }

  lemma {:induction false} AfterOneMore(h: History, ops: seq<Operation>, op: Operation)
    requires Synchronised(h)
    ensures After(h, ops + [op]) == Step(After(h, ops), op)
    decreases |ops|
  {
    hide Step, Packed, Distinct, IsKey;
    if ops == [] {
      assert ([] + [op])[1..] == [];
      StepSynchronised(h, op);
    } else {
      assert (ops + [op])[1..] == ops[1..] + [op];
      StepSynchronised(h, ops[0]);
      AfterOneMore(Step(h, ops[0]), ops[1..], op);
    }
  }

  lemma ResetSynchronised()
    ensures Synchronised(AFTER_RESET)
  {
  }

  /** How much of a report fitted into the packet of the last poll that was answered; all of it before the first one. */
  function LastAnswer(ops: seq<Operation>): nat
    decreases |ops|
  {
    if ops == [] then REPORT_LEN
    else
      var before, op := ops[..|ops| - 1], ops[|ops| - 1];
      ResetSynchronised();
      if op.Poll? && After(AFTER_RESET, before).device.changed
      then (if op.size < REPORT_LEN then op.size else REPORT_LEN)
      else LastAnswer(before)
  }

  lemma {:induction false} ReportLength(ops: seq<Operation>)
    ensures Synchronised(AFTER_RESET)
    ensures |After(AFTER_RESET, ops).report| == LastAnswer(ops)
    ensures FullPolls(ops) ==> LastAnswer(ops) == REPORT_LEN
    decreases |ops|
  {
    ResetSynchronised();
    hide Packed, Distinct, IsKey, Press;
    if ops != [] {
      var n := |ops| - 1;
      ReportLength(ops[..n]);
      assert ops == ops[..n] + [ops[n]];
      AfterOneMore(AFTER_RESET, ops[..n], ops[n]);
      if FullPolls(ops) {
        assert ops[n].Poll? ==> ops[n].size >= REPORT_LEN;
        assert FullPolls(ops[..n]) by {
          assert forall i :: 0 <= i < n ==> ops[..n][i] == ops[i];
        }
      }
    }
  }

  /**
   * Whenever the dirty flag is clear, the host's last report is the packed current state, as far as it fitted into the
   * packet of the last poll that was answered. So the host knows the current state exactly if that packet had room for
   * a whole report; in particular if no poll was ever short.
   */
  lemma HostIsUpToDate(ops: seq<Operation>)
    ensures Synchronised(AFTER_RESET)
    ensures var h := After(AFTER_RESET, ops);
      !h.device.changed ==>
        && h.report <= Packed(h.device)
        && (h.report == Packed(h.device) <==> LastAnswer(ops) == REPORT_LEN)
    ensures FullPolls(ops) ==> LastAnswer(ops) == REPORT_LEN
  {
    ReportLength(ops);
  }

  /** A report is sent once: until something changes, polling again gets nothing. */
  lemma SecondPollIsSilent(h: History, size: nat, again: nat)
    requires |h.device.keys| <= NUM_KEYS
    ensures !Polled(h, size).device.changed && Polled(Polled(h, size), again) == Polled(h, size)
    ensures Polled(h, size).device.keys == h.device.keys && Polled(h, size).device.modifiers == h.device.modifiers
  {
    hide Packed;
  }

  /** A short poll clears the flag although the host has not seen the key. */
  lemma ShortPollHidesKey()
    ensures var h := Step(Step(AFTER_RESET, Key(0x04, true)), Poll(3));
      !h.device.changed && h.report == Packed(RELEASED)[..3] && h.device.keys == [0x04]
  {
  }

  // ----- the keys actually held -----

  /** Keys held, in the order they were pressed, however many. */
  function Held(ops: seq<Operation>): (keys: seq<Byte>)
    decreases |ops|
  {
    if ops == [] then []
    else
      var before, op := Held(ops[..|ops| - 1]), ops[|ops| - 1];
      if op.Poll? || !IsKey(op.usage) then before
      else if !op.down then Remove(before, op.usage)
      else if op.usage in before then before
      else before + [op.usage]
  }

  /** Slots hold exactly the held keys in press order as long as no more than six were ever held at once. */
  lemma {:induction false} SlotsAreHeldKeys(ops: seq<Operation>)
    requires forall n :: 0 <= n <= |ops| ==> |Held(ops[..n])| <= NUM_KEYS
    ensures After(AFTER_RESET, ops).device.keys == Held(ops)
    decreases |ops|
  {
    ResetSynchronised();
    hide Packed, Distinct, IsKey, Step;
    if ops != [] {
      var n := |ops| - 1;
      assert forall k :: 0 <= k <= n ==> ops[..n][..k] == ops[..k];
      SlotsAreHeldKeys(ops[..n]);
      assert ops[..|ops|] == ops == ops[..n] + [ops[n]];
      AfterOneMore(AFTER_RESET, ops[..n], ops[n]);
      KeysAfterStep(After(AFTER_RESET, ops[..n]), ops[n], Held(ops[..n]));
    }
  }

  lemma KeysAfterStep(h: History, op: Operation, held: seq<Byte>)
    requires h.device.keys == held && |held| <= NUM_KEYS
    requires op.Key? && IsKey(op.usage) && op.down && op.usage !in held ==> |held| < NUM_KEYS
    ensures Step(h, op).device.keys ==
      if op.Poll? || !IsKey(op.usage) then held
      else if !op.down then Remove(held, op.usage)
      else if op.usage in held then held
      else held + [op.usage]
  {
  }

  /** And only then: the slots follow the held keys through a whole history exactly if six always sufficed. */
  lemma SlotsExactly(ops: seq<Operation>)
    ensures (forall n :: 0 <= n <= |ops| ==> After(AFTER_RESET, ops[..n]).device.keys == Held(ops[..n]))
       <==> (forall n :: 0 <= n <= |ops| ==> |Held(ops[..n])| <= 6)
  {
    if forall n :: 0 <= n <= |ops| ==> |Held(ops[..n])| <= NUM_KEYS {
      forall n | 0 <= n <= |ops|
        ensures After(AFTER_RESET, ops[..n]).device.keys == Held(ops[..n])
      {
        assert forall k :: 0 <= k <= n ==> ops[..n][..k] == ops[..k];
        SlotsAreHeldKeys(ops[..n]);
      }
    }
  }

  // ----- modifiers -----

  /** The last thing said about a modifier: pressed or released. */
  predicate ModifierDown(ops: seq<Operation>, usage: Byte)
    decreases |ops|
  {
    if ops == [] then false
    else
      var op := ops[|ops| - 1];
      if op.Key? && op.usage == usage then op.down else ModifierDown(ops[..|ops| - 1], usage)
  }

  /** The bits of a report count from the left control key, which has usage 0xe0. */
  predicate BitSet(modifiers: Byte, usage: Byte)
    requires IsModifier(usage)
  {
    (modifiers >> (usage - 0xe0)) & 1 == 1
  }

  lemma BitSetIsBit(modifiers: Byte, usage: Byte)
    requires IsModifier(usage)
    ensures BitSet(modifiers, usage) <==> modifiers & Bit(usage) != 0
  {
  }

  /** Setting or clearing one bit leaves the others alone. */
  lemma BitsAreIndependent(modifiers: Byte, u: Byte, v: Byte, down: bool)
    requires IsModifier(u) && IsModifier(v)
    ensures BitSet(WithBit(modifiers, v, down), u) <==> if u == v then down else BitSet(modifiers, u)
  {
    hide Bit, BitSet, IsModifier, WithBit;
    MasksAreIndependent(modifiers, u, v, down);
    BitSetIsBit(modifiers, u);
    BitSetIsBit(WithBit(modifiers, v, down), u);
  }

  lemma MasksAreIndependent(modifiers: Byte, u: Byte, v: Byte, down: bool)
    requires IsModifier(u) && IsModifier(v)
    ensures WithBit(modifiers, v, down) & Bit(u) != 0 <==> if u == v then down else modifiers & Bit(u) != 0
  {
    hide Bit, IsModifier;
    BitsDiffer(u, v);
    Masked(modifiers, Bit(v), Bit(u));
  }

  lemma BitsDiffer(u: Byte, v: Byte)
    requires IsModifier(u) && IsModifier(v)
    ensures Bit(u) != 0 && (u != v ==> Bit(v) & Bit(u) == 0)
  {
  }

  lemma Masked(m: Byte, b: Byte, c: Byte)
    ensures (m | b) & b == b && (m & !b) & b == 0
    ensures b & c == 0 ==> (m | b) & c == m & c && (m & !b) & c == m & c
  {
  }

  lemma ModifierAfterStep(h: History, op: Operation, u: Byte)
    requires |h.device.keys| <= NUM_KEYS && IsModifier(u)
    ensures BitSet(Step(h, op).device.modifiers, u) <==>
      if op.Key? && op.usage == u then op.down else BitSet(h.device.modifiers, u)
  {
    NoBits(u);
    hide Packed, WithBit, Remove, IsModifier, BitSet;
    if op.Key? && IsModifier(op.usage) {
      BitsAreIndependent(h.device.modifiers, u, op.usage, op.down);
    }
  }

  /** Each bit of the modifier byte tells whether its modifier key is down. */
  lemma {:induction false} ModifierBits(ops: seq<Operation>, u: Byte)
    requires 0xe0 <= u <= 0xe7
    ensures Synchronised(AFTER_RESET)
    ensures BitSet(After(AFTER_RESET, ops).device.modifiers, u) <==> ModifierDown(ops, u)
    decreases |ops|
  {
    NoBits(u);
    ResetSynchronised();
    hide Packed, Bit, BitSet, Distinct, IsKey, IsModifier, Step;
    if ops != [] {
      var n := |ops| - 1;
      ModifierBits(ops[..n], u);
      assert ops == ops[..n] + [ops[n]];
      AfterOneMore(AFTER_RESET, ops[..n], ops[n]);
      ModifierAfterStep(After(AFTER_RESET, ops[..n]), ops[n], u);
    }
  }

  lemma NoBits(u: Byte)
    requires IsModifier(u)
    ensures u != 0 && !IsModifier(0) && !BitSet(0, u)
  {
  }

  // ----- the device -----

  class MagicKeyboard {
    var bootModifiers: Byte
    const bootKeys: array<Byte>
    var bootChanged: bool
    ghost var keys: seq<Byte>

    ghost predicate Valid()
      reads this, bootKeys
    {
      bootKeys.Length == NUM_KEYS && WellFormed(View()) && bootKeys[..] == Padded(keys)
    }

    ghost function View(): State
      reads this
    {
      State(bootModifiers, keys, bootChanged)
    }

    constructor ()
      ensures Valid() && View() == RELEASED && fresh(bootKeys)
    {
      bootKeys := new Byte[NUM_KEYS](_ => 0);
      bootModifiers, bootChanged := 0, false;
      keys := [];
      new;
      assert bootKeys[..] == Padded([]);
    }

    /** `usb_apple_magic_kbd_handle_reset`. */
    method Reset()
      requires Valid()
      modifies this, bootKeys
      ensures Valid() && View() == RELEASED
    {
      bootModifiers := 0;
      forall i | 0 <= i < NUM_KEYS {
        bootKeys[i] := 0;
      }
      bootChanged := false;
      keys := [];
      assert bootKeys[..] == Padded([]);
    }

    /** The slot that holds `code`, or `NUM_KEYS`. */
    method FindSlot(code: Byte) returns (i: nat)
      requires bootKeys.Length == NUM_KEYS
      ensures i <= NUM_KEYS && code !in bootKeys[..i]
      ensures i < NUM_KEYS ==> bootKeys[i] == code
    {
      i := 0;
      while i < NUM_KEYS && bootKeys[i] != code
        invariant 0 <= i <= NUM_KEYS && code !in bootKeys[..i]
      {
        i := i + 1;
      }
    }

    /** Slots after `i` move down by one, and the last becomes empty. */
    method Compact(i: nat)
      requires bootKeys.Length == NUM_KEYS && i < NUM_KEYS
      modifies bootKeys
      ensures bootKeys[..] == old(bootKeys[..i]) + old(bootKeys[i + 1..]) + [0]
    {
      ghost var before := bootKeys[..];
      var j := i;
      while j < NUM_KEYS - 1
        invariant i <= j <= NUM_KEYS - 1
        invariant forall m :: 0 <= m < i ==> bootKeys[m] == before[m]
        invariant forall m :: i <= m < j ==> bootKeys[m] == before[m + 1]
        invariant forall m :: j <= m < NUM_KEYS ==> bootKeys[m] == before[m]
      {
        bootKeys[j] := bootKeys[j + 1];
        j := j + 1;
      }
      bootKeys[NUM_KEYS - 1] := 0;
      assert bootKeys[..] == before[..i] + before[i + 1..] + [0];
    }

    /** `apple_magic_kbd_apply_usage`. */
    method ApplyUsage(usage: Byte, down: bool) returns (changed: bool)
      requires Valid()
      modifies this`bootModifiers, this`keys, bootKeys
      ensures Valid() && (View(), changed) == Apply(old(View()), usage, down)
    {
      hide Bit, Padded;
      ApplyKeepsWellFormed(View(), usage, down);
      if usage == 0 {
        return false;
      }
      if IsModifier(usage) {
        var prev := bootModifiers;
        bootModifiers := WithBit(bootModifiers, usage, down);
        return bootModifiers != prev;
      }
      var i := FindSlot(usage);
      SlotOfKey(keys, bootKeys[..], usage, i);
      if down {
        if i < NUM_KEYS {
          return false;
        }
        var free := FindSlot(0);
        FreeSlot(keys, bootKeys[..], free);
        if free == NUM_KEYS {
          return false;
        }
        bootKeys[free] := usage;
        keys := keys + [usage];
        return true;
      }
      if i == NUM_KEYS {
        RemoveAbsent(keys, usage);
        return false;
      }
      SlotRemoved(keys, i);
      Compact(i);
      keys := Remove(keys, usage);
      return true;
    }

    /** `apple_magic_kbd_input_event`, for a key that has a usage. */
    method InputEvent(usage: Byte, down: bool)
      requires Valid()
      modifies this, bootKeys
      ensures Valid() && View() == Press(old(View()), usage, down)
    {
      hide Apply;
      var changed := ApplyUsage(usage, down);
      if changed {
        bootChanged := true;
      }
    }

    /**
     * `usb_apple_magic_kbd_handle_data`: the report on the boot endpoint, if anything changed; the vendor endpoint has
     * nothing to say, and everything else stalls.
     */
    method HandleData(p: Packet) returns (answer: Answer<seq<Byte>>)
      requires Valid()
      modifies this`bootChanged
      ensures Valid()
      ensures var before, boot := History(old(View()), []), p.token == In && p.endpoint == EP_BOOT_IN;
        && View() == (if boot then Polled(before, p.size).device else old(View()))
        && answer == if p.token != In || p.endpoint !in {EP_VENDOR_IN, EP_BOOT_IN} then Stall
                     else if p.endpoint == EP_VENDOR_IN || !old(bootChanged) then Nak
                     else Data(Polled(before, p.size).report)
    {
      if p.token != In {
        return Stall;
      }
      match p.endpoint {
        case 1 => return Nak;  // EP_VENDOR_IN
        case 2 =>              // EP_BOOT_IN
          if !bootChanged {
            return Nak;
          }
          bootChanged := false;
          var report := [REPORT_ID, bootModifiers, 0] + bootKeys[..] + [0];
          assert report == Packed(View());
          return Data(report[..if p.size < REPORT_LEN then p.size else REPORT_LEN]);
        case _ => return Stall;
      }
    }
  }

  lemma SlotOfKey(keys: seq<Byte>, slots: seq<Byte>, usage: Byte, i: nat)
    requires |keys| <= NUM_KEYS && slots == Padded(keys) && usage != 0
    requires i <= NUM_KEYS && usage !in slots[..i] && (i < NUM_KEYS ==> slots[i] == usage)
    ensures i < NUM_KEYS ==> i < |keys| && keys[i] == usage && usage !in keys[..i]
    ensures i == NUM_KEYS ==> usage !in keys
  {
    if i < NUM_KEYS {
      assert slots[i] != 0;
      assert keys[..i] == slots[..i];
    } else {
      assert forall k :: 0 <= k < |keys| ==> keys[k] == slots[k];
      assert slots[..i] == slots;
    }
  }

  lemma FreeSlot(keys: seq<Byte>, slots: seq<Byte>, free: nat)
    requires |keys| <= NUM_KEYS && slots == Padded(keys) && forall k :: k in keys ==> IsKey(k)
    requires free <= NUM_KEYS && 0 !in slots[..free] && (free < NUM_KEYS ==> slots[free] == 0)
    ensures free == |keys|
    ensures free < NUM_KEYS ==> forall x :: IsKey(x) ==> slots[free := x] == Padded(keys + [x])
  {
    assert forall k :: 0 <= k < free ==> slots[k] == slots[..free][k] != 0;
    assert forall k :: 0 <= k < |keys| ==> slots[k] == keys[k] && keys[k] in keys;
    assert |keys| < NUM_KEYS ==> slots[|keys|] == 0;
  }

  lemma SlotRemoved(keys: seq<Byte>, i: nat)
    requires i < |keys| <= NUM_KEYS && keys[i] !in keys[..i]
    ensures Padded(Remove(keys, keys[i])) == Padded(keys)[..i] + Padded(keys)[i + 1..] + [0]
  {
    hide Remove, Padded;
    RemoveAt(keys, i);
    PaddedShift(keys, keys[..i] + keys[i + 1..], i);
  }

  lemma PaddedShift(keys: seq<Byte>, rest: seq<Byte>, i: nat)
    requires i < |keys| <= NUM_KEYS && rest == keys[..i] + keys[i + 1..]
    ensures Padded(rest) == Padded(keys)[..i] + Padded(keys)[i + 1..] + [0]
  {
    var slots, shifted := Padded(keys), Padded(keys)[..i] + Padded(keys)[i + 1..] + [0];
    forall k | 0 <= k < NUM_KEYS
      ensures Padded(rest)[k] == shifted[k]
    {
      if k < i {
        assert Padded(rest)[k] == rest[k] == keys[k] == slots[k];
      } else if k < |rest| {
        assert Padded(rest)[k] == rest[k] == keys[k + 1] == slots[k + 1];
      } else if k < NUM_KEYS - 1 {
        assert Padded(rest)[k] == 0 == slots[k + 1];
      }
    }
  }
}
