/** The SMC port protocol: a byte-at-a-time command machine over a table of keys (hw/misc/applesmc.c). */
module Smc {
  import opened Words

  const READ_CMD: Byte := 0x10
  const WRITE_CMD: Byte := 0x11
  const GET_KEY_BY_INDEX_CMD: Byte := 0x12
  const GET_KEY_TYPE_CMD: Byte := 0x13

  const ST_CMD_DONE: Byte := 0x00
  const ST_ACK: Byte := 0x04
  const ST_READY: Byte := 0x05  // ACK | DATA_READY
  const ST_NEW_CMD: Byte := 0x08
  const ST_ACCEPTED: Byte := 0x0c  // NEW_CMD | ACK

  const ERR_NONE: Byte := 0x00
  const ERR_INTERRUPTED: Byte := 0x80
  const ERR_STILL_BAD_CMD: Byte := 0x81
  const ERR_BAD_CMD: Byte := 0x82
  const ERR_BAD_INDEX: Byte := 0xb8

  const MAX_DATA_LENGTH := 32
  const BUFFER := 255

  /** `key` is four bytes, `data` at least one and at most 255. */
  datatype Entry = Entry(key: seq<Byte>, data: seq<Byte>) {
    predicate Valid() {
      |key| == 4 && 1 <= |data| <= BUFFER
    }
  }

  type Table = seq<Entry>

  predicate ValidTable(t: Table) {
    forall e :: e in t ==> e.Valid()
  }

  datatype State = State(cmd: Byte, status: Byte, error: Byte, lastRet: Byte, key: seq<Byte>,
                         readPos: Byte, dataLen: Byte, dataPos: Byte, data: seq<Byte>)
  {
    predicate Valid() {
      |key| == 4 && |data| == BUFFER
    }
  }

  predicate Known(cmd: Byte) {
    cmd == READ_CMD || cmd == WRITE_CMD || cmd == GET_KEY_BY_INDEX_CMD || cmd == GET_KEY_TYPE_CMD
  }

  function Increment(b: Byte): Byte {
    (b as int + 1) % 0x100
  }

  /** `applesmc_io_cmd_write`. */
  function CommandWrite(s: State, val: Byte): (s': State)
    ensures s.Valid() ==> s'.Valid()
  {
    var s1 := s.(readPos := 0, dataPos := 0);
    if !Known(val) then s1.(status := ST_NEW_CMD, error := ERR_BAD_CMD)
    else if s.status % 16 == ST_CMD_DONE || s.status % 16 == ST_NEW_CMD then s1.(cmd := val, status := ST_ACCEPTED)
    else s1.(status := ST_NEW_CMD, error := ERR_INTERRUPTED)
  }

  /** Where `applesmc_find_key` finds a key: the first entry of that name, or the end of the table. */
  function FindKey(t: Table, key: seq<Byte>): (i: nat)
    ensures i <= |t| && (i < |t| ==> t[i].key == key)
    ensures forall j :: 0 <= j < i ==> t[j].key != key
  {
    if t == [] then 0 else if t[0].key == key then 0 else 1 + FindKey(t[1..], key)
  }

  /** Bytes copied over the start of the buffer. */
  function Loaded(data: seq<Byte>, bytes: seq<Byte>): (data': seq<Byte>)
    requires |bytes| <= |data|
    ensures |data'| == |data|
  {
    bytes + data[|bytes|..]
  }

  function WriteRead(t: Table, s: State, val: Byte): (s': State)
    requires s.Valid() && ValidTable(t)
    ensures s'.Valid()
  {
    var s1 :=
      if s.readPos < 4 then s.(key := s.key[s.readPos := val], status := ST_ACK)
      else if s.readPos == 4 then
        var i := FindKey(t, s.key);
        var s2 := s.(dataPos := 0, status := ST_READY, error := ERR_NONE);
        if i < |t| then
          assert t[i] in t;
          s2.(data := Loaded(s.data, t[i].data), dataLen := |t[i].data|)
        else s2.(data := Loaded(s.data, Repeated(0, MAX_DATA_LENGTH)), dataLen := val)
      else s;
    s1.(readPos := Increment(s.readPos))
  }

  function WriteWrite(s: State, val: Byte): (s': State)
    requires s.Valid()
    ensures s'.Valid()
  {
    var s1 :=
      if s.readPos < 4 then s.(key := s.key[s.readPos := val], status := ST_ACK)
      else if s.readPos == 4 then s.(dataLen := val, dataPos := 0, status := ST_ACK)
      else if s.dataPos < s.dataLen then
        var s2 := s.(data := s.data[s.dataPos := val], dataPos := s.dataPos + 1);
        if s2.dataPos == s.dataLen then s2.(status := ST_CMD_DONE, error := ERR_NONE) else s2.(status := ST_ACK)
      else s;
    s1.(readPos := Increment(s.readPos))
  }

  /** The four characters of a type, by the length of the data. */
  function TypeName(len: nat): (n: seq<Byte>)
    ensures |n| == 4
  {
    if len == 1 then [0x75, 0x69, 0x38, 0x20]       // "ui8 "
    else if len == 2 then [0x75, 0x69, 0x31, 0x36]  // "ui16"
    else if len == 4 then [0x75, 0x69, 0x33, 0x32]  // "ui32"
    else [0x63, 0x68, 0x38, 0x2a]                   // "ch8*"
  }

  function WriteType(t: Table, s: State, val: Byte): (s': State)
    requires s.Valid() && ValidTable(t)
    ensures s'.Valid()
  {
    var s1 :=
      if s.readPos < 3 then s.(key := s.key[s.readPos := val], status := ST_ACK)
      else if s.readPos == 3 then
        var key := s.key[3 := val];
        var i := FindKey(t, key);
        var len: Byte := if i < |t| then (assert t[i] in t; |t[i].data|) else 1;
        s.(key := key, data := Loaded(s.data, TypeName(len) + [len, 0xd0]), dataLen := 6, dataPos := 0,
           status := ST_READY, error := ERR_NONE)
      else s;
    s1.(readPos := Increment(s.readPos))
  }

  function WriteIndex(t: Table, s: State, val: Byte): (s': State)
    requires s.Valid() && ValidTable(t)
    ensures s'.Valid()
  {
    var s1 :=
      if s.readPos < 3 then s.(key := s.key[s.readPos := val], status := ST_ACK)
      else if s.readPos == 3 then
        var key := s.key[3 := val];
        var i := BigEndian(key);
        if i < |t| then
          assert t[i] in t;
          s.(key := key, data := Loaded(s.data, t[i].key), dataLen := 4, dataPos := 0, status := ST_READY, error := ERR_NONE)
        else s.(key := key, dataLen := 0, error := ERR_BAD_INDEX, status := ST_CMD_DONE)
      else s;
    s1.(readPos := Increment(s.readPos))
  }

  /** `applesmc_io_data_write`. */
  function DataWrite(t: Table, s: State, val: Byte): (s': State)
    requires s.Valid() && ValidTable(t)
    ensures s'.Valid()
  {
    if !Known(s.cmd) then s.(status := ST_CMD_DONE, error := ERR_STILL_BAD_CMD)
    else if s.status % 16 == ST_CMD_DONE then s
    else if s.cmd == READ_CMD then WriteRead(t, s, val)
    else if s.cmd == WRITE_CMD then WriteWrite(s, val)
    else if s.cmd == GET_KEY_TYPE_CMD then WriteType(t, s, val)
    else WriteIndex(t, s, val)
  }

  /** `applesmc_io_data_read`: the byte returned is `lastRet` of the new state. */
  function DataRead(s: State): (s': State)
    requires s.Valid()
    ensures s'.Valid()
  {
    if s.cmd != READ_CMD then s.(status := ST_CMD_DONE, error := ERR_STILL_BAD_CMD)
    else if s.status % 2 == 0 || s.dataPos >= s.dataLen then s
    else
      s.(lastRet := s.data[s.dataPos], dataPos := s.dataPos + 1,
         status := if s.dataPos + 1 == s.dataLen then ST_CMD_DONE else ST_READY)
  }

  /** `qdev_applesmc_isa_reset`. */
  function Reset(s: State): State {
    s.(status := 0, error := 0, lastRet := 0)
  }

  // ----- transactions -----

  /** Writing a command, again if the first write was not accepted. */
  function Start(s: State, cmd: Byte): (s': State)
    requires Known(cmd)
    ensures s.Valid() ==> s'.Valid()
  {
    var s1 := CommandWrite(s, cmd);
    if s1.status == ST_ACCEPTED then s1 else CommandWrite(s1, cmd)
  }

  /** From any state whatever, one or two writes get a command accepted. */
  lemma StartIsAccepted(s: State, cmd: Byte)
    requires Known(cmd)
    ensures var s' := Start(s, cmd);
      s'.status == ST_ACCEPTED && s'.cmd == cmd && s'.readPos == 0 && s'.dataPos == 0 && s'.data == s.data
  {
  }

  function WriteAll(t: Table, s: State, bytes: seq<Byte>): (s': State)
    requires s.Valid() && ValidTable(t)
    ensures s'.Valid()
    decreases |bytes|
  {
    if bytes == [] then s else WriteAll(t, DataWrite(t, s, bytes[0]), bytes[1..])
  }

  function ReadAll(s: State, n: nat): (r: (State, seq<Byte>))
    requires s.Valid()
    ensures r.0.Valid() && |r.1| == n
    decreases n
  {
    if n == 0 then (s, [])
    else
      var s1 := DataRead(s);
      var (s2, rest) := ReadAll(s1, n - 1);
      (s2, [s1.lastRet] + rest)
  }

  /** The state of a READ once the key and the length have been written. */
  function Asked(t: Table, s: State, key: seq<Byte>, len: Byte): (s': State)
    requires s.Valid() && ValidTable(t) && |key| == 4
    ensures s'.Valid()
  {
    WriteAll(t, Start(s, READ_CMD), key + [len])
  }

  /** How many bytes the answer has. */
  function AnswerLength(t: Table, key: seq<Byte>, len: Byte): nat {
    var i := FindKey(t, key);
    if i < |t| then |t[i].data| else len
  }

  /** A complete READ: the state after it, and the bytes the guest has read. */
  function ReadKey(t: Table, s: State, key: seq<Byte>, len: Byte): (State, seq<Byte>)
    requires s.Valid() && ValidTable(t) && |key| == 4
  {
    ReadAll(Asked(t, s, key, len), AnswerLength(t, key, len))
  }

  /** How many bytes are only stored in the key; a type or an index command acts on the fourth one at once. */
  function KeyBytes(cmd: Byte): nat {
    if cmd == READ_CMD || cmd == WRITE_CMD then 4 else 3
  }

  lemma KeyByteStored(t: Table, s: State, b: Byte)
    requires s.Valid() && ValidTable(t) && Known(s.cmd) && s.status % 16 != ST_CMD_DONE
    requires s.readPos < KeyBytes(s.cmd)
    ensures DataWrite(t, s, b) == s.(key := s.key[s.readPos := b], status := ST_ACK, readPos := s.readPos + 1)
  {
    hide FindKey, Loaded, BigEndian;
  }

  lemma Spliced(data: seq<Byte>, p: nat, payload: seq<Byte>)
    requires p + |payload| <= |data| && payload != []
    ensures var data1 := data[p := payload[0]];
      data1[..p + 1] + payload[1..] + data1[p + |payload|..] == data[..p] + payload + data[p + |payload|..]
  {
  }

  lemma {:induction false} KeyBytesStored(t: Table, s: State, bytes: seq<Byte>)
    requires s.Valid() && ValidTable(t) && Known(s.cmd) && s.status % 16 != ST_CMD_DONE
    requires s.readPos + |bytes| <= KeyBytes(s.cmd)
    ensures WriteAll(t, s, bytes) == s.(key := s.key[..s.readPos] + bytes + s.key[s.readPos + |bytes|..],
                                        status := if bytes == [] then s.status else ST_ACK,
                                        readPos := s.readPos + |bytes|)
    decreases |bytes|
  {
    hide DataWrite;
    if bytes == [] {
      assert s.key == s.key[..s.readPos] + bytes + s.key[s.readPos..];
    } else {
      KeyByteStored(t, s, bytes[0]);
      Spliced(s.key, s.readPos, bytes);
      KeyBytesStored(t, DataWrite(t, s, bytes[0]), bytes[1..]);
    }
  }

  lemma KeyWritten(t: Table, s: State, key: seq<Byte>)
    requires s.Valid() && ValidTable(t) && |key| == 4
    requires s.cmd == READ_CMD || s.cmd == WRITE_CMD
    requires s.status == ST_ACCEPTED && s.readPos == 0
    ensures WriteAll(t, s, key) == s.(key := key, status := ST_ACK, readPos := 4)
  {
    hide WriteAll;
    KeyBytesStored(t, s, key);
    assert s.key[..0] + key + s.key[4..] == key;
  }

  lemma {:induction false} WriteAllThen(t: Table, s: State, bytes: seq<Byte>, b: Byte)
    requires s.Valid() && ValidTable(t)
    ensures WriteAll(t, s, bytes + [b]) == DataWrite(t, WriteAll(t, s, bytes), b)
    decreases |bytes|
  {
    hide DataWrite;
    if bytes == [] {
      assert ([] + [b])[1..] == [];
      assert WriteAll(t, DataWrite(t, s, b), []) == DataWrite(t, s, b);
    } else {
      assert (bytes + [b])[1..] == bytes[1..] + [b];
      WriteAllThen(t, DataWrite(t, s, bytes[0]), bytes[1..], b);
    }
  }

  /** The answer waiting in the buffer: the table's bytes, or zeros over the first 32 bytes of whatever was there. */
  lemma AnswerReady(t: Table, s: State, key: seq<Byte>, len: Byte)
    requires s.Valid() && ValidTable(t) && |key| == 4
    ensures var s', i := Asked(t, s, key, len), FindKey(t, key);
      && s'.cmd == READ_CMD && s'.status == ST_READY && s'.error == ERR_NONE && s'.dataPos == 0
      && s'.dataLen == AnswerLength(t, key, len)
      && s'.data == (if i < |t| then Loaded(s.data, (assert t[i] in t; t[i].data)) else Loaded(s.data, Repeated(0, MAX_DATA_LENGTH)))
  {
    hide Loaded;
    var s0 := Start(s, READ_CMD);
    StartIsAccepted(s, READ_CMD);
    KeyWritten(t, s0, key);
    WriteAllThen(t, s0, key, len);
  }

  /** Reading out what is waiting yields it byte by byte, and completes the command. */
  lemma {:induction false} ReadsBuffer(s: State, n: nat)
    requires s.Valid() && s.cmd == READ_CMD && s.status == ST_READY && s.dataPos + n == s.dataLen
    ensures ReadAll(s, n).1 == s.data[s.dataPos..s.dataLen]
    ensures n > 0 ==> ReadAll(s, n).0.status == ST_CMD_DONE
    decreases n
  {
    var from: int, to: int := s.dataPos, s.dataLen;
    if n > 0 {
      var s1 := DataRead(s);
      if n > 1 {
        ReadsBuffer(s1, n - 1);
      } else {
        assert ReadAll(s1, 0).1 == [];
      }
      assert s.data[from..to] == [s.data[from]] + s.data[from + 1..to];
    }
  }

  /**
   * What a READ returns, from any state. A known key answers with its table bytes. An unknown key answers with zeros,
   * and past the first 32 bytes with what earlier commands left in the buffer.
   */
  lemma ReadReturns(t: Table, s: State, key: seq<Byte>, len: Byte)
    requires s.Valid() && ValidTable(t) && |key| == 4
    ensures var (s', bytes), i := ReadKey(t, s, key, len), FindKey(t, key);
      && bytes == (if i < |t| then t[i].data
                   else if len <= 32 then Repeated(0, len)
                   else Repeated(0, 32) + s.data[32..len])
      && (i < |t| || len > 0 ==> s'.status == ST_CMD_DONE)
  {
    hide Asked, FindKey;
    var s1, n, i := Asked(t, s, key, len), AnswerLength(t, key, len), FindKey(t, key);
    AnswerReady(t, s, key, len);
    ReadsBuffer(s1, n);
    if i < |t| {
      assert t[i] in t;
      assert s1.data[..n] == t[i].data;
    } else if len <= MAX_DATA_LENGTH {
      assert s1.data[..n] == Repeated(0, len);
    } else {
      assert s1.data[..n] == Repeated(0, MAX_DATA_LENGTH) + s.data[MAX_DATA_LENGTH..len];
    }
  }

  // ----- writing a key -----

  lemma {:induction false} WriteAllConcat(t: Table, s: State, a: seq<Byte>, b: seq<Byte>)
    requires s.Valid() && ValidTable(t)
    ensures WriteAll(t, s, a + b) == WriteAll(t, WriteAll(t, s, a), b)
    decreases |a|
  {
    hide DataWrite;
    if a == [] {
      assert a + b == b;
    } else {
      assert (a + b)[1..] == a[1..] + b;
      WriteAllConcat(t, DataWrite(t, s, a[0]), a[1..], b);
    }
  }

  /** The byte counter has 8 bits, and a payload starts when it is 5. */
  const LONGEST_WRITE := 251

  /** The state after `payload` more bytes of a WRITE, before the byte counter wraps or just as it does. */
  function WithPayload(s: State, payload: seq<Byte>): State
    requires s.Valid() && s.dataPos + |payload| <= LONGEST_WRITE
  {
    var pos: nat := s.dataPos + |payload|;
    var done := payload != [] && pos == s.dataLen;
    s.(data := s.data[..s.dataPos] + payload + s.data[pos..], dataPos := pos,
       readPos := if pos == LONGEST_WRITE then 0 else pos + 5,
       status := if done then ST_CMD_DONE else ST_ACK, error := if done then ERR_NONE else s.error)
  }

  lemma PayloadByte(t: Table, s: State, b: Byte)
    requires s.Valid() && ValidTable(t) && s.cmd == WRITE_CMD && s.status == ST_ACK && s.readPos == s.dataPos + 5
    requires s.dataPos < s.dataLen
    ensures DataWrite(t, s, b) == WithPayload(s, [b])
  {
    hide FindKey, WriteRead, WriteType, WriteIndex, Loaded;
    Spliced(s.data, s.dataPos, [b]);
  }

  lemma PayloadContinues(s: State, payload: seq<Byte>)
    requires s.Valid() && s.dataPos + |payload| <= s.dataLen && s.dataPos + |payload| <= LONGEST_WRITE && |payload| > 1
    ensures var s1 := WithPayload(s, [payload[0]]);
      && s1.Valid() && s1.cmd == s.cmd && s1.status == ST_ACK && s1.dataLen == s.dataLen
      && s1.dataPos == s.dataPos + 1 && s1.readPos == s1.dataPos + 5
      && WithPayload(s1, payload[1..]) == WithPayload(s, payload)
  {
    Spliced(s.data, s.dataPos, payload);
    Spliced(s.data, s.dataPos, [payload[0]]);
  }

  /** Payload bytes go into the buffer one after another, as long as the byte counter does not wrap. */
  lemma {:induction false} PayloadStored(t: Table, s: State, payload: seq<Byte>)
    requires s.Valid() && ValidTable(t) && s.cmd == WRITE_CMD && s.status == ST_ACK && s.readPos == s.dataPos + 5
    requires s.dataPos + |payload| <= s.dataLen && s.dataPos + |payload| <= LONGEST_WRITE
    ensures WriteAll(t, s, payload) == WithPayload(s, payload)
    decreases |payload|
  {
    hide DataWrite, WithPayload;
    if payload == [] {
      NoPayload(s);
    } else {
      PayloadByte(t, s, payload[0]);
      if |payload| == 1 {
        assert payload == [payload[0]];
      } else {
        PayloadContinues(s, payload);
        PayloadStored(t, DataWrite(t, s, payload[0]), payload[1..]);
      }
    }
  }

  lemma NoPayload(s: State)
    requires s.Valid() && s.status == ST_ACK && s.readPos == s.dataPos + 5
    ensures s.dataPos <= LONGEST_WRITE && WithPayload(s, []) == s
  {
    assert s.data[..s.dataPos] + [] + s.data[s.dataPos..] == s.data;
  }

  /** A complete WRITE: the command, the key, the length and as many bytes of payload. */
  function Written(t: Table, s: State, key: seq<Byte>, payload: seq<Byte>): (s': State)
    requires s.Valid() && ValidTable(t) && |key| == 4 && |payload| <= BUFFER
    ensures s'.Valid()
  {
    WriteAll(t, Start(s, WRITE_CMD), key + [|payload|] + payload)
  }

  /**
   * What becomes of a WRITE, from any state. It is completed exactly if its payload has between 1 and 251 bytes; the
   * buffer then holds the payload. An empty payload leaves the command waiting, and beyond 251 bytes the counter has
   * wrapped: the rest of the payload overwrites the key, and the command stays open.
   */
  lemma WriteCompletesExactly(t: Table, s: State, key: seq<Byte>, payload: seq<Byte>)
    requires s.Valid() && ValidTable(t) && |key| == 4 && |payload| <= BUFFER
    ensures var s', n := Written(t, s, key, payload), |payload|;
      && (s'.status == ST_CMD_DONE <==> 1 <= n <= LONGEST_WRITE)
      && (s'.status == ST_CMD_DONE ==> s'.error == ERR_NONE)
      && (s'.status != ST_CMD_DONE ==> s'.status == ST_ACK)
      && (n <= LONGEST_WRITE ==> s'.data == Loaded(s.data, payload) && s'.key == key)
      && (n > LONGEST_WRITE ==>
            s'.data == Loaded(s.data, payload[..LONGEST_WRITE]) && s'.key == Loaded(key, payload[LONGEST_WRITE..]))
  {
    hide WriteAll, DataWrite;
    var s0, n := Start(s, WRITE_CMD), |payload|;
    StartIsAccepted(s, WRITE_CMD);
    KeyWritten(t, s0, key);
    WriteAllThen(t, s0, key, n);
    var s5 := s0.(key := key, status := ST_ACK, readPos := 5, dataLen := n, dataPos := 0);
    LengthWritten(t, s0.(key := key, status := ST_ACK, readPos := 4), n);
    WriteAllConcat(t, s0, key + [n], payload);
    if n <= LONGEST_WRITE {
      PayloadStored(t, s5, payload);
      assert s5.data[..0] + payload + s5.data[n..] == Loaded(s.data, payload);
    } else {
      var first, rest := payload[..LONGEST_WRITE], payload[LONGEST_WRITE..];
      assert first + rest == payload;
      WriteAllConcat(t, s5, first, rest);
      PayloadStored(t, s5, first);
      assert s5.data[..0] + first + s5.data[LONGEST_WRITE..] == Loaded(s.data, first);
      KeyBytesStored(t, WriteAll(t, s5, first), rest);
      assert key[..0] + rest + key[|rest|..] == Loaded(key, rest);
    }
  }

  lemma LengthWritten(t: Table, s: State, len: Byte)
    requires s.Valid() && ValidTable(t) && s.cmd == WRITE_CMD && s.status == ST_ACK && s.readPos == 4
    ensures DataWrite(t, s, len) == s.(dataLen := len, dataPos := 0, readPos := 5)
  {
  }

  // ----- histories -----

  /** An access that can change the state, or a reset. */
  datatype Access = WriteCommand(value: Byte) | WriteData(value: Byte) | ReadData | ResetDevice

  /** The device as it is created: all fields and buffers zero. */
  const POWER_ON := State(0, 0, 0, 0, Repeated(0, 4), 0, 0, 0, Repeated(0, BUFFER))

  function Accessed(t: Table, s: State, accesses: seq<Access>): (s': State)
    requires s.Valid() && ValidTable(t)
    ensures s'.Valid()
    decreases |accesses|
  {
    if accesses == [] then s
    else
      var s1 :=
        match accesses[0]
        case WriteCommand(value) => CommandWrite(s, value)
        case WriteData(value) => DataWrite(t, s, value)
        case ReadData => DataRead(s)
        case ResetDevice => Reset(s);
      Accessed(t, s1, accesses[1..])
  }

  function Stores(bytes: seq<Byte>): (accesses: seq<Access>)
    ensures |accesses| == |bytes|
  {
    seq(|bytes|, i requires 0 <= i < |bytes| => WriteData(bytes[i]))
  }

  lemma {:induction false} StoresWrite(t: Table, s: State, bytes: seq<Byte>)
    requires s.Valid() && ValidTable(t)
    ensures Accessed(t, s, Stores(bytes)) == WriteAll(t, s, bytes)
    decreases |bytes|
  {
    hide DataWrite;
    if bytes != [] {
      assert Stores(bytes)[1..] == Stores(bytes[1..]);
      StoresWrite(t, DataWrite(t, s, bytes[0]), bytes[1..]);
    }
  }

  /** A device that has just been switched on and has completed one WRITE of 33 bytes. */
  lemma WriteReachable(t: Table) returns (accesses: seq<Access>)
    requires ValidTable(t)
    ensures Accessed(t, POWER_ON, accesses).data[MAX_DATA_LENGTH] == 1
  {
    hide DataWrite, WriteAll;
    var key, payload := Repeated(0, 4), Repeated(1, 33);
    var bytes := key + [|payload|] + payload;
    accesses := [WriteCommand(WRITE_CMD)] + Stores(bytes);
    assert accesses[1..] == Stores(bytes);
    StoresWrite(t, Start(POWER_ON, WRITE_CMD), bytes);
    WriteCompletesExactly(t, POWER_ON, key, payload);
  }

  /**
   * The answer does not depend on anything that happened before, exactly if the key is known or at most 32 bytes are
   * asked for: then no state at all makes a difference, and otherwise two histories since power-on do.
   */
  lemma HistoryIndependentExactly(t: Table, key: seq<Byte>, len: Byte)
    requires ValidTable(t) && |key| == 4
    ensures (forall a, b :: ReadKey(t, Accessed(t, POWER_ON, a), key, len).1 == ReadKey(t, Accessed(t, POWER_ON, b), key, len).1)
       <==> FindKey(t, key) < |t| || len <= 32
    ensures FindKey(t, key) < |t| || len <= 32 ==>
      forall s: State, s': State :: s.Valid() && s'.Valid() ==> ReadKey(t, s, key, len).1 == ReadKey(t, s', key, len).1
  {
    hide ReadKey, FindKey, Repeated, Accessed;
    if FindKey(t, key) < |t| || len <= MAX_DATA_LENGTH {
      forall s: State, s': State | s.Valid() && s'.Valid()
        ensures ReadKey(t, s, key, len).1 == ReadKey(t, s', key, len).1
      {
        ReadReturns(t, s, key, len);
        ReadReturns(t, s', key, len);
      }
    } else {
      var accesses := WriteReachable(t);
      NothingAccessed(t);
      ReadReturns(t, Accessed(t, POWER_ON, []), key, len);
      ReadReturns(t, Accessed(t, POWER_ON, accesses), key, len);
      assert ReadKey(t, Accessed(t, POWER_ON, []), key, len).1[MAX_DATA_LENGTH] == 0;
      assert ReadKey(t, Accessed(t, POWER_ON, accesses), key, len).1[MAX_DATA_LENGTH] == 1;
    }
  }

  lemma NothingAccessed(t: Table)
    requires ValidTable(t)
    ensures Accessed(t, POWER_ON, []).data[MAX_DATA_LENGTH] == 0
  {
  }

  // ----- enumerating the keys -----

  const NUMBER_OF_KEYS: seq<Byte> := [0x23, 0x4b, 0x45, 0x59]  // "#KEY"

  /** `applesmc_add_key` inserts at the head. */
  function AddKey(t: Table, e: Entry): Table {
    [e] + t
  }

  function AddAll(entries: seq<Entry>): Table {
    if entries == [] then [] else AddKey(AddAll(entries[..|entries| - 1]), entries[|entries| - 1])
  }

  /** The table after realize: the given keys, and last the key that counts them all, itself included. */
  function Realize(entries: seq<Entry>): Table
    requires |entries| + 1 < TWO_32
  {
    var t := AddAll(entries);
    AddKey(t, Entry(NUMBER_OF_KEYS, BigEndianBytes(SizeOf(entries))))
  }

  function SizeOf(entries: seq<Entry>): Uint32
    requires |entries| + 1 < TWO_32
  {
    AddAllReverses(entries);
    |AddAll(entries)| + 1
  }

  /** Well-formed entries with different names, none of them "#KEY". */
  predicate Registrable(entries: seq<Entry>) {
    && |entries| + 1 < TWO_32
    && (forall e :: e in entries ==> e.Valid() && e.key != NUMBER_OF_KEYS)
    && forall i, j :: 0 <= i < j < |entries| ==> entries[i].key != entries[j].key
  }

  lemma {:induction false} AddAllReverses(entries: seq<Entry>)
    ensures |AddAll(entries)| == |entries|
    ensures forall i :: 0 <= i < |entries| ==> AddAll(entries)[i] == entries[|entries| - 1 - i]
    decreases |entries|
  {
    if entries != [] {
      AddAllReverses(entries[..|entries| - 1]);
    }
  }

  lemma RealizedTable(entries: seq<Entry>)
    requires Registrable(entries)
    ensures var t := Realize(entries);
      && ValidTable(t) && |t| == |entries| + 1
      && t[0].key == NUMBER_OF_KEYS && BigEndian(t[0].data) == |t|
      && (forall i, j :: 0 <= i < j < |t| ==> t[i].key != t[j].key)
      && (forall i :: 1 <= i < |t| ==> t[i] == entries[|t| - 1 - i])
  {
    hide BigEndian, BigEndianBytes;
    AddAllReverses(entries);
    BigEndianRoundTrip(SizeOf(entries));
    var t := Realize(entries);
    forall i | 1 <= i < |t|
      ensures t[i] == entries[|t| - 1 - i] && t[i].Valid() && t[i].key != NUMBER_OF_KEYS
    {
      assert entries[|t| - 1 - i] in entries;
    }
  }

  /** In a table of distinct names every name is found where it stands. */
  lemma {:induction false} FindsItself(t: Table, i: nat)
    requires i < |t| && forall i, j :: 0 <= i < j < |t| ==> t[i].key != t[j].key
    ensures FindKey(t, t[i].key) == i
    decreases |t|
  {
    if i > 0 {
      FindsItself(t[1..], i - 1);
    }
  }

  /** The state once a command by index has been given its four index bytes. */
  function IndexAsked(t: Table, s: State, idx: Uint32): (s': State)
    requires s.Valid() && ValidTable(t)
    ensures s'.Valid()
  {
    WriteAll(t, Start(s, GET_KEY_BY_INDEX_CMD), BigEndianBytes(idx))
  }

  lemma ThreeBytesWritten(t: Table, s: State, bytes: seq<Byte>)
    requires s.Valid() && ValidTable(t) && |bytes| == 4
    requires s.cmd == GET_KEY_BY_INDEX_CMD || s.cmd == GET_KEY_TYPE_CMD
    requires s.status == ST_ACCEPTED && s.readPos == 0
    ensures var s3 := s.(key := bytes[..3] + [s.key[3]], status := ST_ACK, readPos := 3);
      WriteAll(t, s, bytes) == DataWrite(t, s3, bytes[3])
  {
    hide WriteAll, DataWrite;
    KeyBytesStored(t, s, bytes[..3]);
    WriteAllThen(t, s, bytes[..3], bytes[3]);
    assert bytes[..3] + [bytes[3]] == bytes;
    assert s.key[..0] + bytes[..3] + s.key[3..] == bytes[..3] + [s.key[3]];
  }

  /** The answer to an index is the name at that place of the table, or "bad index" past its end. */
  lemma IndexAnswer(t: Table, s: State, idx: Uint32)
    requires s.Valid() && ValidTable(t)
    ensures var s' := IndexAsked(t, s, idx);
      if idx < |t| then
        s'.data[..4] == t[idx].key && s'.dataLen == 4 && s'.dataPos == 0 && s'.status == ST_READY && s'.error == ERR_NONE
      else
        s'.dataLen == 0 && s'.status == ST_CMD_DONE && s'.error == ERR_BAD_INDEX
    ensures IndexAsked(t, s, idx).cmd == GET_KEY_BY_INDEX_CMD && IndexAsked(t, s, idx).lastRet == s.lastRet
  {
    hide BigEndian, BigEndianBytes, FindKey;
    var s0, bytes := Start(s, GET_KEY_BY_INDEX_CMD), BigEndianBytes(idx);
    StartIsAccepted(s, GET_KEY_BY_INDEX_CMD);
    ThreeBytesWritten(t, s0, bytes);
    BigEndianRoundTrip(idx);
    var s3 := s0.(key := bytes[..3] + [s0.key[3]], status := ST_ACK, readPos := 3);
    assert s3.key[3 := bytes[3]] == bytes;
    if idx < |t| {
      assert t[idx] in t;
    }
  }

  /**
   * Enumeration. Reading "#KEY" gives the number of keys. Every index below it names a key, and the name leads back to
   * that index, so different indices name different keys; every index from it on is a bad index.
   */
  lemma EnumerationIsExact(entries: seq<Entry>, s: State, idx: Uint32)
    requires Registrable(entries) && s.Valid()
    ensures ValidTable(Realize(entries))
    ensures var t := Realize(entries);
      var count := ReadKey(t, s, NUMBER_OF_KEYS, 4).1;
      var s' := IndexAsked(t, s, idx);
      && |count| == 4 && BigEndian(count) == |t|
      && (if idx < BigEndian(count)
          then s'.status == 0x05 && s'.dataLen == 4 && FindKey(t, s'.data[..4]) == idx
          else s'.status == 0x00 && s'.error == 0xb8)
  {
    hide ReadKey, IndexAsked, FindKey, BigEndian;
    var t := Realize(entries);
    RealizedTable(entries);
    ReadReturns(t, s, NUMBER_OF_KEYS, 4);
    FindsItself(t, 0);
    IndexAnswer(t, s, idx);
    if idx < |t| {
      FindsItself(t, idx);
    }
  }

  /** And no key is left out: each one that was registered is named by some index. */
  lemma EveryKeyIsEnumerated(entries: seq<Entry>, s: State, e: Entry) returns (idx: Uint32)
    requires Registrable(entries) && s.Valid() && e in entries
    ensures ValidTable(Realize(entries)) && idx < |Realize(entries)|
    ensures IndexAsked(Realize(entries), s, idx).data[..4] == e.key
  {
    hide IndexAsked;
    RealizedTable(entries);
    var k :| 0 <= k < |entries| && entries[k] == e;
    idx := |entries| - k;
    IndexAnswer(Realize(entries), s, idx);
  }

  /** The data port does not hand the name out, though: it repeats the last byte read and reports a bad command. */
  lemma IndexNameIsNotReadable(t: Table, s: State, idx: Uint32)
    requires s.Valid() && ValidTable(t)
    ensures var s' := DataRead(IndexAsked(t, s, idx));
      s'.lastRet == s.lastRet && s'.status == ST_CMD_DONE && s'.error == ERR_STILL_BAD_CMD
  {
    hide IndexAsked;
    IndexAnswer(t, s, idx);
  }

  function Decimal(digits: seq<Byte>): int {
    if digits == [] then 0 else 10 * Decimal(digits[..|digits| - 1]) + (digits[|digits| - 1] - '0' as int)
  }

  /** The type of a key of `len` bytes: an unsigned number is named by its bits, padded with blanks. */
  ghost predicate NamesType(name: seq<Byte>, len: nat) {
    |name| == 4 &&
    if len in {1, 2, 4} then
      && name[0] == 'u' as int && name[1] == 'i' as int
      && exists n :: 2 < n <= 4 &&
           var digits := name[2..n];
           && name[2] != '0' as int && (forall d :: d in digits ==> '0' as int <= d <= '9' as int)
           && Decimal(digits) == 8 * len && forall i :: n <= i < 4 ==> name[i] == ' ' as int
    else
      name == ['c' as int, 'h' as int, '8' as int, '*' as int]
  }

  lemma TypeNamesType(len: nat)
    ensures NamesType(TypeName(len), len)
  {
    if len in {1, 2, 4} {
      var name, n := TypeName(len), if len == 1 then 3 else 4;
      var digits := name[2..n];
      assert digits[..1] == [name[2]] && digits[..1][..0] == [];
      assert Decimal(digits[..1]) == name[2] - '0' as int;
      assert forall i :: n <= i < 4 ==> name[i] == ' ' as int;
    }
  }

  /**
   * The six bytes of a type answer: the name of the key's type, its length, and a fixed attribute. An unknown key
   * answers like one of a single byte.
   */
  lemma TypeAnswer(t: Table, s: State, key: seq<Byte>)
    requires s.Valid() && ValidTable(t) && |key| == 4
    ensures var s', i := WriteAll(t, Start(s, GET_KEY_TYPE_CMD), key), FindKey(t, key);
      var len := if i < |t| then |t[i].data| else 1;
      && s'.status == ST_READY && s'.dataLen == 6 && s'.dataPos == 0
      && s'.data[..6] == TypeName(len) + [len, 0xd0]
      && NamesType(s'.data[..4], len) && s'.data[4] == len && s'.data[5] == 0xd0
  {
    hide FindKey, TypeName, NamesType;
    var s0 := Start(s, GET_KEY_TYPE_CMD);
    StartIsAccepted(s, GET_KEY_TYPE_CMD);
    ThreeBytesWritten(t, s0, key);
    var s3 := s0.(key := key[..3] + [s0.key[3]], status := ST_ACK, readPos := 3);
    assert s3.key[3 := key[3]] == key;
    if FindKey(t, key) < |t| {
      assert t[FindKey(t, key)] in t;
    }
    var len := if FindKey(t, key) < |t| then |t[FindKey(t, key)].data| else 1;
    var s' := WriteAll(t, s0, key);
    TypeNamesType(len);
    assert s'.data[..6][..4] == s'.data[..4] == TypeName(len);
    assert s'.data[..6][4] == len && s'.data[..6][5] == 0xd0;
  }

  // ----- refusals -----

  /** Anything but the four commands is refused from any state, with the code for a bad command; the next one is taken. */
  lemma UnknownCommandIsRefused(s: State, val: Byte, cmd: Byte)
    requires (val < 0x10 || val > 0x13) && Known(cmd)
    ensures var s' := CommandWrite(s, val);
      && s'.status == 0x08 && s'.error == 0x82 && s'.cmd == s.cmd && s'.readPos == s'.dataPos == 0
      && CommandWrite(s', cmd).status == 0x0c
  {
  }

  /** A command in the middle of another is refused with the code for an interruption; written again it is taken. */
  lemma InterruptionIsRefused(s: State, cmd: Byte)
    requires 0x10 <= cmd <= 0x13 && (s.status % 16 == 0x04 || s.status % 16 == 0x05)
    ensures var s' := CommandWrite(s, cmd);
      && s'.status == 0x08 && s'.error == 0x80 && s'.cmd == s.cmd && s'.readPos == s'.dataPos == 0
      && CommandWrite(s', cmd).status == 0x0c && CommandWrite(s', cmd).cmd == cmd
  {
  }

  /** Data for no command, or for one that is complete, changes no buffer, nor does a read of data that is not there. */
  lemma StrayData(t: Table, s: State, val: Byte)
    requires s.Valid() && ValidTable(t)
    ensures !Known(s.cmd) ==> DataWrite(t, s, val) == s.(status := 0x00, error := 0x81)
    ensures Known(s.cmd) && s.status % 16 == 0x00 ==> DataWrite(t, s, val) == s
    ensures s.cmd == 0x10 && (s.status % 2 == 0 || s.dataPos >= s.dataLen) ==> DataRead(s) == s
    ensures s.cmd != 0x10 ==> DataRead(s) == s.(status := 0x00, error := 0x81)
  {
    hide WriteRead, WriteWrite, WriteType, WriteIndex;
  }

  /** After a reset every command is taken at once, and nothing of the status or of the last answer is left. */
  lemma ResetAbandons(s: State, cmd: Byte)
    requires Known(cmd)
    ensures Reset(s).status == 0 && Reset(s).error == 0 && Reset(s).lastRet == 0
    ensures CommandWrite(Reset(s), cmd).status == 0x0c && CommandWrite(Reset(s), cmd).cmd == cmd
  {
  }

  // ----- the device -----

  class AppleSmc {
    var cmd: Byte
    var status: Byte
    var status1e: Byte
    var lastRet: Byte
    const key: array<Byte>
    var readPos: Byte
    var dataLen: Byte
    var dataPos: Byte
    const data: array<Byte>
    const dataDef: Table

    ghost predicate Valid() {
      key.Length == 4 && data.Length == BUFFER && key != data && ValidTable(dataDef)
    }

    ghost function View(): (s: State)
      requires Valid()
      reads this, key, data
      ensures s.Valid()
    {
      State(cmd, status, status1e, lastRet, key[..], readPos, dataLen, dataPos, data[..])
    }

    constructor (entries: seq<Entry>)
      requires Registrable(entries)
      ensures Valid() && dataDef == Realize(entries)
    {
      key := new Byte[4];
      data := new Byte[BUFFER];
      dataDef := Realize(entries);
      cmd, status, status1e, lastRet, readPos, dataLen, dataPos := 0, 0, 0, 0, 0, 0, 0;
      RealizedTable(entries);
    }

    method ResetDevice()
      requires Valid()
      modifies this
      ensures View() == Reset(old(View()))
    {
      status := 0;
      status1e := 0;
      lastRet := 0;
    }

    method IoCmdWrite(val: Byte)
      requires Valid()
      modifies this
      ensures View() == CommandWrite(old(View()), val)
    {
      var low := status % 16;
      if val == READ_CMD || val == WRITE_CMD || val == GET_KEY_BY_INDEX_CMD || val == GET_KEY_TYPE_CMD {
        if low == ST_CMD_DONE || low == ST_NEW_CMD {
          cmd := val;
          status := ST_ACCEPTED;
        } else {
          status := ST_NEW_CMD;
          status1e := ERR_INTERRUPTED;
        }
      } else {
        status := ST_NEW_CMD;
        status1e := ERR_BAD_CMD;
      }
      readPos := 0;
      dataPos := 0;
    }

    /** `applesmc_find_key`: a walk down the list. */
    method Find() returns (i: nat)
      requires Valid()
      ensures i == FindKey(dataDef, key[..])
    {
      i := 0;
      while i < |dataDef| && dataDef[i].key != key[..]
        invariant 0 <= i <= |dataDef| && FindKey(dataDef, key[..]) == i + FindKey(dataDef[i..], key[..])
      {
        assert dataDef[i..][1..] == dataDef[i + 1..];
        i := i + 1;
      }
    }

    /** Bytes over the start of the data buffer, as `memcpy` and `memset` put them there. */
    method Load(bytes: seq<Byte>)
      requires Valid() && |bytes| <= BUFFER
      modifies data
      ensures data[..] == Loaded(old(data[..]), bytes)
    {
      forall i | 0 <= i < |bytes| {
        data[i] := bytes[i];
      }
    }

    method WriteForRead(val: Byte)
      requires Valid()
      modifies this, key, data
      ensures View() == WriteRead(dataDef, old(View()), val)
    {
      hide FindKey, Loaded;
      if readPos < 4 {
        key[readPos] := val;
        status := ST_ACK;
      } else if readPos == 4 {
        var i := Find();
        if i < |dataDef| {
          assert dataDef[i] in dataDef;
          Load(dataDef[i].data);
          dataLen := |dataDef[i].data|;
        } else {
          Load(Repeated(0, MAX_DATA_LENGTH));
          dataLen := val;
        }
        dataPos := 0;
        status := ST_READY;
        status1e := ERR_NONE;
      }
      readPos := Increment(readPos);
    }

    method WriteForWrite(val: Byte)
      requires Valid()
      modifies this, key, data
      ensures View() == WriteWrite(old(View()), val)
    {
      if readPos < 4 {
        key[readPos] := val;
        status := ST_ACK;
      } else if readPos == 4 {
        dataLen := val;
        dataPos := 0;
        status := ST_ACK;
      } else if dataPos < dataLen {
        data[dataPos] := val;
        dataPos := dataPos + 1;
        if dataPos == dataLen {
          status := ST_CMD_DONE;
          status1e := ERR_NONE;
        } else {
          status := ST_ACK;
        }
      }
      readPos := Increment(readPos);
    }

    method WriteForType(val: Byte)
      requires Valid()
      modifies this, key, data
      ensures View() == WriteType(dataDef, old(View()), val)
    {
      hide FindKey, Loaded, TypeName;
      if readPos < 3 {
        key[readPos] := val;
        status := ST_ACK;
      } else if readPos == 3 {
        key[3] := val;
        var i := Find();
        var len: Byte := 1;
        if i < |dataDef| {
          assert dataDef[i] in dataDef;
          len := |dataDef[i].data|;
        }
        Load(TypeName(len) + [len, 0xd0]);
        dataLen := 6;
        dataPos := 0;
        status := ST_READY;
        status1e := ERR_NONE;
      }
      readPos := Increment(readPos);
    }

    method WriteForIndex(val: Byte)
      requires Valid()
      modifies this, key, data
      ensures View() == WriteIndex(dataDef, old(View()), val)
    {
      hide Loaded, BigEndian;
      if readPos < 3 {
        key[readPos] := val;
        status := ST_ACK;
      } else if readPos == 3 {
        key[3] := val;
        var idx, i, found := BigEndian(key[..]), 0, false;
        while i < |dataDef| && !found
          invariant 0 <= i <= |dataDef| && i <= idx && (found ==> i == idx && i < |dataDef|)
          decreases |dataDef| - i, if found then 0 else 1
        {
          if i == idx {
            found := true;
          } else {
            i := i + 1;
          }
        }
        if found {
          assert dataDef[i] in dataDef;
          Load(dataDef[i].key);
          dataLen := 4;
          dataPos := 0;
          status := ST_READY;
          status1e := ERR_NONE;
        } else {
          dataLen := 0;
          status1e := ERR_BAD_INDEX;
          status := ST_CMD_DONE;
        }
      }
      readPos := Increment(readPos);
    }

    method IoDataWrite(val: Byte)
      requires Valid()
      modifies this, key, data
      ensures View() == DataWrite(dataDef, old(View()), val)
    {
      hide WriteRead, WriteWrite, WriteType, WriteIndex;
      if cmd == READ_CMD {
        if status % 16 != ST_CMD_DONE {
          WriteForRead(val);
        }
      } else if cmd == WRITE_CMD {
        if status % 16 != ST_CMD_DONE {
          WriteForWrite(val);
        }
      } else if cmd == GET_KEY_TYPE_CMD {
        if status % 16 != ST_CMD_DONE {
          WriteForType(val);
        }
      } else if cmd == GET_KEY_BY_INDEX_CMD {
        if status % 16 != ST_CMD_DONE {
          WriteForIndex(val);
        }
      } else {
        status := ST_CMD_DONE;
        status1e := ERR_STILL_BAD_CMD;
      }
    }

    method IoDataRead() returns (val: Byte)
      requires Valid()
      modifies this
      ensures View() == DataRead(old(View())) && val == lastRet
    {
      if cmd == READ_CMD {
        if status % 2 == 1 {
          if dataPos < dataLen {
            lastRet := data[dataPos];
            dataPos := dataPos + 1;
            status := if dataPos == dataLen then ST_CMD_DONE else ST_READY;
          }
        }
      } else {
        status := ST_CMD_DONE;
        status1e := ERR_STILL_BAD_CMD;
      }
      return lastRet;
    }
  }
}
