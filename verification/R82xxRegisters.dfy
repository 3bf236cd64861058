/** The register writes of tuner_r82xx: chunked I2C messages and a shadow of the chip's registers. */
module R82xxRegisters {
  import opened Bytes
  import opened Sequences

  const NUM_REGS: nat := 30
  const REG_SHADOW_START: nat := 5

  type Reg = bv8

  /** A message on the bus: a register address and the bytes to store from it on. */
  datatype Message = Message(reg: nat, payload: seq<Reg>)

  /** The payload of the messages of one write, cut to what a message can hold; at least one message. */
  function Chunks(room: nat, val: seq<Reg>): (c: seq<seq<Reg>>)
    requires room > 0
    ensures c != []
  {
    if |val| <= room then [val] else [val[..room]] + Chunks(room, val[room..])
  }

  /** The chunks are the payload, in order, none longer than a message holds. */
  lemma {:induction false} ChunksJoin(room: nat, val: seq<Reg>)
    requires room > 0
    ensures Joined(Chunks(room, val)) == val
    ensures forall k | 0 <= k < |Chunks(room, val)| :: |Chunks(room, val)[k]| <= room
    decreases |val|
  {
    if |val| > room {
      ChunksJoin(room, val[room..]);
      assert Chunks(room, val)[1..] == Chunks(room, val[room..]);
    } else {
      assert Chunks(room, val)[1..] == [];
    }
  }

  lemma TwoOverlays<T>(s: seq<T>, pos: nat, a: seq<T>, b: seq<T>)
    requires pos + |a| + |b| <= |s|
    ensures Overlay(Overlay(s, pos, a), pos + |a|, b) == Overlay(s, pos, a + b)
  {}

  /** The shadow after a write: what falls outside it is cut off. */
  function Stored(regs: seq<Reg>, reg: nat, val: seq<Reg>): (s: seq<Reg>)
    requires |regs| == NUM_REGS && REG_SHADOW_START <= reg <= REG_SHADOW_START + NUM_REGS
    ensures |s| == NUM_REGS
  {
    var r := reg - REG_SHADOW_START;
    Overlay(regs, r, if |val| > NUM_REGS - r then val[..NUM_REGS - r] else val)
  }

  predicate Synced(regs: seq<Reg>, registers: seq<Reg>)
    requires |regs| == NUM_REGS && |registers| == 256
  {
    regs == registers[REG_SHADOW_START..REG_SHADOW_START + NUM_REGS]
  }

  lemma StoredAt(regs: seq<Reg>, reg: nat, val: seq<Reg>, k: nat)
    requires |regs| == NUM_REGS && k < NUM_REGS
    requires REG_SHADOW_START <= reg <= REG_SHADOW_START + NUM_REGS
    ensures Stored(regs, reg, val)[k] ==
      if reg <= REG_SHADOW_START + k < reg + |val| then val[REG_SHADOW_START + k - reg] else regs[k]
  {}

  lemma OverlaidAt(registers: seq<Reg>, reg: nat, d: seq<Reg>, k: nat)
    requires reg + |d| <= |registers| && k < |registers|
    ensures Overlay(registers, reg, d)[k] == if reg <= k < reg + |d| then d[k - reg] else registers[k]
  {}

  /** After the first `sent` bytes of a write reached the chip, the shadow is right exactly when the
      rest would have changed nothing in it. In particular it is right when all of it was sent. */
  lemma SyncedAfter(regs: seq<Reg>, registers: seq<Reg>, reg: nat, val: seq<Reg>, sent: nat)
    requires |regs| == NUM_REGS && |registers| == 256 && Synced(regs, registers)
    requires REG_SHADOW_START <= reg <= REG_SHADOW_START + NUM_REGS && reg + |val| <= 256 && sent <= |val|
    ensures Synced(Stored(regs, reg, val), Overlay(registers, reg, val[..sent])) <==>
      forall i | sent <= i < |val| && reg + i < REG_SHADOW_START + NUM_REGS :: val[i] == registers[reg + i]
  {
    hide Stored, Overlay;
    var a, b := Stored(regs, reg, val), Overlay(registers, reg, val[..sent]);
    if Synced(a, b) {
      forall i | sent <= i < |val| && reg + i < REG_SHADOW_START + NUM_REGS ensures val[i] == registers[reg + i] {
        StoredAt(regs, reg, val, reg + i - REG_SHADOW_START);
        OverlaidAt(registers, reg, val[..sent], reg + i);
      }
    }
    if forall i | sent <= i < |val| && reg + i < REG_SHADOW_START + NUM_REGS :: val[i] == registers[reg + i] {
      forall k | 0 <= k < NUM_REGS ensures a[k] == b[REG_SHADOW_START..REG_SHADOW_START + NUM_REGS][k] {
        StoredAt(regs, reg, val, k);
        OverlaidAt(registers, reg, val[..sent], REG_SHADOW_START + k);
        var i := REG_SHADOW_START + k - reg;
        if sent <= i < |val| { assert val[i] == registers[reg + i]; }
      }
    }
  }

  /** The chip on the bus: it takes so many more messages, then transfers fail with the given code. */
  class Chip {
    var registers: seq<Reg>
    var accepts: nat
    var failCode: int
    ghost var log: seq<Message>

    ghost predicate Valid()
      reads this
    {
      |registers| == 256 && failCode <= 0
    }

    /** The result is the number of bytes transferred, address included. */
    method Send(msg: Message) returns (rc: int)
      requires Valid() && msg.reg + |msg.payload| <= 256
      modifies this
      ensures Valid() && failCode == old(failCode)
      ensures old(accepts) > 0 ==>
        && rc == |msg.payload| + 1 && accepts == old(accepts) - 1 && log == old(log) + [msg]
        && registers == Overlay(old(registers), msg.reg, msg.payload)
      ensures old(accepts) == 0 ==> rc == failCode && accepts == 0 && log == old(log) && registers == old(registers)
    {
      if accepts == 0 {
        return failCode;
      }
      registers := Overlay(registers, msg.reg, msg.payload);
      accepts, log := accepts - 1, log + [msg];
      return |msg.payload| + 1;
    }
  }

  /** The messages of a write: each carries the address its bytes go to. */
  function Messages(reg: nat, chunks: seq<seq<Reg>>): (m: seq<Message>)
    ensures |m| == |chunks|
    decreases |chunks|
  {
    if chunks == [] then [] else [Message(reg, chunks[0])] + Messages(reg + |chunks[0]|, chunks[1..])
  }

  lemma {:induction false} OneMoreJoined(chunks: seq<seq<Reg>>, c: seq<Reg>)
    ensures Joined(chunks + [c]) == Joined(chunks) + c
  {
    if chunks == [] {
      assert (chunks + [c])[1..] == [];
    } else {
      OneMoreJoined(chunks[1..], c);
      assert (chunks + [c])[1..] == chunks[1..] + [c];
    }
  }

  lemma {:induction false} OneMoreMessage(reg: nat, chunks: seq<seq<Reg>>, c: seq<Reg>)
    ensures Messages(reg, chunks + [c]) == Messages(reg, chunks) + [Message(reg + |Joined(chunks)|, c)]
    decreases |chunks|
  {
    var more := chunks + [c];
    assert Messages(reg, more) == [Message(reg, more[0])] + Messages(reg + |more[0]|, more[1..]);
    if chunks == [] {
      assert more[1..] == [];
    } else {
      var rest, next := chunks[1..], reg + |chunks[0]|;
      OneMoreMessage(next, rest, c);
      assert more[1..] == rest + [c];
      assert next + |Joined(rest)| == reg + |Joined(chunks)|;
      hide Messages, Joined;
      var last := [Message(next + |Joined(rest)|, c)];
      assert Messages(reg, more) == [Message(reg, more[0])] + Messages(next, rest) + last;
    }
  }

  /** A write of which these chunks have been sent; the rest is cut from position pos on. */
  ghost predicate Sending(room: nat, val: seq<Reg>, sent: seq<seq<Reg>>, pos: nat)
    requires room > 0
  {
    pos <= |val| && Joined(sent) == val[..pos] && Chunks(room, val) == sent + Chunks(room, val[pos..])
  }

  lemma ChunksFirst(room: nat, val: seq<Reg>, pos: nat, size: nat)
    requires room > 0 && pos <= |val| && size == if |val| - pos > room then room else |val| - pos
    ensures Chunks(room, val[pos..])
      == if pos + size < |val| then [val[pos..pos + size]] + Chunks(room, val[pos + size..]) else [val[pos..pos + size]]
  {
    var rest := val[pos..];
    if pos + size < |val| {
      assert rest[room..] == val[pos + size..];
      assert rest[..room] == val[pos..pos + size];
    } else {
      assert rest == val[pos..pos + size];
    }
  }

  lemma SendingStep(room: nat, val: seq<Reg>, sent: seq<seq<Reg>>, pos: nat, size: nat)
    requires room > 0 && Sending(room, val, sent, pos)
    requires size == if |val| - pos > room then room else |val| - pos
    ensures var more := sent + [val[pos..pos + size]];
      && Joined(more) == val[..pos + size]
      && (pos + size < |val| ==> Sending(room, val, more, pos + size))
      && (pos + size == |val| ==> Chunks(room, val) == more)
  {
    hide Chunks, Joined, Messages;
    var c := val[pos..pos + size];
    OneMoreJoined(sent, c);
    ChunksFirst(room, val, pos, size);
    if pos + size < |val| {
      assert sent + ([c] + Chunks(room, val[pos + size..])) == sent + [c] + Chunks(room, val[pos + size..]);
    }
  }

  /** What a write has done on the bus when the chip takes so many more messages: the first chunks
      are logged, at consecutive addresses, and are in the chip's registers. */
  ghost predicate Transferred(room: nat, reg: nat, val: seq<Reg>, accepts: nat,
                              before: seq<Reg>, after: seq<Reg>, logged: seq<Message>)
    requires room > 0 && reg + |val| <= |before|
  {
    var all := Chunks(room, val);
    var sent := if accepts < |all| then all[..accepts] else all;
    && logged == Messages(reg, sent)
    && Joined(sent) <= val
    && after == Overlay(before, reg, Joined(sent))
  }

  ghost predicate Underway(room: nat, reg: nat, val: seq<Reg>, sent: seq<seq<Reg>>, pos: nat,
                           before: seq<Reg>, now: seq<Reg>, logged: seq<Message>)
    requires room > 0 && reg + |val| <= |before|
  {
    && Sending(room, val, sent, pos)
    && logged == Messages(reg, sent)
    && now == Overlay(before, reg, val[..pos])
  }

  lemma UnderwayStart(room: nat, reg: nat, val: seq<Reg>, before: seq<Reg>)
    requires room > 0 && reg + |val| <= |before|
    ensures Underway(room, reg, val, [], 0, before, before, [])
  {
    assert [] + Chunks(room, val[0..]) == Chunks(room, val) by { assert val[0..] == val; }
  }

  lemma UnderwayStep(room: nat, reg: nat, val: seq<Reg>, sent: seq<seq<Reg>>, pos: nat, size: nat, accepts: nat,
                     before: seq<Reg>, now: seq<Reg>, logged: seq<Message>)
    requires room > 0 && reg + |val| <= |before| && Underway(room, reg, val, sent, pos, before, now, logged)
    requires size == if |val| - pos > room then room else |val| - pos
    requires accepts > |sent|
    ensures |now| == |before| && pos + size <= |val|
    ensures var c := val[pos..pos + size];
      var after, longer := Overlay(now, reg + pos, c), logged + [Message(reg + pos, c)];
      && (pos + size < |val| ==> Underway(room, reg, val, sent + [c], pos + size, before, after, longer))
      && (pos + size == |val| ==>
           Transferred(room, reg, val, accepts, before, after, longer) && |Chunks(room, val)| == |sent| + 1)
  {
    hide Chunks, Joined, Messages, Overlay;
    var c := val[pos..pos + size];
    SendingStep(room, val, sent, pos, size);
    OneMoreMessage(reg, sent, c);
    TwoOverlays(before, reg, val[..pos], c);
    assert val[..pos] + c == val[..pos + size];
    if pos + size == |val| { assert val[..|val|] == val; }
  }

  lemma UnderwayStops(room: nat, reg: nat, val: seq<Reg>, sent: seq<seq<Reg>>, pos: nat,
                      before: seq<Reg>, now: seq<Reg>, logged: seq<Message>)
    requires room > 0 && reg + |val| <= |before| && Underway(room, reg, val, sent, pos, before, now, logged)
    ensures Transferred(room, reg, val, |sent|, before, now, logged) && |sent| < |Chunks(room, val)|
  {
    hide Chunks, Joined, Messages, Overlay;
  }

  /** The bytes of a write that get through. */
  function SentBytes(room: nat, val: seq<Reg>, accepts: nat): seq<Reg>
    requires room > 0
  {
    var all := Chunks(room, val);
    Joined(if accepts < |all| then all[..accepts] else all)
  }

  /** The shadow after a write, failed or not: right exactly when the bytes that did not get through
      would have changed nothing in it. So after a success it is right, and after a failure it claims
      register values the chip does not have unless they were there already. */
  lemma SyncedIff(room: nat, reg: nat, val: seq<Reg>, accepts: nat,
                  regs: seq<Reg>, before: seq<Reg>, after: seq<Reg>, logged: seq<Message>)
    requires room > 0 && |regs| == NUM_REGS && |before| == 256
    requires REG_SHADOW_START <= reg <= REG_SHADOW_START + NUM_REGS && reg + |val| <= 256
    requires Synced(regs, before) && Transferred(room, reg, val, accepts, before, after, logged)
    ensures |after| == 256
    ensures Synced(Stored(regs, reg, val), after) <==>
      forall i | |SentBytes(room, val, accepts)| <= i < |val| && reg + i < REG_SHADOW_START + NUM_REGS ::
        val[i] == before[reg + i]
  {
    hide Synced, Stored, Chunks, Joined;
    var sent := SentBytes(room, val, accepts);
    assert val[..|sent|] == sent;
    SyncedAfter(regs, before, reg, val, |sent|);
  }

  /** No failure leaves the shadow wrong exactly when the write changes nothing the shadow holds. */
  lemma SyncedAlwaysIff(room: nat, reg: nat, val: seq<Reg>, regs: seq<Reg>, before: seq<Reg>)
    requires room > 0 && |regs| == NUM_REGS && |before| == 256 && Synced(regs, before)
    requires REG_SHADOW_START <= reg <= REG_SHADOW_START + NUM_REGS && reg + |val| <= 256
    ensures (forall accepts: nat :: AgreesAfter(room, reg, val, accepts, regs, before)) <==>
      forall i | 0 <= i < |val| && reg + i < REG_SHADOW_START + NUM_REGS :: val[i] == regs[reg + i - REG_SHADOW_START]
  {
    hide Stored, Chunks, Joined;
    assert forall k | 0 <= k < NUM_REGS :: regs[k] == before[REG_SHADOW_START + k];
    forall accepts: nat ensures AgreesAfter(room, reg, val, accepts, regs, before) <==>
      forall i | |SentBytes(room, val, accepts)| <= i < |val| && reg + i < REG_SHADOW_START + NUM_REGS ::
        val[i] == regs[reg + i - REG_SHADOW_START]
    {
      SentIsPrefix(room, val, accepts);
      SyncedAfter(regs, before, reg, val, |SentBytes(room, val, accepts)|);
    }
    NothingSent(room, val);
  }

  lemma NothingSent(room: nat, val: seq<Reg>)
    requires room > 0
    ensures SentBytes(room, val, 0) == []
  {
    assert Chunks(room, val)[..0] == [];
  }

  /** Any refused one-byte write of a new value is such a failure. */
  lemma RefusedByte(room: nat, reg: nat, value: Reg, regs: seq<Reg>, before: seq<Reg>)
    requires room > 0 && |regs| == NUM_REGS && |before| == 256 && Synced(regs, before)
    requires REG_SHADOW_START <= reg < REG_SHADOW_START + NUM_REGS && value != regs[reg - REG_SHADOW_START]
    ensures !AgreesAfter(room, reg, [value], 0, regs, before)
  {
    NothingSent(room, [value]);
    assert [value][..0] == [];
    assert before[reg] == regs[reg - REG_SHADOW_START];
    hide Stored, Overlay, SentBytes;
    SyncedAfter(regs, before, reg, [value], 0);
    assert [value][0] != before[reg + 0];
  }

  /** Shadow and chip agree after a write of which so many messages get through. */
  ghost predicate AgreesAfter(room: nat, reg: nat, val: seq<Reg>, accepts: nat, regs: seq<Reg>, before: seq<Reg>)
    requires room > 0 && |regs| == NUM_REGS && |before| == 256
    requires REG_SHADOW_START <= reg <= REG_SHADOW_START + NUM_REGS && reg + |val| <= 256
  {
    var sent := SentBytes(room, val, accepts);
    reg + |sent| <= 256 && Synced(Stored(regs, reg, val), Overlay(before, reg, sent))
  }

  /** The bytes that get through are the first ones. */
  lemma {:induction false} SentIsPrefix(room: nat, val: seq<Reg>, accepts: nat)
    requires room > 0
    ensures var sent := SentBytes(room, val, accepts); |sent| <= |val| && sent == val[..|sent|]
    decreases accepts
  {
    var all := Chunks(room, val);
    ChunksJoin(room, val);
    if accepts == 0 {
    } else if |val| > room {
      SentIsPrefix(room, val[room..], accepts - 1);
      var rest := Chunks(room, val[room..]);
      assert all[1..] == rest;
      if accepts < |all| {
        assert all[..accepts][1..] == rest[..accepts - 1];
        assert all[..accepts][0] == val[..room];
      }
    }
  }

  /** A write that got through is one long write. */
  lemma TransferredWhole(room: nat, reg: nat, val: seq<Reg>, accepts: nat,
                         before: seq<Reg>, after: seq<Reg>, logged: seq<Message>)
    requires room > 0 && reg + |val| <= |before| && accepts >= |Chunks(room, val)|
    requires Transferred(room, reg, val, accepts, before, after, logged)
    ensures after == Overlay(before, reg, val) && logged == Messages(reg, Chunks(room, val))
    ensures SentBytes(room, val, accepts) == val
  {
    hide Overlay, Chunks;
    ChunksJoin(room, val);
  }

  /** A write of all the shadowed registers makes the shadow right whatever it was. */
  lemma FullWriteSyncs(regs: seq<Reg>, registers: seq<Reg>, val: seq<Reg>)
    requires |regs| == NUM_REGS && |registers| == 256 && NUM_REGS <= |val| <= 251
    ensures Synced(Stored(regs, REG_SHADOW_START, val), Overlay(registers, REG_SHADOW_START, val))
  {}

  /** The selected bits from val, the others kept. */
  function Masked(was: Reg, val: Reg, mask: Reg): (r: Reg)
    ensures r & mask == val & mask
    ensures r & !mask == was & !mask
  {
    (was & !mask) | (val & mask)
  }

  datatype Operation = Store(reg: nat, val: seq<Reg>) | Mask(reg: nat, bits: Reg, mask: Reg)

  /** An operation the driver issues: within the shadow. */
  predicate Issued(op: Operation) {
    match op
    case Store(reg, val) => REG_SHADOW_START <= reg && reg + |val| <= REG_SHADOW_START + NUM_REGS
    case Mask(reg, _, _) => REG_SHADOW_START <= reg < REG_SHADOW_START + NUM_REGS
  }

  /** What an operation should do to the chip: a masked write modifies the chip's own value. */
  function Effect(registers: seq<Reg>, op: Operation): (r: seq<Reg>)
    requires Issued(op) && |registers| == 256
    ensures |r| == 256
  {
    match op
    case Store(reg, val) => Overlay(registers, reg, val)
    case Mask(reg, bits, mask) => registers[reg := Masked(registers[reg], bits, mask)]
  }

  function Effects(registers: seq<Reg>, ops: seq<Operation>): (r: seq<Reg>)
    requires |registers| == 256 && forall k | 0 <= k < |ops| :: Issued(ops[k])
    ensures |r| == 256
  {
    if ops == [] then registers else Effect(Effects(registers, ops[..|ops| - 1]), ops[|ops| - 1])
  }

  /** How many messages an operation takes. */
  function Cost(room: nat, op: Operation): (n: nat)
    requires room > 0
    ensures n >= 1
  {
    match op
    case Store(_, val) => |Chunks(room, val)|
    case Mask(_, _, _) => 1
  }

  function TotalCost(room: nat, ops: seq<Operation>): nat
    requires room > 0
  {
    if ops == [] then 0 else TotalCost(room, ops[..|ops| - 1]) + Cost(room, ops[|ops| - 1])
  }

  lemma {:induction false} CostOfPart(room: nat, ops: seq<Operation>, n: nat)
    requires room > 0 && n <= |ops|
    ensures TotalCost(room, ops[..n]) <= TotalCost(room, ops)
  {
    hide Cost;
    if n < |ops| {
      CostOfPart(room, ops[..|ops| - 1], n);
      assert ops[..|ops| - 1][..n] == ops[..n];
    } else {
      assert ops[..n] == ops;
    }
  }

  /** A one-byte write is one message. */
  lemma OneMessage(room: nat, reg: nat, val: Reg, accepts: nat, before: seq<Reg>)
    requires room > 0 && reg + 1 <= |before|
    ensures |Chunks(room, [val])| == 1
    ensures forall after, logged :: Transferred(room, reg, [val], accepts, before, after, logged) ==>
      after == if accepts > 0 then Overlay(before, reg, [val]) else before
  {}

  lemma StoreSyncs(regs: seq<Reg>, registers: seq<Reg>, reg: nat, val: seq<Reg>)
    requires |regs| == NUM_REGS && |registers| == 256 && Synced(regs, registers) && Issued(Store(reg, val))
    ensures Synced(Stored(regs, reg, val), Overlay(registers, reg, val))
  {
    hide Synced, Stored, Overlay;
    SyncedAfter(regs, registers, reg, val, |val|);
    assert val[..|val|] == val;
  }

  lemma MaskSyncs(regs: seq<Reg>, registers: seq<Reg>, reg: nat, bits: Reg, mask: Reg)
    requires |regs| == NUM_REGS && |registers| == 256 && Synced(regs, registers) && Issued(Mask(reg, bits, mask))
    ensures var val := Masked(regs[reg - REG_SHADOW_START], bits, mask);
      && Synced(Stored(regs, reg, [val]), Overlay(registers, reg, [val]))
      && Overlay(registers, reg, [val]) == Effect(registers, Mask(reg, bits, mask))
  {
    hide Stored, Masked;
    StoreSyncs(regs, registers, reg, [Masked(regs[reg - REG_SHADOW_START], bits, mask)]);
  }

  class Tuner {
    const chip: Chip
    const maxI2cMsgLen: nat
    const regs: array<Reg>

    ghost predicate Valid()
      reads this, chip
    {
      && chip.Valid() && maxI2cMsgLen >= 2
      && regs.Length == NUM_REGS
    }

    constructor (chip: Chip, maxI2cMsgLen: nat)
      requires chip.Valid() && maxI2cMsgLen >= 2
      ensures Valid() && this.chip == chip && this.maxI2cMsgLen == maxI2cMsgLen
      ensures fresh(regs)
    {
      this.chip, this.maxI2cMsgLen := chip, maxI2cMsgLen;
      regs := new Reg[NUM_REGS];
    }

    /** A run of bytes copied into an array. */
    method CopyInto(a: array<Reg>, at: nat, d: seq<Reg>)
      requires at + |d| <= a.Length
      modifies a
      ensures a[..] == Overlay(old(a[..]), at, d)
    {
      forall k | 0 <= k < |d| {
        a[at + k] := d[k];
      }
    }

    method ShadowStore(reg: nat, val: seq<Reg>)
      requires Valid() && REG_SHADOW_START <= reg <= REG_SHADOW_START + NUM_REGS
      modifies regs
      ensures regs[..] == Stored(old(regs[..]), reg, val)
    {
      var r, len := reg - REG_SHADOW_START, |val|;
      if len == 0 {
        return;
      }
      if len > NUM_REGS - r {
        len := NUM_REGS - r;
      }
      CopyInto(regs, r, val[..len]);
    }

    /** Stores the bytes in the shadow first, then sends them in messages the bus can carry. */
    method Write(reg0: nat, val: seq<Reg>) returns (rc: int)
      requires Valid() && REG_SHADOW_START <= reg0 <= REG_SHADOW_START + NUM_REGS && reg0 + |val| <= 256
      modifies regs, chip
      ensures Valid() && chip.failCode == old(chip.failCode)
      ensures regs[..] == Stored(old(regs[..]), reg0, val)
      ensures old(chip.log) <= chip.log
      ensures Transferred(maxI2cMsgLen - 1, reg0, val, old(chip.accepts),
                          old(chip.registers), chip.registers, chip.log[|old(chip.log)|..])
      ensures rc == if old(chip.accepts) >= |Chunks(maxI2cMsgLen - 1, val)| then 0
                    else if chip.failCode < 0 then chip.failCode else -1
      ensures chip.accepts == if rc == 0 then old(chip.accepts) - |Chunks(maxI2cMsgLen - 1, val)| else 0
      ensures rc == 0 ==> chip.registers == Overlay(old(chip.registers), reg0, val)
    {
      hide Underway, Transferred, Chunks, Stored, Overlay, Joined, Messages;
      ShadowStore(reg0, val);
      ghost var before, room, log0, accepts := chip.registers, maxI2cMsgLen - 1, chip.log, chip.accepts;
      ghost var sent: seq<seq<Reg>> := [];
      ghost var logged: seq<Message> := [];
      var reg, len, pos := reg0, |val|, 0;
      UnderwayStart(room, reg0, val, before);
      while true
        invariant Valid() && chip.failCode == old(chip.failCode)
        invariant regs[..] == Stored(old(regs[..]), reg0, val)
        invariant 0 <= pos && 0 <= len && pos + len == |val| && reg == reg0 + pos
        invariant log0 <= chip.log && chip.log[|log0|..] == logged && chip.accepts + |sent| == accepts
        invariant Underway(room, reg0, val, sent, pos, before, chip.registers, logged)
        decreases len
      {
        var size := if len > maxI2cMsgLen - 1 then maxI2cMsgLen - 1 else len;
        ghost var now := chip.registers;
        var c := val[pos..pos + size];
        rc := chip.Send(Message(reg, c));
        if rc != size + 1 {
          UnderwayStops(room, reg0, val, sent, pos, before, chip.registers, logged);
          return if rc < 0 then rc else -1;
        }
        UnderwayStep(room, reg0, val, sent, pos, size, accepts, before, now, logged);
        sent, logged := sent + [c], logged + [Message(reg, c)];
        assert chip.log[|log0|..] == logged;
        reg, len, pos := reg + size, len - size, pos + size;
        if len == 0 { break; }
      }
      TransferredWhole(room, reg0, val, accepts, before, chip.registers, logged);
      rc := 0;
    }

    /** The cached value of a register, or -1 outside the shadow. */
    method ReadCacheReg(reg: nat) returns (rc: int)
      requires Valid()
      ensures rc == if REG_SHADOW_START <= reg < REG_SHADOW_START + NUM_REGS
                    then regs[reg - REG_SHADOW_START] as int else -1
    {
      if reg >= REG_SHADOW_START && reg - REG_SHADOW_START < NUM_REGS {
        rc := regs[reg - REG_SHADOW_START] as int;
      } else {
        rc := -1;
      }
    }

    /** Changes some bits of a register, taking the others from the shadow. */
    method WriteRegMask(reg: nat, bits: Reg, mask: Reg) returns (rc: int)
      requires Valid() && reg < 256
      modifies regs, chip
      ensures Valid() && chip.failCode == old(chip.failCode)
      ensures !(REG_SHADOW_START <= reg < REG_SHADOW_START + NUM_REGS) ==>
        rc == -1 && regs[..] == old(regs[..]) && chip.registers == old(chip.registers) && chip.log == old(chip.log)
      ensures REG_SHADOW_START <= reg < REG_SHADOW_START + NUM_REGS ==>
        var val, sent := Masked(old(regs[reg - REG_SHADOW_START]), bits, mask), old(chip.accepts) > 0;
        && rc == (if sent then 0 else if chip.failCode < 0 then chip.failCode else -1)
        && regs[..] == Stored(old(regs[..]), reg, [val])
        && chip.accepts == (if sent then old(chip.accepts) - 1 else 0)
        && chip.registers == if sent then Overlay(old(chip.registers), reg, [val]) else old(chip.registers)
    {
      rc := ReadCacheReg(reg);
      if rc < 0 {
        return;
      }
      var val := Masked(regs[reg - REG_SHADOW_START], bits, mask);
      hide Masked;
      OneMessage(maxI2cMsgLen - 1, reg, val, chip.accepts, chip.registers);
      rc := Write(reg, [val]);
    }

    ghost predicate InSync()
      requires Valid()
      reads this, chip, regs
    {
      Synced(regs[..], chip.registers)
    }

    /** The full write that initialises the chip makes shadow and chip agree. */
    method Init(values: seq<Reg>) returns (rc: int)
      requires Valid() && |values| == NUM_REGS
      modifies regs, chip
      ensures Valid() && regs[..] == values && (rc == 0 ==> InSync())
      ensures rc == 0 <==> old(chip.accepts) >= |Chunks(maxI2cMsgLen - 1, values)|
    {
      FullWriteSyncs(regs[..], chip.registers, values);
      rc := Write(REG_SHADOW_START, values);
    }

    /** One operation. If it succeeds on a chip in step with the shadow, they stay in step, and the
        masked write has modified the chip's own value. */
    method Perform(op: Operation) returns (rc: int)
      requires Valid() && Issued(op) && InSync()
      modifies regs, chip
      ensures Valid() && (rc == 0 ==> InSync() && chip.registers == Effect(old(chip.registers), op))
      ensures rc == 0 <==> old(chip.accepts) >= Cost(maxI2cMsgLen - 1, op)
      ensures rc == 0 ==> chip.accepts == old(chip.accepts) - Cost(maxI2cMsgLen - 1, op)
    {
      hide Stored, Overlay, Masked, Synced;
      ghost var was, before := regs[..], chip.registers;
      match op
      case Store(reg, val) =>
        StoreSyncs(was, before, reg, val);
        rc := Write(reg, val);
      case Mask(reg, bits, mask) =>
        MaskSyncs(was, before, reg, bits, mask);
        rc := WriteRegMask(reg, bits, mask);
    }

    /** Any run of operations that all succeed has on the chip the effect of each in turn. */
    method PerformAll(ops: seq<Operation>) returns (rc: int)
      requires Valid() && InSync() && forall k | 0 <= k < |ops| :: Issued(ops[k])
      modifies regs, chip
      ensures Valid() && (rc == 0 ==> InSync() && chip.registers == Effects(old(chip.registers), ops))
      ensures rc == 0 <==> old(chip.accepts) >= TotalCost(maxI2cMsgLen - 1, ops)
    {
      hide Synced, Effect, Cost;
      rc := 0;
      for i := 0 to |ops|
        invariant Valid() && rc == 0 && InSync()
        invariant chip.registers == Effects(old(chip.registers), ops[..i])
        invariant chip.accepts == old(chip.accepts) - TotalCost(maxI2cMsgLen - 1, ops[..i])
      {
        assert ops[..i + 1][..i] == ops[..i];
        CostOfPart(maxI2cMsgLen - 1, ops, i + 1);
        rc := Perform(ops[i]);
        if rc != 0 { return; }
      }
      assert ops[..|ops|] == ops;
    }
  }

  /** As few messages as the payload needs: all are full but the last. */
  lemma {:induction false} FewestChunks(room: nat, val: seq<Reg>)
    requires room > 0
    ensures var c := Chunks(room, val);
      && (|c| - 1) * room <= |val| <= |c| * room && (|c| > 1 ==> (|c| - 1) * room < |val|)
      && forall k | 0 <= k < |c| - 1 :: |c[k]| == room
    decreases |val|
  {
    if |val| > room {
      FewestChunks(room, val[room..]);
      var c, d := Chunks(room, val), Chunks(room, val[room..]);
      assert c == [val[..room]] + d;
      assert (|c| - 1) * room == (|d| - 1) * room + room && |c| * room == |d| * room + room;
      forall k | 0 <= k < |c| - 1 ensures |c[k]| == room {
        if k > 0 { assert c[k] == d[k - 1]; }
      }
    }
  }

  /** Each message starts at the register after the last byte of the ones before. */
  lemma {:induction false} Addresses(reg: nat, chunks: seq<seq<Reg>>, k: nat)
    requires k < |chunks|
    ensures Messages(reg, chunks)[k] == Message(reg + |Joined(chunks[..k])|, chunks[k])
    decreases k
  {
    if k == 0 {
      assert chunks[..0] == [];
    } else {
      Addresses(reg + |chunks[0]|, chunks[1..], k - 1);
      assert chunks[..k][1..] == chunks[1..][..k - 1];
    }
  }
}
