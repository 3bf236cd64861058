/** The EEPROM behind the tuner's I2C bus, and librtlsdr's access to it. */
module EepromDevice {
  import opened Bytes
  import opened EepromImage

  /** The addresses of the first n bytes of a write that do change something. */
  function Differing(memory: seq<Byte>, data: seq<Byte>, offset: nat, n: nat): (d: seq<nat>)
    requires n <= |data| && offset + n <= |memory|
    ensures |d| <= n
  {
    if n == 0 then []
    else Differing(memory, data, offset, n - 1)
         + (if memory[offset + n - 1] != data[n - 1] then [offset + n - 1] else [])
  }

  /** The bytes a write gets through when only so many may change: up to the first change too many. */
  function Reached(memory: seq<Byte>, data: seq<Byte>, offset: nat, n: nat, writable: nat): (k: nat)
    requires n <= |data| && offset + n <= |memory|
    ensures k <= n
    ensures |Differing(memory, data, offset, k)| <= writable
    ensures k < n ==> |Differing(memory, data, offset, k + 1)| == writable + 1
  {
    if |Differing(memory, data, offset, n)| <= writable then n
    else Reached(memory, data, offset, n - 1, writable)
  }

  lemma {:induction false} DifferingGrows(memory: seq<Byte>, data: seq<Byte>, offset: nat, k: nat, n: nat)
    requires k <= n <= |data| && offset + n <= |memory|
    ensures |Differing(memory, data, offset, k)| <= |Differing(memory, data, offset, n)|
  {
    if k < n { DifferingGrows(memory, data, offset, k, n - 1); }
  }

  /** The write stops at i exactly when the next byte is one change too many. */
  lemma ReachedIs(memory: seq<Byte>, data: seq<Byte>, offset: nat, i: nat, n: nat, writable: nat)
    requires i < n <= |data| && offset + n <= |memory|
    requires |Differing(memory, data, offset, i)| == writable && memory[offset + i] != data[i]
    ensures Reached(memory, data, offset, n, writable) == i
  {
    hide Reached;
    var k := Reached(memory, data, offset, n, writable);
    assert |Differing(memory, data, offset, i + 1)| == writable + 1;
    if k < i { DifferingGrows(memory, data, offset, k + 1, i); }
    if k > i { DifferingGrows(memory, data, offset, i + 1, k); }
  }

  lemma AllReached(memory: seq<Byte>, data: seq<Byte>, offset: nat, n: nat, writable: nat)
    requires n <= |data| && offset + n <= |memory| && |Differing(memory, data, offset, n)| <= writable
    ensures Reached(memory, data, offset, n, writable) == n
  {}

  /** The state of a write that has dealt with i bytes. */
  ghost predicate Writing(was: seq<Byte>, data: seq<Byte>, offset: nat, i: nat, budget: nat,
                          now: seq<Byte>, changed: seq<nat>, writable: nat)
    requires i <= |data| && offset + i <= |was|
  {
    && now == Overlay(was, offset, data[..i])
    && changed == Differing(was, data, offset, i)
    && budget == writable + |Differing(was, data, offset, i)|
  }

  lemma WritingStarts(was: seq<Byte>, data: seq<Byte>, offset: nat, budget: nat)
    requires offset <= |was|
    ensures Writing(was, data, offset, 0, budget, was, [], budget)
  {}

  lemma WritingSame(was: seq<Byte>, data: seq<Byte>, offset: nat, i: nat, budget: nat,
                    now: seq<Byte>, changed: seq<nat>, writable: nat)
    requires i < |data| && offset + i < |was| && Writing(was, data, offset, i, budget, now, changed, writable)
    ensures now[offset + i] == was[offset + i]
    ensures now[offset + i] == data[i] ==> Writing(was, data, offset, i + 1, budget, now, changed, writable)
  {
    hide Overlay;
    WriteStep(was, now, data, offset, i);
  }

  lemma WritingChange(was: seq<Byte>, data: seq<Byte>, offset: nat, i: nat, budget: nat,
                      now: seq<Byte>, changed: seq<nat>, writable: nat)
    requires i < |data| && offset + i < |was| && Writing(was, data, offset, i, budget, now, changed, writable)
    requires now[offset + i] != data[i] && writable > 0
    ensures Writing(was, data, offset, i + 1, budget, now[offset + i := data[i]], changed + [offset + i], writable - 1)
  {
    hide Overlay;
    WriteStep(was, now, data, offset, i);
  }

  /** What a write has done when it returns. */
  ghost predicate Wrote(was: seq<Byte>, data: seq<Byte>, offset: nat, len: nat, budget: nat,
                        now: seq<Byte>, changed: seq<nat>, r: int)
    requires len <= |data| && offset + len <= |was|
  {
    var k := Reached(was, data, offset, len, budget);
    && r == (if k == len then 0 else -3)
    && now == Overlay(was, offset, data[..k])
    && changed == Differing(was, data, offset, k)
  }

  lemma WritingEnds(was: seq<Byte>, data: seq<Byte>, offset: nat, len: nat, budget: nat,
                    now: seq<Byte>, changed: seq<nat>, writable: nat)
    requires len <= |data| && offset + len <= |was| && Writing(was, data, offset, len, budget, now, changed, writable)
    ensures Wrote(was, data, offset, len, budget, now, changed, 0)
  {
    AllReached(was, data, offset, len, budget);
  }

  lemma WritingFails(was: seq<Byte>, data: seq<Byte>, offset: nat, i: nat, len: nat, budget: nat,
                     now: seq<Byte>, changed: seq<nat>)
    requires i < len <= |data| && offset + len <= |was| && Writing(was, data, offset, i, budget, now, changed, 0)
    requires was[offset + i] != data[i]
    ensures Wrote(was, data, offset, len, budget, now, changed, -3)
  {
    ReachedIs(was, data, offset, i, len, budget);
  }

  /** One more byte of a write, if it differs. */
  lemma WriteStep(was: seq<Byte>, now: seq<Byte>, data: seq<Byte>, offset: nat, i: nat)
    requires i < |data| && offset + i < |was| && now == Overlay(was, offset, data[..i])
    ensures now[offset + i] == was[offset + i]
    ensures now[offset + i := data[i]] == Overlay(was, offset, data[..i + 1])
    ensures was[offset + i] == data[i] ==> now == Overlay(was, offset, data[..i + 1])
  {}

  /** A buffer after the first i bytes of a read. */
  function Fetched(was: seq<Byte>, memory: seq<Byte>, offset: nat, i: nat): (now: seq<Byte>)
    requires i <= |was| && offset + i <= |memory|
    ensures |now| == |was|
  {
    Overlay(was, 0, memory[offset..offset + i])
  }

  lemma FetchedNone(was: seq<Byte>, memory: seq<Byte>, offset: nat)
    requires offset <= |memory|
    ensures Fetched(was, memory, offset, 0) == was
  {}

  lemma FetchedOne(was: seq<Byte>, memory: seq<Byte>, offset: nat, i: nat)
    requires i < |was| && offset + i < |memory|
    ensures Fetched(was, memory, offset, i)[i := memory[offset + i]] == Fetched(was, memory, offset, i + 1)
  {}

  lemma HalfWritten(memory: seq<Byte>, image: seq<Byte>, k: nat)
    requires |memory| == |image| == EEPROM_SIZE && k <= 128
    ensures Overlay(memory, 0, image[..k])[128..] == memory[128..]
    ensures k == 128 ==> Overlay(memory, 0, image[..k]) == image[..128] + memory[128..]
  {}

  lemma WholeRead(was: seq<Byte>, memory: seq<Byte>)
    requires |was| == |memory|
    ensures Fetched(was, memory, 0, |memory|) == memory
  {}

  class Device {
    var memory: seq<Byte>
    var pointer: nat
    /** The number of bytes that can still be changed before a write fails. */
    var writable: nat
    ghost var log: seq<nat>

    ghost predicate Valid()
      reads this
    {
      |memory| == EEPROM_SIZE && pointer < EEPROM_SIZE
    }

    constructor (memory: seq<Byte>, writable: nat)
      requires |memory| == EEPROM_SIZE
      ensures Valid() && this.memory == memory && this.writable == writable && log == []
    {
      this.memory, this.writable := memory, writable;
      pointer, log := 0, [];
    }

    /** A one-byte transfer sets the address pointer. */
    method SetPointer(address: nat)
      requires Valid() && address < EEPROM_SIZE
      modifies this`pointer
      ensures Valid() && pointer == address
    {
      pointer := address;
    }

    /** A read returns the byte at the pointer and advances it. */
    method ReadByte() returns (b: Byte)
      requires Valid()
      modifies this`pointer
      ensures Valid() && b == memory[old(pointer)]
      ensures pointer == if old(pointer) == EEPROM_SIZE - 1 then 0 else old(pointer) + 1
    {
      b := memory[pointer];
      pointer := if pointer == EEPROM_SIZE - 1 then 0 else pointer + 1;
    }

    /** A two-byte transfer writes one byte; the result is the number of bytes transferred. */
    method WriteByte(address: nat, b: Byte) returns (r: int)
      requires Valid() && address < EEPROM_SIZE
      modifies this
      ensures Valid()
      ensures old(writable) > 0 ==>
        && r == 2 && memory == old(memory)[address := b]
        && writable == old(writable) - 1 && log == old(log) + [address]
      ensures old(writable) == 0 ==> r < 0 && memory == old(memory) && writable == 0 && log == old(log)
    {
      if writable == 0 {
        return -1;
      }
      memory, pointer := memory[address := b], (address + 1) % EEPROM_SIZE;
      writable, log := writable - 1, log + [address];
      return 2;
    }

    /** Writes the first len bytes of data from offset on, touching only the bytes that differ. */
    method WriteEeprom(data: array<Byte>, offset: Byte, len: Word) returns (r: int)
      requires Valid() && len <= data.Length
      modifies this
      ensures Valid()
      ensures offset + len > EEPROM_SIZE ==> r == -2 && memory == old(memory) && log == old(log)
      ensures offset + len <= EEPROM_SIZE ==>
        && old(log) <= log
        && Wrote(old(memory), data[..], offset, len, old(writable), memory, log[|old(log)|..], r)
    {
      hide Writing, Wrote;
      if len as int + offset > EEPROM_SIZE {
        return -2;
      }
      ghost var was, goal, budget := memory, data[..], writable;
      ghost var changed: seq<nat> := [];
      assert log == old(log) + changed;
      var i := 0;
      WritingStarts(was, goal, offset, budget);
      while i < len
        invariant 0 <= i <= len && Valid() && data[..] == goal
        invariant old(log) <= log && log[|old(log)|..] == changed
        invariant Writing(was, goal, offset, i, budget, memory, changed, writable)
      {
        SetPointer(i + offset);
        var now := ReadByte();
        WritingSame(was, goal, offset, i, budget, memory, changed, writable);
        if now != data[i] {
          ghost var before := memory;
          r := WriteByte(i + offset, data[i]);
          if r != 2 {
            WritingFails(was, goal, offset, i, len, budget, memory, changed);
            return -3;
          }
          WritingChange(was, goal, offset, i, budget, before, changed, writable + 1);
          changed := changed + [offset + i];
        }
        i := i + 1;
      }
      WritingEnds(was, goal, offset, len, budget, memory, changed, writable);
      return 0;
    }

    /** Reads len bytes from offset on; the result is that of the last transfer. */
    method ReadEeprom(data: array<Byte>, offset: Byte, len: Word) returns (r: int)
      requires Valid() && len <= data.Length
      modifies this`pointer, data
      ensures Valid()
      ensures offset + len > EEPROM_SIZE ==> r == -2 && data[..] == old(data[..])
      ensures offset + len <= EEPROM_SIZE ==> r == 1 && data[..] == Fetched(old(data[..]), memory, offset, len)
    {
      if len as int + offset > EEPROM_SIZE {
        return -2;
      }
      hide Fetched;
      ghost var was := data[..];
      SetPointer(offset);
      var i := 0;
      FetchedNone(was, memory, offset);
      while i < len
        invariant 0 <= i <= len && Valid() && (i < len ==> pointer == offset + i)
        invariant data[..] == Fetched(was, memory, offset, i)
      {
        FetchedOne(was, memory, offset, i);
        var b := ReadByte();
        data[i] := b;
        i := i + 1;
      }
      return 1;
    }

    /** rtl_eeprom's change of configuration: read the whole image, build the new one over it, write
        its first half. Without write failures the device then parses as the new configuration; a
        configuration that does not fit leaves it alone. */
    method Configure(conf: Config) returns (r: int)
      requires Valid() && IsText(conf.manufacturer) && IsText(conf.product) && IsText(conf.serial)
      modifies this
      ensures Valid() && memory[128..] == old(memory)[128..]
      ensures !Fits(conf) ==> r < 0 && memory == old(memory)
      ensures Fits(conf) && old(writable) >= 128 ==>
        && r == 0 && memory == Image(conf, old(memory))
        && Parsable(memory) && Parse(memory).config == conf
    {
      hide Fetched, Overlay, Reached, Differing, Image, Parse, Parsable, IsText;
      var buf := new Byte[EEPROM_SIZE];
      WholeRead(buf[..], memory);
      r := ReadEeprom(buf, 0, EEPROM_SIZE);
      ghost var was := memory;
      assert buf[..] == was;
      var pos := GenEepromFromConf(conf, buf);
      if pos < 0 {
        return pos;
      }
      ghost var k := Reached(was, buf[..], 0, 128, writable);
      ghost var image := buf[..];
      HalfWritten(was, buf[..], k);
      RoundTrip(conf, was);
      SameConfig(conf, was, was);
      assert was[..128] + was[128..] == was;
      r := WriteEeprom(buf, 0, 128);
    }
  }

  predicate Changes(memory: seq<Byte>, data: seq<Byte>, offset: nat, n: nat, a: nat)
    requires n <= |data| && offset + n <= |memory|
  {
    offset <= a < offset + n && memory[a] != data[a - offset]
  }

  predicate InOrder(d: seq<nat>) {
    forall i, j | 0 <= i < j < |d| :: d[i] < d[j]
  }

  /** The addresses written are those whose byte changes, each once and in order. */
  lemma {:induction false} DifferingMeaning(memory: seq<Byte>, data: seq<Byte>, offset: nat, n: nat)
    requires n <= |data| && offset + n <= |memory|
    ensures forall a: nat :: a in Differing(memory, data, offset, n) <==> Changes(memory, data, offset, n, a)
    ensures InOrder(Differing(memory, data, offset, n))
  {
    if n > 0 {
      DifferingMeaning(memory, data, offset, n - 1);
      var d, last := Differing(memory, data, offset, n - 1), offset + n - 1;
      var more := memory[last] != data[n - 1];
      assert Differing(memory, data, offset, n) == d + (if more then [last] else []);
      hide Differing, InOrder;
      forall i | 0 <= i < |d| ensures d[i] < last { assert d[i] in d; }
      OneAddressMore(d, last, more);
      forall a: nat ensures a in Differing(memory, data, offset, n) <==> Changes(memory, data, offset, n, a) {
        assert a in d <==> Changes(memory, data, offset, n - 1, a);
      }
    }
  }

  lemma OneAddressMore(d: seq<nat>, last: nat, more: bool)
    requires (forall i | 0 <= i < |d| :: d[i] < last) && InOrder(d)
    ensures var e := d + (if more then [last] else []);
      (forall a: nat :: a in e <==> a in d || (more && a == last)) && InOrder(e)
  {}
}
