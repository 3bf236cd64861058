/** The configuration image rtl_eeprom builds and parses. */
module EepromImage {
  import opened Bytes

  const EEPROM_SIZE: nat := 256
  const STR_OFFSET: nat := 9
  const MAX_STR_SIZE: nat := 256

  datatype Config = Config(vendorId: Word, productId: Word,
                           manufacturer: seq<Byte>, product: seq<Byte>, serial: seq<Byte>,
                           haveSerial: bool, enableIr: bool, remoteWakeup: bool)

  /** A C string has no zero byte before its end. */
  predicate IsText(s: seq<Byte>) {
    forall k | 0 <= k < |s| :: s[k] != 0
  }

  /** The C string a character buffer holds. */
  function TextOf(s: seq<Byte>): (t: seq<Byte>) {
    if s == [] || s[0] == 0 then [] else [s[0]] + TextOf(s[1..])
  }

  lemma {:induction false} TextEnds(t: seq<Byte>, rest: seq<Byte>)
    ensures TextOf(t + [0] + rest) == TextOf(t)
  {
    var s := t + [0] + rest;
    if t != [] {
      TextEnds(t[1..], rest);
      assert s[1..] == t[1..] + [0] + rest;
    }
  }

  lemma {:induction false} TextIsWhole(t: seq<Byte>)
    requires IsText(t)
    ensures TextOf(t) == t
  {
    if t != [] { TextIsWhole(t[1..]); }
  }

  /** Two bytes a character, low byte first. */
  function Wide(str: seq<Byte>): (w: seq<Byte>)
    ensures |w| == 2 * |str|
  {
    seq(2 * |str|, k requires 0 <= k < 2 * |str| => if k % 2 == 0 then str[k / 2] else 0)
  }

  /** The length and type bytes, then the characters. */
  function Descriptor(str: seq<Byte>): (d: seq<Byte>)
    requires |str| <= 126
    ensures |d| == 2 + 2 * |str|
  {
    [2 + 2 * |str|, 3] + Wide(str)
  }

  /** The characters before the limit, when they do not all fit. */
  function Kept(pos: int): nat {
    if pos >= 76 then 0 else (77 - pos) / 2
  }

  /** Where a descriptor ends: an empty one is not checked, any other must end by offset 79. */
  predicate Ends(pos: int, str: seq<Byte>) {
    str == [] || pos + 2 + 2 * |str| <= 79
  }

  lemma {:induction false} WideStep(str: seq<Byte>, i: nat)
    requires i < |str|
    ensures Wide(str[..i + 1]) == Wide(str[..i]) + [str[i], 0]
  {
    var x, y := Wide(str[..i + 1]), Wide(str[..i]) + [str[i], 0];
    forall k | 0 <= k < |x| ensures x[k] == y[k] {
      if k == 2 * i + 1 { assert k % 2 == 1; }
    }
  }

  lemma OverlayFirst(was: seq<Byte>, str: seq<Byte>, pos: nat)
    requires pos + 1 < |was|
    ensures was[pos + 1 := 3] == Overlay(was, pos + 1, [3] + Wide(str[..0]))
  {}

  lemma OverlayStep(was: seq<Byte>, now: seq<Byte>, str: seq<Byte>, pos: nat, i: nat)
    requires i < |str| && pos + 4 + 2 * i <= |was| && pos + 1 <= |was|
    requires now == Overlay(was, pos + 1, [3] + Wide(str[..i]))
    ensures now[pos + 2 + 2 * i := str[i]][pos + 3 + 2 * i := 0] == Overlay(was, pos + 1, [3] + Wide(str[..i + 1]))
  {
    WideStep(str, i);
    var wide := Wide(str[..i]);
    assert [3] + (wide + [str[i], 0]) == [3] + wide + [str[i], 0];
  }

  lemma OverlayLength(was: seq<Byte>, now: seq<Byte>, str: seq<Byte>, pos: nat)
    requires |str| <= 126 && pos + 2 + 2 * |str| <= |was|
    requires now == Overlay(was, pos + 1, [3] + Wide(str))
    ensures now[pos := 2 + 2 * |str|] == Overlay(was, pos, Descriptor(str))
  {
    hide Wide;
  }

  /** The characters written before the one at position i passes the limit. */
  lemma KeptIs(pos: nat, i: nat)
    requires pos + 2 + 2 * i >= 78 && (i == 0 || pos + 2 * i <= 77)
    ensures Kept(pos) == i
  {}

  /** Writes one descriptor; -1 when a previous one failed or the text would pass the limit. */
  method SetStringDescriptor(pos: int, data: array<Byte>, str: seq<Byte>) returns (r: int)
    requires data.Length >= 80 && pos + 1 < data.Length
    modifies data
    ensures r == if pos >= 0 && Ends(pos, str) then pos + 2 + 2 * |str| else -1
    ensures pos < 0 ==> data[..] == old(data[..])
    ensures pos >= 0 && Ends(pos, str) ==> data[..] == Overlay(old(data[..]), pos, Descriptor(str))
    ensures pos >= 0 && !Ends(pos, str) ==>
      Kept(pos) < |str| && data[..] == Overlay(old(data[..]), pos + 1, [3] + Wide(str[..Kept(pos)]))
  {
    hide Wide, Overlay, Kept, Descriptor;
    var i, j := 0, 2;
    if pos < 0 {
      return -1;
    }
    ghost var was := data[..];
    data[pos + 1] := 3;
    OverlayFirst(was, str, pos);
    while i < |str|
      invariant i <= |str| && j == 2 + 2 * i
      invariant i == 0 || pos + 2 * i <= 77
      invariant data[..] == Overlay(was, pos + 1, [3] + Wide(str[..i]))
    {
      if pos + j >= 78 {
        KeptIs(pos, i);
        return -1;
      }
      OverlayStep(was, data[..], str, pos, i);
      data[pos + j] := str[i];
      data[pos + j + 1] := 0;
      i, j := i + 1, j + 2;
    }
    assert str[..i] == str;
    OverlayLength(was, data[..], str, pos);
    data[pos] := j;
    return pos + j;
  }

  /** The characters a descriptor announces: every second byte below its length. */
  function Count(data: seq<Byte>, pos: nat): nat
    requires pos < |data|
  {
    if data[pos] <= 2 then 0 else (data[pos] - 1) / 2
  }

  /** No byte past the image is read. */
  predicate Readable(data: seq<Byte>, pos: nat) {
    pos + 1 < |data| && (Count(data, pos) > 0 ==> pos + 2 * Count(data, pos) < |data|)
  }

  function Raw(data: seq<Byte>, pos: nat): (t: seq<Byte>)
    requires Readable(data, pos)
    ensures |t| == Count(data, pos)
  {
    seq(Count(data, pos), k requires 0 <= k < Count(data, pos) => data[pos + 2 + 2 * k])
  }

  function After(data: seq<Byte>, pos: nat): nat
    requires pos < |data|
  {
    pos + 2 + 2 * Count(data, pos)
  }

  /** Reads one descriptor; the second result says whether its type byte was right. */
  method GetStringDescriptor(pos: nat, data: array<Byte>, str: array<Byte>) returns (next: nat, valid: bool)
    requires Readable(data[..], pos) && str.Length >= 128 && str != data
    modifies str
    ensures next == After(data[..], pos) && valid == (data[pos + 1] == 3)
    ensures TextOf(str[..]) == TextOf(Raw(data[..], pos))
  {
    var len: int, i: int, j := data[pos], 2, 0;
    valid := data[pos + 1] == 3;
    ghost var count := Count(data[..], pos);
    while i < len
      invariant j <= count && i == 2 + 2 * j
      invariant str[..j] == Raw(data[..], pos)[..j]
    {
      str[j] := data[pos + i];
      i, j := i + 2, j + 1;
    }
    str[j] := 0;
    assert j == count;
    assert str[..] == Raw(data[..], pos) + [0] + str[j + 1..];
    TextEnds(Raw(data[..], pos), str[j + 1..]);
    next := pos + i;
  }

  /** The image around the strings. */
  function Header(c: Config): (h: seq<Byte>)
    ensures |h| == 9
  {
    [0x28, 0x32, c.vendorId % 256, c.vendorId / 256, c.productId % 256, c.productId / 256,
     if c.haveSerial then 0xa5 else 0,
     0x14 + (if c.remoteWakeup then 1 else 0) + (if c.enableIr then 2 else 0), 2]
  }

  function ProductAt(c: Config): nat {
    STR_OFFSET + 2 + 2 * |c.manufacturer|
  }

  function SerialAt(c: Config): nat {
    ProductAt(c) + 2 + 2 * |c.product|
  }

  function EndOf(c: Config): nat {
    SerialAt(c) + 2 + 2 * |c.serial|
  }

  predicate Fits(c: Config) {
    Ends(STR_OFFSET, c.manufacturer) && Ends(ProductAt(c), c.product) && Ends(SerialAt(c), c.serial)
  }

  /** Byte 78, the length of the infrared section, is cleared last. */
  function Image(c: Config, was: seq<Byte>): (dat: seq<Byte>)
    requires Fits(c) && |was| == EEPROM_SIZE
    ensures |dat| == EEPROM_SIZE
  {
    (Header(c) + Descriptor(c.manufacturer) + Descriptor(c.product) + Descriptor(c.serial) + was[EndOf(c)..])[78 := 0]
  }

  lemma ThreeOverlays(h: seq<Byte>, a: seq<Byte>, b: seq<Byte>, c: seq<Byte>, was: seq<Byte>)
    requires |h| + |a| + |b| + |c| <= |was| && h == was[..|h|]
    ensures Overlay(Overlay(Overlay(was, |h|, a), |h| + |a|, b), |h| + |a| + |b|, c)
      == h + a + b + c + was[|h| + |a| + |b| + |c|..]
  {
    var one := h + a + was[|h| + |a|..];
    assert Overlay(was, |h|, a) == one;
    var two := h + a + b + was[|h| + |a| + |b|..];
    assert Overlay(one, |h| + |a|, b) == two;
  }

  method WriteHeader(conf: Config, dat: array<Byte>)
    requires dat.Length == EEPROM_SIZE
    modifies dat
    ensures dat[..] == Header(conf) + old(dat[9..])
  {
    dat[0] := 0x28;
    dat[1] := 0x32;
    dat[2], dat[3] := conf.vendorId % 256, conf.vendorId / 256;
    dat[4], dat[5] := conf.productId % 256, conf.productId / 256;
    dat[6] := if conf.haveSerial then 0xa5 else 0;
    dat[7] := 0x14 + (if conf.remoteWakeup then 1 else 0) + (if conf.enableIr then 2 else 0);
    dat[8] := 2;
  }

  lemma FilledIn(c: Config, was: seq<Byte>, start: seq<Byte>, now: seq<Byte>)
    requires |was| == EEPROM_SIZE && start == Header(c) + was[9..] && Fits(c)
    requires now == Overlay(Overlay(Overlay(start, 9, Descriptor(c.manufacturer)),
                                    ProductAt(c), Descriptor(c.product)), SerialAt(c), Descriptor(c.serial))
    ensures now[78 := 0] == Image(c, was)
  {
    hide Overlay, Descriptor, Header;
    assert start[..9] == Header(c);
    ThreeOverlays(Header(c), Descriptor(c.manufacturer), Descriptor(c.product), Descriptor(c.serial), start);
    assert start[EndOf(c)..] == was[EndOf(c)..];
  }

  /** Builds the image in place; on failure the caller discards it. */
  method GenEepromFromConf(conf: Config, dat: array<Byte>) returns (pos: int)
    requires dat.Length == EEPROM_SIZE
    modifies dat
    ensures pos == if Fits(conf) then EndOf(conf) else -1
    ensures Fits(conf) ==> dat[..] == Image(conf, old(dat[..]))
  {
    hide Overlay, Descriptor, Wide, Kept, Header, Image;
    WriteHeader(conf, dat);
    ghost var start := dat[..];
    pos := SetStringDescriptor(STR_OFFSET, dat, conf.manufacturer);
    pos := SetStringDescriptor(pos, dat, conf.product);
    pos := SetStringDescriptor(pos, dat, conf.serial);
    if pos >= 0 {
      FilledIn(conf, old(dat[..]), start, dat[..]);
    }
    dat[78] := 0;
  }

  function Joined(low: Byte, high: Byte): Word {
    low as int + 256 * high as int
  }

  /** What parsing an image yields: the settings, and whether the header and type bytes were as expected. */
  datatype Parsed = Parsed(config: Config, header: bool, types: bool)

  predicate Parsable(dat: seq<Byte>) {
    && |dat| == EEPROM_SIZE
    && Readable(dat, STR_OFFSET)
    && Readable(dat, After(dat, STR_OFFSET))
    && Readable(dat, After(dat, After(dat, STR_OFFSET)))
  }

  function Parse(dat: seq<Byte>): Parsed
    requires Parsable(dat)
  {
    var p2 := After(dat, STR_OFFSET);
    var p3 := After(dat, p2);
    Parsed(
      Config(Joined(dat[2], dat[3]), Joined(dat[4], dat[5]),
             TextOf(Raw(dat, STR_OFFSET)), TextOf(Raw(dat, p2)), TextOf(Raw(dat, p3)),
             dat[6] == 0xa5, dat[7] / 2 % 2 == 1, dat[7] % 2 == 1),
      dat[0] == 0x28 && dat[1] == 0x32,
      dat[STR_OFFSET + 1] == 3 && dat[p2 + 1] == 3 && dat[p3 + 1] == 3)
  }

  method ParseEepromToConf(dat: array<Byte>) returns (p: Parsed)
    requires Parsable(dat[..])
    ensures p == Parse(dat[..])
  {
    hide TextOf, Raw;
    ghost var image := dat[..];
    var manufacturer, product, serial := new Byte[MAX_STR_SIZE], new Byte[MAX_STR_SIZE], new Byte[MAX_STR_SIZE];
    var p2, v1 := GetStringDescriptor(STR_OFFSET, dat, manufacturer);
    var p3, v2 := GetStringDescriptor(p2, dat, product);
    var p4, v3 := GetStringDescriptor(p3, dat, serial);
    assert dat[..] == image;
    var config := Config(Joined(dat[2], dat[3]), Joined(dat[4], dat[5]),
                         TextOf(manufacturer[..]), TextOf(product[..]), TextOf(serial[..]),
                         dat[6] == 0xa5, dat[7] / 2 % 2 == 1, dat[7] % 2 == 1);
    assert config == Parse(image).config;
    p := Parsed(config, dat[0] == 0x28 && dat[1] == 0x32, v1 && v2 && v3);
  }

  /** The bytes of one descriptor that decoding uses. */
  ghost predicate HasText(dat: seq<Byte>, pos: nat, str: seq<Byte>) {
    && |str| <= 126 && pos + 2 + 2 * |str| <= |dat|
    && dat[pos] == 2 + 2 * |str|
    && (forall k | 0 <= k < |str| :: dat[pos + 2 + 2 * k] == str[k])
  }

  lemma TextIsRead(dat: seq<Byte>, pos: nat, str: seq<Byte>)
    requires HasText(dat, pos, str)
    ensures Readable(dat, pos) && After(dat, pos) == pos + 2 + 2 * |str| && Raw(dat, pos) == str
  {}

  lemma DescriptorHasText(head: seq<Byte>, str: seq<Byte>, tail: seq<Byte>)
    requires |str| <= 126 && |head| % 2 == 1 && |head + Descriptor(str) + tail| > 78
    ensures var dat := (head + Descriptor(str) + tail)[78 := 0];
      && HasText(dat, |head|, str)
      && dat[|head| + 1] == if |head| == 77 then 0 else 3
  {}

  lemma HeaderIsRead(c: Config, dat: seq<Byte>)
    requires |dat| == EEPROM_SIZE && dat[..9] == Header(c)
    ensures Joined(dat[2], dat[3]) == c.vendorId && Joined(dat[4], dat[5]) == c.productId
    ensures (dat[6] == 0xa5) == c.haveSerial
    ensures (dat[7] / 2 % 2 == 1) == c.enableIr && (dat[7] % 2 == 1) == c.remoteWakeup
    ensures dat[0] == 0x28 && dat[1] == 0x32
  {
    assert forall k | 0 <= k < 9 :: dat[k] == dat[..9][k];
  }

  /** Each string is where parsing looks for it; only the type byte at 78, of an empty string at 77, is lost. */
  lemma ImageHasTexts(c: Config, was: seq<Byte>)
    requires Fits(c) && |was| == EEPROM_SIZE
    ensures var dat := Image(c, was);
      && HasText(dat, STR_OFFSET, c.manufacturer) && dat[STR_OFFSET + 1] == 3
      && HasText(dat, ProductAt(c), c.product) && dat[ProductAt(c) + 1] == (if ProductAt(c) == 77 then 0 else 3)
      && HasText(dat, SerialAt(c), c.serial) && dat[SerialAt(c) + 1] == (if SerialAt(c) == 77 then 0 else 3)
  {
    hide HasText, Descriptor, Header;
    var h, m, p, s, rest :=
      Header(c), Descriptor(c.manufacturer), Descriptor(c.product), Descriptor(c.serial), was[EndOf(c)..];
    var flat := h + m + p + s + rest;
    assert flat == h + m + (p + s + rest);
    DescriptorHasText(h, c.manufacturer, p + s + rest);
    assert flat == (h + m) + p + (s + rest);
    DescriptorHasText(h + m, c.product, s + rest);
    assert flat == (h + m + p) + s + rest;
    DescriptorHasText(h + m + p, c.serial, rest);
  }

  lemma ImageHasHeader(c: Config, was: seq<Byte>)
    requires Fits(c) && |was| == EEPROM_SIZE
    ensures Image(c, was)[..9] == Header(c)
  {
    hide Header, Descriptor;
  }

  /** Parsing an image that was built gives the configuration back. It complains about a type byte
      exactly when an empty product or serial string was placed at offset 77. */
  lemma RoundTrip(c: Config, was: seq<Byte>)
    requires Fits(c) && |was| == EEPROM_SIZE
    requires IsText(c.manufacturer) && IsText(c.product) && IsText(c.serial)
    ensures Parsable(Image(c, was))
    ensures Parse(Image(c, was)) == Parsed(c, true, ProductAt(c) != 77 && SerialAt(c) != 77)
  {
    var dat := Image(c, was);
    hide Image, Header, HasText, Readable, Raw, TextOf;
    ImageHasTexts(c, was);
    ImageHasHeader(c, was);
    HeaderIsRead(c, dat);
    TextIsRead(dat, STR_OFFSET, c.manufacturer);
    TextIsRead(dat, ProductAt(c), c.product);
    TextIsRead(dat, SerialAt(c), c.serial);
    TextIsWhole(c.manufacturer);
    TextIsWhole(c.product);
    TextIsWhole(c.serial);
  }

  /** Such a configuration: a manufacturer of 33 characters and no other string. */
  lemma TypeByteLost(c: Config, was: seq<Byte>)
    requires |was| == EEPROM_SIZE && IsText(c.manufacturer)
    requires |c.manufacturer| == 33 && c.product == [] && c.serial == []
    ensures Fits(c) && Parsable(Image(c, was)) && Parse(Image(c, was)) == Parsed(c, true, false)
  {
    hide Image, Parsable, Parse;
    RoundTrip(c, was);
  }

  /** Two images that agree on the first 128 bytes parse alike, when the strings end there. */
  lemma SameConfig(c: Config, was: seq<Byte>, other: seq<Byte>)
    requires Fits(c) && |was| == EEPROM_SIZE && |other| == EEPROM_SIZE
    ensures Image(c, was)[..128] + other[128..] == Image(c, was[..128] + other[128..])
  {
    hide Header, Descriptor;
    assert EndOf(c) <= 128;
  }

  // ----- the format, byte by byte

  /** The header: signature, identifiers with the low byte first, whether there is a serial number, the
      remote wake-up and infrared bits beside 0x14, and 2. */
  lemma HeaderBytes(c: Config)
    ensures var h := Header(c);
      && h[0] == 40 && h[1] == 50
      && h[2] as int + 256 * h[3] as int == c.vendorId && h[4] as int + 256 * h[5] as int == c.productId
      && (if c.haveSerial then h[6] == 165 else h[6] == 0)
      && h[7] / 4 == 5 && (h[7] % 2 == 1 <==> c.remoteWakeup) && (h[7] / 2 % 2 == 1 <==> c.enableIr)
      && h[8] == 2
  {}

  /** A USB string descriptor: its length, type 3, and UTF-16 units with the low byte first. */
  lemma DescriptorBytes(str: seq<Byte>)
    requires |str| <= 126
    ensures var d := Descriptor(str);
      && |d| == d[0] == 2 + 2 * |str| && d[1] == 3
      && forall k | 0 <= k < |str| :: d[2 + 2 * k] == str[k] && d[3 + 2 * k] == 0
  {
    forall k | 0 <= k < |str| ensures Descriptor(str)[2 + 2 * k] == str[k] && Descriptor(str)[3 + 2 * k] == 0 {
      assert (2 * k + 1) % 2 == 1 && Wide(str)[2 * k] == str[k] && Wide(str)[2 * k + 1] == 0;
    }
  }

  /** The three descriptors follow the header without gaps; byte 78 is 0 and the rest is left alone. */
  lemma ImageBytes(c: Config, was: seq<Byte>)
    requires Fits(c) && |was| == EEPROM_SIZE
    ensures var dat := Image(c, was);
      var p2 := 9 + 2 + 2 * |c.manufacturer|;
      var p3 := p2 + 2 + 2 * |c.product|;
      var end := p3 + 2 + 2 * |c.serial|;
      && dat[78] == 0 && dat[..9] == Header(c)
      && (forall k | 9 <= k < p2 && k != 78 :: dat[k] == Descriptor(c.manufacturer)[k - 9])
      && (forall k | p2 <= k < p3 && k != 78 :: dat[k] == Descriptor(c.product)[k - p2])
      && (forall k | p3 <= k < end && k != 78 :: dat[k] == Descriptor(c.serial)[k - p3])
      && (forall k | end <= k < 256 && k != 78 :: dat[k] == was[k])
  {
    hide Header, Descriptor;
  }

  /** In characters: 34 for the manufacturer alone, 33 with a product, 32 with a serial number. */
  lemma FitsIff(c: Config)
    ensures var m, p, s := |c.manufacturer|, |c.product|, |c.serial|;
      Fits(c) <==> m <= 34 && (p > 0 ==> m + p <= 33) && (s > 0 ==> m + p + s <= 32)
  {}
}
