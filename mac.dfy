/**
 * `parseMac` and `readUint64` from main.go: a MAC address in colon-hex form
 * becomes the 64-bit integer whose bytes, least significant first, are the
 * address's octets followed by zero padding.
 */
module Mac {
  import opened Wrappers
  import opened Words
  import opened Hex

  datatype MacError =
    | BadHex(e: HexError)                     // hex.DecodeString failed
    | IndexPanic(index: nat, length: nat)     // readUint64 indexed past the end of its buffer
    | TooShort(octets: nat)                   // fewer than six octets (corrected parser only)

  /** `strings.Replace(mac, ":", "", -1)`: every colon removed, all else kept in order. */
  function RemoveColons(s: string): (t: string)
    ensures ':' !in t
    ensures |t| <= |s|
    ensures forall c | c != ':' :: multiset(t)[c] == multiset(s)[c]
  {
    if s == [] then []
    else
      assert s == [s[0]] + s[1..];
      if s[0] == ':' then RemoveColons(s[1..])
      else [s[0]] + RemoveColons(s[1..])
  }

  /** The value of a byte string read least significant byte first. */
  function LittleEndian(s: seq<Byte>): (v: nat)
    ensures v < Pow256(|s|)
  {
    if s == [] then 0
    else
      var rest := LittleEndian(s[1..]);
      assert 0x100 * rest <= 0x100 * (Pow256(|s| - 1) - 1);
      s[0] + 0x100 * rest
  }

  /** Byte i of v, counting from the least significant byte. */
  function ByteAt(v: nat, i: nat): (b: Byte)
  {
    if i == 0 then v % 0x100 else ByteAt(v / 0x100, i - 1)
  }

  lemma {:induction false} LittleEndianAppend(s: seq<Byte>, b: Byte)
    ensures LittleEndian(s + [b]) == LittleEndian(s) + b * Pow256(|s|)
  {
    if s != [] {
      assert (s + [b])[1..] == s[1..] + [b];
      LittleEndianAppend(s[1..], b);
      assert 0x100 * (b * Pow256(|s| - 1)) == b * Pow256(|s|);
    }
  }

  /** Reading the bytes back out of LittleEndian(s) gives s, then zeros. */
  lemma {:induction false} LittleEndianByteAt(s: seq<Byte>, i: nat)
    ensures ByteAt(LittleEndian(s), i) == if i < |s| then s[i] else 0
  {
    if s != [] && i > 0 {
      LittleEndianByteAt(s[1..], i - 1);
    } else if s == [] && i > 0 {
      LittleEndianByteAt(s, i - 1);
    }
  }

  /** Trailing zero bytes do not change the value. */
  lemma {:induction false} LittleEndianZeroPad(s: seq<Byte>, n: nat)
    ensures LittleEndian(s + seq(n, _ => 0)) == LittleEndian(s)
  {
    if s == [] {
      if n > 0 {
        var zeros: seq<Byte> := seq(n, _ => 0);
        assert [] + zeros == zeros && zeros[0] == 0;
        assert zeros[1..] == [] + seq(n - 1, _ => 0);
        LittleEndianZeroPad([], n - 1);
      }
    } else {
      assert (s + seq(n, _ => 0))[1..] == s[1..] + seq(n, _ => 0);
      LittleEndianZeroPad(s[1..], n);
    }
  }

  /**
   * One iteration of readUint64's loop: neither the shift nor the addition
   * wraps around, so adding byte i shifted by 8*i extends the little-endian
   * value by that byte.
   */
  lemma AccumulateStep(prefix: seq<Byte>, b: Byte)
    requires |prefix| < 8
    ensures LittleEndian(prefix) < TWO_64
    ensures Add64(LittleEndian(prefix), ShiftLeft64(b, 8 * |prefix|)) == LittleEndian(prefix + [b])
  {
    var i := |prefix|;
    var low := LittleEndian(prefix);
    var next := LittleEndian(prefix + [b]);
    var shifted := ShiftLeft64(b, 8 * i);
    LittleEndianAppend(prefix, b);
    ShiftByBytes(b, i);
    assert next == low + shifted;
    Pow256Monotone(i, 8);
    Pow256Monotone(i + 1, 8);
    Pow256Eight();
    assert low < TWO_64 && next < TWO_64;
    AddNoWrap(low, shifted);
  }

  /** Shifting a byte left by whole bytes, short of the top, loses no bits. */
  lemma ShiftByBytes(b: Byte, i: nat)
    requires i < 8
    ensures ShiftLeft64(b, 8 * i) == b * Pow256(i)
  {
    var p := Pow256(i);
    Pow2Bytes(i);
    Pow256Monotone(i + 1, 8);
    Pow256Eight();
    assert Pow256(i + 1) == 0x100 * p;
    MulMonotone(b, 0xff, p);
    ModSmall(b * p, TWO_64);
  }

  /**
   * `readUint64`: accumulates buff[i] << 8*i for i in 0..7, with Go's wrapping
   * uint64 shift and addition. No wrap-around ever happens, so the result is
   * the little-endian value of the first eight bytes; the error is always nil.
   * The buffer must hold at least eight bytes, otherwise Go panics.
   */
  method ReadUint64(buff: seq<Byte>) returns (dest: Word64, err: Option<MacError>)
    requires |buff| >= 8
    ensures dest == LittleEndian(buff[..8])
    ensures err == None
  {
    dest := 0;
    var i := 0;
    while i < 8
      invariant 0 <= i <= 8
      invariant dest == LittleEndian(buff[..i])
    {
      assert buff[..i + 1] == buff[..i] + [buff[i]];
      AccumulateStep(buff[..i], buff[i]);
      dest := Add64(dest, ShiftLeft64(buff[i], 8 * i));
      i := i + 1;
    }
    err := None;
  }

  /** The octets written in a MAC string: its colons removed, the rest hex-decoded. */
  function Octets(mac: string): (r: Result<seq<Byte>, HexError>)
    ensures r.Ok? ==> 2 * |r.value| == |RemoveColons(mac)|
    ensures r.Ok? <==> |RemoveColons(mac)| % 2 == 0 && AllHexDigits(RemoveColons(mac))
  {
    DecodeHexSucceeds(RemoveColons(mac));
    DecodeHex(RemoveColons(mac))
  }

  /**
   * What `parseMac` does as written: a hex failure is returned as an error;
   * otherwise two zero bytes are appended and readUint64 reads eight bytes,
   * which panics with an index out of range when fewer than six octets were
   * decoded. Octets past the eighth are ignored.
   */
  function MacValueAsWritten(mac: string): (r: Result<Word64, MacError>)
    ensures r.Err? && r.error.BadHex? <==> Octets(mac).Err?
    ensures r.Err? && r.error.IndexPanic? <==> Octets(mac).Ok? && |Octets(mac).value| < 6
    ensures r.Err? && r.error.IndexPanic? ==>
      r.error.index == r.error.length == |Octets(mac).value| + 2 < 8
    ensures r.Err? ==> !r.error.TooShort?
  {
    match Octets(mac)
    case Err(e) => Err(BadHex(e))
    case Ok(octets) =>
      var buff := octets + [0, 0];
      if |buff| < 8 then Err(IndexPanic(|buff|, |buff|))
      else Pow256Eight(); Ok(LittleEndian(buff[..8]))
  }

  /**
   * The corrected parser: identical to MacValueAsWritten except that a MAC of
   * fewer than six octets is rejected with an error instead of panicking.
   */
  function MacValue(mac: string): (r: Result<Word64, MacError>)
    ensures r.Err? <==> Octets(mac).Err? || |Octets(mac).value| < 6
    ensures r.Err? ==> !r.error.IndexPanic?
  {
    match Octets(mac)
    case Err(e) => Err(BadHex(e))
    case Ok(octets) =>
      if |octets| < 6 then Err(TooShort(|octets|))
      else Pow256Eight(); Ok(LittleEndian((octets + [0, 0])[..8]))
  }

  /**
   * `parseMac` as written, step by step: a Go (value, error) pair where the
   * value is 0 whenever the error is set.
   */
  method ParseMac(mac: string) returns (digit: Word64, err: Option<MacError>)
    ensures err == None <==> MacValueAsWritten(mac).Ok?
    ensures err == None ==> digit == MacValueAsWritten(mac).value
    ensures err != None ==> digit == 0 && err == Some(MacValueAsWritten(mac).error)
  {
    var stripped := RemoveColons(mac);
    var decoded := DecodeHex(stripped);
    if decoded.Err? {
      return 0, Some(BadHex(decoded.error));
    }
    var hex := decoded.value + [0, 0];
    if |hex| < 8 {
      // readUint64 would read hex[|hex|], which Go reports as an index panic
      return 0, Some(IndexPanic(|hex|, |hex|));
    }
    digit, err := ReadUint64(hex);
  }

  /** The corrected `parseMac`: short addresses are refused before readUint64 is called. */
  method ParseMacChecked(mac: string) returns (digit: Word64, err: Option<MacError>)
    ensures err == None <==> MacValue(mac).Ok?
    ensures err == None ==> digit == MacValue(mac).value
    ensures err != None ==> digit == 0 && err == Some(MacValue(mac).error)
  {
    var stripped := RemoveColons(mac);
    var decoded := DecodeHex(stripped);
    if decoded.Err? {
      return 0, Some(BadHex(decoded.error));
    }
    if |decoded.value| < 6 {
      return 0, Some(TooShort(|decoded.value|));
    }
    var hex := decoded.value + [0, 0];
    digit, err := ReadUint64(hex);
  }

  lemma {:induction false} RemoveColonsAppend(a: string, b: string)
    ensures RemoveColons(a + b) == RemoveColons(a) + RemoveColons(b)
  {
    if a != [] {
      assert (a + b)[0] == a[0] && (a + b)[1..] == a[1..] + b;
      RemoveColonsAppend(a[1..], b);
    } else {
      assert a + b == b;
    }
  }

  /** Text without colons is left as it is. */
  lemma {:induction false} NoColonsUnchanged(s: string)
    requires ':' !in s
    ensures RemoveColons(s) == s
  {
    if s != [] {
      assert s[0] != ':' && ':' !in s[1..];
      NoColonsUnchanged(s[1..]);
    }
  }

  /** A colon inserted anywhere in the address changes nothing. */
  lemma ColonAnywhere(mac: string, i: nat)
    requires i <= |mac|
    ensures MacValue(mac[..i] + ":" + mac[i..]) == MacValue(mac)
    ensures MacValueAsWritten(mac[..i] + ":" + mac[i..]) == MacValueAsWritten(mac)
  {
    var withColon := mac[..i] + ":" + mac[i..];
    assert RemoveColons(":") == [];
    RemoveColonsAppend(mac[..i] + ":", mac[i..]);
    RemoveColonsAppend(mac[..i], ":");
    RemoveColonsAppend(mac[..i], mac[i..]);
    assert mac[..i] + mac[i..] == mac;
    assert RemoveColons(withColon) == RemoveColons(mac);
    ColonsIrrelevant(withColon, mac);
  }

  /** Addresses that agree once their colons are removed parse alike. */
  lemma ColonsIrrelevant(a: string, b: string)
    requires RemoveColons(a) == RemoveColons(b)
    ensures MacValue(a) == MacValue(b)
    ensures MacValueAsWritten(a) == MacValueAsWritten(b)
  {
  }

  /** A hex failure is reported, and only then, as BadHex. */
  lemma MacHexFailure(mac: string)
    ensures MacValue(mac).Err? && MacValue(mac).error.BadHex? <==>
      !(|RemoveColons(mac)| % 2 == 0 && AllHexDigits(RemoveColons(mac)))
  {
    DecodeHexSucceeds(RemoveColons(mac));
  }

  /**
   * A six-octet address: the value is below 2^48 and byte i of it, least
   * significant first, is octet i of the address.
   */
  lemma SixOctets(mac: string)
    requires Octets(mac).Ok? && |Octets(mac).value| == 6
    ensures MacValue(mac).Ok?
    ensures MacValue(mac).value < Pow256(6)
    ensures forall i | 0 <= i < 8 ::
      ByteAt(MacValue(mac).value, i) == if i < 6 then Octets(mac).value[i] else 0
  {
    var o := Octets(mac).value;
    assert (o + [0, 0])[..8] == o + seq(2, _ => 0);
    LittleEndianZeroPad(o, 2);
    forall i | 0 <= i < 8
      ensures ByteAt(MacValue(mac).value, i) == if i < 6 then o[i] else 0
    {
      LittleEndianByteAt(o, i);
    }
  }

  /** The parsed value's bytes are the decoded octets padded by zeros, eight in all. */
  lemma MacBytes(mac: string, i: nat)
    requires MacValue(mac).Ok? && i < 8
    ensures ByteAt(MacValue(mac).value, i) == (Octets(mac).value + [0, 0])[i]
  {
    LittleEndianByteAt((Octets(mac).value + [0, 0])[..8], i);
  }

  /** The correction changes only the panicking inputs. */
  lemma CorrectionIsMinimal(mac: string)
    ensures MacValueAsWritten(mac).Err? && MacValueAsWritten(mac).error.IndexPanic?
      <==> MacValue(mac).Err? && MacValue(mac).error.TooShort?
    ensures !(MacValueAsWritten(mac).Err? && MacValueAsWritten(mac).error.IndexPanic?)
      ==> MacValueAsWritten(mac) == MacValue(mac)
  {
  }

  /** "56:84" decodes to two octets; as written, readUint64 then indexes byte 4 of a 4-byte buffer. */
  lemma ShortMacPanics()
    ensures MacValueAsWritten("56:84") == Err(IndexPanic(4, 4))
    ensures MacValue("56:84") == Err(TooShort(2))
  {
    assert RemoveColons("56:84") == "5684";
    DecodePair("84", [], 0x84, [0x84]);
    DecodePair("5684", [0x84], 0x56, [0x56, 0x84]);
  }

  /**
   * The address from the command-line help, "56:84:7a:fe:97:99", with and
   * without its colons: octet i is byte i of the value, least significant
   * first. The as-written parse agrees, as six octets do not panic.
   */
  lemma HelpExample()
    ensures MacValue("56847afe9799") == Ok(0x9997fe7a8456)
    ensures MacValue("56:84:7a:fe:97:99") == Ok(0x9997fe7a8456)
    ensures MacValueAsWritten("56:84:7a:fe:97:99") == Ok(0x9997fe7a8456)
  {
    HelpExampleNoColons();
    HelpExampleColons();
    CorrectionIsMinimal("56:84:7a:fe:97:99");
  }

  /** The help-text address with its colons parses as the colon-free one. */
  lemma HelpExampleColons()
    ensures MacValue("56:84:7a:fe:97:99") == MacValue("56847afe9799")
  {
    InsertColon1();
    InsertColon2();
    InsertColon3();
    InsertColon4();
    InsertColon5();
  }

  lemma InsertColon1()
    ensures MacValue("56847afe97:99") == MacValue("56847afe9799")
  {
    InsertColon("56847afe9799", 10, "56847afe97:99");
  }

  lemma InsertColon2()
    ensures MacValue("56847afe:97:99") == MacValue("56847afe97:99")
  {
    InsertColon("56847afe97:99", 8, "56847afe:97:99");
  }

  lemma InsertColon3()
    ensures MacValue("56847a:fe:97:99") == MacValue("56847afe:97:99")
  {
    InsertColon("56847afe:97:99", 6, "56847a:fe:97:99");
  }

  lemma InsertColon4()
    ensures MacValue("5684:7a:fe:97:99") == MacValue("56847a:fe:97:99")
  {
    InsertColon("56847a:fe:97:99", 4, "5684:7a:fe:97:99");
  }

  lemma InsertColon5()
    ensures MacValue("56:84:7a:fe:97:99") == MacValue("5684:7a:fe:97:99")
  {
    InsertColon("5684:7a:fe:97:99", 2, "56:84:7a:fe:97:99");
  }

  lemma InsertColon(s: string, k: nat, t: string)
    requires k <= |s| && t == s[..k] + ":" + s[k..]
    ensures MacValue(t) == MacValue(s)
  {
    ColonAnywhere(s, k);
  }

  lemma HelpExampleNoColons()
    ensures MacValue("56847afe9799") == Ok(0x9997fe7a8456)
  {
    NoColonsUnchanged("56847afe9799");
    DecodeExample();
    var octets: seq<Byte> := [0x56, 0x84, 0x7a, 0xfe, 0x97, 0x99];
    assert Octets("56847afe9799") == Ok(octets);
    assert (octets + [0, 0])[..8] == [0x56, 0x84, 0x7a, 0xfe, 0x97, 0x99, 0, 0];
    HelpExampleValue();
  }

  lemma HelpExampleValue()
    ensures LittleEndian([0x56, 0x84, 0x7a, 0xfe, 0x97, 0x99, 0, 0]) == 0x9997fe7a8456
  {
    var buff: seq<Byte> := [0x56, 0x84, 0x7a, 0xfe, 0x97, 0x99, 0, 0];
    assert LittleEndian(buff[7..]) == 0;
    assert LittleEndian(buff[6..]) == 0;
    assert LittleEndian(buff[5..]) == 0x99;
    assert LittleEndian(buff[4..]) == 0x9997;
    assert LittleEndian(buff[3..]) == 0x9997fe;
    assert LittleEndian(buff[2..]) == 0x9997fe7a;
    assert LittleEndian(buff[1..]) == 0x9997fe7a84;
  }
}
