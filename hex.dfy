/**
 * Hexadecimal decoding as Go's `hex.DecodeString` performs it, which
 * `parseMac` calls on the MAC address once its colons are removed. Digits are
 * read in pairs, high nibble first, upper or lower case. The input is
 * scanned pair by pair and the first non-hex character found is reported; a
 * single trailing digit is itself checked before the odd length is reported.
 * This is the order of current Go releases; older releases reported the odd
 * length before scanning any character.
 */
module Hex {
  import opened Wrappers
  import opened Words

  datatype HexError =
    | InvalidByte(c: char)   // the first character that is not a hex digit
    | ErrLength              // an odd number of hex digits

  predicate IsHexDigit(c: char)
  {
    ('0' <= c <= '9') || ('a' <= c <= 'f') || ('A' <= c <= 'F')
  }

  function DigitValue(c: char): (v: nat)
    requires IsHexDigit(c)
    ensures v < 16
  {
    if '0' <= c <= '9' then c as int - '0' as int
    else if 'a' <= c <= 'f' then c as int - 'a' as int + 10
    else c as int - 'A' as int + 10
  }

  /** The lower-case digit for a nibble, as Go's `hex.EncodeToString` writes it. */
  function NibbleDigit(v: nat): (c: char)
    requires v < 16
    ensures IsHexDigit(c) && DigitValue(c) == v
  {
    if v < 10 then ('0' as int + v) as char else ('a' as int + v - 10) as char
  }

  /** `hex.DecodeString`: either the decoded bytes, one per pair of digits, or the error. */
  function DecodeHex(s: string): (r: Result<seq<Byte>, HexError>)
    ensures r.Ok? ==> 2 * |r.value| == |s|
    ensures r.Err? && r.error.InvalidByte? ==> r.error.c in s && !IsHexDigit(r.error.c)
    decreases |s|
  {
    if |s| == 0 then Ok([])
    else if |s| == 1 then
      if IsHexDigit(s[0]) then Err(ErrLength) else Err(InvalidByte(s[0]))
    else if !IsHexDigit(s[0]) then Err(InvalidByte(s[0]))
    else if !IsHexDigit(s[1]) then Err(InvalidByte(s[1]))
    else
      match DecodeHex(s[2..])
      case Ok(rest) => Ok([16 * DigitValue(s[0]) + DigitValue(s[1])] + rest)
      case Err(e) => Err(e)
  }

  /** Lower-case hex text of a byte string, two digits per byte: the inverse of DecodeHex. */
  function EncodeHex(b: seq<Byte>): (s: string)
    ensures |s| == 2 * |b|
  {
    if b == [] then []
    else [NibbleDigit(b[0] / 16), NibbleDigit(b[0] % 16)] + EncodeHex(b[1..])
  }

  predicate AllHexDigits(s: string)
  {
    forall i | 0 <= i < |s| :: IsHexDigit(s[i])
  }

  /** Decoding succeeds exactly on an even number of hex digits. */
  lemma {:induction false} DecodeHexSucceeds(s: string)
    ensures DecodeHex(s).Ok? <==> |s| % 2 == 0 && AllHexDigits(s)
    decreases |s|
  {
    if |s| >= 2 {
      DecodeHexSucceeds(s[2..]);
      if AllHexDigits(s) {
        assert AllHexDigits(s[2..]) by {
          forall i | 0 <= i < |s[2..]| ensures IsHexDigit(s[2..][i]) {
            assert s[2..][i] == s[i + 2];
          }
        }
      } else if IsHexDigit(s[0]) && IsHexDigit(s[1]) {
        var j :| 0 <= j < |s| && !IsHexDigit(s[j]);
        assert s[2..][j - 2] == s[j];
      }
    }
  }

  /** The odd-length error is reported only when every character is a hex digit. */
  lemma {:induction false} DecodeHexLengthError(s: string)
    ensures DecodeHex(s) == Err(ErrLength) <==> |s| % 2 == 1 && AllHexDigits(s)
    decreases |s|
  {
    if |s| >= 2 {
      DecodeHexLengthError(s[2..]);
      if AllHexDigits(s) {
        assert AllHexDigits(s[2..]) by {
          forall i | 0 <= i < |s[2..]| ensures IsHexDigit(s[2..][i]) {
            assert s[2..][i] == s[i + 2];
          }
        }
      } else if IsHexDigit(s[0]) && IsHexDigit(s[1]) {
        var j :| 0 <= j < |s| && !IsHexDigit(s[j]);
        assert s[2..][j - 2] == s[j];
      }
    }
  }

  /** Byte k of the decoding is the pair of digits at positions 2k and 2k+1. */
  lemma {:induction false} DecodeHexAt(s: string, k: nat)
    requires DecodeHex(s).Ok? && k < |DecodeHex(s).value|
    ensures IsHexDigit(s[2 * k]) && IsHexDigit(s[2 * k + 1])
    ensures DecodeHex(s).value[k] == 16 * DigitValue(s[2 * k]) + DigitValue(s[2 * k + 1])
    decreases |s|
  {
    if k > 0 {
      DecodeHexAt(s[2..], k - 1);
      assert s[2..][2 * (k - 1)] == s[2 * k];
      assert s[2..][2 * (k - 1) + 1] == s[2 * k + 1];
    }
  }

  /** Round trip: decoding the hex text of any byte string gives it back. */
  lemma {:induction false} DecodeEncode(b: seq<Byte>)
    ensures DecodeHex(EncodeHex(b)) == Ok(b)
  {
    if b != [] {
      DecodeEncode(b[1..]);
      var s := EncodeHex(b);
      assert s[2..] == EncodeHex(b[1..]);
      assert 16 * (b[0] / 16) + b[0] % 16 == b[0];
      assert [b[0]] + b[1..] == b;
    }
  }

  function Lower(c: char): char
  {
    if 'A' <= c <= 'Z' then (c as int - 'A' as int + 'a' as int) as char else c
  }

  function LowerString(s: string): (t: string)
    ensures |t| == |s|
  {
    if s == [] then [] else [Lower(s[0])] + LowerString(s[1..])
  }

  /**
   * Decoding is case-insensitive: folding the input to lower case changes
   * neither the bytes nor the kind of error, only the case of the reported
   * character.
   */
  lemma {:induction false} DecodeHexIgnoresCase(s: string)
    ensures DecodeHex(LowerString(s)) ==
      match DecodeHex(s)
      case Ok(b) => Ok(b)
      case Err(InvalidByte(c)) => Err(InvalidByte(Lower(c)))
      case Err(ErrLength) => Err(ErrLength)
    decreases |s|
  {
    var t := LowerString(s);
    if |s| >= 2 {
      assert t[0] == Lower(s[0]);
      assert t[1] == Lower(s[1]) by {
        assert LowerString(s[1..])[0] == Lower(s[1..][0]);
      }
      assert t[2..] == LowerString(s[2..]) by {
        assert t[1..] == LowerString(s[1..]);
        assert s[1..][1..] == s[2..];
      }
      DecodeHexIgnoresCase(s[2..]);
    }
  }

  /** One step of decoding: a leading pair of digits in front of decodable text. */
  lemma DecodePair(s: string, rest: seq<Byte>, b: Byte, r: seq<Byte>)
    requires |s| >= 2 && IsHexDigit(s[0]) && IsHexDigit(s[1])
    requires b == 16 * DigitValue(s[0]) + DigitValue(s[1])
    requires DecodeHex(s[2..]) == Ok(rest) && r == [b] + rest
    ensures DecodeHex(s) == Ok(r)
  {
  }

  /** The hex digits of the address in the command-line help. */
  lemma DecodeExample()
    ensures DecodeHex("56847afe9799") == Ok([0x56, 0x84, 0x7a, 0xfe, 0x97, 0x99])
  {
    DecodePair("99", [], 0x99, [0x99]);
    DecodePair("9799", [0x99], 0x97, [0x97, 0x99]);
    DecodePair("fe9799", [0x97, 0x99], 0xfe, [0xfe, 0x97, 0x99]);
    DecodePair("7afe9799", [0xfe, 0x97, 0x99], 0x7a, [0x7a, 0xfe, 0x97, 0x99]);
    DecodePair("847afe9799", [0x7a, 0xfe, 0x97, 0x99], 0x84, [0x84, 0x7a, 0xfe, 0x97, 0x99]);
    DecodePair("56847afe9799", [0x84, 0x7a, 0xfe, 0x97, 0x99], 0x56, [0x56, 0x84, 0x7a, 0xfe, 0x97, 0x99]);
  }
}
