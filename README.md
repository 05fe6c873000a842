# LIFX bulb command line: the deterministic core

The `lifx` command line finds and controls LIFX bulbs. Nearly all of `main.go`
registers flags, calls a bulb-control library over UDP, and prints the result.
This project models the parts of `main.go` that are plain logic:

- **MAC parsing** (`parseMac`). The `--bulb` address loses its colons and is
  hex-decoded. Two zero bytes are appended, and the first eight bytes are read
  as a little-endian 64-bit integer by `readUint64`. Go's `hex.DecodeString`
  is modelled inline (module `Hex`), including the order in which it reports
  errors: the first non-hex character of a pair, then an odd length. This is
  the order of current Go releases of `encoding/hex`. Older releases reported
  an odd length before scanning any character, which changes only the error
  message.
- **`readUint64`**. A loop adds `buff[i] << 8*i` for i from 0 to 7 using Go's
  wrapping uint64 arithmetic. The method is proved equal to the little-endian
  value of the first eight bytes, so no wrap-around ever occurs.
- **HSBK validation**. A colour flag of `-1` means "not given". A given hue,
  saturation or brightness must be in [0, 65535]. A given kelvin must be in
  [2500, 9000]. The first failing check, in source order, is the error.
- **Colour merge**. When all four flags are given, the colour is built from
  them alone. Otherwise each given flag overwrites its field of the bulb's
  current colour.
- **Dispatch on the `--bulb` path**. `--on` is checked before `--off`. A zero
  `--duration` selects the plain power setter, and any other value selects
  the fading one. Without a power flag, the colour flags are validated, and a
  colour is sent only if at least one flag is given.

Modules: `Wrappers` (Option, Result), `Words` (Go's fixed-width integers and
the `uint16(...)`, `uint32(...)`, `<<` and `+` on them), `Hex`, `Mac`,
`Hsbk`, `Cli`. The bulb's current colour, which `main.go` fetches over the
network, is a parameter. The request that `main.go` would send is returned as
a value (`Cli.Plan`).

## Model

| member | source | states |
|---|---|---|
| `Words.ToUint16` | main.go:129-134 | Go's `uint16(x)` keeps x when x is in [0, 65535] and is congruent to x modulo 2^16 otherwise |
| `Words.ToUint32` | main.go:94 | Go's `uint32(duration)` keeps the duration when it fits in 32 bits and is congruent to it modulo 2^32 otherwise |
| `Hex.DecodeHex` | main.go:288 | `hex.DecodeString`: on success there is one byte per two characters; an invalid-byte error names a character of the input that is not a hex digit |
| `Hex.DecodeHexSucceeds` | main.go:288-291 | decoding succeeds exactly when the text has an even number of characters, all of them hex digits |
| `Hex.DecodeHexLengthError` | main.go:288-291 | the odd-length error is returned exactly when the text is all hex digits and its length is odd; any non-hex character is reported instead |
| `Hex.DecodeHexAt` | main.go:288 | decoded byte k is 16 times the digit at position 2k plus the digit at position 2k+1 |
| `Hex.DecodeEncode` | main.go:288 | round trip: decoding the lower-case hex text of any byte string gives that byte string back |
| `Hex.DecodeHexIgnoresCase` | main.go:288 | decoding is case-insensitive: lower-casing the input keeps the bytes and the kind of error |
| `Mac.RemoveColons` | main.go:287 | `strings.Replace(mac, ":", "", -1)` leaves no colon, never lengthens the text, and keeps every other character as often as it occurs in the input |
| `Mac.RemoveColonsAppend` | main.go:287 | colon removal works piece by piece: on a concatenation it is the concatenation of the pieces' results, so the remaining characters keep their order |
| `Mac.NoColonsUnchanged` | main.go:287 | text without colons is left unchanged |
| `Mac.ColonAnywhere` | main.go:287 | inserting a colon anywhere in the address changes neither the as-written nor the corrected parse |
| `Mac.ColonsIrrelevant` | main.go:287 | two addresses that agree once their colons are removed parse to the same result |
| `Mac.LittleEndian` | main.go:298-302 | the little-endian value of n bytes is below 256^n |
| `Mac.LittleEndianByteAt` | main.go:292-302 | byte i (least significant first) of the little-endian value of s is s[i], or 0 past the end of s |
| `Mac.LittleEndianZeroPad` | main.go:292 | appending zero bytes does not change the little-endian value |
| `Mac.ShiftByBytes` | main.go:301 | `uint64(b) << 8*i` for a byte b and i < 8 loses no bits: it equals b * 256^i |
| `Mac.AccumulateStep` | main.go:300-302 | one loop iteration adds the next byte at its place value. The uint64 `+=` does not wrap, because the true sum stays below 2^64 |
| `Mac.Octets` | main.go:287-288 | the address's octets: colons removed, then hex-decoded. Decoding succeeds exactly when the colon-free text is an even-length run of hex digits, and then gives one octet per two digits |
| `Mac.MacValueAsWritten` | main.go:286-296 | `parseMac` as written: a hex error exactly when decoding fails; an index panic exactly when fewer than six octets decode, at index and length (octets + 2) < 8; never a too-short error. Further properties are in `ColonAnywhere`, `ColonsIrrelevant`, `CorrectionIsMinimal` and `ShortMacPanics` |
| `Mac.ReadUint64` | main.go:298-305 | given at least 8 bytes, the result is the little-endian value of the first eight, and the error is always nil |
| `Mac.MacValue` | main.go:286-296 | corrected parse: it fails exactly when hex decoding fails or fewer than six octets are decoded, and it never panics |
| `Mac.ParseMac` | main.go:286-296 | `parseMac` as written, step by step: the error is nil exactly when the as-written parse succeeds; the value is then the parsed integer, and it is 0 whenever an error is returned |
| `Mac.ParseMacChecked` | main.go:286-296 | the corrected `parseMac`, step by step: the same (value, error) contract against the corrected parse |
| `Mac.MacHexFailure` | main.go:288-291 | the parse fails with a hex error exactly when the colon-free text is not an even-length run of hex digits |
| `Mac.SixOctets` | main.go:292-295 | for a six-octet address the value is below 2^48; bytes 0-5 of it are the octets in order, and bytes 6 and 7 are 0 |
| `Mac.MacBytes` | main.go:292-295 | byte i of any successfully parsed value is byte i of the octets followed by two zero bytes |
| `Mac.CorrectionIsMinimal` | main.go:292-294 | the corrected parse differs from the as-written one only on the inputs where the as-written one panics |
| `Mac.ShortMacPanics` | main.go:292-294 | "56:84" decodes to two octets. As written, `readUint64` then reads index 4 of a 4-byte buffer (a panic). The corrected parse reports two octets as too short |
| `Mac.HelpExample` | main.go:65 | the `--bulb` help-text address "56:84:7a:fe:97:99" and its colon-free form "56847afe9799" both parse to 0x9997fe7a8456; the as-written parse gives the same value for the colon form |
| `Hsbk.Validate` | main.go:108-122 | no error exactly when every given component is in range. Otherwise the error is the first failing component in the order hue, saturation, brightness, kelvin |
| `Hsbk.Boundaries` | main.go:108-122 | kelvin 2500 and 9000 are accepted, 2499 and 9001 rejected; hue 65535 is accepted, 65536 rejected; a saturation of -2 is rejected |
| `Hsbk.MergeColor` | main.go:128-157 | the step-by-step field overwrite produces exactly the outgoing colour `Outgoing` |
| `Hsbk.OutgoingFields` | main.go:128-157 | after validation, every given flag reaches its field unchanged (the uint16 conversion truncates nothing), and every flag not given keeps the current value |
| `Hsbk.FullRequestIgnoresCurrent` | main.go:128-134 | with all four flags given and valid, the colour is exactly the request, whatever the current colour is |
| `Hsbk.ShortcutAgreesWithMerge` | main.go:128-157 | the all-flags shortcut gives the same colour as the general overwrite |
| `Hsbk.MergeIdempotent` | main.go:143-157 | merging the same request twice equals merging it once |
| `Hsbk.EmptyRequestIsIdentity` | main.go:143-157 | a request with no flag given leaves the colour unchanged |
| `Hsbk.KelvinOnlyExample` | main.go:143-157 | `--kelvin 4000` on a bulb at (100, 200, 300, 3500) sends (100, 200, 300, 4000) |
| `Cli.PowerChoice` | main.go:90-106 | no power action exactly when neither `--on` nor `--off` is given. Otherwise the bulb is switched on exactly when `--on` is given. The plain setter is chosen exactly when the duration is 0; the fading setter carries `uint32(duration)` |
| `Cli.RunBulb` | main.go:81-175 | the command fails on the address exactly when the corrected MAC parse fails; on success the request is addressed to the parsed value |
| `Cli.PowerFirst` | main.go:90-106 | a power flag always produces a power request (on if `--on` is given), and the colour flags are then not checked |
| `Cli.ColorSentIff` | main.go:108-160 | a colour is sent exactly when no power flag is given, some colour flag is given, and every given flag is in range. It carries the merged colour and `uint32(duration)` |
| `Cli.RejectedBeforeSending` | main.go:108-124 | without a power flag, an out-of-range colour flag yields that validation error and no request |
| `Cli.NothingToDo` | main.go:124-175 | without power or colour flags, nothing is sent |
| `Cli.FullColorNeedsNoRead` | main.go:128-136 | with all four colour flags given, the outcome does not depend on the bulb's current colour |

## Left out

- Flag registration and `flag.Parse` (main.go:19-79). The flag values are the fields of `Cli.Flags`.
- Every call into the bulb-control library: `SetHardwareAddress`, `SetPowerState`, `SetPowerDurationState`, `GetColorState`, `SetColorStateWithResponse`, `LookupBulbs` and the per-bulb getters. These are UDP network I/O in code that is not part of this model. The model returns the request that would be sent (`Cli.Action`) and takes the current colour as a parameter.
- The failure of `GetColorState` (main.go:136-141). It is network I/O. The Go code also dereferences the returned state before checking the error.
- The `--lookup` path (main.go:178-277) and all JSON and text output. They are network I/O and printing.
- The `--silent` switch and the fatal exit (main.go:44, 280-284). Errors are `Result` values instead. `isSilent` is read before `flag.Parse` runs, so the fatal exit is always taken. The "continue after a swallowed error" path, where `uint16(...)` would truncate an out-of-range value, is not modelled.
- `Cli.RunBulb`: the as-written program panics on an address of fewer than six octets; `RunBulb` uses the corrected parser (see Findings).
- Go strings are byte strings. The address is modelled as a sequence of characters. For non-ASCII input the invalid-byte error names the character, where Go names its first UTF-8 byte. Success, failure and the decoded value are unaffected.
- `Cli.Flags.duration` is an unbounded integer. Go's `int` is 64 bits wide and `flag` rejects larger values before the model is reached.
- `Hsbk.MergeColor`: the Go code overwrites the fields of the library's `*HSBK` colour struct in place. The model rebuilds a `Color` value field by field, so aliasing with the library's bulb state is not captured.

## Findings

| source | as written | input that shows it | evidently intended | confidence | as-written member | corrected member |
|---|---|---|---|---|---|---|
| main.go:292-294 | `parseMac` appends two zero bytes and `readUint64` reads eight, so an address of fewer than six octets indexes past the end of the slice and panics | `--bulb 56:84` (buffer of 4 bytes, index 4) | a short address is rejected with an error, like malformed hex | high; not executed | `Mac.ShortMacPanics` | `Mac.MacValue` |
