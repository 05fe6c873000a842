/**
 * The colour part of main.go: range checks on the --hue, --saturation,
 * --brightness and --kelvin flags, and the merge of a partial request into
 * the bulb's current colour. A flag value of -1 means the flag was not given.
 */
module Hsbk {
  import opened Wrappers
  import opened Words

  const MAX: int := 65535          // `_MAX`, the largest hue, saturation or brightness
  const KELVIN_MIN: int := 2500
  const KELVIN_MAX: int := 9000
  const UNSET: int := -1            // every colour flag's default

  /** The library's HSBK colour: four unsigned 16-bit fields. */
  datatype Color = Color(hue: Word16, saturation: Word16, brightness: Word16, kelvin: Word16)

  /** The four colour flags as parsed, each an `int` that may be UNSET. */
  datatype ColorRequest = ColorRequest(hue: int, saturation: int, brightness: int, kelvin: int)

  datatype ValidationError =
    | IncorrectHue
    | IncorrectSaturation
    | IncorrectBrightness
    | IncorrectKelvin

  predicate IsSet(x: int)
  {
    x != UNSET
  }

  predicate AnySet(req: ColorRequest)
  {
    IsSet(req.hue) || IsSet(req.saturation) || IsSet(req.brightness) || IsSet(req.kelvin)
  }

  predicate AllSet(req: ColorRequest)
  {
    IsSet(req.hue) && IsSet(req.saturation) && IsSet(req.brightness) && IsSet(req.kelvin)
  }

  /** An acceptable hue, saturation or brightness flag: unset, or a 16-bit value. */
  predicate LevelAcceptable(x: int)
  {
    x == UNSET || 0 <= x <= MAX
  }

  /** An acceptable kelvin flag: unset, or within the bulb's colour-temperature range. */
  predicate KelvinAcceptable(x: int)
  {
    x == UNSET || KELVIN_MIN <= x <= KELVIN_MAX
  }

  predicate Acceptable(req: ColorRequest)
  {
    LevelAcceptable(req.hue) && LevelAcceptable(req.saturation)
    && LevelAcceptable(req.brightness) && KelvinAcceptable(req.kelvin)
  }

  /**
   * The four checks in the order main.go makes them; the first failure is
   * fatal, so it is the one reported.
   */
  function Validate(req: ColorRequest): (r: Option<ValidationError>)
    ensures r == None <==> Acceptable(req)
    ensures r == Some(IncorrectHue) <==> !LevelAcceptable(req.hue)
    ensures r == Some(IncorrectSaturation) <==>
      LevelAcceptable(req.hue) && !LevelAcceptable(req.saturation)
    ensures r == Some(IncorrectBrightness) <==>
      LevelAcceptable(req.hue) && LevelAcceptable(req.saturation) && !LevelAcceptable(req.brightness)
    ensures r == Some(IncorrectKelvin) <==>
      LevelAcceptable(req.hue) && LevelAcceptable(req.saturation)
      && LevelAcceptable(req.brightness) && !KelvinAcceptable(req.kelvin)
  {
    if req.hue != -1 && (req.hue < 0 || req.hue > MAX) then Some(IncorrectHue)
    else if req.saturation != -1 && (req.saturation < 0 || req.saturation > MAX) then Some(IncorrectSaturation)
    else if req.brightness != -1 && (req.brightness < 0 || req.brightness > MAX) then Some(IncorrectBrightness)
    else if req.kelvin != -1 && (req.kelvin < 2500 || req.kelvin > 9000) then Some(IncorrectKelvin)
    else None
  }

  /** The inclusive bounds of each range. */
  lemma Boundaries()
    ensures Validate(ColorRequest(UNSET, UNSET, UNSET, 2500)) == None
    ensures Validate(ColorRequest(UNSET, UNSET, UNSET, 9000)) == None
    ensures Validate(ColorRequest(UNSET, UNSET, UNSET, 2499)) == Some(IncorrectKelvin)
    ensures Validate(ColorRequest(UNSET, UNSET, UNSET, 9001)) == Some(IncorrectKelvin)
    ensures Validate(ColorRequest(65535, 0, 0, UNSET)) == None
    ensures Validate(ColorRequest(65536, 0, 0, UNSET)) == Some(IncorrectHue)
    ensures Validate(ColorRequest(0, -2, 0, UNSET)) == Some(IncorrectSaturation)
  {
  }

  /** The colour built from the flags alone, with Go's `uint16(...)` conversions. */
  function FromRequest(req: ColorRequest): Color
  {
    Color(ToUint16(req.hue), ToUint16(req.saturation), ToUint16(req.brightness), ToUint16(req.kelvin))
  }

  /** The current colour with every set flag written over its field. */
  function Overlay(req: ColorRequest, current: Color): Color
  {
    Color(
      if IsSet(req.hue) then ToUint16(req.hue) else current.hue,
      if IsSet(req.saturation) then ToUint16(req.saturation) else current.saturation,
      if IsSet(req.brightness) then ToUint16(req.brightness) else current.brightness,
      if IsSet(req.kelvin) then ToUint16(req.kelvin) else current.kelvin)
  }

  /**
   * The colour main.go sends: built from the flags alone when all four are
   * given (the current colour is then never fetched), otherwise merged into
   * the current colour.
   */
  function Outgoing(req: ColorRequest, current: Color): Color
  {
    if AllSet(req) then FromRequest(req) else Overlay(req, current)
  }

  /**
   * The merge as main.go performs it: starts from the current colour and
   * overwrites one field per set flag, in place.
   */
  method MergeColor(req: ColorRequest, current: Color) returns (color: Color)
    ensures color == Outgoing(req, current)
  {
    if IsSet(req.hue) && IsSet(req.saturation) && IsSet(req.brightness) && IsSet(req.kelvin) {
      color := Color(ToUint16(req.hue), ToUint16(req.saturation), ToUint16(req.brightness), ToUint16(req.kelvin));
      return;
    }
    color := current;
    if req.hue != UNSET {
      color := color.(hue := ToUint16(req.hue));
    }
    if req.saturation != UNSET {
      color := color.(saturation := ToUint16(req.saturation));
    }
    if req.brightness != UNSET {
      color := color.(brightness := ToUint16(req.brightness));
    }
    if req.kelvin != UNSET {
      color := color.(kelvin := ToUint16(req.kelvin));
    }
  }

  /**
   * On a request that passed validation, every set flag arrives unchanged
   * (the 16-bit conversion truncates nothing), and when some flag is unset
   * every unset field keeps the current colour's value.
   */
  lemma OutgoingFields(req: ColorRequest, current: Color)
    requires Validate(req) == None
    ensures var c := Outgoing(req, current);
      (IsSet(req.hue) ==> c.hue == req.hue)
      && (IsSet(req.saturation) ==> c.saturation == req.saturation)
      && (IsSet(req.brightness) ==> c.brightness == req.brightness)
      && (IsSet(req.kelvin) ==> c.kelvin == req.kelvin)
    ensures var c := Outgoing(req, current);
      (!IsSet(req.hue) ==> c.hue == current.hue)
      && (!IsSet(req.saturation) ==> c.saturation == current.saturation)
      && (!IsSet(req.brightness) ==> c.brightness == current.brightness)
      && (!IsSet(req.kelvin) ==> c.kelvin == current.kelvin)
  {
  }

  /** A full request ignores the current colour: the result is the request itself. */
  lemma FullRequestIgnoresCurrent(req: ColorRequest, a: Color, b: Color)
    requires AllSet(req) && Validate(req) == None
    ensures Outgoing(req, a) == Outgoing(req, b)
    ensures Outgoing(req, a) == Color(req.hue, req.saturation, req.brightness, req.kelvin)
  {
  }

  /**
   * The shortcut for a full request agrees with the general merge, so
   * Outgoing is Overlay on every input.
   */
  lemma ShortcutAgreesWithMerge(req: ColorRequest, current: Color)
    ensures Outgoing(req, current) == Overlay(req, current)
  {
  }

  /** Merging the same request twice is merging it once. */
  lemma MergeIdempotent(req: ColorRequest, current: Color)
    ensures Outgoing(req, Outgoing(req, current)) == Outgoing(req, current)
  {
  }

  /** A request with no flag set leaves the colour as it is. */
  lemma EmptyRequestIsIdentity(req: ColorRequest, current: Color)
    requires !AnySet(req)
    ensures Outgoing(req, current) == current
  {
  }

  /** Only --kelvin 4000 on a bulb at (100, 200, 300, 3500). */
  lemma KelvinOnlyExample()
    ensures Outgoing(ColorRequest(UNSET, UNSET, UNSET, 4000), Color(100, 200, 300, 3500))
      == Color(100, 200, 300, 4000)
  {
  }
}
