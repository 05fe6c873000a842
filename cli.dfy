/**
 * What `main` does when --bulb is given: parse the address, then either
 * switch the power (--on before --off), or validate the colour flags and send
 * the merged colour, or do nothing. The network calls are not made here; the
 * result names the one request that would be sent, and the bulb's current
 * colour (which main.go reads from the bulb) is a parameter.
 */
module Cli {
  import opened Wrappers
  import opened Words
  import opened Mac
  import opened Hsbk

  /** The command-line flags that the --bulb path reads. */
  datatype Flags = Flags(
    mac: string,
    turnOn: bool,
    turnOff: bool,
    duration: int,
    color: ColorRequest)

  datatype PowerAction =
    | SetPower(on: bool)                               // SetPowerState
    | SetPowerDuration(on: bool, duration: Word32)     // SetPowerDurationState
    | NoPowerAction

  /** The one request main.go sends to the bulb. */
  datatype Action =
    | Power(power: PowerAction)
    | SetColorWithResponse(color: Color, duration: Word32)   // SetColorStateWithResponse
    | NoAction

  datatype Plan = Plan(address: Word64, action: Action)

  datatype CliError =
    | BadMac(macError: MacError)
    | Invalid(invalid: ValidationError)

  /**
   * The power switch: --on is looked at first; a zero duration selects the
   * plain setter, any other the fading one with the duration cut to 32 bits.
   */
  function PowerChoice(turnOn: bool, turnOff: bool, duration: int): (p: PowerAction)
    ensures p.NoPowerAction? <==> !turnOn && !turnOff
    ensures !p.NoPowerAction? ==> p.on == turnOn
    ensures p.SetPower? <==> (turnOn || turnOff) && duration == 0
    ensures p.SetPowerDuration? ==> p.duration == ToUint32(duration)
  {
    if turnOn then
      if duration == 0 then SetPower(true) else SetPowerDuration(true, ToUint32(duration))
    else if turnOff then
      if duration == 0 then SetPower(false) else SetPowerDuration(false, ToUint32(duration))
    else NoPowerAction
  }

  /** The --bulb path of main.go, with the corrected MAC parser. */
  function RunBulb(f: Flags, current: Color): (r: Result<Plan, CliError>)
    requires f.mac != ""
    ensures r.Err? && r.error.BadMac? <==> MacValue(f.mac).Err?
    ensures r.Ok? ==> r.value.address == MacValue(f.mac).value
  {
    match MacValue(f.mac)
    case Err(e) => Err(BadMac(e))
    case Ok(address) =>
      var power := PowerChoice(f.turnOn, f.turnOff, f.duration);
      if !power.NoPowerAction? then Ok(Plan(address, Power(power)))
      else
        match Validate(f.color)
        case Some(e) => Err(Invalid(e))
        case None =>
          if AnySet(f.color) then
            Ok(Plan(address, SetColorWithResponse(Outgoing(f.color, current), ToUint32(f.duration))))
          else Ok(Plan(address, NoAction))
  }

  /** --on wins over --off, and a power flag skips the colour checks altogether. */
  lemma PowerFirst(f: Flags, current: Color)
    requires f.mac != "" && MacValue(f.mac).Ok?
    requires f.turnOn || f.turnOff
    ensures RunBulb(f, current).Ok?
    ensures RunBulb(f, current).value.action ==
      Power(if f.duration == 0 then SetPower(f.turnOn) else SetPowerDuration(f.turnOn, ToUint32(f.duration)))
  {
  }

  /**
   * A colour is sent exactly when no power flag is given, at least one
   * colour flag is set and every set flag is in range; it carries the
   * merged colour and the duration.
   */
  lemma ColorSentIff(f: Flags, current: Color)
    requires f.mac != "" && MacValue(f.mac).Ok?
    ensures RunBulb(f, current).Ok? && RunBulb(f, current).value.action.SetColorWithResponse?
      <==> !f.turnOn && !f.turnOff && AnySet(f.color) && Acceptable(f.color)
    ensures RunBulb(f, current).Ok? && RunBulb(f, current).value.action.SetColorWithResponse? ==>
      RunBulb(f, current).value.action ==
        SetColorWithResponse(Outgoing(f.color, current), ToUint32(f.duration))
  {
  }

  /** An out-of-range colour flag stops the command before anything is sent. */
  lemma RejectedBeforeSending(f: Flags, current: Color)
    requires f.mac != "" && MacValue(f.mac).Ok?
    requires !f.turnOn && !f.turnOff && !Acceptable(f.color)
    ensures RunBulb(f, current) == Err(Invalid(Validate(f.color).value))
  {
  }

  /** With neither a power flag nor a colour flag, nothing is sent. */
  lemma NothingToDo(f: Flags, current: Color)
    requires f.mac != "" && MacValue(f.mac).Ok?
    requires !f.turnOn && !f.turnOff && !AnySet(f.color)
    ensures RunBulb(f, current) == Ok(Plan(MacValue(f.mac).value, NoAction))
  {
  }

  /**
   * When all four colour flags are given the current colour plays no part,
   * which is why main.go does not read it from the bulb then.
   */
  lemma FullColorNeedsNoRead(f: Flags, a: Color, b: Color)
    requires f.mac != "" && AllSet(f.color)
    ensures RunBulb(f, a) == RunBulb(f, b)
  {
  }
}
