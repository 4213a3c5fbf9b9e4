/** The firmware's older vocabulary (`enum class CommandCode : uint8_t`),
    kept in step with the older host's `CommandCode`. */
module FirmwareCommandCode {
  import opened Base
  import LegacyCommands

  datatype CommandCode =
    | VOID
    | END_OF_LINE
    | DEBUG
    | ACK
    | HANDSHAKE
    | CONNECTED
    | PATCH
    | BOOLEAN_ACTION
    | SERVO
    | BLINK
    | ON_OFF
    | BOOLEAN_INPUT
  {
    function Value(): byte {
      match this
      case VOID => 0
      case END_OF_LINE => 10
      case DEBUG => 35
      case ACK => 11
      case HANDSHAKE => 12
      case CONNECTED => 13
      case PATCH => 14
      case BOOLEAN_ACTION => 41
      case SERVO => 42
      case BLINK => 43
      case ON_OFF => 44
      case BOOLEAN_INPUT => 141
    }

    /** The older host's member of the same name. */
    function HostCounterpart(): LegacyCommands.CommandCode {
      match this
      case VOID => LegacyCommands.VOID
      case END_OF_LINE => LegacyCommands.END_OF_LINE
      case DEBUG => LegacyCommands.DEBUG
      case ACK => LegacyCommands.ACK
      case HANDSHAKE => LegacyCommands.HANDSHAKE
      case CONNECTED => LegacyCommands.CONNECTED
      case PATCH => LegacyCommands.PATCH
      case BOOLEAN_ACTION => LegacyCommands.BOOLEAN_ACTION
      case SERVO => LegacyCommands.SERVO
      case BLINK => LegacyCommands.BLINK
      case ON_OFF => LegacyCommands.ON_OFF
      case BOOLEAN_INPUT => LegacyCommands.BOOLEAN_INPUT
    }
  }

  /** The firmware member named like an older host member; the host's
      MUTATION has none. */
  function FromHost(h: LegacyCommands.CommandCode): (r: Option<CommandCode>)
    ensures r.Some? ==> r.value.HostCounterpart() == h
    ensures r.None? <==> h == LegacyCommands.MUTATION
  {
    match h
    case VOID => Some(VOID)
    case END_OF_LINE => Some(END_OF_LINE)
    case DEBUG => Some(DEBUG)
    case ACK => Some(ACK)
    case HANDSHAKE => Some(HANDSHAKE)
    case CONNECTED => Some(CONNECTED)
    case PATCH => Some(PATCH)
    case MUTATION => None
    case BOOLEAN_ACTION => Some(BOOLEAN_ACTION)
    case SERVO => Some(SERVO)
    case BLINK => Some(BLINK)
    case ON_OFF => Some(ON_OFF)
    case BOOLEAN_INPUT => Some(BOOLEAN_INPUT)
  }

  /** Values are distinct; 0, 10 and 35 are VOID, END_OF_LINE and DEBUG only. */
  lemma ValuesDistinct(c: CommandCode, d: CommandCode)
    ensures c.Value() == d.Value() <==> c == d
    ensures c.Value() == 0 <==> c == VOID
    ensures c.Value() == 10 <==> c == END_OF_LINE
    ensures c.Value() == 35 <==> c == DEBUG
  {
  }

  /** Every shared name has the same byte on the firmware and the older host. */
  lemma AgreesWithHost(c: CommandCode, h: LegacyCommands.CommandCode)
    ensures c.HostCounterpart().Value() == c.Value()
    ensures FromHost(h).Some? ==> FromHost(h).value.Value() == h.Value()
    ensures FromHost(c.HostCounterpart()) == Some(c)
  {
  }
}
