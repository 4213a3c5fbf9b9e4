/** The firmware's byte vocabulary (`enum class MessageCode : uint8_t`). A C++
    enum class over uint8_t may carry any byte, so the firmware's tables are
    keyed by bytes; this datatype lists the named enumerators. */
module FirmwareDictionary {
  import opened Base
  import Dictionary

  datatype MessageCode =
    | END_OF_LINE
    | VOID
    | DEBUG
    | ACK
    | HANDSHAKE
    | PATCH
    | MUTATION
    | DIGITAL_WRITE
    | SERVO
    | BOOLEAN_INPUT
  {
    function Value(): byte {
      match this
      case END_OF_LINE => 10
      case VOID => 0
      case DEBUG => 35
      case ACK => 11
      case HANDSHAKE => 12
      case PATCH => 20
      case MUTATION => 21
      case DIGITAL_WRITE => 41
      case SERVO => 42
      case BOOLEAN_INPUT => 141
    }

    /** The host member of the same name; DIGITAL_WRITE is the firmware's name
        for the host's BOOLEAN_OUTPUT. */
    function HostCounterpart(): Dictionary.MessageCode {
      match this
      case END_OF_LINE => Dictionary.END_OF_LINE
      case VOID => Dictionary.VOID
      case DEBUG => Dictionary.DEBUG
      case ACK => Dictionary.ACK
      case HANDSHAKE => Dictionary.HANDSHAKE
      case PATCH => Dictionary.PATCH
      case MUTATION => Dictionary.MUTATION
      case DIGITAL_WRITE => Dictionary.BOOLEAN_OUTPUT
      case SERVO => Dictionary.SERVO
      case BOOLEAN_INPUT => Dictionary.BOOLEAN_INPUT
    }
  }

  /** The firmware member named like a host member; the host's CONNECTED has
      no firmware counterpart. */
  function FromHost(h: Dictionary.MessageCode): (r: Option<MessageCode>)
    ensures r.Some? ==> r.value.HostCounterpart() == h
    ensures r.None? <==> h == Dictionary.CONNECTED
  {
    match h
    case END_OF_LINE => Some(END_OF_LINE)
    case VOID => Some(VOID)
    case DEBUG => Some(DEBUG)
    case ACK => Some(ACK)
    case HANDSHAKE => Some(HANDSHAKE)
    case CONNECTED => None
    case PATCH => Some(PATCH)
    case MUTATION => Some(MUTATION)
    case BOOLEAN_OUTPUT => Some(DIGITAL_WRITE)
    case SERVO => Some(SERVO)
    case BOOLEAN_INPUT => Some(BOOLEAN_INPUT)
  }

  /** Enumerator values are pairwise distinct. */
  lemma ValuesDistinct(c: MessageCode, d: MessageCode)
    ensures c.Value() == d.Value() <==> c == d
  {
  }

  /** VOID, END_OF_LINE and DEBUG hold the reserved noise bytes 0, 10 and 35. */
  lemma ReservedBytes(c: MessageCode)
    ensures c.Value() == 0 <==> c == VOID
    ensures c.Value() == 10 <==> c == END_OF_LINE
    ensures c.Value() == 35 <==> c == DEBUG
  {
  }

  /** Host and firmware agree: every shared name has the same byte on both
      sides, in both directions. */
  lemma AgreesWithHost(c: MessageCode, h: Dictionary.MessageCode)
    ensures c.HostCounterpart().Value() == c.Value()
    ensures FromHost(h).Some? ==> FromHost(h).value.Value() == h.Value()
    ensures FromHost(c.HostCounterpart()) == Some(c)
  {
  }
}
