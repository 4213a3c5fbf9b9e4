/** The host's byte vocabulary (`MessageCode`, an IntEnum of the current host). */
module Dictionary {
  import opened Base

  datatype MessageCode =
    | END_OF_LINE
    | VOID
    | DEBUG
    | ACK
    | HANDSHAKE
    | CONNECTED
    | PATCH
    | MUTATION
    | BOOLEAN_OUTPUT
    | SERVO
    | BOOLEAN_INPUT
  {
    /** The byte the member stands for. */
    function Value(): byte {
      match this
      case END_OF_LINE => 10
      case VOID => 0
      case DEBUG => 35
      case ACK => 11
      case HANDSHAKE => 12
      case CONNECTED => 13
      case PATCH => 20
      case MUTATION => 21
      case BOOLEAN_OUTPUT => 41
      case SERVO => 42
      case BOOLEAN_INPUT => 141
    }

    /** The three bytes kept for line noise of the firmware monitor. */
    predicate IsReserved() {
      this == VOID || this == END_OF_LINE || this == DEBUG
    }
  }

  /** Every member, in declaration order. */
  const Members: seq<MessageCode> :=
    [END_OF_LINE, VOID, DEBUG, ACK, HANDSHAKE, CONNECTED, PATCH, MUTATION, BOOLEAN_OUTPUT, SERVO, BOOLEAN_INPUT]

  /** `MessageCode(b)`: the member whose value is `b`; Python raises
      ValueError when there is none, modelled as None. */
  function FromByte(b: int): (r: Option<MessageCode>)
    ensures r.Some? ==> r.value.Value() == b
    ensures r.None? ==> forall c: MessageCode :: c.Value() != b
  {
    if b == 10 then Some(END_OF_LINE)
    else if b == 0 then Some(VOID)
    else if b == 35 then Some(DEBUG)
    else if b == 11 then Some(ACK)
    else if b == 12 then Some(HANDSHAKE)
    else if b == 13 then Some(CONNECTED)
    else if b == 20 then Some(PATCH)
    else if b == 21 then Some(MUTATION)
    else if b == 41 then Some(BOOLEAN_OUTPUT)
    else if b == 42 then Some(SERVO)
    else if b == 141 then Some(BOOLEAN_INPUT)
    else None
  }

  /** No two members share a byte, so decoding a member's byte gives it back. */
  lemma ValuesDistinct(c: MessageCode, d: MessageCode)
    ensures c.Value() == d.Value() <==> c == d
    ensures FromByte(c.Value()) == Some(c)
  {
  }

  /** Members is complete and without repetition. */
  lemma MembersComplete(c: MessageCode)
    ensures c in Members
    ensures |Members| == 11
    ensures forall i, j :: 0 <= i < j < |Members| ==> Members[i].Value() != Members[j].Value()
  {
  }

  /** The reserved bytes 0, 10 and 35 belong to VOID, END_OF_LINE and DEBUG and
      to no other member. */
  lemma ReservedBytes(c: MessageCode)
    ensures c.Value() == 0 <==> c == VOID
    ensures c.Value() == 10 <==> c == END_OF_LINE
    ensures c.Value() == 35 <==> c == DEBUG
    ensures c.IsReserved() <==> c.Value() in {0, 10, 35}
  {
  }

  /** The ASCII character '#' is the DEBUG byte. */
  lemma HashIsDebug()
    ensures FromByte('#' as int) == Some(DEBUG)
  {
  }

  /** A byte outside the vocabulary, such as 1, makes `MessageCode(b)` fail. */
  lemma UnknownByteRejected()
    ensures FromByte(1).None? && FromByte(255).None?
  {
  }
}
