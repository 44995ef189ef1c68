// The ITCH 5.0 payload check: total length by message type.
module Itch {
  import opened Bytes

  datatype ItchError = Empty | UnknownType(t: nat) | LengthMismatch(expected: nat, got: nat)

  datatype Verdict = Valid | Invalid(error: ItchError)

  /** Total wire length of a message type; 0 for an unknown type. */
  function Length(t: Byte): (n: nat)
    ensures n <= 50
  {
    match t as char
    case 'S' => 12
    case 'R' => 39
    case 'H' => 25
    case 'Y' => 20
    case 'L' => 26
    case 'V' => 35
    case 'W' => 12
    case 'K' => 28
    case 'J' => 35
    case 'h' => 21
    case 'A' => 36
    case 'F' => 40
    case 'E' => 31
    case 'C' => 36
    case 'X' => 23
    case 'D' => 19
    case 'U' => 35
    case 'P' => 44
    case 'Q' => 40
    case 'B' => 19
    case 'I' => 50
    case 'N' => 20
    case _ => 0
  }

  function Validate(msg: Bytes): (v: Verdict)
    ensures v == Valid <==> msg != [] && |msg| == Length(msg[0])
    ensures v == Valid ==> 0 < |msg| <= 50
  {
    if msg == [] then Invalid(Empty)
    else
      var expected := Length(msg[0]);
      if expected == 0 then Invalid(UnknownType(msg[0]))
      else if |msg| != expected then Invalid(LengthMismatch(expected, |msg|))
      else Valid
  }

  /** The published table: type octets and lengths. */
  const PUBLISHED: map<nat, nat> := map[
    0x53 := 12, 0x52 := 39, 0x48 := 25, 0x59 := 20, 0x4C := 26, 0x56 := 35, 0x57 := 12, 0x4B := 28,
    0x4A := 35, 0x68 := 21, 0x41 := 36, 0x46 := 40, 0x45 := 31, 0x43 := 36, 0x58 := 23, 0x44 := 19,
    0x55 := 35, 0x50 := 44, 0x51 := 40, 0x42 := 19, 0x49 := 50, 0x4E := 20]

  /** A payload is valid if and only if its first octet is a published type of its length; it then has 12
      to 50 octets, so that it fits a 64-byte slot. */
  lemma ValidIsPublished(msg: Bytes)
    ensures Validate(msg) == Valid <==> msg != [] && msg[0] in PUBLISHED && PUBLISHED[msg[0]] == |msg|
    ensures Validate(msg) == Valid ==> 12 <= |msg| <= 50
    ensures Validate(msg) == if msg == [] then Invalid(Empty)
      else if msg[0] !in PUBLISHED then Invalid(UnknownType(msg[0]))
      else if PUBLISHED[msg[0]] != |msg| then Invalid(LengthMismatch(PUBLISHED[msg[0]], |msg|))
      else Valid
  {
    if msg != [] { LengthPublished(msg[0]); }
    hide Length;
  }

  lemma LengthPublished(t: Byte)
    ensures Length(t) == if t in PUBLISHED then PUBLISHED[t] else 0
    ensures t in PUBLISHED ==> 12 <= PUBLISHED[t] <= 50
  {
  }
}
