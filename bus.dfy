/** The frames the driver puts on the two-wire bus. Every write is one
    transaction to the panel's 7-bit address: the address byte, a control
    byte saying whether a command or display data follows, then the payload. */
module Bus {

  datatype Option<T> = None | Some(value: T)

  /** Panel address on the bus (7 bits). */
  const DeviceAddress: bv8 := 0x3C
  /** Read/write flag for a write transaction. */
  const WriteFlag: bv8 := 0
  /** First byte of every transaction: the 7-bit address followed by the
      write flag (see AddressByteValue). */
  const AddressByte: bv8 := (DeviceAddress << 1) | WriteFlag
  /** Control byte announcing one command byte. */
  const CommandMode: bv8 := 0x00
  /** Control byte announcing display data. */
  const DataMode: bv8 := 0x40

  /** A decoded bus frame. */
  datatype Frame = Command(opcode: bv8) | Data(payload: seq<bv8>)

  /** The bytes of a command transaction. */
  function CommandFrame(opcode: bv8): seq<bv8> {
    [AddressByte, CommandMode, opcode]
  }

  /** The bytes of a data transaction. */
  function DataFrame(payload: seq<bv8>): seq<bv8> {
    [AddressByte, DataMode] + payload
  }

  function Encode(f: Frame): seq<bv8> {
    match f
    case Command(opcode) => CommandFrame(opcode)
    case Data(payload) => DataFrame(payload)
  }

  /** Reads a transaction back: None for bytes no write of this driver produces. */
  function Parse(bytes: seq<bv8>): Option<Frame> {
    if |bytes| == 3 && bytes[0] == AddressByte && bytes[1] == CommandMode then
      Some(Command(bytes[2]))
    else if |bytes| >= 2 && bytes[0] == AddressByte && bytes[1] == DataMode then
      Some(Data(bytes[2..]))
    else
      None
  }

  /** The address byte is the device address shifted left by one with the
      write flag in bit 0: 0x3C in the upper seven bits, 0 in bit 0. */
  lemma AddressByteValue()
    ensures AddressByte == 0x78
    ensures AddressByte >> 1 == DeviceAddress && AddressByte & 1 == WriteFlag
  {
  }

  /** Parse and Encode are inverse: a frame parses exactly when it is an encoding. */
  lemma ParseEncode(bytes: seq<bv8>, f: Frame)
    ensures Parse(bytes) == Some(f) <==> bytes == Encode(f)
  {
    if bytes == Encode(f) {
      match f
      case Command(_) =>
      case Data(payload) => assert bytes[2..] == payload;
    }
  }
}
