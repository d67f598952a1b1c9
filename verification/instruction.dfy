/** Instruction opcodes shared by both protocol versions (src/protocol.rs). */
module Instructions {
  import opened Bytes

  datatype Instruction =
    | Ping | Read | Write | RegWrite | Action | FactoryReset | Reboot | Clear
    | ControlTableBackup | StatusReturn | SyncRead | SyncWrite | FastSyncRead
    | BulkRead | BulkWrite | FastBulkRead | WrongInstruction

  /** The `#[repr(u8)]` discriminant, i.e. `instruction as u8`. */
  function Code(i: Instruction): byte
  {
    match i
    case Ping => 0x01
    case Read => 0x02
    case Write => 0x03
    case RegWrite => 0x04
    case Action => 0x05
    case FactoryReset => 0x06
    case Reboot => 0x08
    case Clear => 0x10
    case ControlTableBackup => 0x20
    case StatusReturn => 0x55
    case SyncRead => 0x82
    case SyncWrite => 0x83
    case FastSyncRead => 0x8A
    case BulkRead => 0x92
    case BulkWrite => 0x93
    case FastBulkRead => 0x9A
    case WrongInstruction => 0xFF
  }

  /** The sixteen opcodes `From<u8>` recognises (0xFF, the code of WrongInstruction, is not one). */
  predicate Listed(b: byte)
  {
    b in {0x01, 0x02, 0x03, 0x04, 0x05, 0x06, 0x08, 0x10, 0x20, 0x55, 0x82, 0x83, 0x8A, 0x92, 0x93, 0x9A}
  }

  /** `impl From<u8> for Instruction`: a listed opcode decodes to its variant,
      every other byte to WrongInstruction. */
  function FromByte(b: byte): (i: Instruction)
    ensures Listed(b) ==> Code(i) == b
    ensures !Listed(b) <==> i == WrongInstruction
  {
    match b
    case 0x01 => Ping
    case 0x02 => Read
    case 0x03 => Write
    case 0x04 => RegWrite
    case 0x05 => Action
    case 0x06 => FactoryReset
    case 0x08 => Reboot
    case 0x10 => Clear
    case 0x20 => ControlTableBackup
    case 0x55 => StatusReturn
    case 0x82 => SyncRead
    case 0x83 => SyncWrite
    case 0x8A => FastSyncRead
    case 0x92 => BulkRead
    case 0x93 => BulkWrite
    case 0x9A => FastBulkRead
    case _ => WrongInstruction
  }

  /** Every variant survives `Instruction::from(v as u8)`. */
  lemma FromCode(i: Instruction)
    ensures FromByte(Code(i)) == i
  {
  }

  /** Distinct variants have distinct opcodes. */
  lemma CodeInjective(i: Instruction, j: Instruction)
    ensures Code(i) == Code(j) ==> i == j
  {
    FromCode(i);
    FromCode(j);
  }

  /** A byte is the opcode of what it decodes to exactly when it is listed or 0xFF. */
  lemma CodeFromByte(b: byte)
    ensures Code(FromByte(b)) == b <==> Listed(b) || b == 0xFF
  {
  }

  lemma UnlistedExample()
    ensures FromByte(0x07) == WrongInstruction && FromByte(0x00) == WrongInstruction
  {
  }
}
