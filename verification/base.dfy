/** Vocabulary shared by every module: bytes and text, machine integers, results and error codes. */
module Base {

  /** `std::string` is a sequence of bytes; nothing in the library decodes it except the XML backend. */
  type Byte = x: int | 0 <= x < 0x100
  type Text = seq<Byte>

  /** The bytes of a plain text. */
  function Ascii(s: string): Text
    requires forall i :: 0 <= i < |s| ==> s[i] < 128 as char
  {
    seq(|s|, i requires 0 <= i < |s| => s[i] as int)
  }

  const DOT: Byte := 0x2E

  const TWO_32: nat := 0x1_0000_0000
  const TWO_64: nat := 0x1_0000_0000_0000_0000

  type Int64 = x: int | -0x8000_0000_0000_0000 <= x < 0x8000_0000_0000_0000
  type UInt32 = x: int | 0 <= x < 0x1_0000_0000

  /** An IEEE double by its bit pattern. Only identity and finiteness matter to the library. */
  datatype Double = Double(bits: nat) {
    /** Finite exactly when the eleven exponent bits are not all ones. */
    predicate Finite() {
      bits / 0x10_0000_0000_0000 % 0x800 != 0x7FF
    }
  }

  /** Sign, exponent and fraction of an IEEE double: infinities and NaNs are those with the greatest exponent. */
  lemma FiniteIs(sign: nat, exponent: nat, fraction: nat)
    requires sign < 2 && exponent < 2048 && fraction < 0x10_0000_0000_0000
    ensures Double((sign * 2048 + exponent) * 0x10_0000_0000_0000 + fraction).Finite() <==> exponent < 2047
  {
    var bits := (sign * 2048 + exponent) * 0x10_0000_0000_0000 + fraction;
    assert bits / 0x10_0000_0000_0000 == sign * 2048 + exponent;
  }

  datatype Option<+T> = None | Some(value: T)

  datatype ErrorCode =
    | InvalidPath
    | NodeNotFound
    | InvalidType
    | ParseError
    | SerializationError
    | MigrationFailed
    | MissingMigration
    | InvalidVersion
    | StorageError

  datatype Result<+T> = Ok(value: T) | Err(error: ErrorCode)

  /** How a mutating call ends: it took effect, it was refused, or `std::bad_alloc` propagated out of it. */
  datatype Outcome<+T> = Done(value: T) | Refused(error: ErrorCode) | OutOfMemory
}
