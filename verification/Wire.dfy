/** The vocabulary of the wire format: bytes, Go's integer ranges and the ways in which
    reading can fail. */
module Wire {

  type Byte = x: int | 0 <= x < 256
  type Bytes = seq<Byte>

  const TWO_32: int := 0x1_0000_0000
  const TWO_63: int := 0x8000_0000_0000_0000
  const TWO_64: int := 0x1_0000_0000_0000_0000

  type Uint32 = x: nat | x < TWO_32
  type Uint64 = x: nat | x < TWO_64

  /** A Go string, as its bytes. Its length is an int. */
  type Text = s: Bytes | |s| < TWO_63

  /** No slice of bytes is longer than the 48-bit address space. */
  const MAX_ALLOC: int := 0x1_0000_0000_0000

  datatype Option<+T> = None | Some(value: T)

  datatype Error =
    | IntOverflow                                   // ErrIntOverflowClusterpb
    | UnexpectedEOF                                 // io.ErrUnexpectedEOF
    | InvalidLength                                 // ErrInvalidLengthClusterpb
    | EndGroup                                      // "wiretype end group for non-group"
    | IllegalTag(fieldNum: int)                     // "illegal tag"
    | WrongWireType(fieldNum: int, wireType: int)   // "wrong wireType"
    | IllegalWireType(wireType: int)                // "illegal wireType"
    | OutOfBounds                                   // a run-time index or slice failure
    | Unreachable                                   // the panic that ends skipClusterpb
    | PastEnd(missing: nat)                         // specification only, see Report

  /** int(x): the 64-bit two's complement reading of an unsigned or overflowing sum. */
  function Int64(x: int): (r: int)
    ensures -TWO_63 <= r < TWO_63
    ensures -TWO_63 <= x < TWO_63 ==> r == x
    ensures TWO_63 <= x < TWO_64 ==> r == x - TWO_64
  {
    var u := x % TWO_64;
    if u < TWO_63 then u else u - TWO_64
  }

  /** A uint64 and the unbounded sum it is the low half of read as the same int. */
  lemma {:induction false} Int64OfLow(raw: nat)
    ensures Int64(raw % TWO_64) == Int64(raw)
  {
    assert raw % TWO_64 == raw - (raw / TWO_64) * TWO_64;
  }

  /** int32(x) of an unsigned 64-bit value. */
  function Int32(x: nat): (r: int)
    ensures -0x8000_0000 <= r < 0x8000_0000
    ensures x < 0x8000_0000 ==> r == x
  {
    var u := x % TWO_32;
    if u < 0x8000_0000 then u else u - TWO_32
  }

  /** PastEnd says that a declared length ends `missing` bytes after the last of the l
      bytes of input. The decoder forms that end with an int addition: it answers
      ErrUnexpectedEOF if the sum is an int, and indexes out of bounds if it wraps. */
  function Report(e: Error, l: nat): Error {
    match e
    case PastEnd(missing) => if l + missing < TWO_63 then UnexpectedEOF else OutOfBounds
    case _ => e
  }
}
