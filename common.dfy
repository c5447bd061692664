/** Shared vocabulary: optional values, results carrying the fault that the Java code
    would raise as an exception, Java's fixed-width integer ranges and the (block, offset)
    pointer that locates a stored key or value. */
module Common {

  datatype Option<T> = None | Some(value: T)

  /** The exceptions the modelled code can raise. */
  datatype Fault =
    | IoFault          // java.io.IOException from the store or the pool
    | NullReference    // NullPointerException (a null key compared)
    | InCoreRead       // RuntimeException: read into a block that is still in-core
    | BufferFull       // RuntimeException: no slot could be cleared in the node block buffer

  datatype Result<T> = Ok(value: T) | Err(fault: Fault)

  datatype Outcome = Pass | Fail(fault: Fault)

  /** An unsigned byte as it appears in a block. */
  type byte = b: int | 0 <= b < 256

  /** Java `short`, `int` and `long`. */
  type i16 = x: int | -0x8000 <= x < 0x8000
  type i32 = x: int | -0x8000_0000 <= x < 0x8000_0000
  type i64 = x: int | -0x8000_0000_0000_0000 <= x < 0x8000_0000_0000_0000

  /** A (block, offset) pointer to a serialized key or value. */
  datatype Optr = Optr(block: i64, offset: i16)

  /** The distinguished pointer meaning "nothing stored here". */
  const EmptyPointer: Optr := Optr(-1, 0)

  /** The child id meaning "no child page". */
  const NoPage: i64 := -1
}
