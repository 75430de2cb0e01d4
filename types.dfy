/**
 * Types shared by every part of the duplicate finder: bytes, paths,
 * the opaque block hash, file contents and the I/O error of readFile.
 */
module Types {

  /** One byte of file content (a `char` of the C++ `std::string` buffer). */
  newtype byte = b: int | 0 <= b < 256

  /** A filesystem path. The model compares paths as plain strings, whereas
      std::filesystem::path compares them element by element, so two spellings
      of one path (such as `x//y` and `x/y`) are different paths here. */
  type Path = string

  /** The block hash. calculateCRC32 wraps boost::crc_32_type; the model only
      relies on it being a deterministic function of the bytes, so every result
      here holds for CRC-32 and for any other such function. */
  type Hasher = seq<byte> -> bv32

  /** allFiles: each recorded path with its fingerprint. */
  type Table = map<Path, seq<bv32>>

  /** What opening a file yields: either it cannot be opened, or its bytes. */
  datatype FileData = Unopenable | Bytes(data: seq<byte>)

  /** The runtime_error thrown by readFile ("Cannot open file: " + path). */
  datatype IoError = CannotOpen(path: Path)

  /** A computation that either succeeds or stops with the exception it threw. */
  datatype Result<T> = Ok(value: T) | Err(error: IoError)

  datatype Option<T> = None | Some(value: T)

  function Min(a: int, b: int): int
  {
    if a <= b then a else b
  }
}
