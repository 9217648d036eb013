/**
 * Shared vocabulary of the model: bytes, the 64-bit integers of C#'s `long`,
 * and the exceptions that the modelled .NET calls can throw, carried as values.
 */
module Common {

  /** A byte, as in C#'s `byte[]`. */
  type uint8 = x: int | 0 <= x < 0x100

  /** C#'s `long`. */
  type int64 = x: int | -0x8000_0000_0000_0000 <= x < 0x8000_0000_0000_0000

  const Int64Min: int := -0x8000_0000_0000_0000
  const TwoTo64: int := 0x1_0000_0000_0000_0000

  /** The value of `a - b` for two `long`s in C#'s default unchecked context:
      the mathematical difference, wrapped into the range of `long`. */
  function Wrap64(x: int): (r: int64)
    ensures (r - x) % TwoTo64 == 0
  {
    var m := (x - Int64Min) % TwoTo64;
    m + Int64Min
  }

  /** The exceptions the modelled code can raise. */
  datatype Exception =
    | FormatException                // Convert.FromBase64String on text that is not base64
    | ArgumentException(message: string)
    | IOException                    // File.AppendAllLines failed
    | OverflowException              // Math.Abs(long.MinValue)
    | FileNotFoundException          // File.ReadAllText of a missing file
    | JsonException(message: string) // JsonConvert.DeserializeObject on malformed text

  /** The outcome of a call that either returns a value or throws. */
  datatype Try<+T> = Returned(value: T) | Threw(ex: Exception)

  datatype Option<+T> = None | Some(value: T)
}
