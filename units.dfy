/**
 * Unit selection for byte rates: the largest of TB, GB, MB, KB (powers of
 * 1024) that the rate reaches, else plain bytes. Only the unit and the scaled
 * magnitude are modelled, not the decimal text.
 */
module Units {

  datatype ByteUnit = B | KB | MB | GB | TB

  /** Position of a unit in ascending order of size. */
  function Order(u: ByteUnit): nat {
    match u
    case B => 0
    case KB => 1
    case MB => 2
    case GB => 3
    case TB => 4
  }

  /** Bytes in one unit. */
  function Threshold(u: ByteUnit): real {
    match u
    case B => 1.0
    case KB => 1024.0
    case MB => 1024.0 * 1024.0
    case GB => 1024.0 * 1024.0 * 1024.0
    case TB => 1024.0 * 1024.0 * 1024.0 * 1024.0
  }

  /** A byte rate expressed in a unit. */
  datatype Scaled = Scaled(value: real, unit: ByteUnit)

  /**
   * The displayed form of a byte rate: the largest unit whose size the rate
   * reaches, and the rate in that unit. Below one KB (including zero and
   * negative rates) the rate stays in bytes, unscaled.
   */
  function FormatBytesPerSec(bps: real): (r: Scaled)
    ensures r.value * Threshold(r.unit) == bps
    ensures r.unit != B ==> Threshold(r.unit) <= bps
    ensures forall u :: Order(r.unit) < Order(u) ==> bps < Threshold(u)
    ensures r.unit == B <==> bps < 1024.0
    ensures r.unit == B ==> r.value == bps
    ensures r.unit != B && r.unit != TB ==> 1.0 <= r.value < 1024.0
    ensures r.unit == TB ==> 1.0 <= r.value
  {
    if bps >= Threshold(TB) then Scaled(bps / Threshold(TB), TB)
    else if bps >= Threshold(GB) then Scaled(bps / Threshold(GB), GB)
    else if bps >= Threshold(MB) then Scaled(bps / Threshold(MB), MB)
    else if bps >= Threshold(KB) then Scaled(bps / Threshold(KB), KB)
    else Scaled(bps, B)
  }

  /** A larger rate never gets a smaller unit. */
  lemma FormatMonotone(a: real, b: real)
    requires a <= b
    ensures Order(FormatBytesPerSec(a).unit) <= Order(FormatBytesPerSec(b).unit)
  {
  }

  /** The unit boundary: exactly 1024 bytes per second is one KB/s; just below stays in bytes. */
  lemma FormatBoundary()
    ensures FormatBytesPerSec(1024.0) == Scaled(1.0, KB)
    ensures FormatBytesPerSec(1023.999) == Scaled(1023.999, B)
    ensures FormatBytesPerSec(0.0) == Scaled(0.0, B)
  {
  }
}
