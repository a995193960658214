/**
 * Types shared by the mail-acceptance model: the .NET value types the source
 * works with, and the accepted-mail record that a session hands to the
 * dispatcher (`IncomingMailDTO`).
 */
module Common {

  datatype Option<+T> = None | Some(value: T)

  /** The elements of an optional value, as a sequence of length 0 or 1. */
  function OptionToSeq<T>(o: Option<T>): (r: seq<T>)
    ensures |r| <= 1
    ensures o.None? ==> r == []
    ensures o.Some? ==> r == [o.value]
  {
    match o
    case None => []
    case Some(v) => [v]
  }

  /** .NET `byte`. */
  newtype byte = b: int | 0 <= b < 256

  /** A `System.Guid`, compared for equality only; `EmptyGuid` is `Guid.Empty`. */
  type Guid = nat
  const EmptyGuid: Guid := 0

  /** A `DateTime`, as a count of ticks. */
  type Instant = int

  const TicksPerMinute: int := 600_000_000

  const Int32Min: int := -0x8000_0000
  const Int32Max: int := 0x7FFF_FFFF

  /**
   * The value C# unchecked `int` arithmetic produces for the mathematical
   * result `x`: the two's-complement 32-bit integer congruent to `x`.
   */
  function Wrap32(x: int): (r: int)
    ensures Int32Min <= r <= Int32Max
    ensures Int32Min <= x <= Int32Max ==> r == x
  {
    (x - Int32Min) % 0x1_0000_0000 + Int32Min
  }

  /**
   * The accepted-mail record (`IncomingMailDTO`, without its database id):
   * receipt time, recipient, sender, content size and the content identifier
   * that names the stored body.
   */
  datatype IncomingMail = IncomingMail(
    receivedOn: Instant,
    recipient: string,
    sender: string,
    contentSize: int,
    contentId: Guid)
}
