/** Values shared by the stream client and its callers: optional values and
    results, message fields, the message record carried by the output
    channel, and the errors the client reports. */
module Common {

  datatype Option<+T> = None | Some(value: T)

  datatype Result<+T, +E> = Ok(value: T) | Err(error: E)

  /** A value of a message field (`map[string]interface{}` in the source):
      text, as the transport hands it back, or a number, as Publish injects it. */
  datatype Field = Str(text: string) | Num(n: int)

  /** The errors of the stream client, one constructor per way the source
      wraps or reports an error. */
  datatype Failure =
    | ReadFailure(cause: string)                  // "could not read messages: ..."
    | AckFailure(cause: string)                   // "could not acknowledge message: ..."
    | PublishFailure(cause: string)               // "could not publish message: ..."
    | DeleteFailure(cause: string)                // "could not delete message: ..."
    | TransportFailure(cause: string)             // a transport error passed on unwrapped
    | TrimFailure(topic: string, inner: Failure)  // "failed to trim topic <topic>: ..."
    | GroupListFailure(cause: string)             // fatal: "Could not fetch consumer groups"
    | GroupCreateFailure(cause: string)           // fatal: "Could not create consumer group"

  /** What the consume loop sends on its channel: an entry (ID and Values,
      no Error) or a terminal error (Error only). */
  datatype Message = Message(id: string, values: map<string, Field>, error: Option<Failure>)

  function DataMessage(id: string, values: map<string, Field>): Message
  {
    Message(id, values, None)
  }

  function ErrorMessage(f: Failure): Message
  {
    Message("", map[], Some(f))
  }

  /** The two shapes a channel message can take. */
  predicate WellShaped(m: Message)
  {
    m.error.None? || (m.id == "" && m.values == map[])
  }

  /** The field Publish writes into every message and the trim walk reads. */
  const TimestampKey: string := "timestamp"

  /** One XADD issued to the transport: the stream and the field map appended. */
  datatype AppendCall = AppendCall(stream: string, values: map<string, Field>)

  const MinInt64: int := -0x8000_0000_0000_0000
  const MaxInt64: int := 0x7fff_ffff_ffff_ffff

  predicate IsInt64(n: int)
  {
    MinInt64 <= n <= MaxInt64
  }

  /** Nanoseconds in a millisecond: `int64(time.Millisecond)`. */
  const NanosPerMilli: int := 1_000_000

  /** `ns / int64(time.Millisecond)` in Go, whose integer division truncates
      toward zero (Dafny's `/` is Euclidean and differs for negative `ns`). */
  function MillisOf(ns: int): (ms: int)
    ensures ns >= 0 ==> ms * NanosPerMilli <= ns < ms * NanosPerMilli + NanosPerMilli
    ensures ns < 0 ==> ms * NanosPerMilli - NanosPerMilli < ns <= ms * NanosPerMilli
    ensures IsInt64(ns) ==> IsInt64(ms)
  {
    if ns >= 0 then ns / NanosPerMilli else -((-ns) / NanosPerMilli)
  }

  /** Truncating to milliseconds never reverses the order of two instants. */
  lemma MillisMonotone(a: int, b: int)
    requires a <= b
    ensures MillisOf(a) <= MillisOf(b)
  {
  }

  /** A Go `map[string]interface{}` passed by reference: what a callee writes
      into it, its caller sees. */
  class FieldMap {
    var entries: map<string, Field>

    constructor (entries: map<string, Field>)
      ensures this.entries == entries
    {
      this.entries := entries;
    }
  }
}
