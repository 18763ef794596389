/** Vocabulary shared by every component: Go's byte strings, optional values, and the
    sentinel errors of internal/errors/errors.go. */
module Base {

  newtype byte = x: int | 0 <= x < 256

  /** A Go string and a Go []byte: both are finite byte sequences. */
  type Bytes = seq<byte>

  datatype Option<+T> = None | Some(value: T) {
    predicate IsFailure() {
      None?
    }

    function PropagateFailure<U>(): Option<U>
      requires None?
    {
      None
    }

    function Extract(): T
      requires Some?
    {
      value
    }
  }

  datatype Result<+T> = Ok(value: T) | Err(error: Error) {
    predicate IsFailure() {
      Err?
    }

    function PropagateFailure<U>(): Result<U>
      requires Err?
    {
      Err(error)
    }

    function Extract(): T
      requires Ok?
    {
      value
    }
  }

  /** A sentinel, wrapped with the reference it was raised for (empty when unwrapped). */
  datatype Error = Error(kind: Sentinel, ref: Bytes)

  /** Panicked is no error of the source: the call ends in a run-time panic instead of returning. */
  datatype Sentinel =
    | NotFound
    | AlreadyExists
    | InvalidID
    | InvalidKey
    | InvalidArg
    | Forbidden
    | Conflict
    | SignFailed
    | SignRequired
    | UnknownAlgo
    | UnknownKey
    | QuotaKeys
    | QuotaBytes
    | NoStable
    | BadRevision
    | PayloadEmpty
    | GrayInvalid
    | Snapshot
    | Checksum
    | Closed
    | Panicked

  function Sentinel0(kind: Sentinel): Error {
    Error(kind, [])
  }

  /** The bytes of a literal (every literal here is ASCII). */
  function Lit(s: string): Bytes {
    seq(|s|, i requires 0 <= i < |s| => (s[i] as int % 256) as byte)
  }

  function SentinelText(kind: Sentinel): Bytes {
    Lit("confhub: ") +
    match kind
    case NotFound => Lit("not found")
    case AlreadyExists => Lit("already exists")
    case InvalidID => Lit("invalid id")
    case InvalidKey => Lit("invalid key")
    case InvalidArg => Lit("invalid argument")
    case Forbidden => Lit("forbidden")
    case Conflict => Lit("conflict")
    case SignFailed => Lit("signature verification failed")
    case SignRequired => Lit("signature required")
    case UnknownAlgo => Lit("unknown signature algorithm")
    case UnknownKey => Lit("unknown signing key")
    case QuotaKeys => Lit("namespace key quota exceeded")
    case QuotaBytes => Lit("namespace byte quota exceeded")
    case NoStable => Lit("no stable version for gray miss")
    case BadRevision => Lit("revision out of range")
    case PayloadEmpty => Lit("payload must not be empty")
    case GrayInvalid => Lit("invalid gray rule")
    case Snapshot => Lit("snapshot codec error")
    case Checksum => Lit("snapshot checksum mismatch")
    case Closed => Lit("hub is closed")
    case Panicked => []
  }

  /** Error() of a wrapped sentinel. */
  function ErrorText(e: Error): Bytes {
    if e.ref == [] then SentinelText(e.kind) else SentinelText(e.kind) + Lit(": ") + e.ref
  }
}
