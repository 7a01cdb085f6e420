/** Bytes, machine integers, optional values and the typed stream errors. */
module Prelude {

  type byte = b: int | 0 <= b < 256

  type bytes = seq<byte>

  const QUOTE: byte := 34

  /** The bytes of a literal. */
  function Ascii(s: string): (r: bytes)
    requires forall i | 0 <= i < |s| :: s[i] < 128 as char
    ensures |r| == |s| && forall i | 0 <= i < |s| :: r[i] == s[i] as int
  {
    seq(|s|, i requires 0 <= i < |s| => s[i] as int)
  }

  /** `usize` on a 64-bit target, and the longest slice Rust can form. */
  const USIZE_MAX: nat := 0xFFFF_FFFF_FFFF_FFFF
  const ISIZE_MAX: nat := 0x7FFF_FFFF_FFFF_FFFF

  type usize = n: int | 0 <= n <= USIZE_MAX

  function SaturatingAdd(a: nat, b: nat): usize {
    if a + b <= USIZE_MAX then a + b else USIZE_MAX
  }

  function SaturatingSub(a: nat, b: nat): nat {
    if b <= a then a - b else 0
  }

  function Min(a: nat, b: nat): nat {
    if a <= b then a else b
  }

  function Max(a: nat, b: nat): nat {
    if a <= b then b else a
  }

  datatype Option<+T> = None | Some(value: T)

  /** The value of a hex digit of either case. */
  function HexValue(d: byte): Option<nat> {
    if 48 <= d <= 57 then Some(d - 48)
    else if 97 <= d <= 102 then Some(d - 87)
    else if 65 <= d <= 70 then Some(d - 55)
    else None
  }

  /** The code table a counter is read with. */
  datatype CesrVersion = V1 | V2

  /** The encoding domain announced by the first byte of a frame. */
  datatype ColdCode = CesrBase64 | CesrBinary | Json | Cbor | MessagePack

  datatype SerializationKind = KindJson | KindCbor | KindMgpk | KindCesr

  datatype LimitKind =
    | BodyBytes
    | AttachmentBytes
    | AttachmentGroups
    | GroupElements
    | Signatures
    | NestedGroups
    | NestingDepth

  datatype SpanKind = GroupStart | GroupSpan | ElementSpan | CounterSoftSize

  datatype VersionError =
    | UnknownProtocol
    | InvalidVersionDigit
    | UnknownKind
    | InvalidSizeHex
    | MissingTerminator
    | UnsupportedMajor
    | BadBase64

  datatype ParseError =
    | NeedBytes(missing: nat)
    | Truncated(missing: nat)
    | LimitExceeded(kind: LimitKind, limit: nat, actual: nat)
    | UnsupportedColdStart(domain: ColdCode)
    | UnsupportedVersion(version: CesrVersion)
    | VersionKindMismatch(cold: ColdCode, declaredKind: SerializationKind)
    | UnknownColdStart(first: byte)
    | UnknownMatterCode
    | UnknownCounterCode(hard: bytes)
    | NotACounter(got: byte)
    | NestedCounterMismatch(hard: bytes)
    | GenusVersionNotAGroup
    | UnsupportedGenusVersion(major: nat)
    | CountExceedsCapacity(count: nat, capacity: nat)
    | MissingVersionString
    | InvalidEventSize(declared: nat, minimum: nat)
    | Overflow(span: SpanKind)
    | MalformedMatter
    | MalformedIndexer
    | InvalidBase64(found: byte)
    | Version(cause: VersionError)

  datatype Result<+T> = Ok(value: T) | Err(error: ParseError) {
    predicate IsFailure() {
      Err?
    }

    function PropagateFailure<U>(): Result<U>
      requires Err?
    {
      Err(error)
    }

    function Extract(): T
      requires Ok?
    {
      value
    }

    /** More bytes may still change this answer. */
    predicate Starved() {
      Err? && error.NeedBytes?
    }
  }

  /** Slices inside a prefix do not see the bytes appended to it. */
  lemma SliceOfPrefix(s: bytes, x: bytes, from: nat, to: nat)
    requires s <= x && from <= to <= |s|
    ensures x[from..to] == s[from..to] && s[from..] <= x[from..]
  {
    assert s == x[..|s|];
    assert x[from..to] == x[..|s|][from..to];
  }

  /** The pieces, one behind the other. */
  function Flatten(parts: seq<bytes>): bytes {
    if parts == [] then [] else parts[0] + Flatten(parts[1..])
  }

  /** A growable byte buffer that callers append to (`Vec<u8>`, `BytesMut`). */
  class Buffer {
    var data: bytes

    constructor (initial: bytes)
      ensures data == initial
    {
      data := initial;
    }

    method Extend(more: bytes)
      modifies this
      ensures data == old(data) + more
    {
      data := data + more;
    }
  }
}
