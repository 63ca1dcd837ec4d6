/** How decompressors end: with output, for lack of room, or on bad data (the status types of
    hwzip/shrink.h, deflate.h and implode.h). */
module Outcome {
  import opened Bits

  datatype Status<T> = Ok(value: T) | Full | Err

  /** What a decompressor produced and the input bits it left unread. */
  datatype Output = Output(out: seq<byte>, rest: seq<bool>)

  /** A decompressor ends as its model does: on success it reports the bytes read, the last of them
      possibly in part, and the bytes written, which are at the beginning of dst. */
  ghost predicate Agrees(result: Status<(nat, nat)>, model: Status<Output>, srcLen: nat, dst: seq<byte>) {
    match model
    case Err => result.Err?
    case Full => result.Full?
    case Ok(o) => |o.rest| <= 8 * srcLen && |o.out| <= |dst|
                  && result == Ok((RoundUp8(8 * srcLen - |o.rest|) / 8, |o.out|)) && dst[..|o.out|] == o.out
  }
}
