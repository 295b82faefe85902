module Bytes {
  type byte = x: int | 0 <= x < 256

  const MEGABYTE := 0x10_0000

  /** The most an io.LimitReader with that limit lets through. */
  function Limited(body: seq<byte>, limit: int): seq<byte> {
    if limit <= 0 then [] else if limit < |body| then body[..limit] else body
  }
}
