/** Octets, as the HTTP header value, base64 and UTF-8 layers see them. */
module Bytes {

  newtype u8 = x: int | 0 <= x < 0x100
}
