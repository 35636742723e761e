/** Octets and the small helpers shared by the modules of this model. */
module Bytes {

  /** An octet, as Go's `byte`. A Go `string` is modelled as a `seq<byte>`. */
  newtype byte = x: int | 0 <= x < 256

  /** The conventional optional value. */
  datatype Option<T> = None | Some(value: T)

  /** True when every character of `s` is 7-bit ASCII, as the program's string literals are. */
  predicate IsAscii(s: string) {
    forall i :: 0 <= i < |s| ==> s[i] as int < 128
  }

  /** The bytes of an ASCII string literal (Go stores string literals as their UTF-8 bytes). */
  function Ascii(s: string): seq<byte>
    requires IsAscii(s)
  {
    seq(|s|, i requires 0 <= i < |s| => s[i] as int as byte)
  }
}
