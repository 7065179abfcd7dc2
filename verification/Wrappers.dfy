/** Values that may be missing, a sequence without one of its elements, and the word size. */
module Wrappers {
  datatype Option<+T> = None | Some(value: T)

  const WORD := 0x1_0000_0000_0000_0000   // 2^64: size_t and unsigned long long have 64 bits

  ghost function RemoveAt<T>(s: seq<T>, k: nat): seq<T>
    requires k < |s|
  {
    s[..k] + s[k + 1..]
  }
}
