/** Values shared by every module of the model. */
module Base {

  /** An optional value: the model of `std::optional` and of a null result. */
  datatype Option<+T> = None | Some(value: T)

  /** A byte as C++ sees an `unsigned char` or a `std::byte`. */
  type byte = x: int | 0 <= x < 256

  /** An unsigned 64-bit integer, as `uint64_t`. */
  type uint64 = x: int | 0 <= x < 0x1_0000_0000_0000_0000

  /** True when `s` is a prefix of `t`, as `std::string_view::starts_with`. */
  predicate StartsWith<T(==)>(t: seq<T>, s: seq<T>)
  {
    |s| <= |t| && t[..|s|] == s
  }

  /** Concatenation regrouped; stated once so that string-building loops need not rediscover it. */
  lemma ConcatAssoc<T>(a: seq<T>, b: seq<T>, c: seq<T>)
    ensures (a + b) + c == a + (b + c)
  {
  }
}
