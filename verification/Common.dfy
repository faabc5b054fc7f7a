/** Small things that several modules use. */
module Common {

  datatype Option<T> = None | Some(value: T)

  newtype Byte = n: int | 0 <= n < 256

  lemma Assoc<T>(a: seq<T>, b: seq<T>, c: seq<T>)
    ensures (a + b) + c == a + (b + c)
  {
  }

  // ------------------------------------------------------------------ hexadecimal digits

  predicate IsHex(c: char) {
    '0' <= c <= '9' || 'a' <= c <= 'f' || 'A' <= c <= 'F'
  }

  function HexValue(c: char): (v: int)
    requires IsHex(c)
    ensures 0 <= v < 16
  {
    if '0' <= c <= '9' then c as int - '0' as int
    else if 'a' <= c <= 'f' then c as int - 'a' as int + 10
    else c as int - 'A' as int + 10
  }

  /** The digit for `v`; the letters start at `letter`, in upper or lower case. */
  function HexDigit(v: int, letter: char): (c: char)
    requires 0 <= v < 16 && letter in {'a', 'A'}
    ensures IsHex(c) && HexValue(c) == v
  {
    if v < 10 then ('0' as int + v) as char else (letter as int + v - 10) as char
  }
}
