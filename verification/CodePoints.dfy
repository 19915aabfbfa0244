/** Classes of characters, by their code. */
module CodePoints {

  /** What `\s` matches and `trim` removes: the ECMAScript white space and line terminators. */
  predicate IsSpace(n: int) {
    || 0x09 <= n <= 0x0D || n == 0x20 || n == 0xA0 || n == 0x1680 || 0x2000 <= n <= 0x200A
    || n == 0x2028 || n == 0x2029 || n == 0x202F || n == 0x205F || n == 0x3000 || n == 0xFEFF
  }

  predicate IsDigit(n: int) { 0x30 <= n <= 0x39 }
}
