/** The parts of java.lang.Character and of Java's integer remainder that the
    cipher relies on, restricted to the 7-bit ASCII range. */
module JavaChars {

  /** The character domain of the model. Java's `Character.isLetter`,
      `isUpperCase` and `toUpperCase` consult the full Unicode tables; on
      ASCII a letter is `A`-`Z` or `a`-`z`, and that is all the model covers. */
  type AsciiChar = c: char | c as int < 128 witness 'A'

  predicate IsUpperCase(c: AsciiChar) {
    'A' <= c <= 'Z'
  }

  predicate IsLowerCase(c: AsciiChar) {
    'a' <= c <= 'z'
  }

  predicate IsLetter(c: AsciiChar) {
    IsUpperCase(c) || IsLowerCase(c)
  }

  /** `Character.toUpperCase` on ASCII: a lower-case letter becomes its
      upper-case partner, every other character is returned unchanged. */
  function ToUpperCase(c: AsciiChar): (u: AsciiChar)
    ensures IsLetter(u) <==> IsLetter(c)
    ensures IsLetter(u) ==> IsUpperCase(u)
    ensures !IsLowerCase(c) ==> u == c
    ensures IsLowerCase(c) ==> u as int - 'A' as int == c as int - 'a' as int
  {
    if IsLowerCase(c) then (c as int - ('a' as int - 'A' as int)) as char else c
  }

  function Abs(x: int): (a: nat)
    ensures a == x || a == -x
  {
    if x < 0 then -x else x
  }

  /** Java's `a % b` on `int`: the quotient truncates toward zero, so the
      remainder carries the sign of `a`. It differs from Dafny's Euclidean
      `%` exactly when `a` is negative and not a multiple of `b`. */
  function Rem(a: int, b: int): (r: int)
    requires b != 0
    ensures Abs(r) < Abs(b)
    ensures a >= 0 ==> r >= 0
    ensures a <= 0 ==> r <= 0
    ensures a >= 0 && b > 0 ==> r == a % b
  {
    var q := Abs(a) % Abs(b);
    if a < 0 then -q else q
  }
}
