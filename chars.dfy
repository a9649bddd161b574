/** Character classification used by identifier derivation.
    .NET's char.IsLetter, char.IsDigit and char.ToUpperInvariant follow the
    Unicode tables; this model restricts them to their ASCII behaviour. */
module Chars {

  predicate IsLetter(c: char) {
    'a' <= c <= 'z' || 'A' <= c <= 'Z'
  }

  predicate IsDigit(c: char) {
    '0' <= c <= '9'
  }

  predicate IsLetterOrDigit(c: char) {
    IsLetter(c) || IsDigit(c)
  }

  /** Upper-cases a lower-case letter and leaves every other character alone. */
  function ToUpper(c: char): (u: char)
    ensures IsLetter(c) <==> IsLetter(u)
    ensures IsLetter(c) ==> 'A' <= u <= 'Z'
    ensures !('a' <= c <= 'z') ==> u == c
    ensures 'a' <= c <= 'z' ==> u as int - 'A' as int == c as int - 'a' as int
  {
    if 'a' <= c <= 'z' then (c as int - 32) as char else c
  }
}
