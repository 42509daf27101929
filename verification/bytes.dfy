/** Raw response bytes and the ASCII case mapping the crawler applies to them. */
module Bytes {

  newtype Byte = b: int | 0 <= b < 256

  const Newline: Byte := 10

  predicate IsUpper(b: Byte) {
    65 <= b <= 90
  }

  /** ASCII lower-casing of one byte: 'A'..'Z' become 'a'..'z', every other byte is kept. */
  function Lower(b: Byte): Byte {
    if IsUpper(b) then b + 32 else b
  }

  /** Byte-wise lower-casing of a whole buffer. */
  function LowerAll(s: seq<Byte>): seq<Byte> {
    seq(|s|, i requires 0 <= i < |s| => Lower(s[i]))
  }

  /** Lower-casing twice is lower-casing once. */
  lemma LowerAllIdempotent(s: seq<Byte>)
    ensures LowerAll(LowerAll(s)) == LowerAll(s)
  {
  }

  /** Lower-casing commutes with taking a prefix. */
  lemma LowerAllPrefix(s: seq<Byte>, n: nat)
    requires n <= |s|
    ensures LowerAll(s[..n]) == LowerAll(s)[..n]
  {
  }
}
