/**
 * Single-byte characters (src/support/lowlevel/firehub.CharSB.php): `chr`
 * clamps its code point into a byte, `ord` reads the first byte of a
 * string, with NUL standing in for the empty string.
 */
module CharSB {

  newtype byte = x: int | 0 <= x < 256

  /** `max(0, min(255, $codepoint))`. */
  function Clamp(n: int): (b: byte)
    ensures n < 0 ==> b == 0
    ensures n > 255 ==> b == 255
    ensures 0 <= n <= 255 ==> b as int == n
  {
    if n < 0 then 0 else if n > 255 then 255 else n as byte
  }

  /** `chr`: the one-byte string of the clamped code point. */
  function Chr(codepoint: int): (s: seq<byte>)
    ensures |s| == 1
  {
    [Clamp(codepoint)]
  }

  /** `ord`: the first byte, or NUL (`"\0"`) for the empty string. */
  function Ord(character: seq<byte>): (n: int)
    ensures 0 <= n <= 255
    ensures character == [] ==> n == 0
  {
    if character == [] then 0 else character[0] as int
  }

  /** `ord` depends on the first byte only. */
  lemma OrdFirstByte(a: seq<byte>, b: seq<byte>)
    requires a != [] && b != [] && a[0] == b[0]
    ensures Ord(a) == Ord(b)
  {
  }

  /** Round trip: `ord(chr(n))` is n clamped into 0..255. */
  lemma OrdChr(n: int)
    ensures Ord(Chr(n)) == if n < 0 then 0 else if n > 255 then 255 else n
  {
  }

  /** Round trip: `chr(ord(s))` is the first byte of a non-empty s. */
  lemma ChrOrd(s: seq<byte>)
    requires s != []
    ensures Chr(Ord(s)) == s[..1]
  {
  }

  /** `chr` of the empty string's `ord` is the NUL byte. */
  lemma ChrOrdEmpty()
    ensures Chr(Ord([])) == [0]
  {
  }
}
