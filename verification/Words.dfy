/** Machine words of the C sources, kept as ranges of the unbounded integers. */
module Words {

  const TWO_31: int := 0x8000_0000
  const TWO_32: int := 0x1_0000_0000

  type Byte = b: int | 0 <= b < 256
  type Uint32 = u: int | 0 <= u < TWO_32
  type Int32 = i: int | -TWO_31 <= i < TWO_31

  /** The value of an integer stored into a `uint32_t`. */
  function Wrap32(i: int): (u: Uint32)
    ensures (i - u) % TWO_32 == 0
    ensures 0 <= i < TWO_32 ==> u == i
    ensures -TWO_32 <= i < 0 ==> u == i + TWO_32
  {
    i % TWO_32
  }

  /** The value of an integer stored into an `int32_t`. */
  function Signed32(i: int): (s: Int32)
    ensures (s - i) % TWO_32 == 0
    ensures -TWO_31 <= i < TWO_31 ==> s == i
  {
    var u := Wrap32(i);
    if u < TWO_31 then u else u - TWO_32
  }

  /** Byte `k` of a little-endian word. */
  function LittleEndianByte(u: Uint32, k: nat): (b: Byte)
    requires k < 4
  {
    if k == 0 then u % 0x100
    else if k == 1 then (u / 0x100) % 0x100
    else if k == 2 then (u / 0x1_0000) % 0x100
    else (u / 0x100_0000) % 0x100
  }

  /** The word that four big-endian bytes denote. */
  function BigEndian(b: seq<Byte>): (u: Uint32)
    requires |b| == 4
  {
    b[0] as int * 0x100_0000 + b[1] as int * 0x1_0000 + b[2] as int * 0x100 + b[3] as int
  }

  /** The four bytes of a word, most significant first. */
  function BigEndianBytes(u: Uint32): (b: seq<Byte>)
    ensures |b| == 4
  {
    [(u / 0x100_0000) % 0x100, (u / 0x1_0000) % 0x100, (u / 0x100) % 0x100, u % 0x100]
  }

  /** A number is its last byte and 256 times the rest. */
  lemma LastByte(n: nat)
    ensures n == 0x100 * (n / 0x100) + n % 0x100
  {
  }

  lemma BytesSum(u: Uint32)
    ensures u as int == u as int % 0x100 + 0x100 * (u as int / 0x100 % 0x100)
      + 0x1_0000 * (u as int / 0x1_0000 % 0x100) + 0x100_0000 * (u as int / 0x100_0000 % 0x100)
  {
    var a, b, c := u as int / 0x100, u as int / 0x1_0000, u as int / 0x100_0000;
    assert a / 0x100 == b && b / 0x100 == c && c % 0x100 == c;
    LastByte(u);
    LastByte(a);
    LastByte(b);
  }

  lemma BigEndianRoundTrip(u: Uint32)
    ensures BigEndian(BigEndianBytes(u)) == u
  {
    BytesSum(u);
  }

  /** Four bytes weighted by the powers of 256 make up the word, whichever end they are counted from. */
  lemma LittleEndianSum(u: Uint32)
    ensures LittleEndianByte(u, 0) as int + 0x100 * LittleEndianByte(u, 1) as int
      + 0x1_0000 * LittleEndianByte(u, 2) as int + 0x100_0000 * LittleEndianByte(u, 3) as int == u
  {
    BytesSum(u);
  }

  /** The number that bytes denote, most significant first. */
  function Denoted(bytes: seq<Byte>): nat {
    if bytes == [] then 0 else 0x100 * Denoted(bytes[..|bytes| - 1]) + bytes[|bytes| - 1]
  }

  lemma BigEndianDenotes(b: seq<Byte>)
    requires |b| == 4
    ensures BigEndian(b) == Denoted(b)
  {
    assert b[..3][..2] == b[..2] && b[..2][..1] == b[..1] && b[..1][..0] == [];
    assert Denoted(b[..1]) == b[0];
    assert Denoted(b[..2]) == 0x100 * Denoted(b[..1]) + b[1];
    assert Denoted(b[..3]) == 0x100 * Denoted(b[..2]) + b[2];
  }

  function Repeated<T>(v: T, n: nat): (s: seq<T>)
    ensures |s| == n
  {
    seq(n, _ => v)
  }

  /** C division, which truncates toward zero. */
  function Quotient(a: int, b: nat): int
    requires b > 0
  {
    if a >= 0 then a / b else -((-a) / b)
  }

  /** What is left over has the sign of the dividend, and the quotient is rounded toward zero. */
  lemma QuotientTruncates(a: int, b: nat)
    requires b > 0
    ensures var rest := a - Quotient(a, b) * b;
      (a >= 0 ==> 0 <= rest < b) && (a <= 0 ==> 0 <= -rest < b)
  {
  }

  /** A displacement cut to what a boot-mouse report can carry. */
  function Clamp(v: int): (c: int)
    ensures -127 <= c <= 127
    ensures -127 <= v <= 127 ==> c == v
  {
    if v > 127 then 127 else if v < -127 then -127 else v
  }
}
