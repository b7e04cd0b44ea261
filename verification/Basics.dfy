/** Types shared by all modules. */
module Basics {
  datatype Option<+T> = None | Some(value: T)

  /** One element of a C++ `std::string`. */
  newtype Byte = x: int | 0 <= x < 256

  type Bytes = seq<Byte>

  /** A node or host address as the programs compare it. */
  datatype Address = Address(ip: Bytes, port: nat)

  const NEWLINE: Byte := 10

  /** `static_cast<unsigned short>`. */
  function Port16(n: int): (p: nat)
    ensures p < 65536 && (n - p) % 65536 == 0
    ensures 0 <= n < 65536 ==> p == n
  {
    n % 65536
  }

  /** Shortest and longest path a client draws. */
  const MIN_PATH: nat := 3
  const MAX_PATH: nat := 10

  /** The value of a byte read as C++ `char`, which is signed on the target platform. */
  function SignedChar(b: Byte): (c: int)
    ensures -128 <= c < 128 && c % 256 == b as int
  {
    if b < 128 then b as int else b as int - 256
  }

  /** Narrowing to `char` keeps the low eight bits. */
  function LowByte(x: int): (b: Byte)
    ensures (x - b as int) % 256 == 0
    ensures -128 <= x < 128 ==> SignedChar(b) == x
  {
    (x % 256) as Byte
  }

  const TWO_64: int := 0x1_0000_0000_0000_0000
  const TWO_63: int := 0x8000_0000_0000_0000

  newtype int64 = x: int | -0x8000_0000_0000_0000 <= x < 0x8000_0000_0000_0000

  newtype uint64 = x: int | 0 <= x < 0x1_0000_0000_0000_0000

  /** Two's complement wrap-around of an out-of-range product. */
  function Wrap64(x: int): (r: int64)
    ensures -TWO_63 <= x < TWO_63 ==> r as int == x
    ensures (x - r as int) % TWO_64 == 0
  {
    ((x + TWO_63) % TWO_64 - TWO_63) as int64
  }

  function WrapU64(x: int): (r: uint64)
    ensures 0 <= x < TWO_64 ==> r as int == x
    ensures (x - r as int) % TWO_64 == 0
  {
    (x % TWO_64) as uint64
  }

  function Abs(x: int): (r: nat)
    ensures r == x || r == -x
  {
    if x < 0 then -x else x
  }

  /** C++ `%`: the remainder takes the sign of the dividend. */
  function TRem(a: int, m: int): (r: int)
    requires m != 0
    ensures Abs(r) < Abs(m) && (a >= 0 ==> r >= 0) && (a <= 0 ==> r <= 0)
  {
    if a >= 0 then a % m else -((-a) % m)
  }
}
