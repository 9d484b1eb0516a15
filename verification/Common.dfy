/** Small shared vocabulary: optional values, bytes, and the big-endian integers of the RFB wire. */
module Common {

  datatype Option<+T> = None | Some(value: T)

  /** An unsigned 8-bit value. */
  type byte = b: int | 0 <= b < 0x100

  /** Every byte value is a `byte`: the low eight bits of a natural number. */
  function LowByte(n: nat): byte {
    n % 0x100
  }

  // RFB_Put_U16 and RFB_Get_U16.
  function PutU16(n: nat): (b: seq<byte>)
    requires n < 0x1_0000
    ensures |b| == 2
  {
    [LowByte(n / 0x100), LowByte(n)]
  }

  function GetU16(b: seq<byte>): (n: nat)
    requires |b| == 2
    ensures n < 0x1_0000
  {
    (b[0] as int) * 0x100 + b[1] as int
  }

  lemma U16RoundTrip(n: nat)
    requires n < 0x1_0000
    ensures GetU16(PutU16(n)) == n
  {
  }

  // RFB_Put_U32 and RFB_Get_U32.
  function PutU32(n: nat): (b: seq<byte>)
    requires n < 0x1_0000_0000
    ensures |b| == 4
  {
    PutU16(n / 0x1_0000) + PutU16(n % 0x1_0000)
  }

  function GetU32(b: seq<byte>): (n: nat)
    requires |b| == 4
    ensures n < 0x1_0000_0000
  {
    GetU16(b[..2]) * 0x1_0000 + GetU16(b[2..])
  }

  lemma U32RoundTrip(n: nat)
    requires n < 0x1_0000_0000
    ensures GetU32(PutU32(n)) == n
  {
    assert PutU32(n)[..2] == PutU16(n / 0x1_0000);
    assert PutU32(n)[2..] == PutU16(n % 0x1_0000);
  }

  lemma U16IsFaithful(b: seq<byte>)
    requires |b| == 2
    ensures PutU16(GetU16(b)) == b
  {
  }

  lemma U32IsFaithful(b: seq<byte>)
    requires |b| == 4
    ensures PutU32(GetU32(b)) == b
  {
    hide PutU16, GetU16;
    U16IsFaithful(b[..2]);
    U16IsFaithful(b[2..]);
    assert GetU32(b) / 0x1_0000 == GetU16(b[..2]) && GetU32(b) % 0x1_0000 == GetU16(b[2..]);
  }

  /** Zero is the only multiple of `m` closer to zero than `m`. */
  lemma NoSmallMultiple(k: int, m: int, d: int)
    requires 0 < m && k * m == d && -m < d < m
    ensures d == 0
  {
    assert k >= 1 ==> k * m >= m;
    assert k <= -1 ==> k * m <= -m;
  }

  lemma NotNegative(a: nat, b: nat)
    ensures a * b >= 0
  {
  }

  lemma QuotientAtMost(v: nat, d: nat)
    requires d > 0
    ensures 0 <= v / d <= v
  {
    InRange(v / d, d, v % d, v);
  }

  lemma InRange(q: int, d: nat, r: int, v: nat)
    requires v == q * d + r && 0 <= r < d
    ensures 0 <= q <= v
  {
    assert (-q - 1) * d == -(q * d) - d && q * (d - 1) == q * d - q;
    if q < 0 {
      NotNegative(-q - 1, d);
    } else {
      NotNegative(q, d - 1);
    }
  }

  lemma Regroup<T>(a: seq<T>, b: seq<T>, c: seq<T>)
    ensures a + (b + c) == a + b + c
  {
  }

  /** Quotient and remainder make up the number. */
  lemma Divided(v: nat, d: nat)
    requires d > 0
    ensures v / d * d + v % d == v
  {
  }
}
