/** The AMQP 1.0 format codes, the codes the decoder knows, and the widths behind them. */
module FormatCodes {
  import opened Bytes

  const DESCRIBED: byte := 0x00
  const NULL: byte := 0x40
  const BOOLEAN: byte := 0x56
  const BOOLEAN_TRUE: byte := 0x41
  const BOOLEAN_FALSE: byte := 0x42
  const UBYTE: byte := 0x50
  const USHORT: byte := 0x60
  const UINT: byte := 0x70
  const SMALL_UINT: byte := 0x52
  const UINT0: byte := 0x43
  const ULONG: byte := 0x80
  const SMALL_ULONG: byte := 0x53
  const ULONG0: byte := 0x44
  const BYTE: byte := 0x51
  const SHORT: byte := 0x61
  const INT: byte := 0x71
  const SMALL_INT: byte := 0x54
  const LONG: byte := 0x81
  const SMALL_LONG: byte := 0x55
  const FLOAT: byte := 0x72
  const DOUBLE: byte := 0x82
  const DECIMAL32: byte := 0x74
  const DECIMAL64: byte := 0x84
  const DECIMAL128: byte := 0x94
  const CHAR: byte := 0x73
  const TIMESTAMP: byte := 0x83
  const UUID: byte := 0x98
  const VBIN8: byte := 0xa0
  const VBIN32: byte := 0xb0
  const STR8: byte := 0xa1
  const STR32: byte := 0xb1
  const SYM8: byte := 0xa3
  const SYM32: byte := 0xb3
  const LIST0: byte := 0x45
  const LIST8: byte := 0xc0
  const LIST32: byte := 0xd0
  const MAP8: byte := 0xc1
  const MAP32: byte := 0xd1
  const ARRAY8: byte := 0xe0
  const ARRAY32: byte := 0xf0

  /** The bytes that `EncodingCodes::try_from` accepts. */
  predicate IsCode(b: byte) {
    || b == DESCRIBED || 0x40 <= b <= 0x45 || 0x50 <= b <= 0x56
    || b == USHORT || b == SHORT || 0x70 <= b <= 0x74 || 0x80 <= b <= 0x84
    || b == DECIMAL128 || b == UUID
    || b == VBIN8 || b == STR8 || b == SYM8 || b == VBIN32 || b == STR32 || b == SYM32
    || b == LIST8 || b == MAP8 || b == LIST32 || b == MAP32 || b == ARRAY8 || b == ARRAY32
  }

  /** How many octets follow a constructor: a fixed number, or as many as a prefix says. */
  datatype Category = Fixed(width: nat) | Prefixed(width: nat) | IsDescribed

  /** The `Category` table; `Variable`, `Compound` and `Array` are read alike. */
  function CategoryOf(c: byte): (k: Category)
    requires IsCode(c)
    ensures k.Prefixed? ==> k.width == 1 || k.width == 4
  {
    if c == DESCRIBED then IsDescribed
    else if c < 0x50 then Fixed(0)
    else if c < 0x60 then Fixed(1)
    else if c < 0x70 then Fixed(2)
    else if c < 0x80 then Fixed(4)
    else if c < 0x90 then Fixed(8)
    else if c < 0xa0 then Fixed(16)
    else if c < 0xb0 || c == LIST8 || c == MAP8 || c == ARRAY8 then Prefixed(1)
    else Prefixed(4)
  }
}
