/** Octets, big-endian integers and the outcome of an operation that can fail. */
module Bytes {

  type byte = b: int | 0 <= b < 256
  type bytes = seq<byte>

  datatype Option<+T> = None | Some(value: T)

  /** The error cases of `serde_amqp::Error` that the modelled code can produce. */
  datatype Error =
    | UnexpectedEof
    | InvalidFormatCode
    | InvalidValue
    | InvalidLength
    | SequenceLengthMismatch
    | InvalidUtf8
    | TooLong
    | Message

  /** `Panic` stands for `unreachable!()` and for an overflowing unsigned subtraction. */
  datatype Outcome<+T> = Ok(value: T) | Err(error: Error) | Panic {
    predicate IsFailure() {
      !Ok?
    }

    function PropagateFailure<U>(): Outcome<U>
      requires IsFailure()
    {
      if Panic? then Panic else Err(error)
    }

    function Extract(): T
      requires Ok?
    {
      value
    }
  }

  function Pow256(w: nat): (p: nat)
    ensures p > 0
  {
    if w == 0 then 1 else 256 * Pow256(w - 1)
  }

  /** The low `w` octets of `n`, most significant first. */
  function BE(n: nat, w: nat): (s: bytes)
    ensures |s| == w
  {
    if w == 0 then [] else BE(n / 256, w - 1) + [n % 256]
  }

  function FromBE(s: bytes): (n: nat)
    ensures n < Pow256(|s|)
  {
    if s == [] then 0 else 256 * FromBE(s[..|s| - 1]) + s[|s| - 1]
  }

  lemma {:induction false} BERoundTrip(n: nat, w: nat)
    requires n < Pow256(w)
    ensures FromBE(BE(n, w)) == n
  {
    if w > 0 {
      BERoundTrip(n / 256, w - 1);
      assert BE(n, w)[..w - 1] == BE(n / 256, w - 1);
    }
  }

  lemma Pow256Values()
    ensures Pow256(1) == 0x100 && Pow256(2) == 0x1_0000
    ensures Pow256(4) == 0x1_0000_0000 && Pow256(8) == 0x1_0000_0000_0000_0000
  {
    assert Pow256(3) == 0x100_0000;
    assert Pow256(5) == 0x100_0000_0000;
    assert Pow256(6) == 0x1_0000_0000_0000;
    assert Pow256(7) == 0x100_0000_0000_0000;
  }

  /** Two's complement at width `w`, and back. */
  function Twos(i: int, w: nat): (n: int)
  {
    if i < 0 then i + Pow256(w) else i
  }

  function FromTwos(n: nat, w: nat): (i: int)
  {
    if 2 * n >= Pow256(w) then n - Pow256(w) else n
  }

  /** A signed integer that fits in `w` octets survives `to_be_bytes` and `from_be_bytes`. */
  lemma SignedRoundTrip(i: int, w: nat)
    requires 0 <= 2 * i + Pow256(w) < 2 * Pow256(w)
    ensures 0 <= Twos(i, w) < Pow256(w)
    ensures FromTwos(FromBE(BE(Twos(i, w), w)), w) == i
  {
    BERoundTrip(Twos(i, w), w);
  }
}
