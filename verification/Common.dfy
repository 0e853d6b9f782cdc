/** Machine widths and the two result types shared by every component. */
module Common {
  const U32_MAX: nat := 0xFFFF_FFFF
  const I32_MAX: nat := 0x7FFF_FFFF
  const U64_MAX: nat := 0xFFFF_FFFF_FFFF_FFFF
  const I64_MAX: nat := 0x7FFF_FFFF_FFFF_FFFF

  type Byte = x: int | 0 <= x < 256

  type Bytes = seq<Byte>

  datatype Option<+T> = None | Some(value: T)

  datatype Result<+T, +E> = Ok(value: T) | Err(error: E)

  lemma DivAtLeast(a: nat, b: nat, k: int)
    requires b > 0
    ensures a / b >= k <==> a >= k * b
  {
    var q, r := a / b, a % b;
    assert a == q * b + r;
    if q >= k {
      assert q * b >= k * b;
    } else {
      assert k * b >= (q + 1) * b;
      assert (q + 1) * b == q * b + b;
    }
  }
}
