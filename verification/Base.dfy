/**
 Machine words, error codes and results shared by all models.
 Words are naturals below a power of two: shifts and masks of the program are
 written as division and remainder, and wrap-around as an explicit remainder.
 */
module Base {

  const U8: nat := 0x100
  const U16: nat := 0x1_0000
  const U32: nat := 0x1_0000_0000
  const U64: nat := 0x1_0000_0000_0000_0000
  const U64_MAX: nat := 0xffff_ffff_ffff_ffff

  type u8 = x: nat | x < 0x100
  type u16 = x: nat | x < 0x1_0000
  type u32 = x: nat | x < 0x1_0000_0000
  type u64 = x: nat | x < 0x1_0000_0000_0000_0000

  /** The negative errno values the program returns. */
  datatype Errno =
    | EINVAL | EACCES | EAGAIN | EALREADY | EBUSY | EEXIST | EFAULT | EIO | ELOOP
    | ENODEV | ENOENT | ENOSPC | ENOTCONN | ENOTSUP | EOVERFLOW | EPROTO | ERANGE | EPERM

  datatype Result<+T> = Ok(value: T) | Err(error: Errno)

  datatype Option<+T> = None | Some(value: T)

  lemma MulAtLeast(m: nat, d: nat)
    requires 1 <= d
    ensures m <= m * d
  {
  }

  lemma MulAssociative(a: nat, b: nat, c: nat)
    ensures (a * b) * c == a * (b * c)
  {
  }

  lemma MulDistributes(a: nat, b: nat, c: nat)
    ensures a * (b + c) == a * b + a * c
  {
  }

  lemma MulMonotone(m: nat, a: nat, b: nat)
    requires a <= b
    ensures m * a <= m * b
  {
    assert m * b == m * a + m * (b - a);
  }

  /** Quotient and remainder are unique. */
  lemma DivModUnique(x: nat, m: nat, q: nat, r: nat)
    requires r < m && x == m * q + r
    ensures x / m == q && x % m == r
  {
    var q', r' := x / m, x % m;
    assert x == m * q' + r';
    if q' < q {
      assert m * q == m * q' + m * (q - q');
      MulAtLeast(m, q - q');
    } else if q < q' {
      assert m * q' == m * q + m * (q' - q);
      MulAtLeast(m, q' - q);
    }
  }
}
