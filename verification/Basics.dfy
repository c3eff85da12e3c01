/** What several modules share: bytes and words, the size of memory, optional values, and division. */
module Basics {

  type byte = x: nat | x < 0x100
  type u16 = x: nat | x < 0x1_0000

  /** Memory is 0x100 segments of 0x1_0000 bytes. */
  const RAM := 0x100_0000

  datatype Option<T> = None | Some(value: T)

  function Min(a: nat, b: nat): nat { if a < b then a else b }

  function Max(a: nat, b: nat): nat { if a < b then b else a }

  function When(c: bool, v: nat): nat { if c then v else 0 }

  /** Quotient and remainder are unique. */
  lemma Quotient(a: int, q: int, m: nat, r: nat)
    requires m > 0 && a == q * m + r && r < m
    ensures a / m == q && a % m == r
  {
    var d := a / m - q;
    assert d * m == r - a % m by {
      assert a == (a / m) * m + a % m;
      assert d * m == (a / m) * m - q * m;
    }
    SmallMultiple(d, m);
  }

  lemma SmallMultiple(d: int, m: int)
    requires m > 0 && -m < d * m < m
    ensures d == 0
  {
  }
}
