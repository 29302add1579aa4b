/** The page-parameter clamp that both paged listings (schedules and registrations)
    apply before they query, and the `LIMIT` offset they compute from it in Java's
    32-bit `int` arithmetic. */
module Paging {

  const Int32Min: int := -0x8000_0000
  const Int32Max: int := 0x7fff_ffff
  const Int64Max: int := 0x7fff_ffff_ffff_ffff

  predicate IsInt32(x: int)
  {
    Int32Min <= x <= Int32Max
  }

  /** Java's `int` multiplication result: the mathematical value reduced into the
      32-bit two's-complement range. */
  function Wrap32(x: int): (r: int)
    ensures IsInt32(r)
  {
    (x - Int32Min) % 0x1_0000_0000 + Int32Min
  }

  /** The wrapped value differs from the exact one by a multiple of 2^32, and
      equals it exactly when the exact value already fits. */
  lemma WrapFixesInt32(x: int)
    ensures (x - Wrap32(x)) % 0x1_0000_0000 == 0
    ensures Wrap32(x) == x <==> IsInt32(x)
  {
    if IsInt32(x) {
      assert 0 <= x - Int32Min < 0x1_0000_0000;
    }
  }

  /** A requested page number below 1 becomes 1. */
  function ClampedPage(page: int): (p: int)
    ensures p >= 1
    ensures page >= 1 ==> p == page
  {
    if page < 1 then 1 else page
  }

  /** A requested page size below 1 becomes 10, one above 100 becomes 100. */
  function ClampedSize(pageSize: int): (ps: int)
    ensures 1 <= ps <= 100
    ensures 1 <= pageSize <= 100 ==> ps == pageSize
    ensures pageSize > 100 ==> ps == 100
  {
    if pageSize < 1 then 10 else if pageSize > 100 then 100 else pageSize
  }

  /** Clamping is idempotent: the values the listing echoes back in its reply
      would be accepted as they are. */
  lemma ClampIdempotent(page: int, pageSize: int)
    ensures ClampedPage(ClampedPage(page)) == ClampedPage(page)
    ensures ClampedSize(ClampedSize(pageSize)) == ClampedSize(pageSize)
  {
  }

  /** The clamp and the offset of `listPageWithFilter` as written: the offset is
      the 32-bit product. */
  method PageWindow(page: int, pageSize: int) returns (p: int, ps: int, offset: int)
    requires IsInt32(page) && IsInt32(pageSize)
    ensures p == ClampedPage(page) && ps == ClampedSize(pageSize)
    ensures page < 1 ==> p == 1
    ensures pageSize < 1 ==> ps == 10
    ensures offset == Wrap32((p - 1) * ps)
    ensures (p - 1) * ps <= Int32Max ==> offset == (p - 1) * ps && offset >= 0
  {
    p, ps := page, pageSize;
    if p < 1 {
      p := 1;
    }
    if ps < 1 {
      ps := 10;
    } else if ps > 100 {
      ps := 100;
    }
    var product := (p - 1) * ps;
    ProductBound(p - 1, ps);
    offset := Wrap32(product);
    if product <= Int32Max {
      WrapFixesInt32(product);
    }
  }

  /** The 32-bit product overflows: page 21474838 of 100 rows asks for a negative
      offset. */
  lemma NegativeOffset()
    ensures IsInt32(21474838) && ClampedPage(21474838) == 21474838 && ClampedSize(100) == 100
    ensures Wrap32((ClampedPage(21474838) - 1) * ClampedSize(100)) == -2147483596
  {
  }

  /** The offset computed in 64-bit (`long`) arithmetic, as intended: it is the
      exact product and never negative. */
  method PageWindowWide(page: int, pageSize: int) returns (p: int, ps: int, offset: int)
    requires IsInt32(page) && IsInt32(pageSize)
    ensures p == ClampedPage(page) && ps == ClampedSize(pageSize)
    ensures page < 1 ==> p == 1
    ensures pageSize < 1 ==> ps == 10
    ensures 0 <= offset <= Int64Max
    ensures offset == (p - 1) * ps
  {
    p, ps := page, pageSize;
    if p < 1 {
      p := 1;
    }
    if ps < 1 {
      ps := 10;
    } else if ps > 100 {
      ps := 100;
    }
    offset := (p - 1) * ps;
    ProductBound(p - 1, ps);
  }

  /** A 32-bit row count times a page size of at most 100 fits in 64 bits. */
  lemma ProductBound(x: int, y: int)
    requires 0 <= x <= Int32Max && 1 <= y <= 100
    ensures 0 <= x * y <= Int64Max
  {
    ScaledBound(x, y);
  }

  lemma {:induction false} ScaledBound(x: int, y: nat)
    requires 0 <= x <= Int32Max
    ensures 0 <= x * y <= Int32Max * y
  {
    if y > 0 {
      ScaledBound(x, y - 1);
      assert x * y == x * (y - 1) + x;
      assert Int32Max * y == Int32Max * (y - 1) + Int32Max;
    }
  }
}
