/** Arithmetic on the walker's `i32` address counter. A release build of the
    walker wraps `+= 1` and `-= 1` around modulo 2^32; this module spells
    that out on unbounded integers. */
module Int32 {
  import opened RustText

  const MODULUS: int := 0x1_0000_0000

  /** Two's-complement reduction of `x` into the range of `i32`: add or
      take away 2^32 until the value fits. */
  function Wrap(x: int): (r: int)
    ensures IsI32(r)
    decreases if x < I32_MIN then I32_MIN - x else if x > I32_MAX then x - I32_MAX else 0
  {
    if x < I32_MIN then Wrap(x + MODULUS)
    else if x > I32_MAX then Wrap(x - MODULUS)
    else x
  }

  /** The reduction differs from `x` by a multiple of 2^32. */
  lemma {:induction false} WrapCongruent(x: int)
    ensures (x - Wrap(x)) % MODULUS == 0
    decreases if x < I32_MIN then I32_MIN - x else if x > I32_MAX then x - I32_MAX else 0
  {
    if x < I32_MIN {
      WrapCongruent(x + MODULUS);
    } else if x > I32_MAX {
      WrapCongruent(x - MODULUS);
    }
  }

  /** Two values in range that agree modulo 2^32 are equal. */
  lemma CongruentInRange(a: int, b: int)
    requires IsI32(a) && IsI32(b) && (a - b) % MODULUS == 0
    ensures a == b
  {
    var q := (a - b) / MODULUS;
    assert a - b == MODULUS * q;
  }

  /** Wrapping leaves every `i32` value alone. */
  lemma WrapInRange(x: int)
    requires IsI32(x)
    ensures Wrap(x) == x
  {
  }

  /** Wrapping after every step is the same as wrapping once at the end:
      the counter after many `+=`/`-=` is the wrapped mathematical sum. */
  lemma WrapAdd(x: int, d: int)
    ensures Wrap(Wrap(x) + d) == Wrap(x + d)
  {
    var w := Wrap(x);
    WrapCongruent(x);
    WrapCongruent(w + d);
    WrapCongruent(x + d);
    var q := (x - w) / MODULUS;
    assert x - w == MODULUS * q;
    var a, b := Wrap(w + d), Wrap(x + d);
    var qa, qb := (w + d - a) / MODULUS, (x + d - b) / MODULUS;
    assert w + d - a == MODULUS * qa;
    assert x + d - b == MODULUS * qb;
    assert a - b == MODULUS * (qb - qa - q);
    CongruentInRange(a, b);
  }

  /** Applying the same change twice, wrapping each time. */
  lemma WrapTwice(x: int, y: int, z: int, d: int)
    requires y == Wrap(x + d) && z == Wrap(y + d)
    ensures z == Wrap(x + d + d)
  {
    WrapAdd(x + d, d);
  }

  /** Crediting, then debiting, then applying the rest is applying the sum. */
  lemma WrapThrice(a: int, created: int, spent: int, rest: int)
    ensures Wrap(Wrap(Wrap(a + created) - spent) + rest) == Wrap(a + (created - spent + rest))
  {
    WrapAdd(Wrap(a + created) - spent, rest);
    WrapAdd(a + created, rest - spent);
    assert Wrap(a + created) - spent + rest == Wrap(a + created) + (rest - spent);
    assert a + created + (rest - spent) == a + (created - spent + rest);
  }
}
