/** Wrap-around time arithmetic used by the SAMD21 timer: 16-bit hardware counts,
    32-bit software time, and the signed 32-bit differences the driver compares with. */
module WrapTime {
  const WRAP16 := 0x1_0000
  const WRAP32 := 0x1_0000_0000
  const HALF32 := 0x8000_0000

  /** The 32-bit value that software sees for the true time `t`. */
  function Wrap(t: int): nat { t % WRAP32 }

  /** `(int32_t)(a - b)` on two `uint32_t` values. */
  function SDiff(a: int, b: int): (d: int)
    ensures -HALF32 <= d < HALF32
  {
    var w := Wrap(a - b);
    if w < HALF32 then w else w - WRAP32
  }

  /** The signed difference of two wrapped times is the true difference exactly when the
      true times are less than half the 32-bit range apart. */
  lemma SDiffIsTrueDifference(x: nat, y: nat)
    ensures SDiff(Wrap(x), Wrap(y)) == x - y <==> -HALF32 <= x - y < HALF32
  {
    WrapSub(x, y);
    var d := x - y;
    if 0 <= d < HALF32 {
    } else if -HALF32 <= d < 0 {
      assert (d + WRAP32) % WRAP32 == d % WRAP32 by { WrapShift(d, 1); }
    }
  }

  lemma WrapShift(x: int, k: int)
    ensures (x + k * WRAP32) % WRAP32 == x % WRAP32
  {
    var a, b := x / WRAP32, (x + k * WRAP32) / WRAP32;
    assert x + k * WRAP32 == WRAP32 * (a + k) + x % WRAP32;
  }

  lemma WrapSub(x: int, y: int)
    ensures Wrap(Wrap(x) - Wrap(y)) == Wrap(x - y)
  {
    WrapShift(x - y, y / WRAP32 - x / WRAP32);
  }

  lemma WrapAdd(x: int, y: int)
    ensures Wrap(Wrap(x) + y) == Wrap(x + y)
  {
    WrapShift(x + y, -(x / WRAP32));
  }

  /** Masking the low half of a wrapped time gives the wrapped start of its epoch. */
  lemma EpochBase(t: nat)
    ensures Wrap(t) % WRAP16 == t % WRAP16
    ensures Wrap(t) - Wrap(t) % WRAP16 == Wrap(WRAP16 * (t / WRAP16))
  {
    var k, r, l := t / WRAP32, Wrap(t), t % WRAP16;
    assert t == WRAP32 * k + r;
    assert r == WRAP16 * (r / WRAP16) + r % WRAP16;
    assert t == WRAP16 * (WRAP16 * k + r / WRAP16) + r % WRAP16;
    assert t / WRAP16 == WRAP16 * k + r / WRAP16;
    WrapShift(WRAP16 * (r / WRAP16), k);
  }

  /** An epoch base has its low 16 bits clear, so OR-ing in a 16-bit count adds it. */
  lemma EpochPlusLow(epoch: nat, low: nat)
    requires low < WRAP16
    ensures Wrap(WRAP16 * epoch) % WRAP16 == 0
    ensures Wrap(WRAP16 * epoch) + low == Wrap(WRAP16 * epoch + low)
  {
    EpochBase(WRAP16 * epoch + low);
    EpochBase(WRAP16 * epoch);
  }
}
