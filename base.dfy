/** Value types shared by the runtime model: nullable values, bytes and 32-bit unsigned words. */
module Base {

  /** A nullable value: `None` stands for the C++ null pointer. */
  datatype Option<+T> = None | Some(value: T) {
    function GetOr(default: T): T {
      match this
      case Some(v) => v
      case None => default
    }
  }

  /** An 8-bit character as stored in a C string, read as unsigned (0..255). */
  type byte = x: int | 0 <= x < 256

  const U32Modulus: int := 0x1_0000_0000

  /** A 32-bit unsigned machine word. */
  type u32 = x: int | 0 <= x < 0x1_0000_0000

  /** The content of a C string: every byte before the terminating NUL. */
  predicate NoNul(s: seq<byte>) {
    forall i :: 0 <= i < |s| ==> s[i] != 0
  }

  /** `d * m >= d` for a positive factor. */
  lemma MulAtLeast(d: nat, m: nat)
    requires d > 0 && m >= 1
    ensures d * m >= d
  {
  }

  /** Integer division is determined by its quotient and remainder. */
  lemma ModUnique(a: int, d: int, q: int, r: int)
    requires d > 0 && 0 <= r < d && a == d * q + r
    ensures a / d == q && a % d == r
  {
    var q', r' := a / d, a % d;
    assert a == d * q' + r';
    if q' < q {
      assert r' == d * (q - q') + r;
      MulAtLeast(d, q - q');
      assert false;
    } else if q' > q {
      assert r == d * (q' - q) + r';
      MulAtLeast(d, q' - q);
      assert false;
    }
  }
}
