/** How 24-byte keys are compared, and the numbers that stand for them in the index (src/include/generic_key.h). */
module KeyOrder {
  import opened Basics
  import opened SlottedPage

  ghost predicate IsBytes(s: seq<Byte>) {
    forall i :: 0 <= i < |s| ==> 0 <= s[i] < 256
  }

  ghost predicate IsKey(s: seq<Byte>) {
    |s| == RECORD_KEY_SIZE && IsBytes(s)
  }

  /** The comparator subtracts plain chars, which are signed. */
  function Signed(b: Byte): int {
    if b < 128 then b else b - 256
  }

  function Pow256(n: nat): (p: int)
    ensures p >= 1
  {
    if n == 0 then 1 else 256 * Pow256(n - 1)
  }

  /** The bytes as digits of a number to base 256, where the smallest signed byte is digit 0. */
  function Code(s: seq<Byte>): int {
    if s == [] then 0 else (Signed(s[0]) + 128) * Pow256(|s| - 1) + Code(s[1..])
  }

  lemma KeySpaceSize()
    ensures Pow256(RECORD_KEY_SIZE) == KEY_SPACE
  {
    assert Pow256(8) == 0x1_000000_0000000000;
    assert Pow256(16) == 0x1_000000_000000_000000_000000_00000000;
  }

  lemma {:induction false} CodeRange(s: seq<Byte>)
    requires IsBytes(s)
    ensures 0 <= Code(s) < Pow256(|s|)
  {
    if s != [] {
      CodeRange(s[1..]);
      DigitRange(Signed(s[0]) + 128, Pow256(|s| - 1), Code(s[1..]));
    }
  }

  lemma DigitRange(d: int, p: int, rest: int)
    requires 0 <= d < 256 && 0 <= rest < p
    ensures 0 <= d * p + rest < 256 * p
  {
    assert 0 <= d * p <= 255 * p;
  }

  /** A larger leading digit outweighs all the digits after it. */
  lemma DigitDominates(d: int, e: int, p: int, r: int, s: int)
    requires d < e && 0 <= r < p && 0 <= s < p
    ensures d * p + r < e * p + s
  {
    assert d * p + p == (d + 1) * p <= e * p;
  }

  /** The first byte that differs decides the order of the codes. */
  lemma {:induction false} FirstDifferenceDecides(a: seq<Byte>, b: seq<Byte>, i: nat)
    requires |a| == |b| && IsBytes(a) && IsBytes(b)
    requires i < |a| && a[..i] == b[..i] && Signed(a[i]) < Signed(b[i])
    ensures Code(a) < Code(b)
  {
    if i == 0 {
      CodeRange(a[1..]);
      CodeRange(b[1..]);
      DigitDominates(Signed(a[0]) + 128, Signed(b[0]) + 128, Pow256(|a| - 1), Code(a[1..]), Code(b[1..]));
    } else {
      assert a[0] == a[..i][0] == b[..i][0] == b[0];
      assert a[1..][..i - 1] == a[..i][1..] == b[..i][1..] == b[1..][..i - 1];
      FirstDifferenceDecides(a[1..], b[1..], i - 1);
    }
  }

  /** Different keys have different codes. */
  lemma {:induction false} CodeInjective(a: seq<Byte>, b: seq<Byte>)
    requires |a| == |b| && IsBytes(a) && IsBytes(b)
    ensures Code(a) == Code(b) <==> a == b
  {
    if a != b {
      if a[0] == b[0] {
        CodeInjective(a[1..], b[1..]);
      } else if Signed(a[0]) < Signed(b[0]) {
        FirstDifferenceDecides(a, b, 0);
      } else {
        FirstDifferenceDecides(b, a, 0);
      }
    }
  }

  function Zeros(n: nat): seq<Byte> {
    seq(n, _ => 0)
  }

  /** Unused key memory holds zero bytes, whose code is the one the tree assumes. */
  lemma ZeroKeyCode()
    ensures Code(Zeros(RECORD_KEY_SIZE)) == ZERO_KEY
  {
    ZerosCode(RECORD_KEY_SIZE);
    KeySpaceSize();
  }

  lemma {:induction false} ZerosCode(n: nat)
    ensures 255 * Code(Zeros(n)) == 128 * (Pow256(n) - 1)
  {
    if n > 0 {
      ZerosCode(n - 1);
      assert Zeros(n)[1..] == Zeros(n - 1);
    }
  }

  /** The order of two chars: from 128 on they are negative, and among chars of one sign the larger byte is larger. */
  predicate CharBelow(a: Byte, b: Byte) {
    if (a < 128) == (b < 128) then a < b else a >= 128
  }

  /** One code is below another exactly if its key has the lower char where the keys differ first. */
  lemma OrderExactly(a: seq<Byte>, b: seq<Byte>, i: nat)
    requires |a| == |b| && IsBytes(a) && IsBytes(b) && i < |a| && a[..i] == b[..i] && a[i] != b[i]
    ensures Code(a) < Code(b) <==> CharBelow(a[i], b[i])
  {
    if Signed(a[i]) < Signed(b[i]) {
      FirstDifferenceDecides(a, b, i);
    } else {
      FirstDifferenceDecides(b, a, i);
    }
  }

  /** The comparator: the difference of the first chars that differ. Its sign is the order of the codes. */
  method Compare(lhs: seq<Byte>, rhs: seq<Byte>) returns (c: int)
    requires IsKey(lhs) && IsKey(rhs)
    ensures c < 0 <==> Code(lhs) < Code(rhs)
    ensures c == 0 <==> lhs == rhs
    ensures c > 0 <==> Code(lhs) > Code(rhs)
  {
    for i := 0 to RECORD_KEY_SIZE
      invariant lhs[..i] == rhs[..i]
    {
      if lhs[i] != rhs[i] {
        c := Signed(lhs[i]) - Signed(rhs[i]);
        if c < 0 {
          FirstDifferenceDecides(lhs, rhs, i);
        } else {
          FirstDifferenceDecides(rhs, lhs, i);
        }
        return;
      }
    }
    assert lhs == lhs[..RECORD_KEY_SIZE] == rhs[..RECORD_KEY_SIZE] == rhs;
    return 0;
  }
}
