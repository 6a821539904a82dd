/** That the encoding is the one of RFC 4648: its bits and its symbols. */
module Base64Bits {
  import opened Wrappers
  import opened Base64

  /** The first 62 symbols of either alphabet are the capitals, the small letters and the
      digits in order; the last two tell them apart. */
  lemma AlphabetIs(v: sextet)
    ensures (v as int) < 26 ==> forall a: Alphabet :: Symbol(a, v) == "ABCDEFGHIJKLMNOPQRSTUVWXYZ"[v]
    ensures 26 <= (v as int) < 52 ==> forall a: Alphabet :: Symbol(a, v) == "abcdefghijklmnopqrstuvwxyz"[v as int - 26]
    ensures 52 <= (v as int) < 62 ==> forall a: Alphabet :: Symbol(a, v) == "0123456789"[v as int - 52]
    ensures Symbol(Standard, 62) == '+' && Symbol(Standard, 63) == '/'
    ensures Symbol(UrlSafe, 62) == '-' && Symbol(UrlSafe, 63) == '_'
  {
  }

  function Number(digits: seq<int>, base: int): int {
    if digits == [] then 0 else Number(digits[..|digits| - 1], base) * base + digits[|digits| - 1]
  }

  /** The first sextets are the bits of the first bytes: four of three bytes, three of two
      at the end, two of one, with zero bits after them. */
  ghost predicate SameBits(b: seq<byte>, q: seq<sextet>)
    requires b != []
  {
    if |b| >= 3 then |q| >= 4 && Number([b[0], b[1], b[2]], 256) == Number([q[0], q[1], q[2], q[3]], 64)
    else if |b| == 2 then |q| == 3 && Number([b[0], b[1]], 256) * 4 == Number([q[0], q[1], q[2]], 64)
    else |q| == 2 && b[0] as int * 16 == Number([q[0], q[1]], 64)
  }

  lemma Numbers(w: int, x: int, y: int, z: int, base: int)
    ensures Number([w, x], base) == w * base + x
    ensures Number([w, x, y], base) == (w * base + x) * base + y
    ensures Number([w, x, y, z], base) == ((w * base + x) * base + y) * base + z
  {
    assert [w][..0] == [] && [w, x][..1] == [w] && [w, x, y][..2] == [w, x] && [w, x, y, z][..3] == [w, x, y];
    assert Number([w], base) == w;
  }

  lemma FirstBits(b: seq<byte>)
    requires b != []
    ensures SameBits(b, Regroup(b))
  {
    var q := Regroup(b);
    var y, z := if |b| > 1 then b[1] as int else 0, if |b| > 2 then b[2] as int else 0;
    Numbers(b[0] as int, y, z, 0, 256);
    Numbers(q[0] as int, q[1] as int, if |q| > 2 then q[2] as int else 0, if |q| > 3 then q[3] as int else 0, 64);
    Bits(b[0] as int, y, z);
  }

  lemma Bits(x: nat, y: nat, z: nat)
    ensures x == x / 4 * 4 + x % 4 && y == y / 16 * 16 + y % 16 && z == z / 64 * 64 + z % 64
  {
  }

  /** And so it goes on, three bytes and four sextets at a time, to the end of both. */
  lemma {:induction false} BitsKept(b: seq<byte>, k: nat)
    requires 3 * k <= |b|
    ensures 4 * k <= |Regroup(b)|
    ensures if 3 * k < |b| then SameBits(b[3 * k..], Regroup(b)[4 * k..]) else Regroup(b)[4 * k..] == []
    decreases k
  {
    if k == 0 {
      if b != [] {
        FirstBits(b);
      }
    } else {
      BitsKept(b[3..], k - 1);
      NextGroup(b, k);
    }
  }

  lemma NextGroup(b: seq<byte>, k: nat)
    requires k > 0 && 3 * k <= |b| && 4 * (k - 1) <= |Regroup(b[3..])|
    ensures 4 * k <= |Regroup(b)|
    ensures b[3..][3 * (k - 1)..] == b[3 * k..] && Regroup(b[3..])[4 * (k - 1)..] == Regroup(b)[4 * k..]
  {
    var head, tail := Regroup(b)[..4], Regroup(b[3..]);
    assert Regroup(b) == head + tail;
  }
}
