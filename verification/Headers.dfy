/** The four-byte big-endian length in front of every frame. */
module Headers {

  type Byte = b: int | 0 <= b < 256

  const HEADER := 4

  /** `struct.pack(">I", n)`. */
  function Header(n: nat): (h: seq<Byte>)
    requires n < 0x1_0000_0000
    ensures |h| == HEADER
  {
    [n / 0x100_0000, n / 0x1_0000 % 256, n / 0x100 % 256, n % 256]
  }

  /** `struct.unpack(">I", h)`. */
  function Length(h: seq<Byte>): (n: nat)
    requires |h| == HEADER
    ensures n < 0x1_0000_0000
  {
    var b0: int, b1: int, b2: int, b3: int := h[0], h[1], h[2], h[3];
    b0 * 0x100_0000 + b1 * 0x1_0000 + b2 * 0x100 + b3
  }

  lemma LengthOfHeader(n: nat)
    requires n < 0x1_0000_0000
    ensures Length(Header(n)) == n
  {
    assert n / 0x1_0000 / 256 == n / 0x100_0000;
    assert n / 0x100 / 256 == n / 0x1_0000;
  }

  lemma HeaderOfLength(h: seq<Byte>)
    requires |h| == HEADER
    ensures Header(Length(h)) == h
  {
    var n := Length(h);
    var b0: int, b1: int, b2: int := h[0], h[1], h[2];
    assert n / 0x100_0000 == b0;
    assert n / 0x1_0000 == b0 * 256 + b1;
    assert n / 0x100 == b0 * 65536 + b1 * 256 + b2;
  }

  /** The first byte that differs decides. */
  predicate SmallerAt(a: seq<Byte>, b: seq<Byte>, k: int) {
    0 <= k < |a| && k < |b| && a[..k] == b[..k] && a[k] < b[k]
  }

  lemma FirstDifference(a: seq<Byte>, b: seq<Byte>) returns (k: nat)
    requires |a| == |b| == HEADER && a != b
    ensures k < HEADER && a[..k] == b[..k] && a[k] != b[k]
  {
    k := if a[0] != b[0] then 0 else if a[1] != b[1] then 1 else if a[2] != b[2] then 2 else 3;
    assert a == [a[0], a[1], a[2], a[3]] && b == [b[0], b[1], b[2], b[3]];
  }

  lemma SmallerByteSmallerLength(a: seq<Byte>, b: seq<Byte>, k: int)
    requires |a| == |b| == HEADER && SmallerAt(a, b, k)
    ensures Length(a) < Length(b)
  {
    assert forall i :: 0 <= i < k ==> a[i] == a[..k][i] == b[..k][i] == b[i];
  }

  /** The most significant byte comes first: headers compare byte by byte as the lengths do. */
  lemma HeadersSortAsLengths(n: nat, m: nat)
    requires n < 0x1_0000_0000 && m < 0x1_0000_0000
    ensures n < m <==> exists k :: SmallerAt(Header(n), Header(m), k)
  {
    LengthOfHeader(n);
    LengthOfHeader(m);
    if k :| SmallerAt(Header(n), Header(m), k) {
      SmallerByteSmallerLength(Header(n), Header(m), k);
    }
    if n < m {
      var k := FirstDifference(Header(n), Header(m));
      if Header(n)[k] < Header(m)[k] {
        assert SmallerAt(Header(n), Header(m), k);
      } else {
        SmallerByteSmallerLength(Header(m), Header(n), k);
      }
    }
  }
}
