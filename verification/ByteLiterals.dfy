/** Byte literals of the command language: a number in network byte order, cut to a width. */
module ByteLiterals {
  import opened Bytes

  // ---- The value of a byte sequence --------------------------------------------------------------

  function Pow256(n: nat): (p: nat)
    ensures p > 0
  {
    if n == 0 then 1 else 256 * Pow256(n - 1)
  }

  /** The number that the bytes spell, most significant byte first. */
  function BigEndian(b: seq<Byte>): nat {
    if b == [] then 0 else 256 * BigEndian(b[..|b| - 1]) + b[|b| - 1]
  }

  /** The first `n` bytes of a number in memory, least significant byte first. */
  function Memory(v: nat, n: nat): (m: seq<Byte>)
    ensures |m| == n
  {
    if n == 0 then [] else [v % 256] + Memory(v / 256, n - 1)
  }

  function Reversed(b: seq<Byte>): (r: seq<Byte>)
    ensures |r| == |b| && forall k :: 0 <= k < |b| ==> r[k] == b[|b| - 1 - k]
  {
    if b == [] then [] else Reversed(b[1..]) + [b[0]]
  }

  lemma AtLeastOne(d: int, m: nat)
    requires d >= 1
    ensures d * m >= m
  {
    assert d * m == (d - 1) * m + m;
  }

  /** Quotient and remainder are unique. */
  lemma RemainderUnique(v: nat, m: nat, q: nat, r: nat)
    requires r < m && v == q * m + r
    ensures v % m == r
  {
    var p, s := v / m, v % m;
    assert v == p * m + s;
    assert (q - p) * m == s - r && (p - q) * m == r - s;
    if q > p {
      AtLeastOne(q - p, m);
    } else if q < p {
      AtLeastOne(p - q, m);
    }
  }

  lemma SplitRemainder(v: nat, p: nat)
    requires p > 0
    ensures v % (256 * p) == 256 * (v / 256 % p) + v % 256
  {
    var q, r, b := v / 256 / p, v / 256 % p, v % 256;
    assert v / 256 == q * p + r;
    assert v == 256 * (q * p + r) + b == q * (256 * p) + (256 * r + b);
    RemainderUnique(v, 256 * p, q, 256 * r + b);
  }

  /** The bytes of a number in memory, reversed, spell the number. */
  lemma {:induction false} ReversedMemory(v: nat, n: nat)
    ensures BigEndian(Reversed(Memory(v, n))) == v % Pow256(n)
  {
    if n > 0 {
      var rest := Reversed(Memory(v / 256, n - 1));
      assert Reversed(Memory(v, n)) == rest + [v % 256];
      assert (rest + [v % 256])[..|rest|] == rest;
      ReversedMemory(v / 256, n - 1);
      SplitRemainder(v, Pow256(n - 1));
    }
  }

  lemma {:induction false} BigEndianBound(b: seq<Byte>)
    ensures BigEndian(b) < Pow256(|b|)
  {
    if b != [] {
      BigEndianBound(b[..|b| - 1]);
    }
  }

  lemma {:induction false} BigEndianConcat(a: seq<Byte>, b: seq<Byte>)
    ensures BigEndian(a + b) == BigEndian(a) * Pow256(|b|) + BigEndian(b)
  {
    if b == [] {
      assert a + b == a;
    } else {
      var n := |b| - 1;
      assert (a + b)[..|a + b| - 1] == a + b[..n];
      BigEndianConcat(a, b[..n]);
      Distribute(BigEndian(a), Pow256(n), BigEndian(b[..n]));
    }
  }

  lemma Distribute(x: nat, p: nat, y: nat)
    ensures 256 * (x * p + y) == x * (256 * p) + 256 * y
  {
  }

  /** The first byte counts most: all the bytes behind it count less than one of it. */
  lemma MostSignificantFirst(first: Byte, rest: seq<Byte>)
    ensures BigEndian([first] + rest) == first * Pow256(|rest|) + BigEndian(rest)
    ensures BigEndian(rest) < Pow256(|rest|) && Pow256(|rest| + 1) == 0x100 * Pow256(|rest|) && Pow256(0) == 1
  {
    assert [first][..0] == [] && BigEndian([first]) == first;
    hide BigEndian;
    BigEndianConcat([first], rest);
    BigEndianBound(rest);
  }

  /** Dropping leading bytes keeps the value modulo 256 to the number of bytes left. */
  lemma TailValue(b: seq<Byte>, k: nat)
    requires k <= |b|
    ensures BigEndian(b[|b| - k..]) == BigEndian(b) % Pow256(k)
  {
    var lead, tail := b[..|b| - k], b[|b| - k..];
    assert b == lead + tail;
    BigEndianConcat(lead, tail);
    BigEndianBound(tail);
    RemainderUnique(BigEndian(b), Pow256(k), BigEndian(lead), BigEndian(tail));
  }

  /** Bytes of one length that spell the same number are the same bytes. */
  lemma {:induction false} BigEndianInjective(a: seq<Byte>, b: seq<Byte>)
    requires |a| == |b| && BigEndian(a) == BigEndian(b)
    ensures a == b
  {
    if a != [] {
      BigEndianInjective(a[..|a| - 1], b[..|b| - 1]);
      assert a == a[..|a| - 1] + [a[|a| - 1]] && b == b[..|b| - 1] + [b[|b| - 1]];
    }
  }

  // ---- The code --------------------------------------------------------------------------------------

  const WORD: nat := 8

  /** The `DECIMAL` case of `raw_bytes`: a reverse copy of the number's memory. */
  method RawBytes(v: uint64) returns (bytes: seq<Byte>)
    ensures |bytes| == WORD && BigEndian(bytes) == v
  {
    hide Memory, Reversed, BigEndian, Pow256;
    var buf := Memory(v, WORD);
    bytes := [];
    var k := WORD;
    while k > 0
      invariant 0 <= k <= WORD && |bytes| == WORD - k
      invariant forall j :: 0 <= j < |bytes| ==> bytes[j] == buf[WORD - 1 - j]
    {
      k := k - 1;
      bytes := bytes + [buf[k]];
    }
    assert bytes == Reversed(buf);
    ReversedMemory(v, WORD);
    WordRange();
  }

  lemma WordRange()
    ensures Pow256(WORD) == 0x1_0000_0000_0000_0000
  {
    assert Pow256(1) == 256 && Pow256(2) == 0x1_0000 && Pow256(4) == 0x1_0000_0000 && Pow256(6) == 0x1_0000_0000_0000;
  }

  /** The shrinking branch of `bytes`: copy the tail forward over itself, then cut. */
  method ShrinkBytes(data: array<Byte>, newsize: nat) returns (bytes: seq<Byte>)
    requires newsize <= data.Length
    modifies data
    ensures bytes == old(data[..])[data.Length - newsize..]
    ensures |bytes| == newsize && BigEndian(bytes) == BigEndian(old(data[..])) % Pow256(newsize)
  {
    TailValue(data[..], newsize);
    var delta := data.Length - newsize;
    if newsize < data.Length {
      var k := delta;
      while k < data.Length
        invariant delta <= k <= data.Length
        invariant forall j :: 0 <= j < k - delta ==> data[j] == old(data[..])[j + delta]
        invariant forall j :: k - delta <= j < data.Length ==> data[j] == old(data[..])[j]
      {
        data[k - delta] := data[k];
        k := k + 1;
      }
    }
    bytes := data[..newsize];
  }

  /** A decimal literal with a width of at most eight bytes: the number modulo 256 to the width. */
  method DecimalLiteral(v: uint64, width: nat) returns (bytes: seq<Byte>)
    requires width <= WORD
    ensures |bytes| == width && BigEndian(bytes) == v % Pow256(width)
  {
    var raw := RawBytes(v);
    var data := new Byte[|raw|](i requires 0 <= i < |raw| => raw[i]);
    assert data[..] == raw;
    bytes := ShrinkBytes(data, width);
  }

  /** That is the only byte sequence of the width with this value, and it is the number itself when that fits. */
  lemma DecimalLiteralUnique(v: uint64, width: nat, bytes: seq<Byte>)
    requires |bytes| == width && BigEndian(bytes) == v % Pow256(width)
    ensures bytes == Reversed(Memory(v, width))
    ensures v < Pow256(width) ==> BigEndian(bytes) == v
  {
    ReversedMemory(v, width);
    BigEndianInjective(bytes, Reversed(Memory(v, width)));
    if v < Pow256(width) {
      RemainderUnique(v, Pow256(width), 0, v);
    }
  }
}
