/** Bytes, optional values and the sequence vocabulary shared by the models. */
module Bytes {

  type byte = x: int | 0 <= x < 256

  datatype Option<+T> = None | Some(value: T)

  /** A byte where the source masks and shifts its bits; elsewhere a byte is a number. */
  type octet = bv8

  /* ---- 16-bit size fields ---- */

  /** The value of the bits of `x` below `d`, a power of two. */
  function Low(x: nat, d: nat): (r: nat)
    requires d > 0
    ensures r < d && r <= x
  {
    if x < d then x else Low(x - d, d)
  }

  /** The value of the bits of `x` from `d` on. */
  function High(x: nat, d: nat): nat
    requires d > 0
  {
    if x < d then 0 else 1 + High(x - d, d)
  }

  lemma {:induction false} Parts(x: nat, d: nat)
    requires d > 0
    ensures x == High(x, d) * d + Low(x, d)
  {
    if x >= d {
      Parts(x - d, d);
      assert (1 + High(x - d, d)) * d == d + High(x - d, d) * d;
    }
  }

  /** The octet that holds a number below 256, and the number an octet holds. */
  function Octet(x: nat): octet
  {
    if x == 0 then 0 else Octet(x - 1) + 1
  }

  function Value(b: octet): nat
  {
    if b == 0 then 0 else 1 + Value(b - 1)
  }

  lemma {:induction false} ValueIs(b: octet)
    ensures Value(b) == b as nat
  {
    if b != 0 {
      ValueIs(b - 1);
      Predecessor(b);
    }
  }

  lemma Predecessor(b: octet)
    requires b != 0
    ensures (b - 1) as nat == b as nat - 1
  {
  }

  lemma ValueBound(b: octet)
    ensures Value(b) < 256
  {
    ValueIs(b);
  }

  lemma {:induction false} OctetValue(x: nat)
    requires x < 256
    ensures Value(Octet(x)) == x
  {
    if x > 0 {
      OctetValue(x - 1);
      ValueIs(255);
    }
  }

  /** The low 16 bits of a size in network byte order. */
  function SizeField(size: nat): (s: seq<octet>)
    ensures |s| == 2
  {
    [Octet(Low(High(size, 256), 256)), Octet(Low(size, 256))]
  }

  function BigEndian(hi: octet, lo: octet): nat
  {
    Value(hi) * 256 + Value(lo)
  }

  lemma {:induction false} ValueOctet(b: octet)
    ensures Octet(Value(b)) == b
  {
    if b != 0 {
      ValueOctet(b - 1);
    }
  }

  lemma {:induction false} PartsUnique(q: nat, d: nat, r: nat)
    requires r < d
    ensures High(q * d + r, d) == q && Low(q * d + r, d) == r
  {
    if q > 0 {
      PartsUnique(q - 1, d, r);
      assert q * d + r - d == (q - 1) * d + r && q * d >= d;
    }
  }

  /** Every two octets are the size field of the number they hold. */
  lemma FieldOfSize(hi: octet, lo: octet)
    ensures SizeField(BigEndian(hi, lo)) == [hi, lo] && BigEndian(hi, lo) < 65536
  {
    ValueBound(hi);
    ValueBound(lo);
    PartsUnique(Value(hi), 256, Value(lo));
    ValueOctet(hi);
    ValueOctet(lo);
  }

  /** Only sizes below 2^16 read back. */
  lemma SizeFieldReads(size: nat, k: nat)
    requires k == BigEndian(SizeField(size)[0], SizeField(size)[1])
    ensures k <= size && k < 65536 && (size < 65536 ==> k == size)
  {
    var h := High(size, 256);
    Parts(size, 256);
    OctetValue(Low(size, 256));
    OctetValue(Low(h, 256));
  }

  /* ---- sequences ---- */

  /** The concatenation of a sequence of sequences, in order. */
  function Flatten<T>(xss: seq<seq<T>>): seq<T>
  {
    if xss == [] then [] else xss[0] + Flatten(xss[1..])
  }

  lemma {:induction false} FlattenAppend<T>(xss: seq<seq<T>>, yss: seq<seq<T>>)
    ensures Flatten(xss + yss) == Flatten(xss) + Flatten(yss)
  {
    if xss == [] {
      assert xss + yss == yss;
    } else {
      assert (xss + yss)[1..] == xss[1..] + yss;
      FlattenAppend(xss[1..], yss);
    }
  }

  lemma FlattenOne<T>(xs: seq<T>)
    ensures Flatten([xs]) == xs
  {
    assert [xs][1..] == [];
  }

  lemma Assoc<T>(a: seq<T>, b: seq<T>, c: seq<T>)
    ensures a + b + c == a + (b + c)
  {
  }

  lemma Assoc4<T>(a: seq<T>, b: seq<T>, c: seq<T>, d: seq<T>)
    ensures a + (b + c + d) == a + b + c + d
  {
  }

  lemma Slices<T>(a: seq<T>, b: seq<T>, c: seq<T>)
    ensures (a + b + c)[..|a|] == a
    ensures (a + b + c)[|a|..|a| + |b|] == b
    ensures (a + b + c)[|a| + |b|..] == c
  {
  }

  lemma SamePrefix<T>(p: seq<T>, a: seq<T>, b: seq<T>)
    ensures p + a == p + b <==> a == b
  {
    assert (p + a)[|p|..] == a && (p + b)[|p|..] == b;
  }

  /** Two sequences that disagree at a position both of them have. */
  ghost predicate Clash<T(!new)>(a: seq<T>, b: seq<T>)
  {
    exists k :: 0 <= k < |a| && k < |b| && a[k] != b[k]
  }

  /** A disagreement survives a common prefix and arbitrary suffixes. */
  lemma ClashInContext<T(!new)>(p: seq<T>, a: seq<T>, x: seq<T>, b: seq<T>, y: seq<T>)
    requires Clash(a, b)
    ensures Clash(p + a + x, p + b + y)
    ensures p + a + x != p + b + y
  {
    var k :| 0 <= k < |a| && k < |b| && a[k] != b[k];
    assert (p + a + x)[|p| + k] == a[k];
    assert (p + b + y)[|p| + k] == b[k];
  }

  /** Copies `n` elements from `r` on in one array to `w` on in another. */
  method Memcpy<T>(dst: array<T>, w: nat, src: array<T>, r: nat, n: nat)
    requires dst != src && (n > 0 ==> w + n <= dst.Length && r + n <= src.Length)
    modifies dst
    ensures forall k :: 0 <= k < dst.Length ==> dst[k] == if w <= k < w + n then src[r + (k - w)] else old(dst[k])
  {
    forall k | 0 <= k < n {
      dst[w + k] := src[r + k];
    }
  }
}
