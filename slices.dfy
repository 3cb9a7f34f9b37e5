/** Byte slices and byte-wise XOR.

    A Go `[]byte` is a window onto a backing array: a start, a length and a
    capacity that runs to the end of the array. `Slice` models exactly that,
    so that sub-slices (`s[k:]`, `s[a:b]`) and aliasing (a destination that
    is also a source) keep their Go meaning. */
module Slices {

  /** A byte slice: the window `arr[lo..hi]` of a shared backing array. */
  datatype Slice = Slice(arr: array<bv8>, lo: nat, hi: nat) {

    predicate Valid() {
      lo <= hi <= arr.Length
    }

    /** `len(s)` */
    function Len(): nat
      requires Valid()
    {
      hi - lo
    }

    /** `cap(s)`: a Go slice may be resliced up to the end of its array. */
    function Cap(): nat
      requires Valid()
    {
      arr.Length - lo
    }

    /** The bytes the slice currently shows. */
    function Bytes(): (r: seq<bv8>)
      reads arr
      requires Valid()
      ensures |r| == Len()
    {
      arr[lo..hi]
    }

    /** `s[k:]`, which Go allows for `k <= len(s)`. */
    function From(k: nat): (r: Slice)
      requires Valid() && k <= Len()
      ensures r.Valid() && r.arr == arr && r.Len() == Len() - k
    {
      Slice(arr, lo + k, hi)
    }

    /** `s[a:b]`, which Go allows for `a <= b <= cap(s)`. */
    function Sub(a: nat, b: nat): (r: Slice)
      requires Valid() && a <= b <= Cap()
      ensures r.Valid() && r.arr == arr && r.Len() == b - a
    {
      Slice(arr, lo + a, lo + b)
    }
  }

  /** A slice over a whole fresh array, as `make([]byte, n)` gives. */
  function Whole(arr: array<bv8>): (r: Slice)
    ensures r.Valid() && r.Len() == r.Cap() == arr.Length
  {
    Slice(arr, 0, arr.Length)
  }

  /** Byte-wise XOR of two sequences of equal length. */
  function Xor(a: seq<bv8>, b: seq<bv8>): (r: seq<bv8>)
    requires |a| == |b|
    ensures |r| == |a|
  {
    seq(|a|, k requires 0 <= k < |a| => a[k] ^ b[k])
  }

  /** `s` with the bytes from `at` on replaced by `w`. */
  function Splice(s: seq<bv8>, at: nat, w: seq<bv8>): seq<bv8>
    requires at + |w| <= |s|
  {
    s[..at] + w + s[at + |w|..]
  }

  /** A sequence that agrees byte by byte with `a ^ b` is `Xor(a, b)`. */
  lemma XorOfPointwise(s: seq<bv8>, a: seq<bv8>, b: seq<bv8>)
    requires |s| == |a| == |b|
    requires forall k :: 0 <= k < |s| ==> s[k] == a[k] ^ b[k]
    ensures s == Xor(a, b)
  {
  }

  /** XOR-ing with the same bytes twice gives the original back. */
  lemma XorInvolutive(a: seq<bv8>, b: seq<bv8>)
    requires |a| == |b|
    ensures Xor(Xor(a, b), b) == a
  {
    forall k | 0 <= k < |a|
      ensures Xor(Xor(a, b), b)[k] == a[k]
    {
      BvXorCancel(a[k], b[k]);
    }
  }

  lemma BvXorCancel(x: bv8, y: bv8)
    ensures (x ^ y) ^ y == x
  {
  }

  lemma XorCommutes(a: seq<bv8>, b: seq<bv8>)
    requires |a| == |b|
    ensures Xor(a, b) == Xor(b, a)
  {
  }

  /** Taking a window commutes with XOR. */
  lemma XorWindow(a: seq<bv8>, b: seq<bv8>, i: nat, j: nat)
    requires |a| == |b| && i <= j <= |a|
    ensures Xor(a, b)[i..j] == Xor(a[i..j], b[i..j])
  {
  }

  /** `c = p ^ k` gives `c ^ p = k` (key recovery) and `c ^ k = p` (decryption). */
  lemma XorRecover(p: seq<bv8>, k: seq<bv8>)
    requires |p| == |k|
    ensures Xor(Xor(p, k), p) == k
    ensures Xor(Xor(p, k), k) == p
  {
    XorInvolutive(p, k);
    XorCommutes(p, k);
    XorInvolutive(k, p);
  }

  /** Under a shared key, the XOR of two ciphertexts is the XOR of their plaintexts. */
  lemma XorKeyCancels(p: seq<bv8>, q: seq<bv8>, k: seq<bv8>)
    requires |p| == |q| == |k|
    ensures Xor(Xor(p, k), Xor(q, k)) == Xor(p, q)
  {
    forall x | 0 <= x < |p|
      ensures Xor(Xor(p, k), Xor(q, k))[x] == Xor(p, q)[x]
    {
      BvXorShared(p[x], q[x], k[x]);
    }
  }

  lemma BvXorShared(x: bv8, y: bv8, z: bv8)
    ensures (x ^ z) ^ (y ^ z) == x ^ y
  {
  }

  lemma SpliceFacts(s: seq<bv8>, at: nat, w: seq<bv8>, x: nat)
    requires at + |w| <= |s| && x < |s|
    ensures |Splice(s, at, w)| == |s|
    ensures Splice(s, at, w)[x] == if at <= x < at + |w| then w[x - at] else s[x]
  {
  }

  /** `src` may be read while `d` is written front to back: it lies in
      another array, or it is `d`'s own window read in step with the writes
      (as in `xorBytes(buf, buf, crib)`). */
  predicate ReadableDuring(d: Slice, src: Slice) {
    src.arr == d.arr ==> src.lo == d.lo
  }

  /** `xorBytes(d, a, b)`: for each index of `d`, `d[i] = a[i] ^ b[i]`.
      Go indexes `a` and `b` with the indices of `d`, so both must be at
      least as long; only `d`'s window of its array changes. */
  method XorBytes(d: Slice, a: Slice, b: Slice)
    requires d.Valid() && a.Valid() && b.Valid()
    requires a.Len() >= d.Len() && b.Len() >= d.Len()
    requires ReadableDuring(d, a) && ReadableDuring(d, b)
    modifies d.arr
    ensures d.Bytes() == Xor(old(a.Bytes())[..d.Len()], old(b.Bytes())[..d.Len()])
    ensures forall x :: 0 <= x < d.lo ==> d.arr[x] == old(d.arr[x])
    ensures forall x :: d.hi <= x < d.arr.Length ==> d.arr[x] == old(d.arr[x])
  {
    ghost var wa, wb := a.Bytes()[..d.Len()], b.Bytes()[..d.Len()];
    var i, n := 0, d.hi - d.lo;
    while i < n
      invariant 0 <= i <= n
      invariant forall k :: 0 <= k < i ==> d.arr[d.lo + k] == wa[k] ^ wb[k]
      invariant forall k :: i <= k < n ==> a.arr[a.lo + k] == wa[k] && b.arr[b.lo + k] == wb[k]
      invariant forall x :: 0 <= x < d.arr.Length && !(d.lo <= x < d.hi) ==> d.arr[x] == old(d.arr[x])
    {
      d.arr[d.lo + i] := a.arr[a.lo + i] ^ b.arr[b.lo + i];
      i := i + 1;
    }
    XorOfPointwise(d.Bytes(), wa, wb);
  }
}
