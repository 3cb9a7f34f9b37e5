/** The crib scorer and the sweep over every hypothesis.

    A hypothesis says that ciphertext `i` holds the crib at offset `pos`.
    Under a reused keystream `c_i ^ c_j == p_i ^ p_j`, so XOR-ing the crib
    into `c_i ^ c_j` gives the plaintext of every other ciphertext `j` at
    that offset, if the hypothesis is right. */
module Crib {
  import opened Slices
  import opened English

  predicate AllValid(cs: seq<Slice>) {
    forall x :: 0 <= x < |cs| ==> cs[x].Valid()
  }

  /** Some index below `|texts|` differs from `i`. */
  predicate HasOther(texts: seq<seq<bv8>>, i: nat) {
    |texts| > 1 || (|texts| == 1 && i != 0)
  }

  /** When `guessCrib(crib, i, pos, ctexts)` runs without a bounds panic:
      for each other ciphertext `j` it takes `ctexts[i][pos:]` and
      `ctexts[j][pos:]` and reads `len(crib)` bytes of each. */
  predicate CribFits(texts: seq<seq<bv8>>, l: nat, i: nat, pos: nat) {
    && (HasOther(texts, i) ==> i < |texts| && pos + l <= |texts[i]|)
    && (forall j :: 0 <= j < |texts| && j != i ==> pos + l <= |texts[j]|)
  }

  /** The candidate plaintext for ciphertext `j`: the crib itself for `j == i`,
      and `c_i ^ c_j ^ crib` at the offset otherwise. */
  function Fragment(texts: seq<seq<bv8>>, crib: seq<bv8>, i: nat, pos: nat, j: nat): seq<bv8>
    requires j < |texts| && CribFits(texts, |crib|, i, pos)
  {
    if j == i then crib
    else Xor(Xor(texts[i][pos..pos + |crib|], texts[j][pos..pos + |crib|]), crib)
  }

  /** The fragments of the first `n` ciphertexts, in index order. */
  function FragmentsUpTo(texts: seq<seq<bv8>>, crib: seq<bv8>, i: nat, pos: nat, n: nat): (r: seq<seq<bv8>>)
    requires n <= |texts| && CribFits(texts, |crib|, i, pos)
    ensures |r| == n
  {
    if n == 0 then [] else FragmentsUpTo(texts, crib, i, pos, n - 1) + [Fragment(texts, crib, i, pos, n - 1)]
  }

  /** The `ptexts` array that `guessCrib` fills. */
  function Fragments(texts: seq<seq<bv8>>, crib: seq<bv8>, i: nat, pos: nat): seq<seq<bv8>>
    requires CribFits(texts, |crib|, i, pos)
  {
    FragmentsUpTo(texts, crib, i, pos, |texts|)
  }

  /** Entry `x` of the fragment list is the fragment of ciphertext `x`. */
  lemma {:induction false} FragmentsAt(texts: seq<seq<bv8>>, crib: seq<bv8>, i: nat, pos: nat, n: nat, x: nat)
    requires n <= |texts| && CribFits(texts, |crib|, i, pos) && x < n
    ensures FragmentsUpTo(texts, crib, i, pos, n)[x] == Fragment(texts, crib, i, pos, x)
  {
    if x < n - 1 {
      FragmentsAt(texts, crib, i, pos, n - 1, x);
    }
  }

  /** Byte by byte: `ptexts[i]` is the crib, and for `j != i` byte `k` of
      `ptexts[j]` is `c_i[pos+k] ^ c_j[pos+k] ^ crib[k]`. */
  lemma FragmentsPointwise(texts: seq<seq<bv8>>, crib: seq<bv8>, i: nat, pos: nat, j: nat, k: nat)
    requires CribFits(texts, |crib|, i, pos) && j < |texts| && k < |crib|
    ensures |Fragments(texts, crib, i, pos)[j]| == |crib|
    ensures Fragments(texts, crib, i, pos)[j][k]
            == if j == i then crib[k] else texts[i][pos + k] ^ texts[j][pos + k] ^ crib[k]
  {
    FragmentsAt(texts, crib, i, pos, |texts|, j);
  }

  /** The number of fragments, other than the one at index `i`, that fail the whitelist. */
  function CountInvalid(frags: seq<seq<bv8>>, i: nat): nat
  {
    if frags == [] then 0
    else CountInvalid(frags[..|frags| - 1], i)
         + (if |frags| - 1 != i && !IsEnglishASCII(frags[|frags| - 1]) then 1 else 0)
  }

  lemma CountInvalidSnoc(frags: seq<seq<bv8>>, f: seq<bv8>, i: nat)
    ensures CountInvalid(frags + [f], i)
            == CountInvalid(frags, i) + if |frags| != i && !IsEnglishASCII(f) then 1 else 0
  {
    assert (frags + [f])[..|frags|] == frags;
  }

  /** `ninvalid` of `guessCrib(crib, i, pos, ctexts)`. */
  function Ninvalid(texts: seq<seq<bv8>>, crib: seq<bv8>, i: nat, pos: nat): nat
    requires CribFits(texts, |crib|, i, pos)
  {
    CountInvalid(Fragments(texts, crib, i, pos), i)
  }

  /** The acceptance rule. The source computes the score `1 - ninvalid/10`
      (a fixed divisor of 10, whatever the number of ciphertexts) and
      reports the hypothesis when the score exceeds 0.7; over exact numbers
      that comparison holds exactly for fewer than three failures. */
  function Accepts(ninvalid: nat): (r: bool)
    ensures r <==> 1.0 - (ninvalid as real) / 10.0 > 0.7
  {
    ninvalid < 3
  }

  /** `CountInvalid` counts exactly the failing fragments at indices other than `i`. */
  lemma CountInvalidIsCardinality(frags: seq<seq<bv8>>, i: nat)
    ensures CountInvalid(frags, i) == |set j: nat | j < |frags| && j != i && !IsEnglishASCII(frags[j])|
  {
    var failing := Failing(frags, i);
    CountInvalidPrefix(frags, i, |frags|);
    assert frags[..|frags|] == frags;
    CountBelowIsCardinality(failing, |frags|);
    assert (set j: nat | j < |frags| && failing(j))
        == (set j: nat | j < |frags| && j != i && !IsEnglishASCII(frags[j]));
  }

  /** Index `j` is counted by `CountInvalid(frags, i)`. */
  function Failing(frags: seq<seq<bv8>>, i: nat): nat -> bool {
    (j: nat) => j < |frags| && j != i && !IsEnglishASCII(frags[j])
  }

  /** The number of `j < n` that satisfy `p`. */
  function CountBelow(p: nat -> bool, n: nat): nat {
    if n == 0 then 0 else CountBelow(p, n - 1) + if p(n - 1) then 1 else 0
  }

  lemma {:induction false} CountInvalidPrefix(frags: seq<seq<bv8>>, i: nat, n: nat)
    requires n <= |frags|
    ensures CountInvalid(frags[..n], i) == CountBelow(Failing(frags, i), n)
  {
    if n > 0 {
      CountInvalidPrefix(frags, i, n - 1);
      assert frags[..n][..n - 1] == frags[..n - 1] && frags[..n][n - 1] == frags[n - 1];
    }
  }

  lemma {:induction false} CountBelowIsCardinality(p: nat -> bool, n: nat)
    ensures CountBelow(p, n) == |set j: nat | j < n && p(j)|
  {
    if n > 0 {
      CountBelowIsCardinality(p, n - 1);
      var prev := set j: nat | j < n - 1 && p(j);
      if p(n - 1) {
        assert (set j: nat | j < n && p(j)) == prev + {n - 1};
      } else {
        assert (set j: nat | j < n && p(j)) == prev;
      }
    }
  }

  /** At most one count per index other than `i`: `0 <= ninvalid <= N - 1`. */
  lemma {:induction false} CountInvalidBound(frags: seq<seq<bv8>>, i: nat)
    ensures CountInvalid(frags, i) <= if i < |frags| then |frags| - 1 else |frags|
  {
    if frags != [] {
      CountInvalidBound(frags[..|frags| - 1], i);
    }
  }

  /** No failure is counted iff every fragment other than the one at `i` passes. */
  lemma {:induction false} CountInvalidZero(frags: seq<seq<bv8>>, i: nat)
    ensures CountInvalid(frags, i) == 0 <==> forall j :: 0 <= j < |frags| && j != i ==> IsEnglishASCII(frags[j])
  {
    if frags != [] {
      var init := frags[..|frags| - 1];
      CountInvalidZero(init, i);
      assert forall j :: 0 <= j < |init| ==> init[j] == frags[j];
    }
  }

  /** When every other fragment passes the whitelist, the hypothesis is accepted. */
  lemma AllValidAccepted(texts: seq<seq<bv8>>, crib: seq<bv8>, i: nat, pos: nat)
    requires CribFits(texts, |crib|, i, pos)
    requires forall j :: 0 <= j < |texts| && j != i ==> IsEnglishASCII(Fragment(texts, crib, i, pos, j))
    ensures Ninvalid(texts, crib, i, pos) == 0 && Accepts(Ninvalid(texts, crib, i, pos))
  {
    var frags := Fragments(texts, crib, i, pos);
    forall j | 0 <= j < |texts|
      ensures frags[j] == Fragment(texts, crib, i, pos, j)
    {
      FragmentsAt(texts, crib, i, pos, |texts|, j);
    }
    CountInvalidZero(frags, i);
  }

  /** Three failing fragments are enough to reject a hypothesis. */
  lemma ThreeFailuresReject(texts: seq<seq<bv8>>, crib: seq<bv8>, i: nat, pos: nat, a: nat, b: nat, c: nat)
    requires CribFits(texts, |crib|, i, pos)
    requires a < b < c < |texts| && i != a && i != b && i != c
    requires !IsEnglishASCII(Fragment(texts, crib, i, pos, a))
    requires !IsEnglishASCII(Fragment(texts, crib, i, pos, b))
    requires !IsEnglishASCII(Fragment(texts, crib, i, pos, c))
    ensures !Accepts(Ninvalid(texts, crib, i, pos))
  {
    var frags := Fragments(texts, crib, i, pos);
    FragmentsAt(texts, crib, i, pos, |texts|, a);
    FragmentsAt(texts, crib, i, pos, |texts|, b);
    FragmentsAt(texts, crib, i, pos, |texts|, c);
    ThreeInvalid(frags, i, a, b, c);
  }

  /** Three failing fragments at indices other than `i` count at least three. */
  lemma ThreeInvalid(frags: seq<seq<bv8>>, i: nat, a: nat, b: nat, c: nat)
    requires a < b < c < |frags| && i != a && i != b && i != c
    requires !IsEnglishASCII(frags[a]) && !IsEnglishASCII(frags[b]) && !IsEnglishASCII(frags[c])
    ensures CountInvalid(frags, i) >= 3
  {
    var bad := set j: nat | j < |frags| && j != i && !IsEnglishASCII(frags[j]);
    CountInvalidIsCardinality(frags, i);
    assert {a, b, c} <= bad;
    assert |{a, b, c}| == 3;
    SubsetCard({a, b, c}, bad);
  }

  lemma SubsetCard(s: set<nat>, t: set<nat>)
    requires s <= t
    ensures |s| <= |t|
  {
    assert t == s + (t - s);
  }

  /** `p` and `key` encrypt to `texts`: every ciphertext is its plaintext XOR the one key. */
  predicate SharedKey(p: seq<seq<bv8>>, key: seq<bv8>, texts: seq<seq<bv8>>) {
    |p| == |texts| && forall x :: 0 <= x < |p| ==> |p[x]| == |key| && texts[x] == Xor(p[x], key)
  }

  /** A right guess recovers every plaintext: if ciphertext `i` holds the crib
      at `pos`, each fragment is that ciphertext's true plaintext at `pos`. */
  lemma GroundTruthRecovered(p: seq<seq<bv8>>, key: seq<bv8>, texts: seq<seq<bv8>>, i: nat, pos: nat, l: nat, j: nat)
    requires SharedKey(p, key, texts)
    requires i < |texts| && j < |texts| && pos + l <= |key|
    ensures CribFits(texts, l, i, pos)
    ensures Fragment(texts, p[i][pos..pos + l], i, pos, j) == p[j][pos..pos + l]
  {
    if j != i {
      var pi, pj, k := p[i][pos..pos + l], p[j][pos..pos + l], key[pos..pos + l];
      XorWindow(p[i], key, pos, pos + l);
      XorWindow(p[j], key, pos, pos + l);
      XorKeyCancels(pi, pj, k);
      XorCommutes(pi, pj);
      XorInvolutive(pj, pi);
    }
  }

  /** Under the same conditions, with every true plaintext on the whitelist at
      that offset, the scorer accepts the true crib. */
  lemma GroundTruthAccepted(p: seq<seq<bv8>>, key: seq<bv8>, texts: seq<seq<bv8>>, i: nat, pos: nat, l: nat)
    requires SharedKey(p, key, texts)
    requires i < |texts| && pos + l <= |key|
    requires forall j :: 0 <= j < |p| && j != i ==> IsEnglishASCII(p[j][pos..pos + l])
    ensures CribFits(texts, l, i, pos)
    ensures Ninvalid(texts, p[i][pos..pos + l], i, pos) == 0
    ensures Accepts(Ninvalid(texts, p[i][pos..pos + l], i, pos))
  {
    var crib := p[i][pos..pos + l];
    GroundTruthRecovered(p, key, texts, i, pos, l, 0);
    forall j | 0 <= j < |texts| && j != i
      ensures IsEnglishASCII(Fragment(texts, crib, i, pos, j))
    {
      GroundTruthRecovered(p, key, texts, i, pos, l, j);
    }
    AllValidAccepted(texts, crib, i, pos);
  }

  /** `guessCrib(crib, i, pos, ctexts)`: builds the fragment of every
      ciphertext in one scratch buffer, counts the ones that fail the
      whitelist, and returns whether the hypothesis is accepted together
      with the fragments (which the source prints when it is). `texts` names
      the bytes the ciphertext slices show; the method only reads them. */
  method GuessCrib(crib: Slice, i: nat, pos: nat, ctexts: seq<Slice>, ghost texts: seq<seq<bv8>>, ghost cb: seq<bv8>)
    returns (accepted: bool, ptexts: seq<seq<bv8>>)
    requires crib.Valid() && AllValid(ctexts) && |texts| == |ctexts|
    requires forall x :: 0 <= x < |ctexts| ==> ctexts[x].Bytes() == texts[x]
    requires crib.Bytes() == cb
    requires CribFits(texts, |cb|, i, pos)
    ensures ptexts == Fragments(texts, cb, i, pos)
    ensures accepted == Accepts(Ninvalid(texts, cb, i, pos))
  {
    var buf := new bv8[crib.hi - crib.lo];
    ptexts := [];
    var ninvalid := 0;
    var j := 0;
    while j < |ctexts|
      invariant 0 <= j <= |ctexts|
      invariant ptexts == FragmentsUpTo(texts, cb, i, pos, j)
      invariant ninvalid == CountInvalid(ptexts, i)
    {
      ptexts, ninvalid := GuessTurn(buf, crib, i, pos, ctexts, texts, cb, j, ptexts, ninvalid);
      j := j + 1;
    }
    accepted := Accepts(ninvalid);
  }

  /** One turn of `guessCrib`'s loop over `j`: the crib itself for `j == i`;
      otherwise the candidate built in `buf`, counted when the whitelist scan
      rejects it. The fragment list and the count advance to `j + 1`. */
  method GuessTurn(buf: array<bv8>, crib: Slice, i: nat, pos: nat, ctexts: seq<Slice>, ghost texts: seq<seq<bv8>>, ghost cb: seq<bv8>,
                   j: nat, ptexts: seq<seq<bv8>>, ninvalid: nat)
    returns (ptexts': seq<seq<bv8>>, ninvalid': nat)
    requires crib.Valid() && AllValid(ctexts) && |texts| == |ctexts|
    requires forall x :: 0 <= x < |ctexts| ==> ctexts[x].Bytes() == texts[x]
    requires crib.Bytes() == cb
    requires CribFits(texts, |cb|, i, pos)
    requires buf.Length == |cb| && crib.arr != buf
    requires forall x :: 0 <= x < |ctexts| ==> ctexts[x].arr != buf
    requires j < |ctexts| && ptexts == FragmentsUpTo(texts, cb, i, pos, j) && ninvalid == CountInvalid(ptexts, i)
    modifies buf
    ensures ptexts' == FragmentsUpTo(texts, cb, i, pos, j + 1) && ninvalid' == CountInvalid(ptexts', i)
  {
    var fragment;
    ninvalid' := ninvalid;
    if i == j {
      fragment := crib.Bytes();
    } else {
      fragment := Candidate(buf, ctexts, texts, crib, i, pos, j);
      var english := ScanEnglishASCII(fragment);
      if !english {
        ninvalid' := ninvalid' + 1;
      }
    }
    GuessStep(texts, cb, i, pos, j, ptexts, fragment);
    ptexts' := ptexts + [fragment];
  }

  /** The bookkeeping of one turn: the fragment of ciphertext `j` extends
      the fragment list, and the count grows by one exactly when `j != i` and
      that fragment fails the whitelist. */
  lemma GuessStep(texts: seq<seq<bv8>>, crib: seq<bv8>, i: nat, pos: nat, j: nat,
                  ptexts: seq<seq<bv8>>, fragment: seq<bv8>)
    requires j < |texts| && CribFits(texts, |crib|, i, pos)
    requires ptexts == FragmentsUpTo(texts, crib, i, pos, j) && fragment == Fragment(texts, crib, i, pos, j)
    ensures ptexts + [fragment] == FragmentsUpTo(texts, crib, i, pos, j + 1)
    ensures CountInvalid(ptexts + [fragment], i)
            == CountInvalid(ptexts, i) + if j != i && !IsEnglishASCII(fragment) then 1 else 0
  {
    CountInvalidSnoc(ptexts, fragment, i);
  }

  /** The candidate for `j != i`: `a := ctexts[i][pos:]`, `b := ctext[pos:]`,
      then the two `xorBytes` calls; the fragment is the buffer's contents. */
  method Candidate(buf: array<bv8>, ctexts: seq<Slice>, ghost texts: seq<seq<bv8>>, crib: Slice, i: nat, pos: nat, j: nat)
    returns (fragment: seq<bv8>)
    requires AllValid(ctexts) && crib.Valid() && |texts| == |ctexts|
    requires i < |ctexts| && j < |ctexts| && j != i
    requires ctexts[i].Bytes() == texts[i] && ctexts[j].Bytes() == texts[j]
    requires CribFits(texts, crib.Len(), i, pos)
    requires buf.Length == crib.Len()
    requires ctexts[i].arr != buf && ctexts[j].arr != buf && crib.arr != buf
    modifies buf
    ensures fragment == Fragment(texts, old(crib.Bytes()), i, pos, j)
    ensures buf[..] == fragment
  {
    var a, b := ctexts[i].From(pos), ctexts[j].From(pos);
    assert a.Bytes()[..buf.Length] == texts[i][pos..pos + buf.Length];
    assert b.Bytes()[..buf.Length] == texts[j][pos..pos + buf.Length];
    CandidateInto(buf, a, b, crib);
    fragment := buf[..];
  }

  /** The two `xorBytes` calls that build one fragment in the scratch buffer:
      first `buf = a ^ b` (the two ciphertexts from the offset on), then
      `buf = buf ^ crib` in place. The sources live in other arrays. */
  method CandidateInto(buf: array<bv8>, a: Slice, b: Slice, crib: Slice)
    requires a.Valid() && b.Valid() && crib.Valid()
    requires a.Len() >= buf.Length && b.Len() >= buf.Length && crib.Len() == buf.Length
    requires a.arr != buf && b.arr != buf && crib.arr != buf
    modifies buf
    ensures buf[..] == Xor(Xor(old(a.Bytes())[..buf.Length], old(b.Bytes())[..buf.Length]), old(crib.Bytes()))
  {
    var d := Whole(buf);
    XorBytes(d, a, b);
    ghost var first := buf[..];
    assert first == d.Bytes();
    assert d.Bytes()[..buf.Length] == first && crib.Bytes()[..buf.Length] == crib.Bytes();
    XorBytes(d, d, crib);
    assert buf[..] == d.Bytes();
  }
}
