/** The driver of the attack after the sweep: the ciphertexts are cut to the
    length of the first, guessed plaintext is turned into key bytes with
    `solveKey`, and every ciphertext is decrypted with the key assembled so
    far. */
module Recovery {
  import opened Slices
  import opened Crib
  import Sweep

  /** The truncation loop of `run`: with `target := ctexts[0]`, every
      `ctexts[i]` becomes `ctexts[i][:len(target)]`. Go reslices against the
      capacity, so a slice shorter than the first is lengthened over its
      backing array, and one without the capacity panics. */
  method TruncateAll(ctexts: seq<Slice>) returns (r: seq<Slice>)
    requires |ctexts| >= 1 && AllValid(ctexts)
    requires forall x :: 0 <= x < |ctexts| ==> ctexts[0].Len() <= ctexts[x].Cap()
    ensures |r| == |ctexts| && AllValid(r)
    ensures forall x :: 0 <= x < |r| ==>
              r[x].arr == ctexts[x].arr && r[x].lo == ctexts[x].lo && r[x].Len() == ctexts[0].Len()
    ensures forall x :: 0 <= x < |r| && ctexts[0].Len() <= ctexts[x].Len() ==>
              r[x].Bytes() == ctexts[x].Bytes()[..ctexts[0].Len()]
  {
    var target := ctexts[0];
    r := ctexts;
    var i := 0;
    while i < |r|
      invariant 0 <= i <= |r| == |ctexts|
      invariant forall x :: 0 <= x < i ==> r[x] == ctexts[x].Sub(0, target.Len())
      invariant forall x :: i <= x < |r| ==> r[x] == ctexts[x]
    {
      r := r[i := r[i].Sub(0, target.Len())];
      i := i + 1;
    }
  }

  /** After truncation every ciphertext has the length of the first, so the
      sweep's bounds hold for any crib. */
  lemma TruncatedFits(texts: seq<seq<bv8>>, l: nat)
    requires |texts| >= 1 && forall x :: 0 <= x < |texts| ==> |texts[x]| == |texts[0]|
    ensures Sweep.SweepFits(texts, l)
  {
  }

  /** The key bytes `k` after `solveKey(key, ctext, pos, ptext)`: the window
      `[pos, pos + len(ptext))` holds `ctext ^ ptext` there, since `c = p ^ k`
      gives `k = c ^ p`. */
  function Solve(k: seq<bv8>, ctext: seq<bv8>, pos: nat, ptext: seq<bv8>): (r: seq<bv8>)
    requires pos + |ptext| <= |k| && pos + |ptext| <= |ctext|
    ensures |r| == |k|
  {
    Splice(k, pos, Xor(ctext[pos..pos + |ptext|], ptext))
  }

  /** Byte by byte: inside the window the key becomes ciphertext XOR
      plaintext; outside it nothing changes. */
  lemma SolveAt(k: seq<bv8>, ctext: seq<bv8>, pos: nat, ptext: seq<bv8>, x: nat)
    requires pos + |ptext| <= |k| && pos + |ptext| <= |ctext| && x < |k|
    ensures Solve(k, ctext, pos, ptext)[x]
            == if pos <= x < pos + |ptext| then ctext[x] ^ ptext[x - pos] else k[x]
  {
    SpliceFacts(k, pos, Xor(ctext[pos..pos + |ptext|], ptext), x);
  }

  /** Placing the same guess twice is the same as placing it once. */
  lemma SolveIdempotent(k: seq<bv8>, ctext: seq<bv8>, pos: nat, ptext: seq<bv8>)
    requires pos + |ptext| <= |k| && pos + |ptext| <= |ctext|
    ensures Solve(Solve(k, ctext, pos, ptext), ctext, pos, ptext) == Solve(k, ctext, pos, ptext)
  {
    var once := Solve(k, ctext, pos, ptext);
    var twice := Solve(once, ctext, pos, ptext);
    forall x | 0 <= x < |k|
      ensures twice[x] == once[x]
    {
      SolveAt(once, ctext, pos, ptext, x);
      SolveAt(k, ctext, pos, ptext, x);
    }
  }

  /** A later placement overwrites whatever an earlier one left in its
      window: nothing checks for a conflict. */
  lemma LaterPlacementWins(k: seq<bv8>, c1: seq<bv8>, pos1: nat, p1: seq<bv8>,
                           c2: seq<bv8>, pos2: nat, p2: seq<bv8>, x: nat)
    requires pos1 + |p1| <= |k| && pos1 + |p1| <= |c1|
    requires pos2 + |p2| <= |k| && pos2 + |p2| <= |c2|
    requires pos2 <= x < pos2 + |p2|
    ensures Solve(Solve(k, c1, pos1, p1), c2, pos2, p2)[x] == Solve(k, c2, pos2, p2)[x] == c2[x] ^ p2[x - pos2]
  {
    SolveAt(Solve(k, c1, pos1, p1), c2, pos2, p2, x);
    SolveAt(k, c2, pos2, p2, x);
  }

  /** A right guess recovers the key: if `ctext = p ^ K` and `ptext` is the
      true plaintext at `pos`, the window of the key becomes `K`'s. */
  lemma SolveRecovers(k: seq<bv8>, p: seq<bv8>, key: seq<bv8>, pos: nat, l: nat)
    requires |p| == |key| == |k| && pos + l <= |key|
    ensures Solve(k, Xor(p, key), pos, p[pos..pos + l])[pos..pos + l] == key[pos..pos + l]
  {
    var c := Xor(p, key);
    XorWindow(p, key, pos, pos + l);
    XorRecover(p[pos..pos + l], key[pos..pos + l]);
    var r := Solve(k, c, pos, p[pos..pos + l]);
    forall x | pos <= x < pos + l
      ensures r[x] == key[x]
    {
      SolveAt(k, c, pos, p[pos..pos + l], x);
      assert c[pos..pos + l][x - pos] == c[x];
    }
  }

  /** `solveKey(key, ctext, pos, ptext)`, that is
      `xorBytes(key[pos:pos+len(ptext)], ctext[pos:], ptext)`. Go checks the
      key's window against the key's capacity and `ctext[pos:]` against the
      ciphertext's length, and `xorBytes` then reads `len(ptext)` bytes of
      `ctext[pos:]`. The key's backing array changes in that window only. */
  method SolveKey(key: Slice, ctext: Slice, pos: nat, ptext: Slice)
    requires key.Valid() && ctext.Valid() && ptext.Valid()
    requires pos + ptext.Len() <= key.Cap()
    requires pos <= ctext.Len() && ptext.Len() <= ctext.Len() - pos
    requires ReadableDuring(key.Sub(pos, pos + ptext.Len()), ctext.From(pos))
    requires ReadableDuring(key.Sub(pos, pos + ptext.Len()), ptext)
    modifies key.arr
    ensures key.arr[key.lo + pos..key.lo + pos + ptext.Len()]
            == Xor(old(ctext.Bytes())[pos..pos + ptext.Len()], old(ptext.Bytes()))
    ensures forall x :: 0 <= x < key.arr.Length && !(key.lo + pos <= x < key.lo + pos + ptext.Len()) ==>
              key.arr[x] == old(key.arr[x])
  {
    var window, src := key.Sub(pos, pos + ptext.Len()), ctext.From(pos);
    assert src.Bytes()[..ptext.Len()] == ctext.Bytes()[pos..pos + ptext.Len()];
    XorBytes(window, src, ptext);
  }

  /** When the window lies within the key's length `[lo, hi)`, the bytes
      `SolveKey` leaves are those `Solve` gives. */
  lemma SolveKeyBytes(before: seq<bv8>, after: seq<bv8>, lo: nat, hi: nat, c: seq<bv8>, pos: nat, p: seq<bv8>)
    requires lo <= hi <= |before| == |after| && pos + |p| <= hi - lo && pos + |p| <= |c|
    requires after[lo + pos..lo + pos + |p|] == Xor(c[pos..pos + |p|], p)
    requires forall x :: 0 <= x < |after| && !(lo + pos <= x < lo + pos + |p|) ==> after[x] == before[x]
    ensures after[lo..hi] == Solve(before[lo..hi], c, pos, p)
  {
    forall x | 0 <= x < hi - lo
      ensures after[lo..hi][x] == Solve(before[lo..hi], c, pos, p)[x]
    {
      SolveAt(before[lo..hi], c, pos, p, x);
      if pos <= x < pos + |p| {
        assert after[lo + x] == after[lo + pos..lo + pos + |p|][x - pos];
      }
    }
  }

  /** One plaintext guess of the driver: ciphertext `index` holds `ptext` at `pos`. */
  datatype Placement = Placement(index: nat, pos: nat, ptext: seq<bv8>)

  /** Every placement names a ciphertext and fits in the key of length `n`
      and in that ciphertext. */
  predicate PlacementsFit(texts: seq<seq<bv8>>, n: nat, ps: seq<Placement>) {
    forall q :: 0 <= q < |ps| ==>
      ps[q].index < |texts| && ps[q].pos + |ps[q].ptext| <= n && ps[q].pos + |ps[q].ptext| <= |texts[ps[q].index]|
  }

  /** The key after the driver's `solveKey` calls, in order, starting from `k`. */
  function Accumulate(k: seq<bv8>, texts: seq<seq<bv8>>, ps: seq<Placement>): (r: seq<bv8>)
    requires PlacementsFit(texts, |k|, ps)
    ensures |r| == |k|
  {
    if ps == [] then k
    else
      var last := ps[|ps| - 1];
      Solve(Accumulate(k, texts, ps[..|ps| - 1]), texts[last.index], last.pos, last.ptext)
  }

  /** Byte `x` lies in the window of some placement. */
  predicate Covered(ps: seq<Placement>, x: nat) {
    exists q :: 0 <= q < |ps| && ps[q].pos <= x < ps[q].pos + |ps[q].ptext|
  }

  /** Every placement is right: its text is the true plaintext there. */
  predicate PlacementsRight(p: seq<seq<bv8>>, ps: seq<Placement>) {
    forall q :: 0 <= q < |ps| ==>
      ps[q].index < |p| && ps[q].pos + |ps[q].ptext| <= |p[ps[q].index]|
      && ps[q].ptext == p[ps[q].index][ps[q].pos..ps[q].pos + |ps[q].ptext|]
  }

  /** With right placements under a shared key `K`, the assembled key agrees
      with `K` on every covered byte and keeps its starting value elsewhere,
      whatever the order of the calls. */
  lemma {:induction false} AccumulateRecovers(k: seq<bv8>, p: seq<seq<bv8>>, key: seq<bv8>,
                                              texts: seq<seq<bv8>>, ps: seq<Placement>, x: nat)
    requires SharedKey(p, key, texts) && |k| == |key| && x < |key|
    requires PlacementsFit(texts, |k|, ps) && PlacementsRight(p, ps)
    ensures Accumulate(k, texts, ps)[x] == if Covered(ps, x) then key[x] else k[x]
  {
    if ps != [] {
      var init, last := ps[..|ps| - 1], ps[|ps| - 1];
      PlacementsPrefix(p, texts, |k|, ps);
      AccumulateRecovers(k, p, key, texts, init, x);
      CoveredSnoc(ps, x);
      SolveAt(Accumulate(k, texts, init), texts[last.index], last.pos, last.ptext, x);
      if last.pos <= x < last.pos + |last.ptext| {
        RightPlacementRecovers(p, key, texts, ps, |ps| - 1, x);
      }
    }
  }

  lemma PlacementsPrefix(p: seq<seq<bv8>>, texts: seq<seq<bv8>>, n: nat, ps: seq<Placement>)
    requires ps != [] && PlacementsFit(texts, n, ps) && PlacementsRight(p, ps)
    ensures PlacementsFit(texts, n, ps[..|ps| - 1]) && PlacementsRight(p, ps[..|ps| - 1])
  {
    var init := ps[..|ps| - 1];
    forall q | 0 <= q < |init|
      ensures init[q] == ps[q]
    {
    }
  }

  /** Byte `x` is covered by `ps` iff it is covered by all but the last
      placement or by the last one. */
  lemma CoveredSnoc(ps: seq<Placement>, x: nat)
    requires ps != []
    ensures Covered(ps, x) <==> Covered(ps[..|ps| - 1], x)
                                || ps[|ps| - 1].pos <= x < ps[|ps| - 1].pos + |ps[|ps| - 1].ptext|
  {
    var init := ps[..|ps| - 1];
    if Covered(ps, x) {
      var q :| 0 <= q < |ps| && ps[q].pos <= x < ps[q].pos + |ps[q].ptext|;
      if q < |init| {
        assert init[q] == ps[q];
      }
    }
    if Covered(init, x) {
      var q :| 0 <= q < |init| && init[q].pos <= x < init[q].pos + |init[q].ptext|;
      assert ps[q] == init[q];
    }
  }

  /** A right placement at `q` turns byte `x` of its window into the key byte. */
  lemma RightPlacementRecovers(p: seq<seq<bv8>>, key: seq<bv8>, texts: seq<seq<bv8>>, ps: seq<Placement>, q: nat, x: nat)
    requires SharedKey(p, key, texts) && PlacementsRight(p, ps) && q < |ps|
    requires ps[q].pos <= x < ps[q].pos + |ps[q].ptext| && x < |key|
    ensures texts[ps[q].index][x] ^ ps[q].ptext[x - ps[q].pos] == key[x]
  {
    var pl := ps[q];
    var i := pl.index;
    var t := p[i];
    assert |t| == |key| && texts[i] == Xor(t, key);
    assert pl.ptext == t[pl.pos..pl.pos + |pl.ptext|];
    assert pl.ptext[x - pl.pos] == t[x];
    BvXorCancelLeft(t[x], key[x]);
  }

  lemma BvXorCancelLeft(x: bv8, y: bv8)
    ensures (x ^ y) ^ x == y
  {
  }

  /** The decryption loop of `run`: one buffer of `len(target)` bytes is
      reused, `xorBytes(ptext, ctext, key)` fills it for each ciphertext in
      turn, and its contents are printed; the result lists what is printed,
      in order. `texts` and `kb` name the bytes the ciphertext slices and the
      key show; the loop only reads them. */
  method DecryptAll(ctexts: seq<Slice>, key: Slice, n: nat, ghost texts: seq<seq<bv8>>, ghost kb: seq<bv8>)
    returns (out: seq<seq<bv8>>)
    requires AllValid(ctexts) && key.Valid() && |texts| == |ctexts|
    requires forall x :: 0 <= x < |ctexts| ==> ctexts[x].Bytes() == texts[x]
    requires key.Bytes() == kb
    requires n <= |kb| && forall x :: 0 <= x < |texts| ==> n <= |texts[x]|
    ensures |out| == |ctexts|
    ensures forall x :: 0 <= x < |out| ==> out[x] == Xor(texts[x][..n], kb[..n])
  {
    var ptext := new bv8[n];
    out := [];
    var i := 0;
    while i < |ctexts|
      invariant 0 <= i <= |ctexts| && |out| == i
      invariant forall x :: 0 <= x < i ==> out[x] == Xor(texts[x][..n], kb[..n])
    {
      var plain := DecryptOne(ptext, ctexts[i], key, texts[i], kb);
      out := out + [plain];
      i := i + 1;
    }
  }

  /** One turn of the decryption loop: `xorBytes(ptext, ctext, key)` and the
      bytes it leaves in the buffer. */
  method DecryptOne(ptext: array<bv8>, ctext: Slice, key: Slice, ghost t: seq<bv8>, ghost kb: seq<bv8>)
    returns (plain: seq<bv8>)
    requires ctext.Valid() && key.Valid() && ctext.Bytes() == t && key.Bytes() == kb
    requires ptext.Length <= |t| && ptext.Length <= |kb|
    requires ctext.arr != ptext && key.arr != ptext
    modifies ptext
    ensures plain == Xor(t[..ptext.Length], kb[..ptext.Length])
    ensures ptext[..] == plain
  {
    XorBytes(Whole(ptext), ctext, key);
    plain := ptext[..];
    assert plain == Whole(ptext).Bytes();
  }

  /** The attack end to end: under a shared key `K`, with every ciphertext
      cut to the key's length and right placements, the decryption prints
      each true plaintext on every byte some placement covers. */
  lemma DecryptionRecovers(p: seq<seq<bv8>>, key: seq<bv8>, texts: seq<seq<bv8>>, k: seq<bv8>,
                           ps: seq<Placement>, j: nat, x: nat)
    requires SharedKey(p, key, texts) && |k| == |key|
    requires PlacementsFit(texts, |k|, ps) && PlacementsRight(p, ps)
    requires j < |texts| && x < |key| && Covered(ps, x)
    ensures Xor(texts[j][..|key|], Accumulate(k, texts, ps))[x] == p[j][x]
  {
    AccumulateRecovers(k, p, key, texts, ps, x);
    BvXorCancel(p[j][x], key[x]);
  }
}
