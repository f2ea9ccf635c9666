/**
  Content-defined chunking: the Gear rolling hash as the windowed sum it is, the cut point as the
  first qualifying position, and what an edit can and cannot change.  The gear table is any table
  of 256 entries.
  */
module Chunking {
  import opened Common
  import opened Bits

  const MASK_S: nat := 0x0003_5907_0353_0000
  const MASK_L: nat := 0x0000_D900_4353_0000
  const MASK_64: nat := 0xFFFF_FFFF_FFFF_FFFF
  const WORD: nat := 0x1_0000_0000_0000_0000  // 2^64

  type Gear = g: seq<nat> | |g| == 256 witness seq(256, i => 0)

  datatype Sizes = Sizes(min: nat, avg: nat, max: nat)

  // ----------------------------------------------------------------------------- the rolling hash

  /** The hash after feeding `data[lo..i]`. */
  function Fingerprint(gear: Gear, data: Bytes, lo: nat, i: nat): nat
    requires i <= |data|
  {
    if i <= lo then 0 else And(2 * Fingerprint(gear, data, lo, i - 1) + gear[data[i - 1]], MASK_64)
  }

  /** The last `w` bytes before `i`, the byte at distance `j` weighing `2^j`. */
  function WindowSum(gear: Gear, data: Bytes, i: nat, w: nat): nat
    requires w <= i <= |data|
  {
    if w == 0 then 0 else WindowSum(gear, data, i, w - 1) + gear[data[i - w]] * Pow2(w - 1)
  }

  lemma {:induction false} WindowSlides(gear: Gear, data: Bytes, i: nat, w: nat)
    requires 0 < w <= i <= |data|
    ensures WindowSum(gear, data, i, w) == 2 * WindowSum(gear, data, i - 1, w - 1) + gear[data[i - 1]]
  {
    if w > 1 {
      WindowSlides(gear, data, i, w - 1);
      var g := gear[data[i - w]];
      assert g * Pow2(w - 1) == 2 * (g * Pow2(w - 2));
      assert (i - 1) - (w - 1) == i - w;
    } else {
      assert WindowSum(gear, data, i, 0) == 0 && WindowSum(gear, data, i - 1, 0) == 0;
    }
  }

  lemma HashStep(sum: nat, g: nat)
    ensures And(2 * (sum % WORD) + g, MASK_64) == (2 * sum + g) % WORD
  {
    Pow2Values();
    hide And, Pow2;
    AndAllOnes(2 * (sum % WORD) + g, 64);
  }

  /** The hash is the weighted sum of everything fed, modulo 2^64. */
  lemma {:induction false} FingerprintIsSum(gear: Gear, data: Bytes, lo: nat, i: nat)
    requires lo <= i <= |data|
    ensures Fingerprint(gear, data, lo, i) == WindowSum(gear, data, i, i - lo) % WORD
  {
    if i > lo {
      FingerprintIsSum(gear, data, lo, i - 1);
      WindowSlides(gear, data, i, i - lo);
      HashStep(WindowSum(gear, data, i - 1, i - 1 - lo), gear[data[i - 1]]);
    }
    hide And, Pow2;
  }

  /** Bytes more than `m` back weigh a multiple of `2^m`. */
  lemma {:induction false} WindowForgets(gear: Gear, data: Bytes, i: nat, w: nat, m: nat)
    requires m <= w <= i <= |data|
    ensures WindowSum(gear, data, i, w) % Pow2(m) == WindowSum(gear, data, i, m) % Pow2(m)
  {
    if m < w {
      WindowForgets(gear, data, i, w - 1, m);
      Pow2Adds(m, w - 1 - m);
      hide Pow2;
      var g, far := gear[data[i - w]], Pow2(w - 1 - m);
      Regroup(g, Pow2(m), far);
      AddMultiple(WindowSum(gear, data, i, w - 1), Pow2(m), g * far);
    }
  }

  function Shorter(a: nat, b: nat): nat {
    if a < b then a else b
  }

  /** The low `m` bits of the hash are the weighted sum of at most the last `m` bytes fed. */
  lemma LowBitsAreRecent(gear: Gear, data: Bytes, lo: nat, i: nat, m: nat)
    requires lo <= i <= |data| && m <= 64
    ensures Fingerprint(gear, data, lo, i) % Pow2(m) == WindowSum(gear, data, i, Shorter(i - lo, m)) % Pow2(m)
  {
    Pow2Values();
    hide Pow2;
    FingerprintIsSum(gear, data, lo, i);
    ModMod(WindowSum(gear, data, i, i - lo), m, 64);
    if m <= i - lo {
      WindowForgets(gear, data, i, i - lo, m);
    }
  }

  /** The rolling hash over `data[lo..i]`: the windowed sum of at most 64 bytes, modulo 2^64. */
  lemma RollingHashIsWindowedSum(gear: Gear, data: Bytes, lo: nat, i: nat)
    requires lo <= i <= |data|
    ensures Fingerprint(gear, data, lo, i) == WindowSum(gear, data, i, Shorter(i - lo, 64)) % WORD
  {
    Pow2Values();
    hide Pow2;
    LowBitsAreRecent(gear, data, lo, i, 64);
    FingerprintIsSum(gear, data, lo, i);
  }

  lemma {:induction false} WindowSumAgrees(gear: Gear, x: Bytes, i: nat, y: Bytes, j: nat, w: nat)
    requires w <= i <= |x| && w <= j <= |y| && x[i - w..i] == y[j - w..j]
    ensures WindowSum(gear, x, i, w) == WindowSum(gear, y, j, w)
  {
    if w > 0 {
      assert x[i - w..i][0] == y[j - w..j][0];
      assert x[i - (w - 1)..i] == x[i - w..i][1..] && y[j - (w - 1)..j] == y[j - w..j][1..];
      WindowSumAgrees(gear, x, i, y, j, w - 1);
    }
  }

  /** A mask test below `2^m` is decided by the last `m` bytes, wherever they stand. */
  lemma MaskTestIsLocal(gear: Gear, mask: nat, m: nat, x: Bytes, lo: nat, i: nat, y: Bytes, lo': nat, j: nat)
    requires mask < Pow2(m) && m <= 64
    requires lo <= i <= |x| && lo' <= j <= |y|
    requires Shorter(i - lo, m) == Shorter(j - lo', m)
    requires var w := Shorter(i - lo, m); x[i - w..i] == y[j - w..j]
    ensures And(Fingerprint(gear, x, lo, i), mask) == And(Fingerprint(gear, y, lo', j), mask)
  {
    LowBitsAreRecent(gear, x, lo, i, m);
    LowBitsAreRecent(gear, y, lo', j, m);
    WindowSumAgrees(gear, x, i, y, j, Shorter(i - lo, m));
    AndSeesLowBits(Fingerprint(gear, x, lo, i), mask, m);
    AndSeesLowBits(Fingerprint(gear, y, lo', j), mask, m);
  }

  /** The strict mask reaches bit 49 and the loose one bit 47: fifty and forty-eight bytes decide. */
  lemma MaskReach(gear: Gear, x: Bytes, lo: nat, i: nat, y: Bytes, lo': nat, j: nat)
    requires lo + 50 <= i <= |x| && lo' + 50 <= j <= |y|
    ensures Pow2(49) <= MASK_S < Pow2(50) && Pow2(47) <= MASK_L < Pow2(48)
    ensures x[i - 50..i] == y[j - 50..j] ==>
              And(Fingerprint(gear, x, lo, i), MASK_S) == And(Fingerprint(gear, y, lo', j), MASK_S)
    ensures x[i - 48..i] == y[j - 48..j] ==>
              And(Fingerprint(gear, x, lo, i), MASK_L) == And(Fingerprint(gear, y, lo', j), MASK_L)
  {
    Pow2Values();
    hide Pow2, And;
    if x[i - 50..i] == y[j - 50..j] {
      MaskTestIsLocal(gear, MASK_S, 50, x, lo, i, y, lo', j);
    }
    if x[i - 48..i] == y[j - 48..j] {
      MaskTestIsLocal(gear, MASK_L, 48, x, lo, i, y, lo', j);
    }
  }

  // ------------------------------------------------------------------------------- the cut point

  function HardEnd(sz: Sizes, start: nat, n: nat): nat {
    Shorter(start + sz.max, n)
  }

  function NormEnd(sz: Sizes, start: nat, n: nat): nat {
    Shorter(start + sz.avg, HardEnd(sz, start, n))
  }

  /** Byte `i` ends a chunk by content: strict mask up to the average size, loose mask beyond. */
  predicate Qualifies(gear: Gear, sz: Sizes, data: Bytes, start: nat, i: nat)
    requires i < |data|
  {
    var fp := Fingerprint(gear, data, start + sz.min, i + 1);
    And(fp, if i < NormEnd(sz, start, |data|) then MASK_S else MASK_L) == 0
  }

  /** The first cut at or after byte `i`. */
  function CutFrom(gear: Gear, sz: Sizes, data: Bytes, start: nat, i: nat): (cut: nat)
    decreases |data| - i
  {
    if i >= HardEnd(sz, start, |data|) then HardEnd(sz, start, |data|)
    else if Qualifies(gear, sz, data, start, i) then i + 1
    else CutFrom(gear, sz, data, start, i + 1)
  }

  function Cut(gear: Gear, sz: Sizes, data: Bytes, start: nat): nat {
    CutFrom(gear, sz, data, start, start + sz.min)
  }

  /** `cut` ends the chunk at `start`: nothing after the minimum qualifies sooner, and it does or is forced. */
  ghost predicate IsFirstCut(gear: Gear, sz: Sizes, data: Bytes, start: nat, cut: nat) {
    var hard := HardEnd(sz, start, |data|);
    && cut <= hard
    && (forall i: nat :: start + sz.min <= i < hard && i + 1 < cut ==> !Qualifies(gear, sz, data, start, i))
    && (cut < hard ==> start + sz.min < cut && Qualifies(gear, sz, data, start, cut - 1))
    && (cut == hard && start + sz.min < hard ==>
          forall i: nat :: start + sz.min <= i && i + 1 < hard ==> !Qualifies(gear, sz, data, start, i))
  }

  lemma {:induction false} CutFromIsFirst(gear: Gear, sz: Sizes, data: Bytes, start: nat, i: nat, cut: nat)
    requires start + sz.min <= i
    requires forall j: nat :: start + sz.min <= j < i && j < HardEnd(sz, start, |data|) ==>
               !Qualifies(gear, sz, data, start, j)
    ensures CutFrom(gear, sz, data, start, i) == cut <==> IsFirstCut(gear, sz, data, start, cut)
    decreases |data| - i
  {
    var hard := HardEnd(sz, start, |data|);
    if i < hard {
      if Qualifies(gear, sz, data, start, i) {
      } else {
        CutFromIsFirst(gear, sz, data, start, i + 1, cut);
      }
    }
  }

  /** The cut point is the one first cut. */
  lemma CutIsTheFirst(gear: Gear, sz: Sizes, data: Bytes, start: nat, cut: nat)
    ensures Cut(gear, sz, data, start) == cut <==> IsFirstCut(gear, sz, data, start, cut)
  {
    CutFromIsFirst(gear, sz, data, start, start + sz.min, cut);
  }

  /** Whether byte `i` ends a chunk, in terms of at most the 64 bytes up to it. */
  lemma QualifiesByWindow(gear: Gear, sz: Sizes, data: Bytes, start: nat, i: nat)
    requires start + sz.min <= i < Shorter(start + sz.max, |data|)
    ensures Qualifies(gear, sz, data, start, i) <==>
            And(WindowSum(gear, data, i + 1, Shorter(i + 1 - start - sz.min, 64)) % 0x1_0000_0000_0000_0000,
                if i < start + sz.avg then 0x0003_5907_0353_0000 else 0x0000_D900_4353_0000) == 0
  {
    RollingHashIsWindowedSum(gear, data, start + sz.min, i + 1);
    hide And, WindowSum, Fingerprint;
  }

  /**
    The cut in terms of the bytes alone: byte `i` is hashed with at most the 63 before it, none of them
    from the skipped minimum, and its hash is tested against the strict mask within the average size
    and the loose mask beyond.  No byte passes before the last one of the chunk, and that one does
    unless the maximum size or the end of the data forces the cut: so there is one such point.
    */
  lemma CutByWindows(gear: Gear, sz: Sizes, data: Bytes, start: nat, i: nat)
    requires start + sz.min <= i < |data|
    ensures Cut(gear, sz, data, start) <= Shorter(start + sz.max, |data|)
    ensures i + 1 < Cut(gear, sz, data, start) ==>
              And(WindowSum(gear, data, i + 1, Shorter(i + 1 - start - sz.min, 64)) % 0x1_0000_0000_0000_0000,
                  if i < start + sz.avg then 0x0003_5907_0353_0000 else 0x0000_D900_4353_0000) != 0
    ensures i + 1 == Cut(gear, sz, data, start) < Shorter(start + sz.max, |data|) ==>
              And(WindowSum(gear, data, i + 1, Shorter(i + 1 - start - sz.min, 64)) % 0x1_0000_0000_0000_0000,
                  if i < start + sz.avg then 0x0003_5907_0353_0000 else 0x0000_D900_4353_0000) == 0
    ensures start + sz.min < Cut(gear, sz, data, start) || Cut(gear, sz, data, start) == Shorter(start + sz.max, |data|)
  {
    hide Qualifies, Cut, And, WindowSum;
    CutIsTheFirst(gear, sz, data, start, Cut(gear, sz, data, start));
    if i < Shorter(start + sz.max, |data|) {
      QualifiesByWindow(gear, sz, data, start, i);
    }
  }

  /** Chunking makes progress exactly when the maximum size is not zero. */
  lemma CutProgresses(gear: Gear, sz: Sizes, data: Bytes, start: nat)
    requires start < |data|
    ensures Cut(gear, sz, data, start) > start <==> sz.max > 0
    ensures Cut(gear, sz, data, start) <= HardEnd(sz, start, |data|)
    ensures Cut(gear, sz, data, start) < HardEnd(sz, start, |data|) ==> Cut(gear, sz, data, start) > start + sz.min
  {
    CutIsTheFirst(gear, sz, data, start, Cut(gear, sz, data, start));
  }

  /** `_cut_point`: two loops over one rolling hash. */
  method CutPoint(gear: Gear, sz: Sizes, data: Bytes, start: nat) returns (cut: nat)
    ensures cut == Cut(gear, sz, data, start)
  {
    var n := |data|;
    var hardEnd := HardEnd(sz, start, n);
    var normEnd := NormEnd(sz, start, n);
    var fp := 0;
    var i := start + sz.min;
    ghost var lo := i;
    while i < normEnd
      invariant lo <= i && (i <= n ==> fp == Fingerprint(gear, data, lo, i))
      invariant CutFrom(gear, sz, data, start, i) == Cut(gear, sz, data, start)
    {
      fp := And(2 * fp + gear[data[i]], MASK_64);
      if And(fp, MASK_S) == 0 {
        return i + 1;
      }
      i := i + 1;
    }
    while i < hardEnd
      invariant lo <= i && (i <= n ==> fp == Fingerprint(gear, data, lo, i)) && normEnd <= i
      invariant CutFrom(gear, sz, data, start, i) == Cut(gear, sz, data, start)
    {
      fp := And(2 * fp + gear[data[i]], MASK_64);
      if And(fp, MASK_L) == 0 {
        return i + 1;
      }
      i := i + 1;
    }
    return hardEnd;
  }

  // ---------------------------------------------------------------------------------- the chunks

  /** The chunks of `data[start..]` in order. */
  function Chunks(gear: Gear, sz: Sizes, data: Bytes, start: nat): seq<Bytes>
    requires sz.max > 0
    decreases |data| - start
  {
    if start >= |data| then []
    else
      CutProgresses(gear, sz, data, start);
      var end := Cut(gear, sz, data, start);
      [data[start..end]] + Chunks(gear, sz, data, end)
  }

  /** `chunk`; a zero maximum would never advance, so it is excluded. */
  method Chunk(gear: Gear, sz: Sizes, data: Bytes) returns (chunks: seq<Bytes>)
    requires sz.max > 0
    ensures chunks == Chunks(gear, sz, data, 0)
  {
    chunks := [];
    var start := 0;
    while start < |data|
      invariant start <= |data|
      invariant chunks + Chunks(gear, sz, data, start) == Chunks(gear, sz, data, 0)
    {
      CutProgresses(gear, sz, data, start);
      var end := CutPoint(gear, sz, data, start);
      chunks := chunks + [data[start..end]];
      start := end;
    }
  }

  function Joined(chunks: seq<Bytes>): Bytes {
    if chunks == [] then [] else chunks[0] + Joined(chunks[1..])
  }

  /** Joining the chunks gives the data back. */
  lemma {:induction false} ChunksJoin(gear: Gear, sz: Sizes, data: Bytes, start: nat)
    requires sz.max > 0 && start <= |data|
    ensures Joined(Chunks(gear, sz, data, start)) == data[start..]
    decreases |data| - start
  {
    if start < |data| {
      CutProgresses(gear, sz, data, start);
      var end := Cut(gear, sz, data, start);
      ChunksJoin(gear, sz, data, end);
      assert data[start..] == data[start..end] + data[end..];
    }
  }

  /** Each chunk starts where the ones before it end, and ends at its own cut. */
  lemma {:induction false} ChunkAt(gear: Gear, sz: Sizes, data: Bytes, start: nat, k: nat)
    requires sz.max > 0 && start <= |data| && k < |Chunks(gear, sz, data, start)|
    ensures var from := start + |Joined(Chunks(gear, sz, data, start)[..k])|;
            && from < Cut(gear, sz, data, from) <= |data|
            && Chunks(gear, sz, data, start)[k] == data[from..Cut(gear, sz, data, from)]
    decreases k
  {
    CutProgresses(gear, sz, data, start);
    if k > 0 {
      var end := Cut(gear, sz, data, start);
      ChunkAt(gear, sz, data, end, k - 1);
      var all, rest := Chunks(gear, sz, data, start), Chunks(gear, sz, data, end);
      assert all[..k] == [data[start..end]] + rest[..k - 1];
      assert all[..k][1..] == rest[..k - 1];
    }
  }

  ghost predicate WellSized(sz: Sizes, chunks: seq<Bytes>) {
    && (forall i :: 0 <= i < |chunks| ==> 0 < |chunks[i]| <= sz.max)
    && (forall i :: 0 <= i < |chunks| - 1 ==> |chunks[i]| > sz.min || |chunks[i]| == sz.max)
  }

  lemma WellSizedCons(sz: Sizes, first: Bytes, rest: seq<Bytes>)
    requires WellSized(sz, rest) && 0 < |first| <= sz.max
    requires rest == [] || |first| > sz.min || |first| == sz.max
    ensures WellSized(sz, [first] + rest)
  {
    var chunks := [first] + rest;
    assert forall i :: 0 < i < |chunks| ==> chunks[i] == rest[i - 1];
  }

  /** No chunk is empty or over the maximum; only the last may be at or below the minimum. */
  lemma {:induction false} ChunkSizes(gear: Gear, sz: Sizes, data: Bytes, start: nat)
    requires sz.max > 0 && start <= |data|
    ensures WellSized(sz, Chunks(gear, sz, data, start))
    decreases |data| - start
  {
    if start < |data| {
      CutProgresses(gear, sz, data, start);
      var end := Cut(gear, sz, data, start);
      ChunkSizes(gear, sz, data, end);
      WellSizedCons(sz, data[start..end], Chunks(gear, sz, data, end));
    }
  }

  // -------------------------------------------------------------------------------- edit locality

  lemma {:induction false} FingerprintAgrees(gear: Gear, x: Bytes, y: Bytes, p: nat, lo: nat, i: nat)
    requires i <= p <= |x| && p <= |y| && x[..p] == y[..p]
    ensures Fingerprint(gear, x, lo, i) == Fingerprint(gear, y, lo, i)
  {
    if i > lo {
      FingerprintAgrees(gear, x, y, p, lo, i - 1);
      assert x[..p][i - 1] == y[..p][i - 1];
    }
  }

  /** A cut strictly inside a shared prefix is made in both inputs. */
  lemma {:induction false} PrefixCutFrom(gear: Gear, sz: Sizes, x: Bytes, y: Bytes, p: nat, start: nat, i: nat)
    requires p <= |x| && p <= |y| && x[..p] == y[..p]
    requires CutFrom(gear, sz, x, start, i) < p
    ensures CutFrom(gear, sz, y, start, i) == CutFrom(gear, sz, x, start, i)
    decreases |x| - i
  {
    if i < HardEnd(sz, start, |x|) {
      CutFromReaches(gear, sz, x, start, i);
      FingerprintAgrees(gear, x, y, p, start + sz.min, i + 1);
      if !Qualifies(gear, sz, x, start, i) {
        PrefixCutFrom(gear, sz, x, y, p, start, i + 1);
      }
    }
  }

  lemma {:induction false} CutFromReaches(gear: Gear, sz: Sizes, x: Bytes, start: nat, i: nat)
    requires i < HardEnd(sz, start, |x|)
    ensures i < CutFrom(gear, sz, x, start, i)
    decreases |x| - i
  {
    if !Qualifies(gear, sz, x, start, i) && i + 1 < HardEnd(sz, start, |x|) {
      CutFromReaches(gear, sz, x, start, i + 1);
    }
  }

  lemma {:induction false} FingerprintShifts(gear: Gear, u: Bytes, s: Bytes, lo: nat, i: nat)
    requires i <= |s|
    ensures Fingerprint(gear, u + s, |u| + lo, |u| + i) == Fingerprint(gear, s, lo, i)
  {
    if i > lo {
      FingerprintShifts(gear, u, s, lo, i - 1);
      assert (u + s)[|u| + i - 1] == s[i - 1];
    }
  }

  /** Cutting looks only forward: what precedes the start does not matter. */
  lemma {:induction false} CutShifts(gear: Gear, sz: Sizes, u: Bytes, s: Bytes, start: nat, i: nat)
    ensures CutFrom(gear, sz, u + s, |u| + start, |u| + i) == |u| + CutFrom(gear, sz, s, start, i)
    decreases |s| - i
  {
    if i < HardEnd(sz, start, |s|) {
      FingerprintShifts(gear, u, s, start + sz.min, i + 1);
      if !Qualifies(gear, sz, s, start, i) {
        CutShifts(gear, sz, u, s, start, i + 1);
      }
    }
  }

  lemma SliceShifts(u: Bytes, s: Bytes, a: nat, b: nat)
    requires a <= b <= |s|
    ensures (u + s)[|u| + a..|u| + b] == s[a..b]
  {
  }

  lemma SliceAgrees(x: Bytes, y: Bytes, p: nat, a: nat, b: nat)
    requires a <= b <= p && p <= |x| && p <= |y| && x[..p] == y[..p]
    ensures x[a..b] == y[a..b]
  {
    assert x[a..b] == x[..p][a..b] && y[a..b] == y[..p][a..b];
  }

  lemma {:induction false} ChunksShift(gear: Gear, sz: Sizes, u: Bytes, s: Bytes, start: nat)
    requires sz.max > 0
    ensures Chunks(gear, sz, u + s, |u| + start) == Chunks(gear, sz, s, start)
    decreases |s| - start
  {
    if start < |s| {
      var end := Cut(gear, sz, s, start);
      assert Cut(gear, sz, u + s, |u| + start) == |u| + end by {
        CutShifts(gear, sz, u, s, start, start + sz.min);
      }
      hide Cut, CutFrom;
      CutProgresses(gear, sz, s, start);
      SliceShifts(u, s, start, end);
      ChunksShift(gear, sz, u, s, end);
    }
  }

  /** `b` is `a` itself or a chunk boundary after it. */
  predicate Reaches(gear: Gear, sz: Sizes, data: Bytes, a: nat, b: nat)
    requires sz.max > 0
    decreases |data| - a
  {
    || a == b
    || (a < |data| && a < b && (CutProgresses(gear, sz, data, a); Reaches(gear, sz, data, Cut(gear, sz, data, a), b)))
  }

  /** The chunks between two boundaries. */
  function Between(gear: Gear, sz: Sizes, data: Bytes, a: nat, b: nat): seq<Bytes>
    requires sz.max > 0 && Reaches(gear, sz, data, a, b)
    decreases |data| - a
  {
    if a == b then []
    else
      CutProgresses(gear, sz, data, a);
      [data[a..Cut(gear, sz, data, a)]] + Between(gear, sz, data, Cut(gear, sz, data, a), b)
  }

  lemma {:induction false} ChunksSplit(gear: Gear, sz: Sizes, data: Bytes, a: nat, b: nat)
    requires sz.max > 0 && Reaches(gear, sz, data, a, b)
    ensures Chunks(gear, sz, data, a) == Between(gear, sz, data, a, b) + Chunks(gear, sz, data, b)
    decreases |data| - a
  {
    if a != b {
      CutProgresses(gear, sz, data, a);
      ChunksSplit(gear, sz, data, Cut(gear, sz, data, a), b);
    }
  }

  /** Up to a boundary strictly inside a shared prefix the two inputs chunk alike. */
  lemma {:induction false} SharedPrefix(gear: Gear, sz: Sizes, x: Bytes, y: Bytes, p: nat, a: nat, b: nat)
    requires sz.max > 0 && p <= |x| && p <= |y| && x[..p] == y[..p]
    requires Reaches(gear, sz, x, a, b) && b < p
    ensures Reaches(gear, sz, y, a, b)
    ensures Between(gear, sz, y, a, b) == Between(gear, sz, x, a, b)
    decreases |x| - a
  {
    if a != b {
      CutProgresses(gear, sz, x, a);
      var end := Cut(gear, sz, x, a);
      ReachesUpwards(gear, sz, x, end, b);
      PrefixCutFrom(gear, sz, x, y, p, a, a + sz.min);
      hide Qualifies, CutFrom;
      SharedPrefix(gear, sz, x, y, p, end, b);
      SliceAgrees(x, y, p, a, end);
    }
  }

  lemma ReachesUpwards(gear: Gear, sz: Sizes, data: Bytes, a: nat, b: nat)
    requires sz.max > 0 && Reaches(gear, sz, data, a, b)
    ensures a <= b
  {
  }

  /** From boundaries that leave the same tail, the two inputs chunk alike. */
  lemma SharedSuffix(gear: Gear, sz: Sizes, x: Bytes, y: Bytes, t: nat)
    requires sz.max > 0 && t <= |x| && t <= |y| && x[|x| - t..] == y[|y| - t..]
    ensures Chunks(gear, sz, x, |x| - t) == Chunks(gear, sz, y, |y| - t)
  {
    hide Chunks;
    var s, u, v := x[|x| - t..], x[..|x| - t], y[..|y| - t];
    assert x == u + s && y == v + s;
    ChunksShift(gear, sz, u, s, 0);
    ChunksShift(gear, sz, v, s, 0);
  }

  /**
    Edit locality.  `y` is `x` edited between a shared prefix of `p` bytes and a shared suffix of `t`.
    Given a boundary `c` of `x` strictly inside the prefix, and boundaries of both at the suffix, the
    chunks of `y` are those of `x` before `c`, some new ones, and those of `x` from the suffix on: a
    device that holds `x` needs at most the chunks in between.
    */
  lemma EditLocality(gear: Gear, sz: Sizes, x: Bytes, y: Bytes, p: nat, t: nat, c: nat)
    requires sz.max > 0
    requires p <= |x| && p <= |y| && x[..p] == y[..p]
    requires t <= |x| && t <= |y| && x[|x| - t..] == y[|y| - t..]
    requires c < p && Reaches(gear, sz, x, 0, c)
    requires Reaches(gear, sz, x, 0, |x| - t) && Reaches(gear, sz, y, c, |y| - t)
    ensures Reaches(gear, sz, y, 0, c)
    ensures Chunks(gear, sz, y, 0) ==
            Between(gear, sz, x, 0, c) + Between(gear, sz, y, c, |y| - t) + Chunks(gear, sz, x, |x| - t)
    ensures forall chunk :: chunk in Chunks(gear, sz, y, 0) && chunk !in Chunks(gear, sz, x, 0) ==>
              chunk in Between(gear, sz, y, c, |y| - t)
  {
    hide Chunks, Between, Reaches;
    SharedPrefix(gear, sz, x, y, p, 0, c);
    SharedSuffix(gear, sz, x, y, t);
    ChunksSplit(gear, sz, y, 0, c);
    ChunksSplit(gear, sz, y, c, |y| - t);
    ChunksSplit(gear, sz, x, 0, c);
    ChunksSplit(gear, sz, x, 0, |x| - t);
  }
}
