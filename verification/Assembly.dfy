/** What a context knows and what is assembled from it: lost fragments never shift the data of the others. */
module Assembly {
  import opened Machine
  import opened Protocol
  import opened ReassemblyModel

  // ----- counting -----

  function Count(bits: seq<bool>): (n: nat)
    ensures n <= |bits|
  {
    if bits == [] then 0 else Count(bits[..|bits| - 1]) + if bits[|bits| - 1] then 1 else 0
  }

  function Sum(sizes: seq<nat>): nat {
    if sizes == [] then 0 else Sum(sizes[..|sizes| - 1]) + sizes[|sizes| - 1]
  }

  lemma {:induction false} CountSet(bits: seq<bool>, i: nat)
    requires i < |bits| && !bits[i]
    ensures Count(bits[i := true]) == Count(bits) + 1
  {
    var n := |bits| - 1;
    if i == n {
      assert bits[i := true][..n] == bits[..n];
    } else {
      assert bits[i := true][..n] == bits[..n][i := true];
      CountSet(bits[..n], i);
    }
  }

  lemma {:induction false} CountFull(bits: seq<bool>)
    ensures Count(bits) == |bits| <==> forall i :: 0 <= i < |bits| ==> bits[i]
  {
    if bits != [] {
      var n := |bits| - 1;
      CountFull(bits[..n]);
      if forall i :: 0 <= i < n ==> bits[..n][i] {
        assert forall i :: 0 <= i < n ==> bits[i] == bits[..n][i];
      }
    }
  }

  lemma {:induction false} CountNone(bits: seq<bool>)
    requires forall i :: 0 <= i < |bits| ==> !bits[i]
    ensures Count(bits) == 0
  {
    if bits != [] {
      CountNone(bits[..|bits| - 1]);
    }
  }

  lemma {:induction false} CountPrefix(bits: seq<bool>, n: nat)
    requires n <= |bits| && forall i :: n <= i < |bits| ==> !bits[i]
    ensures Count(bits) == Count(bits[..n])
  {
    if n < |bits| {
      var m := |bits| - 1;
      CountPrefix(bits[..m], n);
      assert bits[..m][..n] == bits[..n];
    } else {
      assert bits[..n] == bits;
    }
  }

  lemma {:induction false} SumSet(sizes: seq<nat>, i: nat, x: nat)
    requires i < |sizes| && sizes[i] == 0
    ensures Sum(sizes[i := x]) == Sum(sizes) + x
  {
    var n := |sizes| - 1;
    if i == n {
      assert sizes[i := x][..n] == sizes[..n];
    } else {
      assert sizes[i := x][..n] == sizes[..n][i := x];
      SumSet(sizes[..n], i, x);
    }
  }

  lemma {:induction false} SumZero(sizes: seq<nat>)
    requires forall i :: 0 <= i < |sizes| ==> sizes[i] == 0
    ensures Sum(sizes) == 0
  {
    if sizes != [] {
      SumZero(sizes[..|sizes| - 1]);
    }
  }

  lemma {:induction false} SumAtMost(a: seq<nat>, b: seq<nat>)
    requires |a| == |b| && forall i :: 0 <= i < |a| ==> a[i] <= b[i]
    ensures Sum(a) <= Sum(b)
  {
    if a != [] {
      SumAtMost(a[..|a| - 1], b[..|b| - 1]);
    }
  }

  // ----- the invariant of a context -----

  /** The tables agree: bits, counters, sizes and references tell the same story. */
  ghost predicate Coherent(c: Context) {
    && c.Shape()
    && (forall i :: c.totalFrags <= i < MAX_FRAGMENTS ==> !c.received[i])
    && (forall i :: 0 <= i < c.totalFrags ==> c.sizes[i] == RefSize(c.refs[i]))
    && (forall i :: 0 <= i < c.totalFrags && !c.received[i] ==> c.refs[i] == NoData)
    && c.receivedCount == Count(c.received)
    && c.receivedBytes == Sum(c.sizes)
  }

  lemma NewContextCoherent(totalFrags: u16, tailBytes: u16, ts: u64, now: u64)
    requires 0 < totalFrags <= MAX_FRAGMENTS
    ensures Coherent(NewContext(totalFrags, tailBytes, ts, now))
  {
    CountNone(seq(MAX_FRAGMENTS, _ => false));
    SumZero(seq(totalFrags, _ => 0));
  }

  lemma StoreCoherent(cfg: Config, c: Context, f: Fragment, r: FragmentRef)
    requires Coherent(c) && Judge(cfg, c, f) == Store && RefSize(r) == f.size
    ensures Coherent(StoreFragment(c, f, r))
  {
    var i := f.header.fragIndex;
    CountSet(c.received, i);
    SumSet(c.sizes, i, f.size);
  }

  /** A context is complete exactly when every one of its fragments has arrived. */
  lemma CompleteIffAllReceived(c: Context)
    requires Coherent(c)
    ensures c.Complete() <==> forall i :: 0 <= i < c.totalFrags ==> c.received[i]
  {
    CountPrefix(c.received, c.totalFrags);
    CountFull(c.received[..c.totalFrags]);
    assert forall i :: 0 <= i < c.totalFrags ==> c.received[..c.totalFrags][i] == c.received[i];
  }

  // ----- the missing list -----

  lemma {:induction false} MissingSpec(c: Context, n: nat)
    requires c.Shape() && n <= c.totalFrags
    ensures forall i :: i in Missing(c, n) <==> 0 <= i < n && !c.Present(i)
    ensures forall i, j :: 0 <= i < j < |Missing(c, n)| ==> Missing(c, n)[i] < Missing(c, n)[j]
  {
    if n > 0 {
      MissingSpec(c, n - 1);
      var front := Missing(c, n - 1);
      assert forall i :: 0 <= i < |front| ==> front[i] in front;
    }
  }

  lemma SomeMember(s: seq<nat>)
    ensures s != [] ==> exists x :: x in s
  {
    if s != [] {
      assert s[0] in s;
    }
  }

  /** A fully received frame is reported complete exactly when none of its fragments is empty; an
      empty tail is stored without data and comes out as missing. */
  lemma CompletedFrameIsReportedCompleteIff(cfg: Config, mem: Memory, key: ReassemblyKey, c: Context)
    requires Coherent(c) && c.Complete()
    ensures MakeFrame(cfg, mem, key, c).isComplete <==> forall i :: 0 <= i < c.totalFrags ==> c.sizes[i] > 0
  {
    CompleteIffAllReceived(c);
    MissingSpec(c, c.totalFrags);
    var missing := Missing(c, c.totalFrags);
    SomeMember(missing);
    if exists i :: 0 <= i < c.totalFrags && c.sizes[i] == 0 {
      var i :| 0 <= i < c.totalFrags && c.sizes[i] == 0;
      assert !c.Present(i);
      assert i in missing;
    } else {
      assert forall i :: 0 <= i < c.totalFrags ==> c.Present(i);
      assert forall i :: i !in missing;
    }
  }

  // ----- the original frame -----

  function Concat(chunks: seq<Bytes>): Bytes {
    if chunks == [] then [] else Concat(chunks[..|chunks| - 1]) + chunks[|chunks| - 1]
  }

  function Lengths(chunks: seq<Bytes>): (r: seq<nat>)
    ensures |r| == |chunks|
  {
    seq(|chunks|, i requires 0 <= i < |chunks| => |chunks[i]|)
  }

  /** A frame as the sender cut it: equal non-empty pieces and a non-empty tail. */
  ghost predicate WellCut(chunks: seq<Bytes>) {
    && 0 < |chunks| <= MAX_FRAGMENTS
    && (forall i :: 0 <= i < |chunks| ==> |chunks[i]| > 0)
    && (forall i :: 0 <= i < |chunks| - 1 ==> |chunks[i]| == |chunks[0]|)
  }

  /** The original with the pieces that did not arrive blanked in place. */
  function Masked(chunks: seq<Bytes>, got: seq<bool>): Bytes
    requires |got| == |chunks|
  {
    if chunks == [] then []
    else
      var n := |chunks| - 1;
      Masked(chunks[..n], got[..n]) + if got[n] then chunks[n] else Zeros(|chunks[n]|)
  }

  lemma {:induction false} MaskedLength(chunks: seq<Bytes>, got: seq<bool>)
    requires |got| == |chunks|
    ensures |Masked(chunks, got)| == |Concat(chunks)|
    ensures (forall i :: 0 <= i < |got| ==> got[i]) ==> Masked(chunks, got) == Concat(chunks)
  {
    if chunks != [] {
      MaskedLength(chunks[..|chunks| - 1], got[..|chunks| - 1]);
    }
  }

  /** Whether the length of a lost non-tail piece can be known. */
  ghost predicate SizeKnown(cfg: Config, key: ReassemblyKey, chunks: seq<Bytes>, got: seq<bool>)
    requires |got| == |chunks| > 0
  {
    |chunks| == 1 || (exists i :: 0 <= i < |chunks| - 1 && got[i]) || DefaultSize(cfg, key) == |chunks[0]|
  }

  /** The context holds pieces of this frame and nothing else. */
  ghost predicate Matches(mem: Memory, c: Context, chunks: seq<Bytes>) {
    && Coherent(c) && WellCut(chunks)
    && c.totalFrags == |chunks| && c.tailBytes == |chunks[|chunks| - 1]|
    && forall i :: 0 <= i < |chunks| && c.received[i] ==> RefBytes(mem, c.refs[i]) == chunks[i]
  }

  function Got(c: Context): (got: seq<bool>)
    requires c.Shape()
    ensures |got| == c.totalFrags
  {
    c.received[..c.totalFrags]
  }

  lemma PresentIffReceived(mem: Memory, c: Context, chunks: seq<Bytes>, i: nat)
    requires Matches(mem, c, chunks) && i < |chunks|
    ensures c.Present(i) <==> c.received[i]
    ensures c.received[i] ==> c.sizes[i] == |chunks[i]|
    ensures !c.received[i] ==> c.sizes[i] == 0
  {
  }

  /** The table has a length for a full piece exactly when it was received, and it is the common one. */
  lemma SizeOfReceived(mem: Memory, c: Context, chunks: seq<Bytes>, i: nat)
    requires Matches(mem, c, chunks)
    ensures c.Shape() && c.totalFrags == |chunks|
    ensures i + 1 < |chunks| ==> (c.sizes[i] > 0 <==> c.received[i]) && (c.received[i] ==> c.sizes[i] == |chunks[0]|)
  {
    hide Sum, Count;
    if i + 1 < |chunks| {
      PresentIffReceived(mem, c, chunks, i);
    }
  }

  lemma {:induction false} KnownSizeIsTheCommonSize(mem: Memory, c: Context, chunks: seq<Bytes>, i: nat)
    requires Matches(mem, c, chunks)
    ensures FirstKnownSize(c, i) ==
      if exists j :: i <= j < |chunks| - 1 && c.received[j] then Some(|chunks[0]|) else None
    decreases |chunks| - i
  {
    hide Matches;
    SizeOfReceived(mem, c, chunks, i);
    if i + 1 < |chunks| {
      KnownSizeIsTheCommonSize(mem, c, chunks, i + 1);
      if !c.received[i] && exists j :: i <= j < |chunks| - 1 && c.received[j] {
        var j :| i <= j < |chunks| - 1 && c.received[j];
        assert i + 1 <= j;
      }
    }
  }

  lemma InferredSize(cfg: Config, mem: Memory, key: ReassemblyKey, c: Context, chunks: seq<Bytes>, i: nat)
    requires Matches(mem, c, chunks) && i < |chunks|
    ensures SizeKnown(cfg, key, chunks, Got(c)) ==> InferSize(cfg, key, c, i) == |chunks[i]|
    ensures !SizeKnown(cfg, key, chunks, Got(c)) && i + 1 < |chunks| ==> InferSize(cfg, key, c, i) == DefaultSize(cfg, key)
    ensures i + 1 == |chunks| ==> InferSize(cfg, key, c, i) == |chunks[i]|
  {
    KnownSizeIsTheCommonSize(mem, c, chunks, 0);
    assert forall j :: 0 <= j < |chunks| ==> Got(c)[j] == c.received[j];
  }

  lemma {:induction false} AssembledWhenKnown(cfg: Config, mem: Memory, key: ReassemblyKey, c: Context, chunks: seq<Bytes>, n: nat)
    requires Matches(mem, c, chunks) && n <= |chunks| && SizeKnown(cfg, key, chunks, Got(c))
    ensures Assembled(cfg, mem, key, c, n) == Masked(chunks[..n], Got(c)[..n])
  {
    if n > 0 {
      AssembledWhenKnown(cfg, mem, key, c, chunks, n - 1);
      assert chunks[..n][..n - 1] == chunks[..n - 1] && Got(c)[..n][..n - 1] == Got(c)[..n - 1];
      PresentIffReceived(mem, c, chunks, n - 1);
      InferredSize(cfg, mem, key, c, chunks, n - 1);
    }
  }

  lemma {:induction false} LengthWhenUnknown(cfg: Config, mem: Memory, key: ReassemblyKey, c: Context, chunks: seq<Bytes>, n: nat)
    requires Matches(mem, c, chunks) && n < |chunks| && !SizeKnown(cfg, key, chunks, Got(c))
    ensures |Assembled(cfg, mem, key, c, n)| == n * DefaultSize(cfg, key)
    ensures |Concat(chunks[..n])| == n * |chunks[0]|
  {
    hide DefaultSize, FirstKnownSize;
    if n > 0 {
      LengthWhenUnknown(cfg, mem, key, c, chunks, n - 1);
      assert chunks[..n][..n - 1] == chunks[..n - 1];
      assert Got(c)[n - 1] == c.received[n - 1];
      PresentIffReceived(mem, c, chunks, n - 1);
      InferredSize(cfg, mem, key, c, chunks, n - 1);
      assert |chunks[n - 1]| == |chunks[0]|;
      OneMoreTimes(n - 1, DefaultSize(cfg, key));
      OneMoreTimes(n - 1, |chunks[0]|);
    }
  }

  lemma OneMoreTimes(n: nat, a: nat)
    ensures (n + 1) * a == n * a + a
  {
  }

  /** Loss never shifts data: what is assembled equals the original with the lost pieces zeroed in
      place, exactly when the common piece length is known: a single-piece frame, at least one full
      piece arrived, or the configured default happens to be right. */
  lemma LossNeverShiftsDataIff(cfg: Config, mem: Memory, key: ReassemblyKey, c: Context, chunks: seq<Bytes>)
    requires Matches(mem, c, chunks)
    ensures MakeFrame(cfg, mem, key, c).data == Masked(chunks, Got(c)) <==> SizeKnown(cfg, key, chunks, Got(c))
  {
    var n := |chunks|;
    assert chunks[..n] == chunks && Got(c)[..n] == Got(c);
    if SizeKnown(cfg, key, chunks, Got(c)) {
      AssembledWhenKnown(cfg, mem, key, c, chunks, n);
    } else {
      LengthWhenUnknown(cfg, mem, key, c, chunks, n - 1);
      MaskedLength(chunks, Got(c));
      PresentIffReceived(mem, c, chunks, n - 1);
      InferredSize(cfg, mem, key, c, chunks, n - 1);
      DifferentMultiples(n - 1, DefaultSize(cfg, key), |chunks[0]|);
    }
  }

  lemma DifferentMultiples(n: nat, a: nat, b: nat)
    requires n > 0 && a != b
    ensures n * a != n * b
  {
  }

  /** Where the sender cuts frames after the configured number of samples, of 8 bytes in DA data and 4 bytes otherwise, for
      each channel of the mask, loss never shifts data, whatever is lost. */
  lemma FixedCutNeverShifts(cfg: Config, mem: Memory, key: ReassemblyKey, c: Context, chunks: seq<Bytes>)
    requires Matches(mem, c, chunks) && key.channelMask < TWO16
    requires |chunks| > 1 ==> |chunks[0]| == cfg.sampleCountFixed * (if key.dataType == 2 then 8 else 4) * SetBits(key.channelMask, 16)
    ensures MakeFrame(cfg, mem, key, c).data == Masked(chunks, Got(c))
  {
    hide MakeFrame, Masked, Matches, Got;
    SixteenBits();
    PopcountIsSetBits(key.channelMask, 16);
    LossNeverShiftsDataIff(cfg, mem, key, c, chunks);
    NotEmptyFrame(mem, c, chunks);
  }

  lemma NotEmptyFrame(mem: Memory, c: Context, chunks: seq<Bytes>)
    requires Matches(mem, c, chunks)
    ensures |chunks| > 0 && c.Shape() && |Got(c)| == |chunks|
  {
  }

  /** The missing list names exactly the lost pieces, in increasing order. */
  lemma MissingIsLost(mem: Memory, c: Context, chunks: seq<Bytes>)
    requires Matches(mem, c, chunks)
    ensures var missing := Missing(c, c.totalFrags);
      && (forall i :: i in missing <==> 0 <= i < |chunks| && !Got(c)[i])
      && (forall i, j :: 0 <= i < j < |missing| ==> missing[i] < missing[j])
  {
    MissingSpec(c, c.totalFrags);
    forall i | 0 <= i < |chunks| ensures c.Present(i) <==> Got(c)[i] {
      PresentIffReceived(mem, c, chunks, i);
    }
  }
}
