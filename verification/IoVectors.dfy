/** I/O vectors: what a batch of writes and trims does to the sparse sector map, and the
    loops that cut a buffer or an extent into vectors the device accepts. Buffers and
    vector lengths are counted in whole sectors. */
module IoVectors {
  import opened Bits

  /** The sparse address space: mapped sectors only, each holding a T. */
  type Media<T> = map<nat, T>

  datatype Iov<T> = Write(data: seq<T>, lba: nat) | Trim(sectors: nat, lba: nat)
  {
    function Length(): nat {
      if Write? then |data| else sectors
    }

    predicate Touches(x: nat) {
      lba <= x < lba + Length()
    }
  }

  function SectorFor<T>(data: seq<T>, lba: nat, x: nat): T
    requires lba <= x < lba + |data|
  {
    data[x - lba]
  }

  /** A buffer laid down sector by sector from lba. */
  function WriteRange<T>(m: Media<T>, lba: nat, data: seq<T>): Media<T> {
    m + map x: nat | lba <= x < lba + |data| :: SectorFor(data, lba, x)
  }

  lemma SplitWrite<T>(m: Media<T>, lba: nat, data: seq<T>, n: nat)
    requires n <= |data|
    ensures WriteRange(WriteRange(m, lba, data[..n]), lba + n, data[n..]) == WriteRange(m, lba, data)
  {
  }

  function TrimRange<T>(m: Media<T>, lba: nat, sectors: nat): Media<T> {
    map x | x in m && !(lba <= x < lba + sectors) :: m[x]
  }

  function Apply<T>(m: Media<T>, v: Iov): Media<T> {
    match v
    case Write(data, lba) => WriteRange(m, lba, data)
    case Trim(sectors, lba) => TrimRange(m, lba, sectors)
  }

  /** The effect of nvm_batch_atomic_operations when it succeeds. */
  function ApplyAll<T>(m: Media<T>, vs: seq<Iov<T>>): Media<T>
    decreases |vs|
  {
    if vs == [] then m else ApplyAll(Apply(m, vs[0]), vs[1..])
  }

  lemma {:induction false} ApplyAllAppend<T>(m: Media<T>, a: seq<Iov<T>>, b: seq<Iov<T>>)
    ensures ApplyAll(m, a + b) == ApplyAll(ApplyAll(m, a), b)
    decreases |a|
  {
    if a == [] {
      assert a + b == b;
    } else {
      assert (a + b)[1..] == a[1..] + b;
      ApplyAllAppend(Apply(m, a[0]), a[1..], b);
    }
  }

  /** The state after an error: some leading vectors of the plan, but not all, were applied. */
  ghost predicate PartlyApplied<T>(m: Media<T>, plan: seq<Iov<T>>, m': Media<T>) {
    exists k :: 0 <= k < |plan| && m' == ApplyAll(m, plan[..k])
  }

  /** How many vectors of a batch touch sector x. */
  function Touching<T>(vs: seq<Iov<T>>, x: nat): nat
    decreases |vs|
  {
    if vs == [] then 0 else (if vs[0].Touches(x) then 1 else 0) + Touching(vs[1..], x)
  }

  lemma {:induction false} TouchingAppend<T>(a: seq<Iov<T>>, b: seq<Iov<T>>, x: nat)
    ensures Touching(a + b, x) == Touching(a, x) + Touching(b, x)
    decreases |a|
  {
    if a == [] {
      assert a + b == b;
    } else {
      assert (a + b)[1..] == a[1..] + b;
      TouchingAppend(a[1..], b, x);
    }
  }

  /** k vectors of n sectors each. */
  function Multiple(k: nat, n: nat): nat {
    if k == 0 then 0 else Multiple(k - 1, n) + n
  }

  lemma {:induction false} MultipleIsProduct(k: nat, n: nat)
    ensures Multiple(k, n) == k * n
  {
    if k > 0 {
      MultipleIsProduct(k - 1, n);
    }
  }

  function Min(a: nat, b: nat): nat {
    if a < b then a else b
  }

  /** The vectors of a write loop: pieces of at most `limit` sectors at consecutive addresses. */
  function Chunks<T>(data: seq<T>, lba: nat, limit: nat): seq<Iov<T>>
    requires limit > 0
    decreases |data|
  {
    if data == [] then []
    else
      var n := Min(|data|, limit);
      [Write(data[..n], lba)] + Chunks(data[n..], lba + limit, limit)
  }

  /** The vectors of a trim loop over an extent. */
  function TrimChunks<T>(sectors: nat, lba: nat, limit: nat): seq<Iov<T>>
    requires limit > 0
    decreases sectors
  {
    if sectors == 0 then []
    else
      var n := Min(sectors, limit);
      [Trim(n, lba)] + TrimChunks(sectors - n, lba + limit, limit)
  }

  /** The write loop's vectors together lay the buffer down whole. */
  lemma {:induction false} ChunksTile<T>(m: Media<T>, data: seq<T>, lba: nat, limit: nat)
    requires limit > 0
    ensures ApplyAll(m, Chunks(data, lba, limit)) == WriteRange(m, lba, data)
    decreases |data|
  {
    if data == [] {
      assert WriteRange(m, lba, data) == m;
    } else {
      var more := Chunks(data[Min(|data|, limit)..], lba + limit, limit);
      if |data| <= limit {
        assert data[..|data|] == data && data[|data|..] == [];
        ApplyAllCons(m, Write(data, lba), more);
      } else {
        ApplyAllCons(m, Write(data[..limit], lba), more);
        ChunksTile(WriteRange(m, lba, data[..limit]), data[limit..], lba + limit, limit);
        SplitWrite(m, lba, data, limit);
      }
    }
  }

  lemma ApplyAllCons<T>(m: Media<T>, v: Iov<T>, vs: seq<Iov<T>>)
    ensures ApplyAll(m, [v] + vs) == ApplyAll(Apply(m, v), vs)
  {
    assert ([v] + vs)[1..] == vs;
  }

  /** They touch each of its sectors once and nothing else. */
  lemma {:induction false} ChunksTouch<T>(data: seq<T>, lba: nat, limit: nat, x: nat)
    requires limit > 0
    ensures Touching(Chunks(data, lba, limit), x) == if lba <= x < lba + |data| then 1 else 0
    decreases |data|
  {
    if data != [] {
      ChunksTouch(data[Min(|data|, limit)..], lba + limit, limit, x);
    }
  }

  /** They are as many as the rounded division says beforehand. */
  lemma {:induction false} ChunksCount<T>(data: seq<T>, lba: nat, limit: nat)
    requires limit > 0
    ensures |Chunks(data, lba, limit)| == CeilDiv(|data|, limit)
    decreases |data|
  {
    if data == [] {
      DivModUnique(limit - 1, limit, 0, limit - 1);
    } else {
      ChunksCount(data[Min(|data|, limit)..], lba + limit, limit);
      CeilDivStep(|data|, limit);
    }
  }

  lemma CeilDivStep(x: nat, d: nat)
    requires d > 0 && x > 0
    ensures CeilDiv(x, d) == 1 + CeilDiv(x - Min(x, d), d)
  {
    if x <= d {
      DivModUnique(x + d - 1, d, 1, x - 1);
      DivModUnique(d - 1, d, 0, d - 1);
    } else {
      var y := x - 1;
      DivModUnique(y + d, d, y / d + 1, y % d);
    }
  }

  /** The trim loop unmaps exactly the extent. */
  lemma {:induction false} TrimChunksTile<T>(m: Media<T>, sectors: nat, lba: nat, limit: nat)
    requires limit > 0
    ensures ApplyAll(m, TrimChunks(sectors, lba, limit)) == TrimRange(m, lba, sectors)
    decreases sectors
  {
    if sectors == 0 {
      assert TrimRange(m, lba, 0) == m;
    } else {
      var n := Min(sectors, limit);
      TrimChunksTile(TrimRange(m, lba, n), sectors - n, lba + limit, limit);
      assert TrimRange(TrimRange(m, lba, n), lba + limit, sectors - n) == TrimRange(m, lba, sectors);
    }
  }

  lemma {:induction false} TrimChunksTouch<T>(sectors: nat, lba: nat, limit: nat, x: nat)
    requires limit > 0
    ensures Touching(TrimChunks<T>(sectors, lba, limit), x) == if lba <= x < lba + sectors then 1 else 0
    decreases sectors
  {
    if sectors > 0 {
      TrimChunksTouch<T>(sectors - Min(sectors, limit), lba + limit, limit, x);
    }
  }

  /** The source counts vectors in bytes, with the mask round-up. When the vector limit is a
      power of two that is the count in sectors. */
  lemma VectorCountInBytes(sectors: nat, limit: nat, size: nat, bits: nat)
    requires limit > 0 && size > 0 && bits < 64 && limit * size == Pow2(bits)
    requires sectors * size + limit * size <= WORD64
    ensures 0 < limit * size < WORD64 && 0 <= sectors * size
    ensures RoundUptoBlk(sectors * size, limit * size) == CeilDiv(sectors, limit) * (limit * size)
  {
    MultipleIsFar(sectors, size);
    RoundUpIsLeastMultiple(sectors * size, bits);
    CeilDivScales(sectors, limit, size);
  }

  lemma CeilDivScales(x: nat, d: nat, size: nat)
    requires d > 0 && size > 0
    ensures d * size > 0 && x * size >= 0
    ensures CeilDiv(x * size, d * size) == CeilDiv(x, d)
  {
    MultipleIsFar(d, size);
    MultipleIsFar(x, size);
    var q := CeilDiv(x, d);
    CeilDivBounds(x, d);
    var slack := q * d - x;
    ScaledSlack(slack, d, size);
    Distribute(q, d, x, size);
    DivModUnique(x * size + (d * size - 1), d * size, q, d * size - 1 - slack * size);
  }

  lemma Distribute(q: nat, d: nat, x: nat, size: nat)
    ensures (q * d - x) * size == q * (d * size) - x * size
  {
  }

  lemma ScaledSlack(slack: nat, d: nat, size: nat)
    requires slack < d && size > 0
    ensures 0 <= slack * size <= d * size - size
  {
    MultipleIsFar(slack, size);
    MultipleIsFar(d - 1 - slack, size);
    assert (d - 1 - slack) * size == d * size - size - slack * size;
  }

  /** What a trim loop still has to issue once it has reached offset `at`. */
  function TrimsFrom<T>(sectors: nat, at: nat, lba: nat, limit: nat): seq<Iov<T>>
    requires limit > 0
  {
    if at >= sectors then [] else TrimChunks(sectors - at, lba + at, limit)
  }

  lemma TrimsFromStep<T>(sectors: nat, at: nat, lba: nat, limit: nat, issued: seq<Iov<T>>)
    requires limit > 0 && at < sectors
    ensures issued + TrimsFrom<T>(sectors, at, lba, limit)
            == (issued + [Trim(Min(sectors - at, limit), lba + at)]) + TrimsFrom(sectors, at + limit, lba, limit)
  {
    if at + limit >= sectors {
      assert TrimChunks<T>(0, lba + at + limit, limit) == [];
    }
  }

  /** What a write loop still has to issue once it has reached offset `at`. */
  function WritesFrom<T>(data: seq<T>, at: nat, lba: nat, limit: nat): seq<Iov<T>>
    requires limit > 0
  {
    if at >= |data| then [] else Chunks(data[at..], lba + at, limit)
  }

  lemma AllWritesAhead<T>(data: seq<T>, lba: nat, limit: nat)
    requires limit > 0
    ensures WritesFrom(data, 0, lba, limit) == Chunks(data, lba, limit)
  {
    assert data[0..] == data;
  }

  /** The vector a write loop fills at offset `at`. */
  function NextWrite<T>(data: seq<T>, at: nat, lba: nat, limit: nat): Iov<T>
    requires at < |data|
  {
    Write(data[at..at + Min(|data| - at, limit)], lba + at)
  }

  lemma WritesFromStep<T>(data: seq<T>, at: nat, lba: nat, limit: nat, issued: seq<Iov<T>>)
    requires limit > 0 && at < |data|
    ensures issued + WritesFrom(data, at, lba, limit)
            == (issued + [NextWrite(data, at, lba, limit)]) + WritesFrom(data, at + limit, lba, limit)
  {
    var n := Min(|data| - at, limit);
    assert data[at..][..n] == data[at..at + n];
    assert data[at..][n..] == data[at + n..];
    assert Chunks(data[at..], lba + at, limit)
        == [Write(data[at..at + n], lba + at)] + Chunks(data[at + n..], lba + at + limit, limit);
    if at + limit >= |data| {
      assert data[at + n..] == [];
    }
  }

  /** The sectors a batch writes or trims in all. */
  function TotalLength<T>(vs: seq<Iov<T>>): nat {
    if vs == [] then 0 else TotalLength(vs[..|vs| - 1]) + vs[|vs| - 1].Length()
  }

  lemma TotalLengthStep<T>(vs: seq<Iov<T>>, v: Iov<T>)
    ensures TotalLength(vs + [v]) == TotalLength(vs) + v.Length()
  {
    assert (vs + [v])[..|vs|] == vs;
  }

  /** A batch that takes the table from one offset to another. */
  ghost predicate FilledTo<T>(batch: seq<Iov<T>>, table: seq<T>, start: nat, at: nat, lba: nat, limit: nat)
    requires limit > 0
  {
    && start <= |table| && start <= at && TotalLength(batch) == Min(at, |table|) - start
    && batch + WritesFrom(table, at, lba, limit) == WritesFrom(table, start, lba, limit)
  }

  lemma FilledStep<T>(batch: seq<Iov<T>>, table: seq<T>, start: nat, at: nat, lba: nat, limit: nat)
    requires limit > 0 && FilledTo(batch, table, start, at, lba, limit) && at < |table|
    ensures FilledTo(batch + [NextWrite(table, at, lba, limit)], table, start, at + limit, lba, limit)
  {
    WritesFromStep(table, at, lba, limit, batch);
    TotalLengthStep(batch, NextWrite(table, at, lba, limit));
  }

  /** Where a batch's loop stops: the table is done, the array is full or the total is reached. */
  lemma BatchEnds(remaining: nat, count: nat, maxIovs: nat, maxWrite: nat, maxTotal: nat)
    requires maxWrite > 0 && count <= maxIovs && count <= CeilDiv(maxTotal, maxWrite)
    requires var n := Multiple(count, maxWrite); remaining <= n || count == maxIovs || Min(n, remaining) >= maxTotal
    ensures Min(Multiple(count, maxWrite), remaining) == Min(remaining, BatchLimit(maxIovs, maxWrite, maxTotal))
  {
    BelowCeilDiv(count, maxTotal, maxWrite);
    MultipleGrows(count, Min(maxIovs, CeilDiv(maxTotal, maxWrite)), maxWrite);
  }

  /** The most that one batch of persist_pool_tags writes: its loop stops at the vector count, or
      after the vector that reaches the total. */
  function BatchLimit(maxIovs: nat, maxWrite: nat, maxTotal: nat): nat
    requires maxWrite > 0
  {
    Multiple(Min(maxIovs, CeilDiv(maxTotal, maxWrite)), maxWrite)
  }

  /** The first batch of a table, which no later one exceeds, stays within the total size of an
      atomic write exactly when the whole table does, or the vector count alone bounds it, or
      the total is a whole number of vectors. */
  lemma FirstBatchFitsIff(sectors: nat, maxIovs: nat, maxWrite: nat, maxTotal: nat)
    requires maxWrite > 0
    ensures Min(sectors, BatchLimit(maxIovs, maxWrite, maxTotal)) <= maxTotal
            <==> BatchesFit(sectors, maxIovs, maxWrite, maxTotal)
  {
    var full := CeilDiv(maxTotal, maxWrite);
    if maxIovs < full {
      BelowCeilDiv(maxIovs, maxTotal, maxWrite);
    } else {
      MultipleGrows(full, maxIovs, maxWrite);
      FullVectorsIff(maxTotal, maxWrite);
    }
  }

  lemma FullVectorsIff(x: nat, d: nat)
    requires d > 0
    ensures Multiple(CeilDiv(x, d), d) >= x
    ensures Multiple(CeilDiv(x, d), d) == x <==> x % d == 0
  {
    var q := CeilDiv(x, d);
    MultipleIsProduct(q, d);
    CeilDivBounds(x, d);
    if x % d == 0 {
      DivModUnique(x + d - 1, d, x / d, d - 1);
    } else if q * d == x {
      DivModUnique(x, d, q, 0);
    }
  }

  predicate BatchesFit(sectors: nat, maxIovs: nat, maxWrite: nat, maxTotal: nat)
    requires maxWrite > 0
  {
    sectors <= maxTotal || Multiple(maxIovs, maxWrite) <= maxTotal || maxTotal % maxWrite == 0
  }

  /** Six sectors in vectors of three, where an atomic write may hold four: one batch of six. */
  lemma OversizedBatch()
    ensures !BatchesFit(6, 2, 3, 4) && Min(6, BatchLimit(2, 3, 4)) == 6
  {
    DivModUnique(6, 3, 2, 0);
    MultipleIsProduct(2, 3);
  }

  predicate WithinCount<T>(batches: seq<seq<Iov<T>>>, maxIovs: nat) {
    forall i | 0 <= i < |batches| :: |batches[i]| <= maxIovs
  }

  predicate WithinTotal<T>(batches: seq<seq<Iov<T>>>, maxTotal: nat) {
    forall i | 0 <= i < |batches| :: TotalLength(batches[i]) <= maxTotal
  }

  /** Batches within the vector count: the first as long as the limit lets it be, no later one longer. */
  predicate Bounded<T>(batches: seq<seq<Iov<T>>>, sectors: nat, maxIovs: nat, limit: nat) {
    && WithinCount(batches, maxIovs) && WithinTotal(batches, Min(sectors, limit))
    && (batches != [] ==> TotalLength(batches[0]) == Min(sectors, limit))
  }

  lemma BoundedStep<T>(batches: seq<seq<Iov<T>>>, sectors: nat, maxIovs: nat, limit: nat, at: nat, batch: seq<Iov<T>>)
    requires Bounded(batches, sectors, maxIovs, limit) && (batches == [] ==> at == 0) && at <= sectors
    requires |batch| <= maxIovs && TotalLength(batch) == Min(sectors - at, limit)
    ensures Bounded(batches + [batch], sectors, maxIovs, limit)
  {
  }

  /** All batches of a table stay within the total exactly when the sizes let them. */
  lemma AllFitIff<T>(batches: seq<seq<Iov<T>>>, sectors: nat, maxIovs: nat, maxWrite: nat, maxTotal: nat)
    requires maxWrite > 0 && Bounded(batches, sectors, maxIovs, BatchLimit(maxIovs, maxWrite, maxTotal))
    requires sectors > 0 ==> batches != []
    ensures WithinCount(batches, maxIovs)
    ensures WithinTotal(batches, maxTotal) <==> BatchesFit(sectors, maxIovs, maxWrite, maxTotal)
  {
    FirstBatchFitsIff(sectors, maxIovs, maxWrite, maxTotal);
  }

  // ---- The loops themselves ----------------------------------------------------------

  /** A device whose batches are atomic: a batch is applied whole or, on an I/O error, not at all. */
  class Device<T> {
    var media: Media<T>
    const maxIovs: nat
    const maxWrite: nat
    const maxTrim: nat
    const maxTotal: nat
    ghost var batches: seq<seq<Iov<T>>>  // every batch handed to the device

    ghost predicate Sound() {
      maxIovs > 0 && maxWrite > 0 && maxTrim > 0 && maxTotal > 0
    }

    constructor (media: Media<T>, maxIovs: nat, maxWrite: nat, maxTrim: nat, maxTotal: nat)
      requires maxIovs > 0 && maxWrite > 0 && maxTrim > 0 && maxTotal > 0
      ensures Sound() && this.media == media && this.maxIovs == maxIovs
      ensures this.maxWrite == maxWrite && this.maxTrim == maxTrim && this.maxTotal == maxTotal
    {
      this.media := media;
      this.maxIovs := maxIovs;
      this.maxWrite := maxWrite;
      this.maxTrim := maxTrim;
      this.maxTotal := maxTotal;
      this.batches := [];
    }

    /** nvm_writev with the atomic flag; whether the device fails is its own choice. */
    method Writev(vs: seq<Iov<T>>) returns (ok: bool)
      modifies this
      ensures media == if ok then ApplyAll(old(media), vs) else old(media)
      ensures batches == old(batches) + [vs]
    {
      batches := batches + [vs];
      ok := *;
      if ok {
        media := ApplyAll(media, vs);
      }
    }

    /** One batch of delete_range: the next trims of the extent, as many as the array holds. */
    method FillTrims(iovec: array<Iov<T>>, lba: nat, sectors: nat, totalIovs: nat)
      returns (count: nat)
      requires Sound() && iovec.Length == maxIovs && Multiple(totalIovs, maxTrim) < sectors
      modifies iovec
      ensures 0 < count <= maxIovs
      ensures iovec[..count] + TrimsFrom(sectors, Multiple(totalIovs + count, maxTrim), lba, maxTrim)
              == TrimsFrom(sectors, Multiple(totalIovs, maxTrim), lba, maxTrim)
    {
      count := 0;
      var remaining := sectors - Multiple(totalIovs, maxTrim);
      ghost var at := Multiple(totalIovs, maxTrim);
      ghost var planned := TrimsFrom<T>(sectors, at, lba, maxTrim);
      while count < maxIovs && remaining > 0
        invariant 0 <= count <= maxIovs && (count == 0 ==> remaining > 0)
        invariant at == Multiple(totalIovs + count, maxTrim) && remaining == if at < sectors then sectors - at else 0
        invariant iovec[..count] + TrimsFrom(sectors, at, lba, maxTrim) == planned
        decreases remaining
      {
        var piece := Min(remaining, maxTrim);
        TrimsFromStep(sectors, at, lba, maxTrim, iovec[..count]);
        iovec[count] := Trim(piece, lba + Multiple(totalIovs + count, maxTrim));
        assert iovec[..count + 1] == iovec[..count] + [Trim(piece, lba + at)];
        count := count + 1;
        remaining := remaining - piece;
        at := at + maxTrim;
      }
    }

    /** delete_range: trims an extent in atomic batches of at most maxIovs vectors. On success
        the extent is unmapped and nothing else; after an error the leading vectors are done. */
    method DeleteRange(lba: nat, sectors: nat) returns (ok: bool)
      requires Sound() && sectors > 0
      modifies this
      ensures ok ==> media == TrimRange(old(media), lba, sectors)
      ensures !ok ==> PartlyApplied(old(media), TrimChunks(sectors, lba, maxTrim), media)
      ensures old(batches) < batches && forall i | |old(batches)| <= i < |batches| :: |batches[i]| <= maxIovs
    {
      var totalIovs := 0;
      ghost var plan, issued := TrimChunks(sectors, lba, maxTrim), [];
      while Multiple(totalIovs, maxTrim) < sectors
        invariant issued + TrimsFrom(sectors, Multiple(totalIovs, maxTrim), lba, maxTrim) == plan
        invariant media == ApplyAll(old(media), issued)
        invariant old(batches) <= batches && (totalIovs > 0 ==> old(batches) < batches)
        invariant forall i | |old(batches)| <= i < |batches| :: |batches[i]| <= maxIovs
        decreases |plan| - |issued|
      {
        var iovec := new Iov<T>[maxIovs];
        var count := FillTrims(iovec, lba, sectors, totalIovs);
        var batch := iovec[..count];
        Regroup(plan, issued, TrimsFrom(sectors, Multiple(totalIovs, maxTrim), lba, maxTrim), batch,
                TrimsFrom(sectors, Multiple(totalIovs + count, maxTrim), lba, maxTrim));
        ApplyAllAppend(old(media), issued, batch);
        ok := Writev(batch);
        if !ok {
          PartlyAt(old(media), plan, issued);
          return;
        }
        issued := issued + batch;
        totalIovs := totalIovs + count;
      }
      WholeAt(old(media), plan, issued);
      TrimChunksTile(old(media), sectors, lba, maxTrim);
      ok := true;
    }

    /** One batch of persist_pool_tags: the next vectors of the table, up to the vector count
        and until the total is reached or passed. */
    method FillWrites(iovec: array<Iov<T>>, table: seq<T>, lba: nat, vectors: nat) returns (count: nat)
      requires Sound() && iovec.Length == maxIovs && Multiple(vectors, maxWrite) < |table|
      modifies iovec
      ensures 0 < count <= maxIovs
      ensures iovec[..count] + WritesFrom(table, Multiple(vectors + count, maxWrite), lba, maxWrite)
              == WritesFrom(table, Multiple(vectors, maxWrite), lba, maxWrite)
      ensures TotalLength(iovec[..count])
              == Min(|table| - Multiple(vectors, maxWrite), BatchLimit(maxIovs, maxWrite, maxTotal))
    {
      var start := Multiple(vectors, maxWrite);
      var remaining, total := |table| - start, 0;
      ghost var at, batch := start, [];
      count := 0;
      while remaining > 0 && count < maxIovs && total < maxTotal
        invariant 0 <= count <= maxIovs && (count == 0 ==> remaining > 0 && total == 0)
        invariant at == Multiple(vectors + count, maxWrite) == start + Multiple(count, maxWrite)
        invariant remaining == |table| - Min(at, |table|) && total == Min(at, |table|) - start
        invariant iovec[..count] == batch && count <= CeilDiv(maxTotal, maxWrite)
        invariant FilledTo(batch, table, start, at, lba, maxWrite)
        decreases remaining
      {
        var piece := Min(remaining, maxWrite);
        BelowCeilDiv(count, maxTotal, maxWrite);
        FilledStep(batch, table, start, at, lba, maxWrite);
        iovec[count] := NextWrite(table, Multiple(vectors + count, maxWrite), lba, maxWrite);
        batch := batch + [iovec[count]];
        total := total + piece;
        count := count + 1;
        remaining := remaining - piece;
        at := at + maxWrite;
      }
      BatchEnds(|table| - start, count, maxIovs, maxWrite, maxTotal);
    }

    /** One turn of persist_pool_tags: fill the array and issue it. */
    method WriteBatch(table: seq<T>, lba: nat, vectors: nat, ghost start: Media<T>, ghost issued: seq<Iov<T>>)
      returns (ok: bool, count: nat, ghost batch: seq<Iov<T>>)
      requires Sound() && Multiple(vectors, maxWrite) < |table| && media == ApplyAll(start, issued)
      requires issued + WritesFrom(table, Multiple(vectors, maxWrite), lba, maxWrite) == Chunks(table, lba, maxWrite)
      modifies this
      ensures |issued| < |issued + batch| <= |Chunks(table, lba, maxWrite)|
      ensures (issued + batch) + WritesFrom(table, Multiple(vectors + count, maxWrite), lba, maxWrite)
              == Chunks(table, lba, maxWrite)
      ensures ok ==> media == ApplyAll(start, issued + batch)
      ensures !ok ==> PartlyApplied(start, Chunks(table, lba, maxWrite), media)
      ensures batches == old(batches) + [batch] && |batch| <= maxIovs
      ensures TotalLength(batch) == Min(|table| - Multiple(vectors, maxWrite), BatchLimit(maxIovs, maxWrite, maxTotal))
    {
      var iovec := new Iov<T>[maxIovs];
      count := FillWrites(iovec, table, lba, vectors);
      batch := iovec[..count];
      Regroup(Chunks(table, lba, maxWrite), issued,
              WritesFrom(table, Multiple(vectors, maxWrite), lba, maxWrite), batch,
              WritesFrom(table, Multiple(vectors + count, maxWrite), lba, maxWrite));
      ApplyAllAppend(start, issued, batch);
      PartlyAt(start, Chunks(table, lba, maxWrite), issued);
      ok := Writev(iovec[..count]);
    }

    /** persist_pool_tags: writes the whole table in order, in batches bounded by the vector
        count. They are bounded by the total size of an atomic write only for some tables. */
    method WriteTable(table: seq<T>, lba: nat) returns (ok: bool, ghost issuedBatches: seq<seq<Iov<T>>>)
      requires Sound()
      modifies this
      ensures ok ==> media == WriteRange(old(media), lba, table)
      ensures !ok ==> PartlyApplied(old(media), Chunks(table, lba, maxWrite), media)
      ensures batches == old(batches) + issuedBatches
      ensures WithinCount(issuedBatches, maxIovs)
      ensures WithinTotal(issuedBatches, maxTotal) <==> BatchesFit(|table|, maxIovs, maxWrite, maxTotal)
    {
      var vectors := 0;
      ghost var issued, limit := [], BatchLimit(maxIovs, maxWrite, maxTotal);
      issuedBatches := [];
      AllWritesAhead(table, lba, maxWrite);
      while Multiple(vectors, maxWrite) < |table|
        invariant media == ApplyAll(old(media), issued)
        invariant issued + WritesFrom(table, Multiple(vectors, maxWrite), lba, maxWrite) == Chunks(table, lba, maxWrite)
        invariant batches == old(batches) + issuedBatches && (issuedBatches == [] ==> vectors == 0)
        invariant Bounded(issuedBatches, |table|, maxIovs, limit)
        decreases |Chunks(table, lba, maxWrite)| - |issued|
      {
        var count;
        ghost var batch;
        ok, count, batch := WriteBatch(table, lba, vectors, old(media), issued);
        BoundedStep(issuedBatches, |table|, maxIovs, limit, Multiple(vectors, maxWrite), batch);
        issuedBatches := issuedBatches + [batch];
        if !ok {
          AllFitIff(issuedBatches, |table|, maxIovs, maxWrite, maxTotal);
          return;
        }
        issued := issued + batch;
        vectors := vectors + count;
      }
      AllFitIff(issuedBatches, |table|, maxIovs, maxWrite, maxTotal);
      WholeAt(old(media), Chunks(table, lba, maxWrite), issued);
      ChunksTile(old(media), table, lba, maxWrite);
      ok := true;
    }
  }

  lemma BelowCeilDiv(count: nat, x: nat, d: nat)
    requires d > 0
    ensures Multiple(count, d) < x <==> count < CeilDiv(x, d)
  {
    MultipleIsProduct(count, d);
    CeilDivAtMost(x, d, count);
  }

  lemma {:induction false} MultipleGrows(a: nat, b: nat, n: nat)
    requires a <= b
    ensures Multiple(a, n) <= Multiple(b, n)
    decreases b
  {
    if a < b {
      MultipleGrows(a, b - 1, n);
    }
  }

  lemma PartlyAt<T>(m: Media<T>, plan: seq<Iov<T>>, issued: seq<Iov<T>>)
    requires |issued| < |plan| && plan[..|issued|] == issued
    ensures PartlyApplied(m, plan, ApplyAll(m, issued))
  {
  }

  lemma WholeAt<T>(m: Media<T>, plan: seq<Iov<T>>, issued: seq<Iov<T>>)
    requires issued + [] == plan
    ensures ApplyAll(m, issued) == ApplyAll(m, plan)
  {
    assert issued + [] == issued;
  }

  lemma Regroup<A>(plan: seq<A>, issued: seq<A>, rest: seq<A>, batch: seq<A>, rest': seq<A>)
    requires issued + rest == plan && batch + rest' == rest && batch != []
    ensures (issued + batch) + rest' == plan && plan[..|issued|] == issued && |issued| < |plan|
  {
    assert issued + (batch + rest') == (issued + batch) + rest';
  }
}
