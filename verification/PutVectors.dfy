/** The vectors kv_put hands to the device (kv_alloc_for_write, kv_process_for_trim,
    kv_process_for_write), and when they write the whole pair. */
module PutVectors {
  import opened Bits
  import opened Record
  import opened IoVectors

  type Sector = seq<Byte>

  /** Device limits; vector sizes in sectors. */
  datatype Capabilities = Capabilities(sectorSize: nat, maxIovs: nat, maxWrite: nat, maxTrim: nat)

  /** A sector holds a header and the longest key, vectors hold at least a sector. */
  predicate Usable(caps: Capabilities) {
    caps.sectorSize >= 256 && caps.maxWrite > 0 && caps.maxTrim > 0
  }

  /** What a put is asked to store. The value is read from whole sectors of caller memory;
      `stale` is what the pool buffer's first sector held before. */
  datatype Request = Request(key: seq<Byte>, pool: Word32, memory: seq<Sector>, valueLen: Word32, aligned: bool,
                             expiry: Word32, genCount: Word32, stale: Sector)

  const MAX_KEY_SIZE := 128
  const MAX_VALUE_SIZE := 1047552

  function ValueSectors(caps: Capabilities, valueLen: nat): nat
    requires Usable(caps)
  {
    CeilDiv(valueLen, caps.sectorSize)
  }

  predicate ValidRequest(caps: Capabilities, r: Request) {
    && Usable(caps)
    && 0 < |r.key| <= MAX_KEY_SIZE && 0 < r.valueLen <= MAX_VALUE_SIZE
    && |r.memory| == ValueSectors(caps, r.valueLen) && |r.stale| == caps.sectorSize
    && forall i | 0 <= i < |r.memory| :: |r.memory[i]| == caps.sectorSize
  }

  /** kv_alloc_for_write's decisions. */
  datatype WritePlan = WritePlan(userBuffer: bool, valueOffset: nat, imageSectors: nat, iovCount: nat)
  datatype PlanResult = Planned(plan: WritePlan) | TooManyVectors

  function PlanWrite(caps: Capabilities, keyLen: nat, valueLen: nat, aligned: bool): PlanResult
    requires Usable(caps)
  {
    var multi := HEADER_SIZE + keyLen + valueLen > caps.sectorSize;
    var user := multi && aligned;
    var sum := if multi && !aligned then caps.sectorSize + valueLen else HEADER_SIZE + keyLen + valueLen;
    var offset := if user || (!aligned && sum > caps.sectorSize) then caps.sectorSize else HEADER_SIZE + keyLen;
    var toWrite := if user then ValueSectors(caps, valueLen) else CeilDiv(sum, caps.sectorSize);
    var count := (if user then 1 else 0) + CeilDiv(toWrite, caps.maxWrite);
    if count > caps.maxIovs then TooManyVectors
    else Planned(WritePlan(user, offset, if user then 1 + toWrite else toWrite, count))
  }

  /** A put is refused for its size exactly when the sectors of its image, beyond the header's own
      vector if the value is written from where the caller has it, exceed what the vectors hold. */
  lemma TooManyVectorsIff(caps: Capabilities, keyLen: nat, valueLen: nat, aligned: bool)
    requires Usable(caps)
    ensures PlanWrite(caps, keyLen, valueLen, aligned).TooManyVectors? <==>
            if !SpansSectors(caps, keyLen, valueLen) then caps.maxIovs == 0
            else if !aligned then caps.sectorSize + valueLen > caps.maxIovs * caps.maxWrite * caps.sectorSize
            else caps.maxIovs == 0 || valueLen > (caps.maxIovs - 1) * caps.maxWrite * caps.sectorSize
  {
    if !SpansSectors(caps, keyLen, valueLen) {
      var sum := HEADER_SIZE + keyLen + valueLen;
      DivModUnique(sum + caps.sectorSize - 1, caps.sectorSize, 1, sum - 1);
      DivModUnique(1 + caps.maxWrite - 1, caps.maxWrite, 1, 0);
    } else if !aligned {
      VectorsForBytes(caps, caps.sectorSize + valueLen, caps.maxIovs);
    } else if caps.maxIovs > 0 {
      VectorsForBytes(caps, valueLen, caps.maxIovs - 1);
    }
  }

  lemma VectorsForBytes(caps: Capabilities, bytes: nat, n: nat)
    requires Usable(caps)
    ensures CeilDiv(CeilDiv(bytes, caps.sectorSize), caps.maxWrite) <= n <==>
            bytes <= n * caps.maxWrite * caps.sectorSize
  {
    CeilDivAtMost(CeilDiv(bytes, caps.sectorSize), caps.maxWrite, n);
    CeilDivAtMost(bytes, caps.sectorSize, n * caps.maxWrite);
  }

  predicate SpansSectors(caps: Capabilities, keyLen: nat, valueLen: nat) {
    HEADER_SIZE + keyLen + valueLen > caps.sectorSize
  }

  function RequestHeader(r: Request, plan: WritePlan): Header
    requires |r.key| <= MAX_KEY_SIZE && plan.valueOffset < 0x1_0000_0000
  {
    Header(METADATA_LEN, |r.key|, r.valueLen, plan.valueOffset, r.pool, r.genCount, r.expiry)
  }

  function Overwrite(buf: seq<Byte>, at: nat, data: seq<Byte>): (s: seq<Byte>)
    requires at + |data| <= |buf|
    ensures |s| == |buf|
  {
    buf[..at] + data + buf[at + |data|..]
  }

  /** The pair's first sector: header, key and, when everything fits in it, the value. */
  function HeadSector(caps: Capabilities, r: Request, plan: WritePlan): (s: Sector)
    requires ValidRequest(caps, r) && PlanWrite(caps, |r.key|, r.valueLen, r.aligned) == Planned(plan)
    requires caps.sectorSize < 0x1_0000_0000
    ensures |s| == caps.sectorSize
  {
    var stamped := Stamped(RequestHeader(r, plan), r.key, r.stale);
    if SpansSectors(caps, |r.key|, r.valueLen) then stamped
    else OneSectorValue(caps, r); Overwrite(stamped, plan.valueOffset, r.memory[0][..r.valueLen])
  }

  lemma OneSectorValue(caps: Capabilities, r: Request)
    requires ValidRequest(caps, r) && !SpansSectors(caps, |r.key|, r.valueLen)
    ensures |r.memory| == 1
  {
    DivModUnique(r.valueLen + caps.sectorSize - 1, caps.sectorSize, 1, r.valueLen - 1);
  }

  /** The header a put stores, word by word: 16 bytes of metadata, the lengths, where the value
      starts, the pool, the generation and the expiry. */
  lemma HeadSectorWords(caps: Capabilities, r: Request, plan: WritePlan)
    requires ValidRequest(caps, r) && PlanWrite(caps, |r.key|, r.valueLen, r.aligned) == Planned(plan)
    requires caps.sectorSize < 0x1_0000_0000
    ensures var head := HeadSector(caps, r, plan);
            && WordIs(head, 0, 16) && WordIs(head, 4, |r.key|) && WordIs(head, 8, r.valueLen)
            && WordIs(head, 12, if SpansSectors(caps, |r.key|, r.valueLen) then caps.sectorSize else 40 + |r.key|)
            && WordIs(head, 16, r.pool) && WordIs(head, 32, r.genCount) && WordIs(head, 36, r.expiry)
            && head[40..40 + |r.key|] == r.key
  {
    StampedBytes(RequestHeader(r, plan), r.key, r.stale);
    var stamped, head := Stamped(RequestHeader(r, plan), r.key, r.stale), HeadSector(caps, r, plan);
    if !SpansSectors(caps, |r.key|, r.valueLen) {
      OneSectorValue(caps, r);
      assert head == Overwrite(stamped, plan.valueOffset, r.memory[0][..r.valueLen]);
    }
    assert head[..40 + |r.key|] == stamped[..40 + |r.key|];
    SameWords(stamped, head, 40 + |r.key|);
  }

  lemma SameWords(s: Sector, t: Sector, n: nat)
    requires 40 <= n <= |s| && n <= |t| && s[..n] == t[..n]
    ensures forall at: nat, x: nat :: at + 4 <= 40 && WordIs(s, at, x) ==> WordIs(t, at, x)
    ensures s[40..n] == t[40..n]
  {
    forall i: nat | i < n ensures s[i] == t[i] {
      assert s[i] == s[..n][i] && t[i] == t[..n][i];
    }
  }

  /** The sectors the pair should occupy from its address on. */
  function PairImage(caps: Capabilities, r: Request, plan: WritePlan): seq<Sector>
    requires ValidRequest(caps, r) && PlanWrite(caps, |r.key|, r.valueLen, r.aligned) == Planned(plan)
    requires caps.sectorSize < 0x1_0000_0000
  {
    [HeadSector(caps, r, plan)] + if SpansSectors(caps, |r.key|, r.valueLen) then r.memory else []
  }

  function PairSectors(caps: Capabilities, keyLen: nat, valueLen: nat): nat
    requires Usable(caps)
  {
    if SpansSectors(caps, keyLen, valueLen) then 1 + ValueSectors(caps, valueLen) else 1
  }

  /** The vectors kv_process_for_write fills: without the user's buffer, one sector only. */
  function WriteVectors(caps: Capabilities, r: Request, plan: WritePlan, lba: nat): seq<Iov<Sector>>
    requires ValidRequest(caps, r) && PlanWrite(caps, |r.key|, r.valueLen, r.aligned) == Planned(plan)
    requires caps.sectorSize < 0x1_0000_0000
  {
    var head := [HeadSector(caps, r, plan)];
    if plan.userBuffer then [Write(head, lba)] + Chunks(r.memory, lba + 1, caps.maxWrite)
    else Chunks(head, lba, caps.maxWrite)
  }

  /** The longest value whose remainder one trim vector can discard. */
  function TrimLimit(caps: Capabilities): nat
    requires Usable(caps)
  {
    MultipleIsFar(caps.maxTrim, caps.sectorSize);
    caps.maxTrim * caps.sectorSize
  }

  datatype TrimResult = Trims(vectors: seq<Iov<Sector>>) | TrimTooLong

  /** kv_process_for_trim for a replaced value of trimLen bytes (0: none replaced, or not shorter). */
  function TrimVector(caps: Capabilities, valueLen: nat, trimLen: nat, lba: nat): TrimResult
    requires Usable(caps)
  {
    if trimLen > TrimLimit(caps) then TrimTooLong
    else if trimLen == 0 then Trims([])
    else
      var old', new' := ValueSectors(caps, trimLen), ValueSectors(caps, valueLen);
      if old' > new' then Trims([Trim(old' - new', lba + new')]) else Trims([])
  }

  /** The filled vectors that nvm_writev is given: the array starts with the trim vector if there
      is one, but the count is the one computed for the write vectors alone. */
  function IssuedVectors(trim: seq<Iov<Sector>>, writes: seq<Iov<Sector>>, count: nat): seq<Iov<Sector>> {
    (trim + writes)[..Min(count, |trim + writes|)]
  }

  /** How many of the counted vectors nobody filled. The device is given these too, with
      whatever the array held. */
  function Unfilled(filled: nat, count: nat): nat {
    if count > filled then count - filled else 0
  }

  /** As many vectors are filled as were counted, unless an unaligned value spans sectors. */
  lemma FilledVectorsAreCounted(caps: Capabilities, r: Request, plan: WritePlan, lba: nat)
    requires ValidRequest(caps, r) && PlanWrite(caps, |r.key|, r.valueLen, r.aligned) == Planned(plan)
    requires caps.sectorSize < 0x1_0000_0000
    ensures var filled := |WriteVectors(caps, r, plan, lba)|;
            if r.aligned || !SpansSectors(caps, |r.key|, r.valueLen) then filled == plan.iovCount
            else filled == 1 && plan.iovCount == CeilDiv(1 + |r.memory|, caps.maxWrite)
    ensures plan.imageSectors == PairSectors(caps, |r.key|, r.valueLen)
  {
    var head := [HeadSector(caps, r, plan)];
    ChunksCount(r.memory, lba + 1, caps.maxWrite);
    ChunksCount(head, lba, caps.maxWrite);
    DivModUnique(1 + caps.maxWrite - 1, caps.maxWrite, 1, 0);
    var size := caps.sectorSize;
    if SpansSectors(caps, |r.key|, r.valueLen) {
      CeilDivOfSum(r.valueLen, size);
    } else {
      var sum := HEADER_SIZE + |r.key| + r.valueLen;
      DivModUnique(sum + size - 1, size, 1, sum - 1);
    }
  }

  /** A put hands the device vectors that nobody filled exactly when an unaligned value spans
      sectors and was counted as more vectors than the one written and the trim before it. */
  lemma UnfilledIff(caps: Capabilities, r: Request, plan: WritePlan, lba: nat, trim: seq<Iov<Sector>>)
    requires ValidRequest(caps, r) && PlanWrite(caps, |r.key|, r.valueLen, r.aligned) == Planned(plan)
    requires caps.sectorSize < 0x1_0000_0000 && |trim| <= 1
    ensures Unfilled(|trim + WriteVectors(caps, r, plan, lba)|, plan.iovCount) > 0 <==>
            !FilledByPlan(caps, r, |trim|)
  {
    FilledVectorsAreCounted(caps, r, plan, lba);
    CeilDivAtMost(1 + |r.memory|, caps.maxWrite, 1 + |trim|);
  }

  /** The guard: what a caller can see of a request, and whether it will trim. */
  predicate FilledByPlan(caps: Capabilities, r: Request, trims: nat) {
    r.aligned || !SpansSectors(caps, |r.key|, r.valueLen) || 1 + |r.memory| <= (1 + trims) * caps.maxWrite
  }

  /** Vectors that nobody filled can change any sector to anything. */
  lemma {:induction false} UnfilledReachAnySector(m: Media<Sector>, vectors: seq<Iov<Sector>>, n: nat, x: nat,
                                                  data: Sector)
    returns (unfilled: seq<Iov<Sector>>)
    requires n > 0
    ensures |unfilled| == n
    ensures var m' := ApplyAll(m, vectors + unfilled); x in m' && m'[x] == data
  {
    var v := Write([data], x);
    var before := seq(n - 1, _ => v);
    unfilled := before + [v];
    assert vectors + unfilled == (vectors + before) + [v];
    ApplyAllAppend(m, vectors + before, [v]);
    ApplyAllCons(ApplyAll(m, vectors + before), v, []);
  }

  /** The trim vector and the write vectors exceed the vector limit exactly when there is a trim
      and the write vectors alone reach it. */
  lemma OverrunsArrayIff(caps: Capabilities, r: Request, plan: WritePlan, lba: nat, trim: seq<Iov<Sector>>)
    requires ValidRequest(caps, r) && PlanWrite(caps, |r.key|, r.valueLen, r.aligned) == Planned(plan)
    requires caps.sectorSize < 0x1_0000_0000 && |trim| <= 1
    ensures |trim + WriteVectors(caps, r, plan, lba)| > caps.maxIovs <==>
            trim != []
            && caps.maxIovs == if r.aligned || !SpansSectors(caps, |r.key|, r.valueLen) then plan.iovCount else 1
  {
    FilledVectorsAreCounted(caps, r, plan, lba);
    CeilDivBounds(1 + |r.memory|, caps.maxWrite);
  }

  lemma CeilDivOfSum(x: nat, d: nat)
    requires d > 0
    ensures CeilDiv(d + x, d) == 1 + CeilDiv(x, d)
  {
    var y := x + d - 1;
    DivModUnique(y + d, d, y / d + 1, y % d);
  }

  predicate Written(vs: seq<Iov<Sector>>, x: nat) {
    exists i :: 0 <= i < |vs| && vs[i].Write? && vs[i].Touches(x)
  }

  predicate WritesWhole(vs: seq<Iov<Sector>>, lba: nat, sectors: nat) {
    forall x: nat :: lba <= x < lba + sectors ==> Written(vs, x)
  }

  lemma {:induction false} TouchedBySome(vs: seq<Iov<Sector>>, x: nat)
    ensures Touching(vs, x) > 0 <==> exists i :: 0 <= i < |vs| && vs[i].Touches(x)
    decreases |vs|
  {
    if vs != [] {
      TouchedBySome(vs[1..], x);
      if exists i :: 0 <= i < |vs| && vs[i].Touches(x) {
        var i :| 0 <= i < |vs| && vs[i].Touches(x);
        if i > 0 {
          assert vs[1..][i - 1].Touches(x);
        }
      }
      if exists i :: 0 <= i < |vs[1..]| && vs[1..][i].Touches(x) {
        var i :| 0 <= i < |vs[1..]| && vs[1..][i].Touches(x);
        assert vs[i + 1].Touches(x);
      }
    }
  }

  lemma {:induction false} ChunksAreWrites(data: seq<Sector>, lba: nat, limit: nat)
    requires limit > 0
    ensures forall i | 0 <= i < |Chunks(data, lba, limit)| :: Chunks(data, lba, limit)[i].Write?
    decreases |data|
  {
    if data != [] {
      ChunksAreWrites(data[Min(|data|, limit)..], lba + limit, limit);
    }
  }

  /** The write vectors touch each sector once: the whole image, or its first sector when an
      unaligned value spans sectors. */
  lemma WriteVectorsTouch(caps: Capabilities, r: Request, plan: WritePlan, lba: nat, x: nat)
    requires ValidRequest(caps, r) && PlanWrite(caps, |r.key|, r.valueLen, r.aligned) == Planned(plan)
    requires caps.sectorSize < 0x1_0000_0000
    ensures var n := if r.aligned then PairSectors(caps, |r.key|, r.valueLen) else 1;
            Touching(WriteVectors(caps, r, plan, lba), x) == if lba <= x < lba + n then 1 else 0
    ensures forall i | 0 <= i < |WriteVectors(caps, r, plan, lba)| :: WriteVectors(caps, r, plan, lba)[i].Write?
  {
    var head := [HeadSector(caps, r, plan)];
    ChunksTouch(r.memory, lba + 1, caps.maxWrite, x);
    ChunksTouch(head, lba, caps.maxWrite, x);
    ChunksAreWrites(r.memory, lba + 1, caps.maxWrite);
    ChunksAreWrites(head, lba, caps.maxWrite);
    TouchingAppend([Write(head, lba)], Chunks(r.memory, lba + 1, caps.maxWrite), x);
  }

  /** kv_put writes the whole pair exactly when the value is sector-aligned or fits beside its
      header, and the put does not shrink a stored value by a sector or more. */
  lemma PutWritesWholePairIff(caps: Capabilities, r: Request, plan: WritePlan, lba: nat, trim: seq<Iov<Sector>>)
    requires ValidRequest(caps, r) && PlanWrite(caps, |r.key|, r.valueLen, r.aligned) == Planned(plan)
    requires caps.sectorSize < 0x1_0000_0000
    requires |trim| <= 1 && forall i | 0 <= i < |trim| :: trim[i].Trim?
    ensures WritesWhole(IssuedVectors(trim, WriteVectors(caps, r, plan, lba), plan.iovCount), lba,
                        PairSectors(caps, |r.key|, r.valueLen))
            <==> trim == [] && (r.aligned || !SpansSectors(caps, |r.key|, r.valueLen))
  {
    var issued := IssuedVectors(trim, WriteVectors(caps, r, plan, lba), plan.iovCount);
    if trim == [] && (r.aligned || !SpansSectors(caps, |r.key|, r.valueLen)) {
      UntrimmedWritesWhole(caps, r, plan, lba, trim);
    } else {
      var x := UnwrittenSector(caps, r, plan, lba, trim);
      assert !Written(issued, x);
    }
  }

  lemma UntrimmedWritesWhole(caps: Capabilities, r: Request, plan: WritePlan, lba: nat, trim: seq<Iov<Sector>>)
    requires ValidRequest(caps, r) && PlanWrite(caps, |r.key|, r.valueLen, r.aligned) == Planned(plan)
    requires caps.sectorSize < 0x1_0000_0000
    requires trim == [] && (r.aligned || !SpansSectors(caps, |r.key|, r.valueLen))
    ensures WritesWhole(IssuedVectors(trim, WriteVectors(caps, r, plan, lba), plan.iovCount), lba,
                        PairSectors(caps, |r.key|, r.valueLen))
  {
    var writes := WriteVectors(caps, r, plan, lba);
    FilledVectorsAreCounted(caps, r, plan, lba);
    assert trim + writes == writes;
    assert IssuedVectors(trim, writes, plan.iovCount) == writes;
    forall x: nat | lba <= x < lba + PairSectors(caps, |r.key|, r.valueLen)
      ensures Written(writes, x)
    {
      WriteVectorsTouch(caps, r, plan, lba, x);
      TouchedBySome(writes, x);
    }
  }

  /** A sector of the pair that no issued write touches: the second, when only the first is
      written; otherwise the one whose vector the trim pushed out of the count. */
  lemma UnwrittenSector(caps: Capabilities, r: Request, plan: WritePlan, lba: nat, trim: seq<Iov<Sector>>)
    returns (x: nat)
    requires ValidRequest(caps, r) && PlanWrite(caps, |r.key|, r.valueLen, r.aligned) == Planned(plan)
    requires caps.sectorSize < 0x1_0000_0000
    requires |trim| <= 1 && forall i | 0 <= i < |trim| :: trim[i].Trim?
    requires trim != [] || !(r.aligned || !SpansSectors(caps, |r.key|, r.valueLen))
    ensures lba <= x < lba + PairSectors(caps, |r.key|, r.valueLen)
    ensures var issued := IssuedVectors(trim, WriteVectors(caps, r, plan, lba), plan.iovCount);
            forall i | 0 <= i < |issued| && issued[i].Write? :: !issued[i].Touches(x)
  {
    var writes := WriteVectors(caps, r, plan, lba);
    FilledVectorsAreCounted(caps, r, plan, lba);
    if !r.aligned && SpansSectors(caps, |r.key|, r.valueLen) {
      x := lba + 1;
      CeilDivBounds(r.valueLen, caps.sectorSize);
      WriteVectorsTouch(caps, r, plan, lba, x);
      NoneTouches(trim, writes, plan.iovCount, x);
    } else {
      x := LastVectorStart(caps, r, plan, lba);
      LastAlone(trim, writes, x);
    }
  }

  lemma LastVectorStart(caps: Capabilities, r: Request, plan: WritePlan, lba: nat) returns (x: nat)
    requires ValidRequest(caps, r) && PlanWrite(caps, |r.key|, r.valueLen, r.aligned) == Planned(plan)
    requires caps.sectorSize < 0x1_0000_0000 && (r.aligned || !SpansSectors(caps, |r.key|, r.valueLen))
    ensures lba <= x < lba + PairSectors(caps, |r.key|, r.valueLen)
    ensures var writes := WriteVectors(caps, r, plan, lba);
            writes != [] && writes[|writes| - 1].Touches(x) && Touching(writes, x) <= 1
  {
    LastVectorNonempty(caps, r, plan, lba);
    ghost var writes := WriteVectors(caps, r, plan, lba);
    x := writes[|writes| - 1].lba;
    WriteVectorsTouch(caps, r, plan, lba, x);
    TouchedBySome(writes, x);
    assert writes[|writes| - 1].Touches(x);
  }

  /** A sector that no write vector touches is not written, whatever is issued. */
  lemma NoneTouches(trim: seq<Iov<Sector>>, writes: seq<Iov<Sector>>, count: nat, x: nat)
    requires (forall i | 0 <= i < |trim| :: trim[i].Trim?) && Touching(writes, x) == 0
    ensures var issued := IssuedVectors(trim, writes, count);
            forall i | 0 <= i < |issued| && issued[i].Write? :: !issued[i].Touches(x)
  {
    var issued := IssuedVectors(trim, writes, count);
    TouchedBySome(writes, x);
    assert forall i | 0 <= i < |issued| && issued[i].Write? :: issued[i] == writes[i - |trim|];
  }

  /** Nor is the first sector of the last vector when the trim takes that vector's turn. */
  lemma LastAlone(trim: seq<Iov<Sector>>, writes: seq<Iov<Sector>>, x: nat)
    requires |trim| == 1 && trim[0].Trim? && writes != [] && Touching(writes, x) <= 1
    requires writes[|writes| - 1].Touches(x)
    ensures var issued := IssuedVectors(trim, writes, |writes|);
            forall i | 0 <= i < |issued| && issued[i].Write? :: !issued[i].Touches(x)
  {
    var last := |writes| - 1;
    assert writes == writes[..last] + [writes[last]];
    TouchingAppend(writes[..last], [writes[last]], x);
    assert Touching([writes[last]], x) == 1;
    NoneTouches(trim, writes[..last], |writes|, x);
    assert IssuedVectors(trim, writes, |writes|) == IssuedVectors(trim, writes[..last], |writes|);
  }

  lemma LastVectorNonempty(caps: Capabilities, r: Request, plan: WritePlan, lba: nat)
    requires ValidRequest(caps, r) && PlanWrite(caps, |r.key|, r.valueLen, r.aligned) == Planned(plan)
    requires caps.sectorSize < 0x1_0000_0000
    ensures var writes := WriteVectors(caps, r, plan, lba); writes != [] && writes[|writes| - 1].Length() > 0
  {
    ChunksNonempty(r.memory, lba + 1, caps.maxWrite);
    ChunksNonempty([HeadSector(caps, r, plan)], lba, caps.maxWrite);
  }

  lemma {:induction false} ChunksNonempty(data: seq<Sector>, lba: nat, limit: nat)
    requires limit > 0
    ensures forall i | 0 <= i < |Chunks(data, lba, limit)| :: Chunks(data, lba, limit)[i].Length() > 0
    ensures data != [] ==> Chunks(data, lba, limit) != []
    decreases |data|
  {
    if data != [] {
      ChunksNonempty(data[Min(|data|, limit)..], lba + limit, limit);
    }
  }

  /** When nothing is trimmed and the value is aligned or small, the batch lays down exactly
      the pair's image at its address. */
  lemma IssuedLayDownImage(caps: Capabilities, r: Request, plan: WritePlan, lba: nat, m: Media<Sector>)
    requires ValidRequest(caps, r) && PlanWrite(caps, |r.key|, r.valueLen, r.aligned) == Planned(plan)
    requires caps.sectorSize < 0x1_0000_0000
    requires r.aligned || !SpansSectors(caps, |r.key|, r.valueLen)
    ensures ApplyAll(m, IssuedVectors([], WriteVectors(caps, r, plan, lba), plan.iovCount))
            == WriteRange(m, lba, PairImage(caps, r, plan))
  {
    var writes := WriteVectors(caps, r, plan, lba);
    FilledVectorsAreCounted(caps, r, plan, lba);
    assert [] + writes == writes;
    assert IssuedVectors([], writes, plan.iovCount) == writes;
    VectorsLayDownImage(caps, r, plan, lba, m);
  }

  lemma VectorsLayDownImage(caps: Capabilities, r: Request, plan: WritePlan, lba: nat, m: Media<Sector>)
    requires ValidRequest(caps, r) && PlanWrite(caps, |r.key|, r.valueLen, r.aligned) == Planned(plan)
    requires caps.sectorSize < 0x1_0000_0000
    requires r.aligned || !SpansSectors(caps, |r.key|, r.valueLen)
    ensures ApplyAll(m, WriteVectors(caps, r, plan, lba)) == WriteRange(m, lba, PairImage(caps, r, plan))
  {
    var head := [HeadSector(caps, r, plan)];
    if plan.userBuffer {
      var image := head + r.memory;
      assert image[..1] == head && image[1..] == r.memory;
      ApplyAllCons(m, Write(head, lba), Chunks(r.memory, lba + 1, caps.maxWrite));
      ChunksTile(WriteRange(m, lba, head), r.memory, lba + 1, caps.maxWrite);
      SplitWrite(m, lba, image, 1);
    } else {
      ChunksTile(m, head, lba, caps.maxWrite);
      assert head + [] == head;
    }
  }

  /** A shrinking replace issues the trim and drops the last write vector; when there is only
      one, the new pair is not written at all. */
  lemma ShrinkingReplaceDropsLastVector(caps: Capabilities, r: Request, plan: WritePlan, lba: nat, trimLen: nat,
                                        m: Media<Sector>)
    requires ValidRequest(caps, r) && PlanWrite(caps, |r.key|, r.valueLen, r.aligned) == Planned(plan)
    requires caps.sectorSize < 0x1_0000_0000 && (r.aligned || !SpansSectors(caps, |r.key|, r.valueLen))
    requires 0 < trimLen <= TrimLimit(caps)
    requires ValueSectors(caps, trimLen) > ValueSectors(caps, r.valueLen)
    ensures var trim := TrimVector(caps, r.valueLen, trimLen, lba).vectors;
            var writes := WriteVectors(caps, r, plan, lba);
            |trim| == 1 && writes != []
            && IssuedVectors(trim, writes, plan.iovCount) == trim + writes[..|writes| - 1]
    ensures !SpansSectors(caps, |r.key|, r.valueLen) ==>
              var trim := TrimVector(caps, r.valueLen, trimLen, lba).vectors;
              ApplyAll(m, IssuedVectors(trim, WriteVectors(caps, r, plan, lba), plan.iovCount))
              == TrimRange(m, lba + 1, ValueSectors(caps, trimLen) - 1)
  {
    FilledVectorsAreCounted(caps, r, plan, lba);
    LastVectorNonempty(caps, r, plan, lba);
    var trim := TrimVector(caps, r.valueLen, trimLen, lba).vectors;
    var writes := WriteVectors(caps, r, plan, lba);
    if !SpansSectors(caps, |r.key|, r.valueLen) {
      OneSectorValue(caps, r);
      ChunksCount([HeadSector(caps, r, plan)], lba, caps.maxWrite);
      assert plan.iovCount == |writes| == 1 by {
        DivModUnique(1 + caps.maxWrite - 1, caps.maxWrite, 1, 0);
      }
      assert IssuedVectors(trim, writes, plan.iovCount) == [trim[0]];
      ApplyAllCons(m, trim[0], []);
    }
  }

  /** What the trim discards, seen from the pairs of a key: from the end of the new pair to the
      end of the old one, but a pair with its value in sectors of its own counts without its
      last. It is refused exactly when one vector cannot discard a value of that length. */
  lemma TrimTouches(caps: Capabilities, keyLen: nat, valueLen: nat, trimLen: nat, lba: nat, x: nat)
    requires Usable(caps) && 0 < valueLen
    ensures TrimVector(caps, valueLen, trimLen, lba).TrimTooLong? <==> caps.maxTrim * caps.sectorSize < trimLen
    ensures trimLen <= caps.maxTrim * caps.sectorSize ==>
              var trim := TrimVector(caps, valueLen, trimLen, lba).vectors;
              var from := lba + PairSectors(caps, keyLen, valueLen)
                          - (if SpansSectors(caps, keyLen, valueLen) then 1 else 0);
              var to := lba + PairSectors(caps, keyLen, trimLen)
                        - (if SpansSectors(caps, keyLen, trimLen) then 1 else 0);
              (forall i | 0 <= i < |trim| :: trim[i].Trim?)
              && (Touching(trim, x) == if trimLen > 0 && from <= x < to then 1 else 0)
  {
    ValueBesideHeader(caps, keyLen, valueLen);
    if trimLen > 0 {
      ValueBesideHeader(caps, keyLen, trimLen);
    }
  }

  lemma ValueBesideHeader(caps: Capabilities, keyLen: nat, valueLen: nat)
    requires Usable(caps) && 0 < valueLen
    ensures !SpansSectors(caps, keyLen, valueLen) ==> ValueSectors(caps, valueLen) == 1
  {
    if !SpansSectors(caps, keyLen, valueLen) {
      DivModUnique(valueLen + caps.sectorSize - 1, caps.sectorSize, 1, valueLen - 1);
    }
  }

  /** All vectors of a write loop but the last write what comes before the last. */
  lemma {:induction false} ChunksButLast<T>(data: seq<T>, lba: nat, limit: nat) returns (n: nat)
    requires limit > 0 && data != []
    ensures n < |data| <= n + limit && Chunks(data, lba, limit) != []
    ensures Chunks(data, lba, limit)[..|Chunks(data, lba, limit)| - 1] == Chunks(data[..n], lba, limit)
    decreases |data|
  {
    if |data| <= limit {
      n := 0;
      assert data[|data|..] == [];
    } else {
      var rest := data[limit..];
      var n' := ChunksButLast(rest, lba + limit, limit);
      n := limit + n';
      assert data[..n][..limit] == data[..limit] && data[..n][limit..] == rest[..n'];
      var more := Chunks(rest, lba + limit, limit);
      assert Chunks(data, lba, limit) == [Write(data[..limit], lba)] + more;
    }
  }

  /** A shrinking replace of a value in sectors of its own: the trim starts at the last sector of
      the new pair and spares the last sector of the old one; then the new pair is written
      without what its last vector holds, so old sectors stay under the new header. */
  lemma ShrinkingReplaceLeaves(caps: Capabilities, r: Request, plan: WritePlan, lba: nat, trimLen: nat,
                               m: Media<Sector>)
    returns (n: nat)
    requires ValidRequest(caps, r) && PlanWrite(caps, |r.key|, r.valueLen, r.aligned) == Planned(plan)
    requires caps.sectorSize < 0x1_0000_0000 && r.aligned && SpansSectors(caps, |r.key|, r.valueLen)
    requires 0 < trimLen <= TrimLimit(caps)
    requires ValueSectors(caps, trimLen) > ValueSectors(caps, r.valueLen)
    ensures var size, was := PairSectors(caps, |r.key|, r.valueLen), PairSectors(caps, |r.key|, trimLen);
            var trim := TrimVector(caps, r.valueLen, trimLen, lba).vectors;
            0 < n < size <= n + caps.maxWrite && size < was && size == |PairImage(caps, r, plan)|
            && ApplyAll(m, IssuedVectors(trim, WriteVectors(caps, r, plan, lba), plan.iovCount))
               == WriteRange(TrimRange(m, lba + size - 1, was - size), lba, PairImage(caps, r, plan)[..n])
  {
    var trim := TrimVector(caps, r.valueLen, trimLen, lba).vectors;
    var writes := WriteVectors(caps, r, plan, lba);
    ShrinkingReplaceDropsLastVector(caps, r, plan, lba, trimLen, m);
    LongerSpans(caps, |r.key|, r.valueLen, trimLen);
    n := MostVectorsLayDown(caps, r, plan, lba, Apply(m, trim[0]));
    OneThenRest(m, trim, writes[..|writes| - 1]);
  }

  lemma OneThenRest(m: Media<Sector>, one: seq<Iov<Sector>>, rest: seq<Iov<Sector>>)
    requires |one| == 1
    ensures ApplyAll(m, one + rest) == ApplyAll(Apply(m, one[0]), rest)
  {
    assert one == [one[0]];
    ApplyAllCons(m, one[0], rest);
  }

  lemma MostVectorsLayDown(caps: Capabilities, r: Request, plan: WritePlan, lba: nat, m: Media<Sector>) returns (n: nat)
    requires ValidRequest(caps, r) && PlanWrite(caps, |r.key|, r.valueLen, r.aligned) == Planned(plan)
    requires caps.sectorSize < 0x1_0000_0000 && r.aligned && SpansSectors(caps, |r.key|, r.valueLen)
    ensures var size, writes := PairSectors(caps, |r.key|, r.valueLen), WriteVectors(caps, r, plan, lba);
            0 < n < size <= n + caps.maxWrite && size == |PairImage(caps, r, plan)| && writes != []
            && ApplyAll(m, writes[..|writes| - 1]) == WriteRange(m, lba, PairImage(caps, r, plan)[..n])
  {
    CeilDivBounds(r.valueLen, caps.sectorSize);
    var k := ChunksButLast(r.memory, lba + 1, caps.maxWrite);
    n := k + 1;
    var head, most := [HeadSector(caps, r, plan)], r.memory[..k];
    ButLastAfterHead(Write(head, lba), Chunks(r.memory, lba + 1, caps.maxWrite));
    HeadThenChunks(m, head, most, lba, caps.maxWrite);
    assert head + most == PairImage(caps, r, plan)[..n];
  }

  lemma HeadThenChunks(m: Media<Sector>, head: seq<Sector>, most: seq<Sector>, lba: nat, limit: nat)
    requires |head| == 1 && limit > 0
    ensures ApplyAll(m, [Write(head, lba)] + Chunks(most, lba + 1, limit)) == WriteRange(m, lba, head + most)
  {
    ApplyAllCons(m, Write(head, lba), Chunks(most, lba + 1, limit));
    ChunksTile(WriteRange(m, lba, head), most, lba + 1, limit);
    SplitAfterHead(m, lba, head, most);
  }

  lemma ButLastAfterHead(head: Iov<Sector>, more: seq<Iov<Sector>>)
    requires more != []
    ensures ([head] + more)[..|more|] == [head] + more[..|more| - 1]
  {
  }

  lemma SplitAfterHead(m: Media<Sector>, lba: nat, head: seq<Sector>, most: seq<Sector>)
    requires |head| == 1
    ensures WriteRange(WriteRange(m, lba, head), lba + 1, most) == WriteRange(m, lba, head + most)
  {
    assert (head + most)[..1] == head && (head + most)[1..] == most;
    SplitWrite(m, lba, head + most, 1);
  }

  lemma LongerSpans(caps: Capabilities, keyLen: nat, valueLen: nat, trimLen: nat)
    requires Usable(caps) && SpansSectors(caps, keyLen, valueLen)
    requires ValueSectors(caps, trimLen) > ValueSectors(caps, valueLen)
    ensures SpansSectors(caps, keyLen, trimLen)
  {
    CeilDivAtMost(trimLen, caps.sectorSize, ValueSectors(caps, valueLen));
    CeilDivBounds(valueLen, caps.sectorSize);
  }
}
