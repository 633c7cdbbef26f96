/** Delta updates: chunks of bytes laid over a base, checked by hash before and after. */
module Delta {
  import opened Wrappers
  import opened Numbers
  import opened Fnv

  /** One more than `isize::MAX`, the most bytes a vector can hold. */
  const VECTOR_LIMIT := 0x8000_0000_0000_0000

  type Bytes = s: seq<byte> | |s| < VECTOR_LIMIT

  datatype DeltaChunk = DeltaChunk(offset: u64, size: u64, hash: string, data: Bytes)

  datatype DeltaManifest = DeltaManifest(
    baseVersion: string, targetVersion: string, chunks: seq<DeltaChunk>, targetSize: u64, targetHash: string)

  /** The errors, and the two panics: growing a vector beyond its limit, and slicing from a start beyond the end. */
  datatype DeltaError =
    | EmptyVersion
    | ChunkHashMismatch(index: nat, offset: u64)
    | ChunkExceedsTarget(offset: u64, size: nat, targetSize: nat)
    | TargetHashMismatch(expected: string, got: string)
    | CapacityPanic(requested: u64)
    | SlicePanic(start: u64, end: u64)

  predicate Verifies(c: DeltaChunk) { Hash(c.data) == c.hash }

  method ComputeHash(data: seq<byte>) returns (hash: string)
    ensures hash == Hash(data)
    ensures |hash| == 16 && LowerHex(hash) && Read(hash) == Fold(OFFSET_BASIS, data)
  {
    HashReads(data);
    var h := OFFSET_BASIS;
    for i := 0 to |data|
      invariant Fold(OFFSET_BASIS, data) == Fold(h, data[i..])
    {
      h := Mix(h, data[i]);
      assert data[i..][1..] == data[i + 1..];
    }
    hash := Hex(h, 16);
  }

  method Validate(m: DeltaManifest) returns (r: Option<DeltaError>)
    ensures r == ValidationError(m)
  {
    if m.baseVersion == "" || m.targetVersion == "" {
      return Some(EmptyVersion);
    }
    for i := 0 to |m.chunks|
      invariant FirstMismatch(m.chunks, 0) == FirstMismatch(m.chunks, i)
    {
      var computed := ComputeHash(m.chunks[i].data);
      if computed != m.chunks[i].hash {
        return Some(ChunkHashMismatch(i, m.chunks[i].offset));
      }
    }
    r := None;
  }

  function ValidationError(m: DeltaManifest): Option<DeltaError> {
    if m.baseVersion == "" || m.targetVersion == "" then Some(EmptyVersion) else FirstMismatch(m.chunks, 0)
  }

  function FirstMismatch(chunks: seq<DeltaChunk>, from: nat): Option<DeltaError>
    decreases |chunks| - from
  {
    if from >= |chunks| then None
    else if !Verifies(chunks[from]) then Some(ChunkHashMismatch(from, chunks[from].offset))
    else FirstMismatch(chunks, from + 1)
  }

  /** Validation passes exactly when both versions are named and every chunk's data has the chunk's hash. */
  lemma ValidIff(m: DeltaManifest)
    ensures ValidationError(m).None?
       <==> m.baseVersion != "" && m.targetVersion != ""
            && forall k | 0 <= k < |m.chunks| :: Hash(m.chunks[k].data) == m.chunks[k].hash
  {
    MismatchIff(m.chunks, 0);
    assert forall k | 0 <= k < |m.chunks| :: Verifies(m.chunks[k]) <==> Hash(m.chunks[k].data) == m.chunks[k].hash;
  }

  /** `k` is the first chunk at or after `from` whose hash is wrong. */
  ghost predicate FirstBad(chunks: seq<DeltaChunk>, from: nat, k: nat) {
    from <= k < |chunks| && !Verifies(chunks[k]) && forall j | from <= j < k :: Verifies(chunks[j])
  }

  /** A mismatch is reported exactly when there is one, and then the first. */
  lemma {:induction false} MismatchIff(chunks: seq<DeltaChunk>, from: nat)
    ensures FirstMismatch(chunks, from).None? <==> forall k | from <= k < |chunks| :: Verifies(chunks[k])
    ensures FirstMismatch(chunks, from).Some? ==> exists k: nat ::
      FirstBad(chunks, from, k) && FirstMismatch(chunks, from) == Some(ChunkHashMismatch(k, chunks[k].offset))
    decreases |chunks| - from
  {
    hide Verifies;
    if from < |chunks| {
      if Verifies(chunks[from]) {
        MismatchIff(chunks, from + 1);
        if FirstMismatch(chunks, from).Some? {
          var k: nat :| FirstBad(chunks, from + 1, k)
                     && FirstMismatch(chunks, from + 1) == Some(ChunkHashMismatch(k, chunks[k].offset));
          assert FirstBad(chunks, from, k);
        }
      } else {
        assert FirstBad(chunks, from, from);
      }
    }
  }

  /** `start + data.len()` with wrap-around. */
  function End(c: DeltaChunk): u64 { (c.offset + |c.data|) % MODULUS }

  predicate Fits(c: DeltaChunk, size: nat) { c.offset + |c.data| <= size }

  /** What one chunk does to the buffer. */
  function Place(buffer: Bytes, c: DeltaChunk): Result<Bytes, DeltaError> {
    if End(c) > |buffer| then Failure(ChunkExceedsTarget(c.offset, |c.data|, |buffer|))
    else if c.offset > End(c) then Failure(SlicePanic(c.offset, End(c)))
    else Success(buffer[..c.offset] + c.data + buffer[End(c)..])
  }

  function Overlay(buffer: Bytes, chunks: seq<DeltaChunk>): Result<Bytes, DeltaError>
    decreases |chunks|
  {
    if chunks == [] then Success(buffer)
    else
      match Place(buffer, chunks[0])
      case Failure(e) => Failure(e)
      case Success(next) => Overlay(next, chunks[1..])
  }

  /** The base, extended with zeros to the target size if it is shorter. */
  function Extended(base: Bytes, size: nat): seq<byte> {
    base + seq(Max(|base|, size) - |base|, i => 0)
  }

  function Checked(m: DeltaManifest, built: Result<Bytes, DeltaError>): Result<Bytes, DeltaError> {
    if built.Success? && Hash(built.value) != m.targetHash
    then Failure(TargetHashMismatch(m.targetHash, Hash(built.value))) else built
  }

  /** The outcome of applying a manifest to a base. */
  function Applied(base: Bytes, m: DeltaManifest): Result<Bytes, DeltaError> {
    match ValidationError(m)
    case Some(e) => Failure(e)
    case None =>
      if m.targetSize >= VECTOR_LIMIT then Failure(CapacityPanic(m.targetSize))
      else Checked(m, Overlay(Extended(base, m.targetSize), m.chunks))
  }

  method Apply(base: Bytes, m: DeltaManifest) returns (r: Result<Bytes, DeltaError>)
    ensures r == Applied(base, m)
  {
    hide Hash;
    hide ValidationError;
    var error := Validate(m);
    if error.Some? {
      return Failure(error.value);
    }
    if m.targetSize >= VECTOR_LIMIT {
      return Failure(CapacityPanic(m.targetSize));
    }
    var size := Max(|base|, m.targetSize);
    var result := new byte[size](i => 0);
    forall i | 0 <= i < |base| {
      result[i] := base[i];
    }
    assert result[..] == Extended(base, m.targetSize);
    for k := 0 to |m.chunks|
      invariant Overlay(Extended(base, m.targetSize), m.chunks) == Overlay(result[..], m.chunks[k..])
    {
      var chunk := m.chunks[k];
      var start, end := chunk.offset, End(chunk);
      assert m.chunks[k..][0] == chunk && m.chunks[k..][1..] == m.chunks[k + 1..];
      if end > result.Length {
        return Failure(ChunkExceedsTarget(chunk.offset, |chunk.data|, result.Length));
      }
      if start > end {
        return Failure(SlicePanic(start, end));
      }
      EndInRange(chunk, result.Length);
      CopyFromSlice(result, start, chunk.data);
    }
    var finalHash := ComputeHash(result[..]);
    if finalHash != m.targetHash {
      return Failure(TargetHashMismatch(m.targetHash, finalHash));
    }
    r := Success(result[..]);
  }

  method CopyFromSlice(result: array<byte>, start: nat, data: seq<byte>)
    requires start + |data| <= result.Length
    modifies result
    ensures result[..] == old(result[..start]) + data + old(result[start + |data|..])
  {
    forall i | 0 <= i < |data| {
      result[start + i] := data[i];
    }
  }

  /** A chunk is copied exactly when it really lies inside the buffer. */
  lemma EndInRange(c: DeltaChunk, size: nat)
    requires size < VECTOR_LIMIT
    ensures End(c) <= size && c.offset <= End(c) <==> Fits(c, size)
    ensures Fits(c, size) ==> End(c) == c.offset + |c.data|
  {
  }

  // ----- What the overlay contains -----

  predicate Covers(c: DeltaChunk, i: nat) { c.offset <= i < c.offset + |c.data| }

  /** `k` is the last chunk that covers byte `i`. */
  ghost predicate LastCover(chunks: seq<DeltaChunk>, i: nat, k: nat) {
    k < |chunks| && Covers(chunks[k], i) && forall j | k < j < |chunks| :: !Covers(chunks[j], i)
  }

  /** Byte `i` of the overlay is the last covering chunk's, or the buffer's own. */
  ghost predicate ByteFrom(buffer: seq<byte>, chunks: seq<DeltaChunk>, i: nat, b: byte)
    requires i < |buffer|
  {
    if exists k: nat :: LastCover(chunks, i, k)
    then exists k: nat :: LastCover(chunks, i, k) && b == chunks[k].data[i - chunks[k].offset]
    else b == buffer[i]
  }

  lemma {:induction false} OverlaySucceedsIff(buffer: Bytes, chunks: seq<DeltaChunk>)
    ensures Overlay(buffer, chunks).Success? <==> forall k | 0 <= k < |chunks| :: Fits(chunks[k], |buffer|)
    ensures Overlay(buffer, chunks).Success? ==> |Overlay(buffer, chunks).value| == |buffer|
    decreases |chunks|
  {
    if chunks != [] {
      EndInRange(chunks[0], |buffer|);
      if Fits(chunks[0], |buffer|) {
        OverlaySucceedsIff(Place(buffer, chunks[0]).value, chunks[1..]);
        assert forall k | 0 < k < |chunks| :: chunks[k] == chunks[1..][k - 1];
        assert forall k | 0 <= k < |chunks[1..]| :: chunks[1..][k] == chunks[k + 1];
      }
    }
  }

  lemma {:induction false} OverlayBytes(buffer: Bytes, chunks: seq<DeltaChunk>, i: nat)
    requires Overlay(buffer, chunks).Success? && i < |buffer|
    ensures |Overlay(buffer, chunks).value| == |buffer|
    ensures ByteFrom(buffer, chunks, i, Overlay(buffer, chunks).value[i])
    decreases |chunks|
  {
    if chunks != [] {
      var c, rest := chunks[0], chunks[1..];
      EndInRange(c, |buffer|);
      var next := Place(buffer, c).value;
      OverlayBytes(next, rest, i);
      var b := Overlay(buffer, chunks).value[i];
      if exists k: nat :: LastCover(rest, i, k) {
        var k: nat :| LastCover(rest, i, k) && b == rest[k].data[i - rest[k].offset];
        CoverShift(chunks, i, k);
      } else {
        NoLaterCover(chunks, i);
        if Covers(c, i) {
          assert LastCover(chunks, i, 0);
          assert next[i] == c.data[i - c.offset];
        } else {
          assert forall k: nat | LastCover(chunks, i, k) :: k > 0;
        }
      }
    }
  }

  lemma CoverShift(chunks: seq<DeltaChunk>, i: nat, k: nat)
    requires chunks != []
    ensures LastCover(chunks[1..], i, k) <==> LastCover(chunks, i, k + 1)
  {
    var rest := chunks[1..];
    assert forall j | 0 <= j < |rest| :: rest[j] == chunks[j + 1];
    if LastCover(rest, i, k) {
      assert forall j | k + 1 < j < |chunks| :: chunks[j] == rest[j - 1];
    }
    if LastCover(chunks, i, k + 1) {
      forall j | k < j < |rest|
        ensures !Covers(rest[j], i)
      {
        assert rest[j] == chunks[j + 1];
      }
    }
  }

  /** If no later chunk has a last cover of the byte, then no later chunk covers it at all. */
  lemma NoLaterCover(chunks: seq<DeltaChunk>, i: nat)
    requires chunks != [] && !exists k: nat :: LastCover(chunks[1..], i, k)
    ensures forall k | 0 < k < |chunks| :: !Covers(chunks[k], i)
  {
    forall k | 0 < k < |chunks|
      ensures !Covers(chunks[k], i)
    {
      if Covers(chunks[k], i) {
        var m := LatestCover(chunks[1..], i, k - 1);
      }
    }
  }

  lemma {:induction false} LatestCover(chunks: seq<DeltaChunk>, i: nat, k: nat) returns (m: nat)
    requires k < |chunks| && Covers(chunks[k], i)
    ensures LastCover(chunks, i, m)
    decreases |chunks| - k
  {
    if j: nat :| k < j < |chunks| && Covers(chunks[j], i) {
      m := LatestCover(chunks, i, j);
    } else {
      m := k;
    }
  }

  /**
   A successful `apply` has the larger of the two sizes, and each byte comes from the last chunk that
   covers it, else from the base, else is zero. It succeeds exactly when the manifest validates, every
   chunk lies inside the buffer, and the built bytes have the target hash.
   */
  lemma AppliedContents(base: Bytes, m: DeltaManifest, i: nat)
    requires Applied(base, m).Success?
    requires i < Max(|base|, m.targetSize)
    ensures |Applied(base, m).value| == Max(|base|, m.targetSize)
    ensures ByteFrom(Extended(base, m.targetSize), m.chunks, i, Applied(base, m).value[i])
    ensures Extended(base, m.targetSize)[i] == if i < |base| then base[i] else 0
  {
    OverlayBytes(Extended(base, m.targetSize), m.chunks, i);
  }

  lemma AppliedSucceedsIff(base: Bytes, m: DeltaManifest)
    ensures Applied(base, m).Success?
       <==> && ValidationError(m).None?
            && m.targetSize < VECTOR_LIMIT
            && (forall k | 0 <= k < |m.chunks| :: Fits(m.chunks[k], Max(|base|, m.targetSize)))
            && (Overlay(Extended(base, m.targetSize), m.chunks).Success? ==>
                  Hash(Overlay(Extended(base, m.targetSize), m.chunks).value) == m.targetHash)
  {
    if m.targetSize < VECTOR_LIMIT {
      OverlaySucceedsIff(Extended(base, m.targetSize), m.chunks);
    }
  }

  // ----- Panics -----

  /** Chunk `k` is the first that does not fit, and its end wraps around 2^64 to a place inside the buffer. */
  ghost predicate WrapsAt(chunks: seq<DeltaChunk>, size: nat, k: nat) {
    && k < |chunks|
    && (forall j | 0 <= j < k :: Fits(chunks[j], size))
    && MODULUS <= chunks[k].offset + |chunks[k].data| <= MODULUS + size
  }

  lemma WrapsShift(chunks: seq<DeltaChunk>, size: nat, k: nat)
    requires chunks != [] && Fits(chunks[0], size) && size < VECTOR_LIMIT
    ensures WrapsAt(chunks[1..], size, k) <==> WrapsAt(chunks, size, k + 1)
    ensures !WrapsAt(chunks, size, 0)
  {
    if WrapsAt(chunks[1..], size, k) {
      assert forall j | 0 < j < k + 1 :: chunks[j] == chunks[1..][j - 1];
    }
  }

  /** What happens to one chunk: it is copied, it panics, or it is reported. */
  lemma PlaceCases(buffer: Bytes, c: DeltaChunk)
    ensures Place(buffer, c).Success? <==> Fits(c, |buffer|)
    ensures Place(buffer, c).Success? ==> |Place(buffer, c).value| == |buffer|
    ensures Place(buffer, c).Failure? && Place(buffer, c).error.SlicePanic?
       <==> MODULUS <= c.offset + |c.data| <= MODULUS + |buffer|
    ensures Place(buffer, c).Failure?
        ==> Place(buffer, c).error.SlicePanic? || Place(buffer, c).error.ChunkExceedsTarget?
  {
  }

  ghost predicate Panics(r: Result<Bytes, DeltaError>) { r.Failure? && r.error.SlicePanic? }

  lemma {:induction false} OverlayPanicsIff(buffer: Bytes, chunks: seq<DeltaChunk>)
    ensures Panics(Overlay(buffer, chunks)) <==> exists k: nat :: WrapsAt(chunks, |buffer|, k)
    ensures Overlay(buffer, chunks).Failure?
        ==> Overlay(buffer, chunks).error.SlicePanic? || Overlay(buffer, chunks).error.ChunkExceedsTarget?
    decreases |chunks|
  {
    hide Place;
    if chunks != [] {
      var size := |buffer|;
      PlaceCases(buffer, chunks[0]);
      if Fits(chunks[0], size) {
        OverlayPanicsIff(Place(buffer, chunks[0]).value, chunks[1..]);
        forall k: nat
          ensures WrapsAt(chunks[1..], size, k) <==> WrapsAt(chunks, size, k + 1)
        {
          WrapsShift(chunks, size, k);
        }
        if k: nat :| WrapsAt(chunks, size, k) {
          WrapsShift(chunks, size, 0);
          assert WrapsAt(chunks[1..], size, k - 1);
        }
      } else if MODULUS <= chunks[0].offset + |chunks[0].data| <= MODULUS + size {
        assert WrapsAt(chunks, size, 0);
      }
    }
  }

  /**
   An offset so large that the end wraps around 2^64 to a place inside the buffer is not reported as an error:
   the slice expression panics. For the whole call that happens exactly when the manifest validates, and the
   first chunk that does not fit has its true end between 2^64 and 2^64 plus the buffer length.
   */
  lemma SlicePanicsIff(base: Bytes, m: DeltaManifest)
    ensures Panics(Applied(base, m))
       <==> && ValidationError(m).None? && m.targetSize < VECTOR_LIMIT
            && exists k: nat :: WrapsAt(m.chunks, Max(|base|, m.targetSize), k)
  {
    hide Hash;
    hide WrapsAt;
    hide Overlay;
    hide FirstMismatch;
    MismatchIff(m.chunks, 0);
    if m.targetSize < VECTOR_LIMIT {
      OverlayPanicsIff(Extended(base, m.targetSize), m.chunks);
    }
  }

  /** A target size that no vector can have panics, whatever the chunks. */
  lemma CapacityPanicsIff(base: Bytes, m: DeltaManifest)
    ensures Applied(base, m).Failure? && Applied(base, m).error.CapacityPanic?
       <==> ValidationError(m).None? && m.targetSize >= 0x8000_0000_0000_0000
  {
    MismatchIff(m.chunks, 0);
    if m.targetSize < VECTOR_LIMIT {
      OverlayPanicsIff(Extended(base, m.targetSize), m.chunks);
    }
  }

  /** Such manifests exist: one chunk of one byte at the last 64-bit offset, applied to nothing. */
  lemma LastOffsetPanics(m: DeltaManifest)
    requires m.baseVersion != "" && m.targetVersion != "" && m.targetSize == 0
    requires m.chunks == [DeltaChunk(MODULUS - 1, 1, Hash([0]), [0])]
    ensures Applied([], m) == Failure(SlicePanic(MODULUS - 1, 0))
  {
    hide Hash;
    MismatchIff(m.chunks, 0);
    assert Extended([], 0) == [];
  }

  // ----- Rebuilding a target -----

  ghost predicate SliceOf(c: DeltaChunk, target: seq<byte>) {
    Fits(c, |target|) && c.data == target[c.offset..c.offset + |c.data|]
  }

  /**
   If every chunk is a slice of the target and together they cover each position where the target differs
   from the zero-extended base, then the chunks build exactly the target, in whatever order and overlap.
   */
  lemma RebuildsTarget(base: Bytes, m: DeltaManifest, target: Bytes)
    requires m.targetSize == |target| && |base| <= |target|
    requires forall k | 0 <= k < |m.chunks| :: SliceOf(m.chunks[k], target)
    requires forall i | 0 <= i < |target| && Extended(base, m.targetSize)[i] != target[i] ::
      exists k :: 0 <= k < |m.chunks| && Covers(m.chunks[k], i)
    ensures Overlay(Extended(base, m.targetSize), m.chunks) == Success(target)
    ensures Applied(base, m) == Success(target) <==> ValidationError(m).None? && m.targetHash == Hash(target)
  {
    var buffer := Extended(base, m.targetSize);
    OverlaySucceedsIff(buffer, m.chunks);
    var built := Overlay(buffer, m.chunks).value;
    forall i: nat | i < |target|
      ensures built[i] == target[i]
    {
      OverlayBytes(buffer, m.chunks, i);
      RebuiltByte(buffer, m.chunks, target, i, built[i]);
    }
    assert built == target;
  }

  lemma RebuiltByte(buffer: seq<byte>, chunks: seq<DeltaChunk>, target: seq<byte>, i: nat, b: byte)
    requires i < |target| == |buffer| && ByteFrom(buffer, chunks, i, b)
    requires forall k | 0 <= k < |chunks| :: SliceOf(chunks[k], target)
    requires buffer[i] != target[i] ==> exists k :: 0 <= k < |chunks| && Covers(chunks[k], i)
    ensures b == target[i]
  {
    if buffer[i] != target[i] {
      var k :| 0 <= k < |chunks| && Covers(chunks[k], i);
      var last := LatestCover(chunks, i, k);
    }
    if exists k: nat :: LastCover(chunks, i, k) {
      var k: nat :| LastCover(chunks, i, k) && b == chunks[k].data[i - chunks[k].offset];
      assert SliceOf(chunks[k], target);
    }
  }

  /** The manifest whose only chunk is the whole target. */
  function WholeTarget(target: Bytes): DeltaManifest {
    DeltaManifest("base", "target", [DeltaChunk(0, |target|, Hash(target), target)], |target|, Hash(target))
  }

  lemma WholeTargetRebuilds(base: Bytes, target: Bytes)
    requires |base| <= |target|
    ensures Applied(base, WholeTarget(target)) == Success(target)
  {
    hide Hash;
    var m := WholeTarget(target);
    assert SliceOf(m.chunks[0], target);
    forall i | 0 <= i < |target|
      ensures Covers(m.chunks[0], i)
    {
    }
    MismatchIff(m.chunks, 0);
    RebuildsTarget(base, m, target);
  }

  /** The target size never cuts: a manifest of that size can lead to the target exactly if the base is no longer. */
  lemma ReachableTargetIff(base: Bytes, target: Bytes)
    ensures (exists m: DeltaManifest :: m.targetSize == |target| && Applied(base, m) == Success(target))
       <==> |base| <= |target|
  {
    if |base| <= |target| {
      WholeTargetRebuilds(base, target);
      assert WholeTarget(target).targetSize == |target|;
    } else {
      forall m: DeltaManifest | m.targetSize == |target| && Applied(base, m).Success?
        ensures |Applied(base, m).value| == |base|
      {
        AppliedContents(base, m, 0);
      }
    }
  }

  // ----- Damage is detected -----

  /** A chunk whose data was changed in one byte or in two neighbouring bytes no longer verifies. */
  lemma DamagedChunkRejected(base: Bytes, m: DeltaManifest, k: nat, data: Bytes, i: nat)
    requires k < |m.chunks| && Verifies(m.chunks[k])
    requires DifferWithinPair(m.chunks[k].data, data, i) && data != m.chunks[k].data
    ensures Applied(base, m.(chunks := m.chunks[k := m.chunks[k].(data := data)])).Failure?
  {
    var damaged := m.(chunks := m.chunks[k := m.chunks[k].(data := data)]);
    if Verifies(damaged.chunks[k]) {
      ShortBurstDetected(m.chunks[k].data, data, i);
    }
    MismatchIff(damaged.chunks, 0);
  }

  /** A result that passes the target check and is off by one byte or two neighbouring bytes at most is the target. */
  lemma NearMissRejected(base: Bytes, m: DeltaManifest, target: Bytes, i: nat)
    requires m.targetHash == Hash(target)
    requires Applied(base, m).Success? && DifferWithinPair(Applied(base, m).value, target, i)
    ensures Applied(base, m).value == target
  {
    ShortBurstDetected(Applied(base, m).value, target, i);
  }
}
