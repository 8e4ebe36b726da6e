/** Segmented upload, restore and repair of large files. */
module SegmentedBackup {
  import opened Wrappers
  import opened ByteOrder
  import opened ErasureCoding

  const SEGMENT: nat := 256 * 1024 * 1024
  const CHUNK: nat := 16 * 1024 * 1024

  function Min(a: nat, b: nat): nat {
    if a <= b then a else b
  }

  // ----- what is uploaded -----

  function SegmentCount(file: bytes): nat {
    DivCeil(|file|, SEGMENT)
  }

  /** Where segment `k` begins. */
  function StartOf(file: bytes, k: nat): nat {
    Min(k * SEGMENT, |file|)
  }

  function SegmentAt(file: bytes, k: nat): bytes {
    file[StartOf(file, k)..StartOf(file, k + 1)]
  }

  /** Segment numbers enter the nonce context as a `u32`. */
  function Processed(eng: Engine, file: bytes, k: nat): Option<(seq<bytes>, nat)> {
    Process(eng, SegmentAt(file, k), k % 0x1_0000_0000)
  }

  function SubShard(eng: Engine, file: bytes, idx: nat, k: nat): bytes {
    match Processed(eng, file, k)
    case None => []
    case Some(p) => if idx < |p.0| then p.0[idx] else []
  }

  function EncSize(eng: Engine, file: bytes, k: nat): nat {
    match Processed(eng, file, k)
    case None => 0
    case Some(p) => p.1
  }

  /** Shard `idx` of the first `k` segments. */
  function ShardPrefix(eng: Engine, file: bytes, idx: nat, k: nat): bytes {
    if k == 0 then [] else ShardPrefix(eng, file, idx, k - 1) + SubShard(eng, file, idx, k - 1)
  }

  function FullShard(eng: Engine, file: bytes, idx: nat): bytes {
    ShardPrefix(eng, file, idx, SegmentCount(file))
  }

  function Sizes(eng: Engine, file: bytes, k: nat): (s: seq<nat>)
    ensures |s| == k
  {
    seq(k, j requires 0 <= j => EncSize(eng, file, j))
  }

  function AllShards(eng: Engine, file: bytes): (s: seq<bytes>)
    ensures |s| == TOTAL_SHARDS
  {
    seq(TOTAL_SHARDS, idx requires 0 <= idx => FullShard(eng, file, idx))
  }

  // ----- reading -----

  /** An open file; a read may return fewer bytes than asked for. */
  class File {
    const data: bytes
    var pos: nat

    ghost predicate Valid()
      reads this
    {
      pos <= |data|
    }

    constructor (data: bytes)
      ensures Valid() && this.data == data && pos == 0
    {
      this.data := data;
      pos := 0;
    }

    method Read(max: nat) returns (s: bytes)
      requires Valid()
      modifies this
      ensures Valid() && old(pos) <= pos && s == data[old(pos)..pos] && |s| <= max
      ensures s == [] <==> max == 0 || old(pos) == |data|
    {
      var n: nat := 0;
      if max > 0 && pos < |data| {
        assert 1 <= max && pos + 1 <= |data|;
        n :| 1 <= n <= max && pos + n <= |data|;
      }
      s := data[pos..pos + n];
      pos := pos + n;
    }
  }

  /** `read_full`: short reads do not matter. */
  method ReadFull(f: File, len: nat) returns (buf: bytes)
    requires f.Valid()
    modifies f
    ensures f.Valid() && f.pos == Min(old(f.pos) + len, |f.data|) && buf == f.data[old(f.pos)..f.pos]
  {
    buf := [];
    while |buf| < len
      invariant f.Valid() && old(f.pos) <= f.pos && buf == f.data[old(f.pos)..f.pos] && |buf| <= len
      decreases len - |buf|
    {
      var s := f.Read(len - |buf|);
      if s == [] {
        break;
      }
      buf := buf + s;
    }
  }

  // ----- uploading -----

  function Concat(parts: seq<bytes>): bytes {
    if parts == [] then [] else Concat(parts[..|parts| - 1]) + parts[|parts| - 1]
  }

  /** Sends `s` as messages of at most 16 MiB. */
  method SendChunks(queue: seq<bytes>, s: bytes) returns (queue': seq<bytes>)
    ensures Concat(queue') == Concat(queue) + s
    ensures |queue| <= |queue'| && forall i :: |queue| <= i < |queue'| ==> 0 < |queue'[i]| <= 16 * 1024 * 1024
    ensures forall i :: |queue| <= i < |queue'| - 1 ==> |queue'[i]| == 16 * 1024 * 1024
  {
    queue' := queue;
    var sent := 0;
    while sent < |s|
      invariant 0 <= sent <= |s| && |queue| <= |queue'|
      invariant Concat(queue') == Concat(queue) + s[..sent]
      invariant forall i :: |queue| <= i < |queue'| ==> 0 < |queue'[i]| <= CHUNK
      invariant forall i :: |queue| <= i < |queue'| && (i < |queue'| - 1 || sent < |s|) ==> |queue'[i]| == CHUNK
    {
      var next := Min(sent + CHUNK, |s|);
      assert (queue' + [s[sent..next]])[..|queue'|] == queue';
      queue' := queue' + [s[sent..next]];
      assert s[..next] == s[..sent] + s[sent..next];
      sent := next;
    }
    assert s[..sent] == s;
  }

  /** `stream_one_shard`: the node stores the chunks in the order in which they were queued. */
  method StreamOneShard(queue: seq<bytes>) returns (stored: bytes)
    ensures stored == Concat(queue)
  {
    stored := [];
    for i := 0 to |queue|
      invariant stored == Concat(queue[..i])
    {
      stored := stored + queue[i];
      assert queue[..i + 1][..i] == queue[..i];
    }
    assert queue[..|queue|] == queue;
  }

  ghost predicate Queued(eng: Engine, file: bytes, queues: seq<seq<bytes>>, k: nat) {
    |queues| == TOTAL_SHARDS && forall idx :: 0 <= idx < TOTAL_SHARDS ==>
        Concat(queues[idx]) == ShardPrefix(eng, file, idx, k)
  }

  method FanOut(eng: Engine, ghost file: bytes, ghost k: nat, queues: seq<seq<bytes>>, shards: seq<bytes>)
    returns (r: seq<seq<bytes>>)
    requires Queued(eng, file, queues, k) && |shards| == TOTAL_SHARDS
    requires forall idx :: 0 <= idx < TOTAL_SHARDS ==> shards[idx] == SubShard(eng, file, idx, k)
    ensures Queued(eng, file, r, k + 1)
  {
    hide SubShard;
    r := queues;
    for idx := 0 to |shards|
      invariant |r| == TOTAL_SHARDS
      invariant forall j :: 0 <= j < idx ==> Concat(r[j]) == ShardPrefix(eng, file, j, k + 1)
      invariant forall j :: idx <= j < TOTAL_SHARDS ==> Concat(r[j]) == ShardPrefix(eng, file, j, k)
    {
      var queue := SendChunks(r[idx], shards[idx]);
      r := r[idx := queue];
    }
  }

  /** `upload_segmented`, up to which streams the nodes accept: what each shard's stream carries, and the encrypted
      sizes. */
  method UploadSegmented(eng: Engine, f: File) returns (r: Option<(seq<bytes>, seq<nat>)>)
    requires f.Valid() && f.pos == 0
    modifies f
    ensures r.Some? ==> r.value == (AllShards(eng, f.data), Sizes(eng, f.data, SegmentCount(f.data)))
    ensures Contract(eng) ==> r.Some?
  {
    hide Contract, SubShard, Concat, ShardPrefix, Processed;
    var queues: seq<seq<bytes>> := [[], [], [], [], []];
    var sizes: seq<nat> := [];
    ghost var file := f.data;
    NothingQueued(eng, file, queues);
    while true
      invariant f.Valid() && f.pos == StartOf(file, |sizes|) && |sizes| <= SegmentCount(file)
      invariant sizes == Sizes(eng, file, |sizes|) && Queued(eng, file, queues, |sizes|)
      decreases |file| - f.pos
    {
      var k := |sizes|;
      var buf := ReadFull(f, SEGMENT);
      if buf == [] {
        AllRead(file, k);
        break;
      }
      SegmentRead(file, k);
      assert buf == SegmentAt(file, k);
      var p := Process(eng, buf, k % 0x1_0000_0000);
      ProcessedFacts(eng, file, k);
      if p.None? || |p.value.0| != TOTAL_SHARDS {
        return None;
      }
      queues := FanOut(eng, file, k, queues, p.value.0);
      sizes := sizes + [p.value.1];
    }
    var stored: seq<bytes> := [];
    for idx := 0 to TOTAL_SHARDS
      invariant |stored| == idx && forall j :: 0 <= j < idx ==> stored[j] == FullShard(eng, file, j)
    {
      var s := StreamOneShard(queues[idx]);
      stored := stored + [s];
    }
    assert stored == AllShards(eng, file);
    r := Some((stored, sizes));
  }

  lemma NothingQueued(eng: Engine, file: bytes, queues: seq<seq<bytes>>)
    requires |queues| == TOTAL_SHARDS && forall i :: 0 <= i < TOTAL_SHARDS ==> queues[i] == []
    ensures Queued(eng, file, queues, 0)
  {
  }

  lemma AllRead(file: bytes, k: nat)
    requires k <= SegmentCount(file) && StartOf(file, k) == |file|
    ensures k == SegmentCount(file)
  {
  }

  lemma SegmentRead(file: bytes, k: nat)
    requires StartOf(file, k) < |file|
    ensures k < SegmentCount(file) && StartOf(file, k + 1) == Min(StartOf(file, k) + SEGMENT, |file|)
  {
  }

  lemma ProcessedFacts(eng: Engine, file: bytes, k: nat)
    ensures var p := Process(eng, SegmentAt(file, k), k % 0x1_0000_0000);
            && (p.Some? ==> p.value.1 == EncSize(eng, file, k))
            && (p.Some? ==> forall idx :: 0 <= idx < |p.value.0| ==> p.value.0[idx] == SubShard(eng, file, idx, k))
            && (Contract(eng) ==> p.Some? && |p.value.0| == TOTAL_SHARDS)
  {
    hide Contract;
    if Contract(eng) {
      ProcessRestores(eng, SegmentAt(file, k), k % 0x1_0000_0000, []);
    }
  }

  // ----- restoring -----

  /** Bytes `off` to `off + n` of a shard, or up to its end; the slice fails if `off` lies behind the end. */
  function Cut(s: bytes, off: nat, n: nat): Option<bytes> {
    if off > |s| then None else Some(s[off..Min(off + n, |s|)])
  }

  /** One segment's part of every shard that is present. */
  function CutAll(full: seq<Option<bytes>>, off: nat, n: nat): (r: Option<seq<Option<bytes>>>)
    ensures r.Some? ==> |r.value| == |full|
  {
    if full == [] then Some([])
    else
      var last := full[|full| - 1];
      match CutAll(full[..|full| - 1], off, n)
      case None => None
      case Some(rest) =>
        if last.None? then Some(rest + [None])
        else
          match Cut(last.value, off, n)
          case None => None
          case Some(c) => Some(rest + [Some(c)])
  }

  /** The plaintext of the first `k` segments, and where the next segment's parts begin. */
  function RestoredPrefix(eng: Engine, full: seq<Option<bytes>>, sizes: seq<nat>, k: nat): Option<(bytes, nat)>
    requires k <= |sizes|
  {
    if k == 0 then Some(([], 0))
    else
      match RestoredPrefix(eng, full, sizes, k - 1)
      case None => None
      case Some((plain, off)) => RestoreNext(eng, full, sizes[k - 1], plain, off)
  }

  function RestoreNext(eng: Engine, full: seq<Option<bytes>>, size: nat, plain: bytes, off: nat): Option<(bytes, nat)> {
    var n := DivCeil(size, DATA_SHARDS);
    match CutAll(full, off, n)
    case None => None
    case Some(parts) =>
      match Restore(eng, parts, size)
      case None => None
      case Some(data) => Some((plain + data, off + n))
  }

  /** `restore_segmented`. */
  method RestoreSegmented(eng: Engine, full: seq<Option<bytes>>, sizes: seq<nat>) returns (r: Option<bytes>)
    ensures var spec := RestoredPrefix(eng, full, sizes, |sizes|); r == if spec.None? then None else Some(spec.value.0)
  {
    hide Restore, CutAll;
    var plain: bytes, off: nat := [], 0;
    for k := 0 to |sizes|
      invariant RestoredPrefix(eng, full, sizes, k) == Some((plain, off))
    {
      var n := DivCeil(sizes[k], DATA_SHARDS);
      var parts := CutAll(full, off, n);
      if parts.None? {
        Stuck(eng, full, sizes, k + 1, |sizes|);
        return None;
      }
      var data := Restore(eng, parts.value, sizes[k]);
      if data.None? {
        Stuck(eng, full, sizes, k + 1, |sizes|);
        return None;
      }
      plain := plain + data.value;
      off := off + n;
    }
    r := Some(plain);
  }

  lemma {:induction false} Stuck(eng: Engine, full: seq<Option<bytes>>, sizes: seq<nat>, k: nat, n: nat)
    requires k <= n <= |sizes| && RestoredPrefix(eng, full, sizes, k).None?
    ensures RestoredPrefix(eng, full, sizes, n).None?
    decreases n - k
  {
    hide RestoreNext;
    if k < n {
      Stuck(eng, full, sizes, k, n - 1);
    }
  }

  // ----- the round trip -----

  lemma {:induction false} PrefixLength(eng: Engine, file: bytes, i: nat, j: nat, k: nat)
    requires Contract(eng) && i < TOTAL_SHARDS && j < TOTAL_SHARDS
    ensures |ShardPrefix(eng, file, i, k)| == |ShardPrefix(eng, file, j, k)|
  {
    hide Contract, Process, SegmentAt;
    if k > 0 {
      PrefixLength(eng, file, i, j, k - 1);
      ProcessRestores(eng, SegmentAt(file, k - 1), (k - 1) % 0x1_0000_0000, []);
    }
  }

  /** A segment's sub-shard sits behind those of the earlier segments. */
  lemma {:induction false} SubShardPlace(eng: Engine, file: bytes, idx: nat, k: nat, n: nat)
    requires k < n
    ensures var a, b := |ShardPrefix(eng, file, idx, k)|, |ShardPrefix(eng, file, idx, k + 1)|;
            a <= b <= |ShardPrefix(eng, file, idx, n)| &&
                ShardPrefix(eng, file, idx, n)[a..b] == SubShard(eng, file, idx, k)
    decreases n
  {
    hide SubShard;
    var a, b := |ShardPrefix(eng, file, idx, k)|, |ShardPrefix(eng, file, idx, k + 1)|;
    if k < n - 1 {
      SubShardPlace(eng, file, idx, k, n - 1);
      assert ShardPrefix(eng, file, idx, n)[a..b] == ShardPrefix(eng, file, idx, n - 1)[a..b];
    }
  }

  lemma {:induction false} CutAllPlaces(full: seq<Option<bytes>>, off: nat, n: nat)
    requires forall i :: 0 <= i < |full| && full[i].Some? ==> off + n <= |full[i].value|
    ensures var r := CutAll(full, off, n);
            && r.Some? && Present(r.value) == Present(full)
            && forall i :: 0 <= i < |full| ==>
                 r.value[i] == if full[i].None? then None else Some(full[i].value[off..off + n])
  {
    if full != [] {
      var front := full[..|full| - 1];
      CutAllPlaces(front, off, n);
      var r := CutAll(full, off, n);
      assert r.value[..|full| - 1] == CutAll(front, off, n).value;
    }
  }

  lemma {:induction false} PrefixRestored(eng: Engine, file: bytes, full: seq<Option<bytes>>, k: nat)
    requires Contract(eng) && k <= SegmentCount(file)
    requires PartOf(full, AllShards(eng, file)) && Present(full) >= DATA_SHARDS
    ensures RestoredPrefix(eng, full, Sizes(eng, file, SegmentCount(file)), k)
         == Some((file[..StartOf(file, k)], |ShardPrefix(eng, file, 0, k)|))
  {
    hide Contract, RestoreNext, EncSize, SubShard, Present;
    if k > 0 {
      PrefixRestored(eng, file, full, k - 1);
      NextRestored(eng, file, full, k - 1);
    }
  }

  lemma NextRestored(eng: Engine, file: bytes, full: seq<Option<bytes>>, k: nat)
    requires Contract(eng) && k < SegmentCount(file)
    requires PartOf(full, AllShards(eng, file)) && Present(full) >= DATA_SHARDS
    ensures RestoreNext(eng, full, EncSize(eng, file, k), file[..StartOf(file, k)], |ShardPrefix(eng, file, 0, k)|)
         == Some((file[..StartOf(file, k + 1)], |ShardPrefix(eng, file, 0, k + 1)|))
  {
    hide Contract, Process, Restore, CutAll, Present, SegmentCount, DivCeil;
    var data, seg := SegmentAt(file, k), k % 0x1_0000_0000;
    var off, n := |ShardPrefix(eng, file, 0, k)|, DivCeil(EncSize(eng, file, k), DATA_SHARDS);
    ProcessRestores(eng, data, seg, []);
    forall i | 0 <= i < |full| && full[i].Some?
      ensures off + n <= |full[i].value| && full[i].value[off..off + n] == SubShard(eng, file, i, k)
    {
      SubShardPlace(eng, file, i, k, SegmentCount(file));
      PrefixLength(eng, file, 0, i, k);
      assert full[i].value == FullShard(eng, file, i);
    }
    CutAllPlaces(full, off, n);
    var parts := CutAll(full, off, n).value;
    assert PartOf(parts, Processed(eng, file, k).value.0);
    ProcessRestores(eng, data, seg, parts);
    assert file[..StartOf(file, k + 1)] == file[..StartOf(file, k)] + data;
  }

  /** Backup and restore: from any three surviving shards of a segmented upload, `restore_segmented` brings back the
      file. */
  lemma BackupRoundTrip(eng: Engine, file: bytes, full: seq<Option<bytes>>)
    requires Contract(eng) && PartOf(full, AllShards(eng, file)) && Present(full) >= DATA_SHARDS
    ensures var spec := RestoredPrefix(eng, full, Sizes(eng, file, SegmentCount(file)), SegmentCount(file));
            spec.Some? && spec.value.0 == file
  {
    hide Contract, RestoredPrefix, ShardPrefix;
    PrefixRestored(eng, file, full, SegmentCount(file));
    assert file[..StartOf(file, SegmentCount(file))] == file;
  }

  // ----- repairing -----

  /** The segmented branch of `repair_file` up to the upload: re-sharding an unmodified file reproduces the shard that
      was streamed, byte for byte. */
  method RepairShard(eng: Engine, f: File, idx: nat, hash: bytes -> string, fileHash: string) returns (r: Option<bytes>)
    requires f.Valid() && f.pos == 0
    modifies f
    ensures r.Some? ==> r.value == FullShard(eng, f.data, idx) && hash(f.data) == fileHash
    ensures Contract(eng) && idx < TOTAL_SHARDS && f.data != [] && hash(f.data) == fileHash ==> r.Some?
  {
    hide Contract, SubShard, Processed, DivCeil, SegmentCount, Process, ShardPrefix, EncSize;
    if idx >= TOTAL_SHARDS {
      return None;
    }
    ghost var file := f.data;
    var shard: bytes, hashed: bytes, seg: nat, k: nat := [], [], 0, 0;
    ShardGrows(eng, file, idx, 0);
    while true
      invariant f.Valid() && f.pos == StartOf(file, k) && k <= SegmentCount(file) && seg == k % 0x1_0000_0000
      invariant hashed == file[..f.pos] && shard == ShardPrefix(eng, file, idx, k)
      invariant Contract(eng) && k > 0 ==> shard != []
      decreases |file| - f.pos
    {
      var buf := ReadFull(f, SEGMENT);
      if buf == [] {
        AllRead(file, k);
        break;
      }
      SegmentRead(file, k);
      hashed := hashed + buf;
      var p := Process(eng, buf, seg);
      ProcessedFacts(eng, file, k);
      if p.None? || idx >= |p.value.0| {
        return None;
      }
      SubShardNonEmpty(eng, file, idx, k);
      ShardGrows(eng, file, idx, k);
      shard := shard + p.value.0[idx];
      k := k + 1;
      seg := (seg + 1) % 0x1_0000_0000;
    }
    assert hashed == file;
    if shard == [] || hash(hashed) != fileHash {
      return None;
    }
    r := Some(shard);
  }

  lemma ShardGrows(eng: Engine, file: bytes, idx: nat, k: nat)
    ensures ShardPrefix(eng, file, idx, 0) == []
    ensures ShardPrefix(eng, file, idx, k + 1) == ShardPrefix(eng, file, idx, k) + SubShard(eng, file, idx, k)
  {
  }

  lemma SubShardNonEmpty(eng: Engine, file: bytes, idx: nat, k: nat)
    ensures Contract(eng) && idx < TOTAL_SHARDS ==> SubShard(eng, file, idx, k) != []
  {
    if Contract(eng) {
      ProcessRestores(eng, SegmentAt(file, k), k % 0x1_0000_0000, []);
    }
  }

  // ----- what the shards are made of -----

  /** Segment `k` of an uploaded file: its bytes from `256 MiB * k` on, encrypted under the number of the segment as a
      `u32`, cut into the first three shards. */
  lemma SegmentEncrypted(eng: Engine, file: bytes, k: nat)
    requires Contract(eng) && k * 0x1000_0000 < |file|
    ensures var segment := file[k * 0x1000_0000..Min((k + 1) * 0x1000_0000, |file|)];
            var enc := eng.encrypt(segment, k % 0x1_0000_0000);
            && EncSize(eng, file, k) == |enc|
            && SubShard(eng, file, 0, k) + SubShard(eng, file, 1, k) + SubShard(eng, file, 2, k)
               == enc + Zeros(3 * DivCeil(|enc|, 3) - |enc|)
            && [SubShard(eng, file, 3, k), SubShard(eng, file, 4, k)]
               == eng.parity([SubShard(eng, file, 0, k), SubShard(eng, file, 1, k), SubShard(eng, file, 2, k)])
  {
    hide Contract, Process, DivCeil, Zeros;
    ProcessEncrypts(eng, SegmentAt(file, k), k % 0x1_0000_0000);
    var p := Processed(eng, file, k).value.0;
    assert p[..3] == [p[0], p[1], p[2]] && p[3..] == [p[3], p[4]];
  }

  /** A file has as many segments of 256 MiB as it takes to hold it. */
  lemma SegmentsCover(file: bytes)
    ensures SegmentCount(file) * 0x1000_0000 >= |file|
    ensures file != [] ==> SegmentCount(file) > 0 && (SegmentCount(file) - 1) * 0x1000_0000 < |file|
    ensures file == [] ==> SegmentCount(file) == 0
  {
  }
}
