/** `restore_file_with_fetcher`: collecting verified shards from nodes that may return anything. */
module ShardRestore {
  import opened Wrappers
  import opened ByteOrder
  import opened ErasureCoding
  import opened SegmentedBackup

  /** A catalog row of the file's shards. */
  datatype Row = Row(index: int, hash: string)

  predicate IsHexDigit(c: char) {
    '0' <= c <= '9' || 'a' <= c <= 'f' || 'A' <= c <= 'F'
  }

  /** `parse_shard_hash` succeeds. */
  predicate IsHash(h: string) {
    |h| == 64 && forall i :: 0 <= i < |h| ==> IsHexDigit(h[i])
  }

  /** What was fetched for a row is usable as shard `i`. */
  predicate Good(row: Row, got: Option<bytes>, hash: bytes -> string, i: nat) {
    row.index == i && IsHash(row.hash) && got.Some? && hash(got.value) == row.hash
  }

  /** The last usable answer for shard `i` among the first `n` rows. */
  function Chosen(rows: seq<Row>, got: seq<Option<bytes>>, hash: bytes -> string, i: nat, n: nat): Option<bytes>
    requires n <= |rows| == |got|
  {
    if n == 0 then None
    else if Good(rows[n - 1], got[n - 1], hash, i) then got[n - 1]
    else Chosen(rows, got, hash, i, n - 1)
  }

  method FetchShards(rows: seq<Row>, got: seq<Option<bytes>>, hash: bytes -> string) returns (full: seq<Option<bytes>>)
    requires |got| == |rows|
    ensures |full| == TOTAL_SHARDS
    ensures forall i :: 0 <= i < TOTAL_SHARDS ==> full[i] == Chosen(rows, got, hash, i, |rows|)
  {
    full := [None, None, None, None, None];
    for n := 0 to |rows|
      invariant |full| == TOTAL_SHARDS
      invariant forall i :: 0 <= i < TOTAL_SHARDS ==> full[i] == Chosen(rows, got, hash, i, n)
    {
      var idx := rows[n].index;
      if !(0 <= idx < TOTAL_SHARDS) || !IsHash(rows[n].hash) {
        continue;
      }
      if got[n].Some? && hash(got[n].value) == rows[n].hash {
        full := full[idx := got[n]];
      }
    }
  }

  function ChosenShards(rows: seq<Row>, got: seq<Option<bytes>>, hash: bytes -> string): (s: seq<Option<bytes>>)
    requires |got| == |rows|
    ensures |s| == TOTAL_SHARDS
  {
    seq(TOTAL_SHARDS, i requires 0 <= i => Chosen(rows, got, hash, i, |rows|))
  }

  method CountPresent(full: seq<Option<bytes>>) returns (n: nat)
    ensures n == Present(full)
  {
    n := 0;
    for i := 0 to |full|
      invariant n == Present(full[..i])
    {
      assert full[..i + 1][..i] == full[..i];
      if full[i].Some? {
        n := n + 1;
      }
    }
    assert full[..|full|] == full;
  }

  /** What the file's own row records about its backup. */
  datatype Record = Record(segmentCount: int, encryptedSize: nat, sizes: Option<seq<nat>>)

  /** The plaintext from the collected shards: of one piece, or segment by segment. */
  function Restored(eng: Engine, full: seq<Option<bytes>>, rec: Record): Option<bytes> {
    if rec.segmentCount <= 1 then Restore(eng, full, rec.encryptedSize)
    else
      match rec.sizes
      case None => None
      case Some(sizes) =>
        match RestoredPrefix(eng, full, sizes, |sizes|)
        case None => None
        case Some((plain, _)) => Some(plain)
  }

  /** The five shards of an upload: of the whole file under nonce context `ctx`, or segment by segment beyond 256
      MiB. */
  function CodeOf(eng: Engine, file: bytes, ctx: nat): seq<bytes> {
    if |file| > SEGMENT then AllShards(eng, file)
    else
      match Process(eng, file, ctx)
      case None => []
      case Some((shards, _)) => shards
  }

  /** What the upload records in the file's row. */
  function RecordOf(eng: Engine, file: bytes, ctx: nat): Record {
    if |file| > SEGMENT then Record(SegmentCount(file), 0, Some(Sizes(eng, file, SegmentCount(file))))
    else
      match Process(eng, file, ctx)
      case None => Record(1, 0, None)
      case Some((_, size)) => Record(1, size, None)
  }

  /** The catalog records the hashes of what was uploaded, and those hashes have no second preimage. */
  ghost predicate Recorded(code: seq<bytes>, rows: seq<Row>, hash: bytes -> string) {
    && |code| == TOTAL_SHARDS
    && (forall n :: 0 <= n < |rows| && 0 <= rows[n].index < TOTAL_SHARDS ==> rows[n].hash == hash(code[rows[n].index]))
    && (forall i, x :: 0 <= i < TOTAL_SHARDS && hash(x) == hash(code[i]) ==> x == code[i])
  }

  /** Every row that names the hash of its shard is fit for a restore, if no two byte strings share a hash. */
  lemma RecordedWhen(code: seq<bytes>, rows: seq<Row>, hash: bytes -> string)
    requires |code| == 5 && forall x, y :: hash(x) == hash(y) ==> x == y
    requires forall n :: 0 <= n < |rows| && 0 <= rows[n].index < 5 ==> rows[n].hash == hash(code[rows[n].index])
    ensures Recorded(code, rows, hash)
  {
  }

  lemma {:induction false} ChosenGenuine(
      code: seq<bytes>, rows: seq<Row>, got: seq<Option<bytes>>, hash: bytes -> string, i: nat, n: nat)
    requires n <= |rows| == |got| && Recorded(code, rows, hash) && i < TOTAL_SHARDS
    ensures var c := Chosen(rows, got, hash, i, n); c.Some? ==> c.value == code[i]
  {
    if n > 0 {
      ChosenGenuine(code, rows, got, hash, i, n - 1);
    }
  }

  lemma ManySegments(file: bytes)
    requires |file| > SEGMENT
    ensures SegmentCount(file) > 1
  {
  }

  /** Whatever the nodes return, a restore yields the file exactly when verified answers for three shards arrive, and
      otherwise nothing: never a wrong file, whether it was uploaded in one piece or in segments. */
  lemma RestoreExact(eng: Engine, file: bytes, ctx: nat, rows: seq<Row>, got: seq<Option<bytes>>, hash: bytes -> string)
    requires |got| == |rows| && Contract(eng) && Recorded(CodeOf(eng, file, ctx), rows, hash)
    ensures var full := ChosenShards(rows, got, hash);
            PartOf(full, CodeOf(eng, file, ctx)) &&
            (Present(full) >= DATA_SHARDS ==> Restored(eng, full, RecordOf(eng, file, ctx)) == Some(file))
  {
    hide FullShard, Contract, Present, RestoredPrefix, Recorded, Process, SegmentCount, Restore, AllShards, Sizes;
    var full, code := ChosenShards(rows, got, hash), CodeOf(eng, file, ctx);
    assert |code| == TOTAL_SHARDS by {
      CodeLength(code, rows, hash);
    }
    forall i | 0 <= i < TOTAL_SHARDS && full[i].Some? ensures full[i].value == code[i] {
      ChosenGenuine(code, rows, got, hash, i, |rows|);
    }
    if Present(full) >= DATA_SHARDS {
      if |file| > SEGMENT {
        ManySegments(file);
        BackupRoundTrip(eng, file, full);
      } else {
        ProcessRestores(eng, file, ctx, full);
      }
    }
  }

  lemma CodeLength(code: seq<bytes>, rows: seq<Row>, hash: bytes -> string)
    requires Recorded(code, rows, hash)
    ensures |code| == TOTAL_SHARDS
  {
  }

  // ----- which restores succeed -----

  /** Sixty-four hexadecimal digits of either case. */
  predicate IsHex64(h: string) {
    |h| == 64 && forall i :: 0 <= i < |h| ==> h[i] in "0123456789abcdefABCDEF"
  }

  /** What `parse_shard_hash` accepts. */
  lemma HashAccepted(h: string)
    ensures IsHash(h) <==> IsHex64(h)
  {
    forall c: char ensures IsHexDigit(c) <==> c in "0123456789abcdefABCDEF" {
      HexDigits(c);
    }
  }

  lemma HexDigits(c: char)
    ensures IsHexDigit(c) <==> c in "0123456789abcdefABCDEF"
  {
    var all := "0123456789abcdefABCDEF";
    if '0' <= c <= '9' {
      assert all[c as int - '0' as int] == c;
    } else if 'a' <= c <= 'f' {
      assert all[10 + c as int - 'a' as int] == c;
    } else if 'A' <= c <= 'F' {
      assert all[16 + c as int - 'A' as int] == c;
    }
  }

  /** A row of index `i` with a proper hash has been answered by bytes of that hash. */
  ghost predicate IsAnswered(rows: seq<Row>, got: seq<Option<bytes>>, hash: bytes -> string, i: nat)
    requires |got| == |rows|
  {
    exists n :: 0 <= n < |rows| && rows[n].index == i && IsHex64(rows[n].hash)
                && got[n].Some? && hash(got[n].value) == rows[n].hash
  }

  ghost function Answered(rows: seq<Row>, got: seq<Option<bytes>>, hash: bytes -> string): set<nat>
    requires |got| == |rows|
  {
    set i: nat | i < 5 && IsAnswered(rows, got, hash, i)
  }

  lemma {:induction false} ChosenAnswered(
      rows: seq<Row>, got: seq<Option<bytes>>, hash: bytes -> string, i: nat, n: nat)
    requires n <= |rows| == |got|
    ensures Chosen(rows, got, hash, i, n).Some?
       <==> exists m :: 0 <= m < n && rows[m].index == i && IsHex64(rows[m].hash)
                        && got[m].Some? && hash(got[m].value) == rows[m].hash
  {
    hide IsHash, IsHex64;
    if n > 0 {
      HashAccepted(rows[n - 1].hash);
      ChosenAnswered(rows, got, hash, i, n - 1);
    }
  }

  lemma {:induction false} PresentCount(full: seq<Option<bytes>>, present: set<nat>)
    requires present == set i: nat | i < |full| && full[i].Some?
    ensures Present(full) == |present|
  {
    if full == [] {
      assert present == {};
    } else {
      var n := |full| - 1;
      var front := set i: nat | i < n && full[..n][i].Some?;
      PresentCount(full[..n], front);
      assert present == front + if full[n].Some? then {n} else {};
    }
  }

  /** The shards collected are those of the answered indices. */
  lemma ChosenCount(rows: seq<Row>, got: seq<Option<bytes>>, hash: bytes -> string)
    requires |got| == |rows|
    ensures Present(ChosenShards(rows, got, hash)) == |Answered(rows, got, hash)|
  {
    hide Chosen, Present;
    var full := ChosenShards(rows, got, hash);
    forall i: nat | i < 5 ensures full[i].Some? <==> IsAnswered(rows, got, hash, i) {
      ChosenAnswered(rows, got, hash, i, |rows|);
    }
    var present := set i: nat | i < |full| && full[i].Some?;
    PresentCount(full, present);
    assert present == Answered(rows, got, hash);
  }

  lemma RestoredCases(eng: Engine, full: seq<Option<bytes>>, rec: Record)
    ensures Restored(eng, full, rec) == if rec.segmentCount <= 1 then Restore(eng, full, rec.encryptedSize)
      else if rec.sizes.None? then None
      else var spec := RestoredPrefix(eng, full, rec.sizes.value, |rec.sizes.value|);
           if spec.None? then None else Some(spec.value.0)
  {
    hide Restore, RestoredPrefix;
  }

  /** For an uploaded file, answers for three different indices are enough. */
  lemma RestoreDecided(eng: Engine, rows: seq<Row>, got: seq<Option<bytes>>, hash: bytes -> string, rec: Record)
    requires |got| == |rows|
    ensures Present(ChosenShards(rows, got, hash)) == |Answered(rows, got, hash)|
    ensures rows == [] ==> |Answered(rows, got, hash)| == 0
    ensures forall file, ctx ::
              Contract(eng) && Recorded(CodeOf(eng, file, ctx), rows, hash) && rec == RecordOf(eng, file, ctx)
              && |Answered(rows, got, hash)| >= 3
              ==> Restored(eng, ChosenShards(rows, got, hash), rec) == Some(file)
  {
    hide Present, Restored, CodeOf, RecordOf, Recorded, Contract;
    ChosenCount(rows, got, hash);
    if rows == [] {
      assert Answered(rows, got, hash) == {};
    }
    forall file, ctx |
      Contract(eng) && Recorded(CodeOf(eng, file, ctx), rows, hash) && rec == RecordOf(eng, file, ctx)
      && |Answered(rows, got, hash)| >= 3
      ensures Restored(eng, ChosenShards(rows, got, hash), rec) == Some(file)
    {
      RestoreExact(eng, file, ctx, rows, got, hash);
    }
  }

  /** `restore_file_with_fetcher`; `got[n]` is what the node of row `n` returned. */
  method RestoreFile(eng: Engine, rows: seq<Row>, got: seq<Option<bytes>>, hash: bytes -> string, rec: Record)
    returns (r: Option<bytes>)
    requires |got| == |rows|
    ensures var full := ChosenShards(rows, got, hash);
            r == if rows == [] || Present(full) < DATA_SHARDS then None else Restored(eng, full, rec)
    ensures forall file, ctx ::
              Contract(eng) && Recorded(CodeOf(eng, file, ctx), rows, hash) && rec == RecordOf(eng, file, ctx)
              ==> r == if |Answered(rows, got, hash)| >= 3 then Some(file) else None
  {
    hide RestoredPrefix, Present, Restore, Restored, Answered, CodeOf, RecordOf, Recorded, Contract;
    RestoreDecided(eng, rows, got, hash, rec);
    if rows == [] {
      return None;
    }
    var full := FetchShards(rows, got, hash);
    assert full == ChosenShards(rows, got, hash);
    RestoredCases(eng, full, rec);
    var present := CountPresent(full);
    if present < DATA_SHARDS {
      return None;
    }
    if rec.segmentCount <= 1 {
      r := Restore(eng, full, rec.encryptedSize);
    } else if rec.sizes.None? {
      r := None;
    } else {
      r := RestoreSegmented(eng, full, rec.sizes.value);
    }
  }
}
