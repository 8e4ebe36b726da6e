/** The storage engine: encryption followed by 3 + 2 erasure coding, with cipher and code as parameters. */
module ErasureCoding {
  import opened Wrappers
  import opened ByteOrder

  const DATA_SHARDS: nat := 3
  const TOTAL_SHARDS: nat := 5

  /** `encrypt` and `decrypt` under one file key, `encrypt` with the nonce context of a segment number; `parity`
      computes the two parity shards of three data shards; `rebuild` recovers the data shards from what is present. */
  datatype Engine = Engine(
    encrypt: (bytes, nat) -> bytes,
    decrypt: bytes -> Option<bytes>,
    parity: seq<bytes> -> seq<bytes>,
    rebuild: seq<Option<bytes>> -> Option<seq<bytes>>)

  ghost predicate EqualSized(data: seq<bytes>, n: nat) {
    |data| == DATA_SHARDS && forall i :: 0 <= i < |data| ==> |data[i]| == n
  }

  function Present(shards: seq<Option<bytes>>): nat {
    if shards == [] then 0 else Present(shards[..|shards| - 1]) + if shards[|shards| - 1].Some? then 1 else 0
  }

  /** Every shard that is present is the one of `code`. */
  ghost predicate PartOf(shards: seq<Option<bytes>>, code: seq<bytes>) {
    |shards| == |code| && forall i :: 0 <= i < |shards| && shards[i].Some? ==> shards[i].value == code[i]
  }

  /** Decryption undoes encryption, parity shards have the size of data shards, and any three shards bring back the
      data. */
  ghost predicate Contract(eng: Engine) {
    && (forall d, s :: eng.encrypt(d, s) != [] && eng.decrypt(eng.encrypt(d, s)) == Some(d))
    && (forall data, n: nat :: EqualSized(data, n) && n > 0 ==>
          |eng.parity(data)| == 2 && |eng.parity(data)[0]| == n && |eng.parity(data)[1]| == n)
    && (forall data, n: nat, shards ::
          EqualSized(data, n) && n > 0 && Present(shards) >= DATA_SHARDS && PartOf(shards, data + eng.parity(data)) ==>
            eng.rebuild(shards) == Some(data))
  }

  function DivCeil(n: nat, d: nat): (q: nat)
    requires d > 0
    ensures d * q >= n && (q > 0 ==> d * (q - 1) < n)
  {
    var q := if n % d == 0 then n / d else n / d + 1;
    Division(n, d);
    Products(d, q);
    Products(d, n / d);
    q
  }

  lemma Division(n: nat, d: nat)
    requires d > 0
    ensures n == d * (n / d) + n % d
  {
  }

  lemma Products(d: nat, q: nat)
    ensures d * (q - 1) == d * q - d && d * (q + 1) == d * q + d
  {
  }

  function Zeros(n: nat): (z: bytes)
    ensures |z| == n
  {
    seq(n, _ => 0)
  }

  /** `shard`: pad, cut into three, add parity. */
  function Shard(eng: Engine, data: bytes): (r: Option<seq<bytes>>) {
    if data == [] then None
    else Some(DataShards(data) + eng.parity(DataShards(data)))
  }

  function Padded(data: bytes): (p: bytes)
    ensures |p| == 3 * DivCeil(|data|, 3) && p[..|data|] == data
  {
    data + Zeros(3 * DivCeil(|data|, 3) - |data|)
  }

  function DataShards(data: bytes): (s: seq<bytes>)
    ensures EqualSized(s, DivCeil(|data|, 3))
  {
    var n := DivCeil(|data|, 3);
    var p := Padded(data);
    [p[..n], p[n..2 * n], p[2 * n..3 * n]]
  }

  /** `reconstruct`: recover the data shards, join them, cut off the padding. */
  function Reconstruct(eng: Engine, shards: seq<Option<bytes>>, size: nat): Option<bytes> {
    if |shards| != TOTAL_SHARDS || Present(shards) < DATA_SHARDS then None
    else
      match eng.rebuild(shards)
      case None => None
      case Some(data) =>
        if |data| < 3 then None
        else
          var joined := data[0] + data[1] + data[2];
          Some(if size <= |joined| then joined[..size] else joined)
  }

  /** `process_for_backup` of segment `seg`: the shards and the encrypted size. */
  function Process(eng: Engine, data: bytes, seg: nat): Option<(seq<bytes>, nat)> {
    var enc := eng.encrypt(data, seg);
    match Shard(eng, enc)
    case None => None
    case Some(shards) => Some((shards, |enc|))
  }

  /** `restore_from_backup`. */
  function Restore(eng: Engine, shards: seq<Option<bytes>>, size: nat): Option<bytes> {
    match Reconstruct(eng, shards, size)
    case None => None
    case Some(enc) => eng.decrypt(enc)
  }

  /** The first three shards are the ciphertext under the given nonce context, filled up with zeros; the others are
      their parity. */
  lemma ProcessEncrypts(eng: Engine, data: bytes, seg: nat)
    requires Contract(eng)
    ensures var r, enc := Process(eng, data, seg), eng.encrypt(data, seg);
            && r.Some? && |r.value.0| == 5 && r.value.1 == |enc|
            && r.value.0[0] + r.value.0[1] + r.value.0[2] == enc + Zeros(3 * DivCeil(|enc|, 3) - |enc|)
            && r.value.0[3..] == eng.parity(r.value.0[..3])
  {
    hide Present, PartOf;
    var enc := eng.encrypt(data, seg);
    var cut, n := DataShards(enc), DivCeil(|enc|, 3);
    assert n > 0;
    assert |eng.parity(cut)| == 2;
    assert (cut + eng.parity(cut))[..3] == cut && (cut + eng.parity(cut))[3..] == eng.parity(cut);
    assert cut[0] + cut[1] + cut[2] == Padded(enc);
  }

  lemma ZerosAreZero(n: nat)
    ensures forall i :: 0 <= i < n ==> Zeros(n)[i] == 0
  {
  }

  /** Sharding yields five shards of `ceil(enc / 3)` bytes, and any three of them restore the data. */
  lemma ProcessRestores(eng: Engine, data: bytes, seg: nat, shards: seq<Option<bytes>>)
    requires Contract(eng)
    ensures var r := Process(eng, data, seg);
            && r.Some? && |r.value.0| == TOTAL_SHARDS && r.value.1 == |eng.encrypt(data, seg)|
            && (forall i :: 0 <= i < TOTAL_SHARDS ==> |r.value.0[i]| == DivCeil(r.value.1, 3))
            && (PartOf(shards, r.value.0) && Present(shards) >= DATA_SHARDS ==>
                Restore(eng, shards, r.value.1) == Some(data))
  {
    hide Present, Padded, PartOf;
    var enc := eng.encrypt(data, seg);
    var cut, n := DataShards(enc), DivCeil(|enc|, 3);
    assert n > 0;
    assert |eng.parity(cut)| == 2 && |eng.parity(cut)[0]| == n && |eng.parity(cut)[1]| == n;
    JoinedBack(enc);
    PartLength(shards, cut + eng.parity(cut));
  }

  /** Nothing is restored from fewer than three shards, or from another number of places than five. */
  lemma RestoreRefuses(eng: Engine, shards: seq<Option<bytes>>, size: nat)
    requires |shards| != 5 || Present(shards) < 3
    ensures Restore(eng, shards, size) == None
  {
  }

  lemma PartLength(shards: seq<Option<bytes>>, code: seq<bytes>)
    ensures PartOf(shards, code) ==> |shards| == |code|
  {
  }

  lemma JoinedBack(data: bytes)
    ensures var s := DataShards(data);
            var joined := s[0] + s[1] + s[2];
            |data| <= |joined| && joined[..|data|] == data
  {
    var s, p := DataShards(data), Padded(data);
    assert s[0] + s[1] + s[2] == p;
  }
}
