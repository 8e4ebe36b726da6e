/** A cipher and a code that meet the storage engine's contract, so that nothing is proved from an impossible one. */
module ErasureWitness {
  import opened Wrappers
  import opened ByteOrder
  import opened ErasureCoding

  // ----- the field of four elements -----

  datatype Digit = Zero | One | Omega | Omega2

  function Add(a: Digit, b: Digit): Digit {
    match (a, b)
    case (Zero, _) => b
    case (_, Zero) => a
    case (One, One) => Zero
    case (Omega, Omega) => Zero
    case (Omega2, Omega2) => Zero
    case (One, Omega) => Omega2
    case (Omega, One) => Omega2
    case (One, Omega2) => Omega
    case (Omega2, One) => Omega
    case (Omega, Omega2) => One
    case (Omega2, Omega) => One
  }

  /** Times omega, and times its square. */
  function Gen(a: Digit): Digit {
    match a
    case Zero => Zero
    case One => Omega
    case Omega => Omega2
    case Omega2 => One
  }

  function Square(a: Digit): Digit {
    Gen(Gen(a))
  }

  function Even(a: Digit, b: Digit, c: Digit): Digit {
    Add(Add(a, b), c)
  }

  function Weighed(a: Digit, b: Digit, c: Digit): Digit {
    Add(Add(a, Gen(b)), Square(c))
  }

  lemma AddCancels(a: Digit, b: Digit, c: Digit)
    ensures Add(a, b) == Add(b, a) && (Add(a, b) == Add(a, c) ==> b == c)
  {
  }

  lemma AddTwice(a: Digit, b: Digit, c: Digit)
    ensures Add(Add(a, b), c) == Add(a, Add(b, c))
  {
  }

  lemma TimesOneToOne(a: Digit, b: Digit)
    ensures (Gen(a) == Gen(b) ==> a == b) && (Square(a) == Square(b) ==> a == b)
  {
  }

  lemma PairBC(b: Digit, c: Digit, y: Digit, z: Digit)
    requires Add(b, c) == Add(y, z) && Add(Gen(b), Square(c)) == Add(Gen(y), Square(z))
    ensures b == y && c == z
  {
    match b
    case Zero =>
    case One =>
    case Omega =>
    case Omega2 =>
  }

  lemma PairAB(a: Digit, b: Digit, x: Digit, y: Digit)
    requires Add(a, b) == Add(x, y) && Add(a, Gen(b)) == Add(x, Gen(y))
    ensures a == x && b == y
  {
    match a
    case Zero =>
    case One =>
    case Omega =>
    case Omega2 =>
  }

  lemma PairAC(a: Digit, c: Digit, x: Digit, z: Digit)
    requires Add(a, c) == Add(x, z) && Add(a, Square(c)) == Add(x, Square(z))
    ensures a == x && c == z
  {
    match a
    case Zero =>
    case One =>
    case Omega =>
    case Omega2 =>
  }

  /** Which of the five digits of a code word are known. */
  datatype Known = Known(a: bool, b: bool, c: bool, even: bool, weighed: bool)

  function Count(k: Known): nat {
    (if k.a then 1 else 0) + (if k.b then 1 else 0) + (if k.c then 1 else 0)
    + (if k.even then 1 else 0) + (if k.weighed then 1 else 0)
  }

  predicate AgreeOn(k: Known, a: Digit, b: Digit, c: Digit, x: Digit, y: Digit, z: Digit) {
    && (k.a ==> a == x) && (k.b ==> b == y) && (k.c ==> c == z)
    && (k.even ==> Even(a, b, c) == Even(x, y, z)) && (k.weighed ==> Weighed(a, b, c) == Weighed(x, y, z))
  }

  /** With two data digits known one parity digit gives the third. */
  lemma ThirdUnique(k: Known, a: Digit, b: Digit, c: Digit, x: Digit, y: Digit, z: Digit)
    requires AgreeOn(k, a, b, c, x, y, z) && (k.even || k.weighed)
    ensures k.a && k.b ==> c == z
    ensures k.a && k.c ==> b == y
    ensures k.b && k.c ==> a == x
  {
    hide Add, Gen, Square;
    AddCancels(Add(a, b), c, z);
    AddCancels(Add(a, Gen(b)), Square(c), Square(z));
    TimesOneToOne(c, z);
    TimesOneToOne(b, y);
    AddCancels(c, Add(a, b), Add(x, y));
    AddCancels(Add(x, y), c, c);
    AddCancels(Square(c), Add(a, Gen(b)), Add(x, Gen(y)));
    AddCancels(Add(x, Gen(y)), Square(c), Square(c));
    AddCancels(a, b, y);
    AddCancels(a, Gen(b), Gen(y));
    AddCancels(b, a, x);
    AddCancels(x, b, b);
    AddCancels(Gen(b), a, x);
    AddCancels(x, Gen(b), Gen(b));
  }

  /** With one data digit known two parity digits give the others. */
  lemma OthersUnique(k: Known, a: Digit, b: Digit, c: Digit, x: Digit, y: Digit, z: Digit)
    requires AgreeOn(k, a, b, c, x, y, z) && k.even && k.weighed
    ensures k.a ==> b == y && c == z
    ensures k.b ==> a == x && c == z
    ensures k.c ==> a == x && b == y
  {
    hide Add, Gen, Square;
    if k.a {
      AddTwice(a, b, c);
      AddTwice(a, y, z);
      AddCancels(a, Add(b, c), Add(y, z));
      AddTwice(a, Gen(b), Square(c));
      AddTwice(a, Gen(y), Square(z));
      AddCancels(a, Add(Gen(b), Square(c)), Add(Gen(y), Square(z)));
      PairBC(b, c, y, z);
    }
    if k.b {
      AddSwap(a, b, c);
      AddSwap(x, b, z);
      AddCancels(b, Add(a, c), Add(x, z));
      AddSwap(a, Gen(b), Square(c));
      AddSwap(x, Gen(b), Square(z));
      AddCancels(Gen(b), Add(a, Square(c)), Add(x, Square(z)));
      PairAC(a, c, x, z);
    }
    if k.c {
      AddCancels(Add(a, b), c, c);
      AddCancels(Add(x, y), c, c);
      AddCancels(c, Add(a, b), Add(x, y));
      AddCancels(Add(a, Gen(b)), Square(c), Square(c));
      AddCancels(Add(x, Gen(y)), Square(c), Square(c));
      AddCancels(Square(c), Add(a, Gen(b)), Add(x, Gen(y)));
      PairAB(a, b, x, y);
    }
  }

  lemma AddSwap(a: Digit, b: Digit, c: Digit)
    ensures Add(Add(a, b), c) == Add(b, Add(a, c))
  {
    hide Add;
    AddCancels(a, b, b);
    AddTwice(b, a, c);
  }

  /** Three known digits determine the code word. */
  lemma DigitsUnique(k: Known, a: Digit, b: Digit, c: Digit, x: Digit, y: Digit, z: Digit)
    requires Count(k) >= 3 && AgreeOn(k, a, b, c, x, y, z)
    ensures a == x && b == y && c == z
  {
    hide Add, Gen, Square, Even, Weighed;
    if k.even || k.weighed {
      ThirdUnique(k, a, b, c, x, y, z);
    }
    if k.even && k.weighed {
      OthersUnique(k, a, b, c, x, y, z);
    }
  }

  // ----- bytes as four digits -----

  function Num(d: Digit): nat {
    match d
    case Zero => 0
    case One => 1
    case Omega => 2
    case Omega2 => 3
  }

  function Low(n: nat): Digit {
    match n % 4
    case 0 => Zero
    case 1 => One
    case 2 => Omega
    case _ => Omega2
  }

  function DigitOf(b: nat, i: nat): Digit
    requires i < 4
  {
    if i == 0 then Low(b) else DigitOf(b / 4, i - 1)
  }

  function FromDigits(d0: Digit, d1: Digit, d2: Digit, d3: Digit): byte {
    Num(d0) + 4 * (Num(d1) + 4 * (Num(d2) + 4 * Num(d3)))
  }

  lemma LowFirst(d: Digit, r: nat)
    ensures Low(Num(d) + 4 * r) == d && (Num(d) + 4 * r) / 4 == r
  {
  }

  lemma DigitsOf(d0: Digit, d1: Digit, d2: Digit, d3: Digit)
    ensures var b := FromDigits(d0, d1, d2, d3);
            DigitOf(b, 0) == d0 && DigitOf(b, 1) == d1 && DigitOf(b, 2) == d2 && DigitOf(b, 3) == d3
  {
    hide Low, Num;
    var r2 := Num(d2) + 4 * Num(d3);
    var r1 := Num(d1) + 4 * r2;
    var b: nat := FromDigits(d0, d1, d2, d3);
    LowFirst(d0, r1);
    LowFirst(d1, r2);
    LowFirst(d2, Num(d3));
    LowFirst(d3, 0);
    assert DigitOf(b, 1) == DigitOf(r1, 0) && DigitOf(b, 2) == DigitOf(r1, 1) == DigitOf(r2, 0);
    assert DigitOf(b, 3) == DigitOf(r1, 2) == DigitOf(r2, 1) == DigitOf(Num(d3), 0);
  }

  lemma LowUnique(a: nat, b: nat)
    requires Low(a) == Low(b) && a / 4 == b / 4
    ensures a == b
  {
  }

  lemma ByteUnique(a: byte, b: byte)
    requires forall i :: 0 <= i < 4 ==> DigitOf(a, i) == DigitOf(b, i)
    ensures a == b
  {
    hide Low;
    var a1: nat, b1: nat := a / 4, b / 4;
    var a2: nat, b2: nat := a1 / 4, b1 / 4;
    var a3: nat, b3: nat := a2 / 4, b2 / 4;
    assert DigitOf(a, 0) == Low(a) && DigitOf(b, 0) == Low(b);
    assert DigitOf(a, 1) == DigitOf(a1, 0) && DigitOf(b, 1) == DigitOf(b1, 0);
    assert DigitOf(a, 2) == DigitOf(a1, 1) == DigitOf(a2, 0) && DigitOf(b, 2) == DigitOf(b1, 1) == DigitOf(b2, 0);
    assert DigitOf(a, 3) == DigitOf(a1, 2) == DigitOf(a2, 1) == DigitOf(a3, 0);
    assert DigitOf(b, 3) == DigitOf(b1, 2) == DigitOf(b2, 1) == DigitOf(b3, 0);
    LowUnique(a3, b3);
    LowUnique(a2, b2);
    LowUnique(a1, b1);
    LowUnique(a, b);
  }

  function EvenByte(a: byte, b: byte, c: byte): byte {
    FromDigits(Even(DigitOf(a, 0), DigitOf(b, 0), DigitOf(c, 0)), Even(DigitOf(a, 1), DigitOf(b, 1), DigitOf(c, 1)),
               Even(DigitOf(a, 2), DigitOf(b, 2), DigitOf(c, 2)), Even(DigitOf(a, 3), DigitOf(b, 3), DigitOf(c, 3)))
  }

  function WeighedByte(a: byte, b: byte, c: byte): byte {
    FromDigits(
      Weighed(DigitOf(a, 0), DigitOf(b, 0), DigitOf(c, 0)), Weighed(DigitOf(a, 1), DigitOf(b, 1), DigitOf(c, 1)),
      Weighed(DigitOf(a, 2), DigitOf(b, 2), DigitOf(c, 2)), Weighed(DigitOf(a, 3), DigitOf(b, 3), DigitOf(c, 3)))
  }

  lemma BytesUnique(k: Known, a: byte, b: byte, c: byte, x: byte, y: byte, z: byte)
    requires Count(k) >= 3 && (k.a ==> a == x) && (k.b ==> b == y) && (k.c ==> c == z)
    requires (k.even ==> EvenByte(a, b, c) == EvenByte(x, y, z))
    requires (k.weighed ==> WeighedByte(a, b, c) == WeighedByte(x, y, z))
    ensures a == x && b == y && c == z
  {
    hide Even, Weighed, DigitOf, FromDigits;
    ParityDigits(a, b, c);
    ParityDigits(x, y, z);
    forall i | 0 <= i < 4
      ensures DigitOf(a, i) == DigitOf(x, i) && DigitOf(b, i) == DigitOf(y, i) && DigitOf(c, i) == DigitOf(z, i)
    {
      DigitsUnique(k, DigitOf(a, i), DigitOf(b, i), DigitOf(c, i), DigitOf(x, i), DigitOf(y, i), DigitOf(z, i));
    }
    ByteUnique(a, x);
    ByteUnique(b, y);
    ByteUnique(c, z);
  }

  lemma ParityDigits(a: byte, b: byte, c: byte)
    ensures forall i :: 0 <= i < 4 ==>
              && DigitOf(EvenByte(a, b, c), i) == Even(DigitOf(a, i), DigitOf(b, i), DigitOf(c, i))
              && DigitOf(WeighedByte(a, b, c), i) == Weighed(DigitOf(a, i), DigitOf(b, i), DigitOf(c, i))
  {
    hide Even, Weighed, DigitOf, FromDigits;
    DigitsOf(Even(DigitOf(a, 0), DigitOf(b, 0), DigitOf(c, 0)), Even(DigitOf(a, 1), DigitOf(b, 1), DigitOf(c, 1)),
             Even(DigitOf(a, 2), DigitOf(b, 2), DigitOf(c, 2)), Even(DigitOf(a, 3), DigitOf(b, 3), DigitOf(c, 3)));
    DigitsOf(
      Weighed(DigitOf(a, 0), DigitOf(b, 0), DigitOf(c, 0)), Weighed(DigitOf(a, 1), DigitOf(b, 1), DigitOf(c, 1)),
      Weighed(DigitOf(a, 2), DigitOf(b, 2), DigitOf(c, 2)), Weighed(DigitOf(a, 3), DigitOf(b, 3), DigitOf(c, 3)));
  }

  // ----- shards -----

  function Parity(data: seq<bytes>): seq<bytes> {
    if |data| != 3 || |data[0]| != |data[1]| || |data[1]| != |data[2]| then []
    else
      [seq(|data[0]|, j requires 0 <= j < |data[0]| => EvenByte(data[0][j], data[1][j], data[2][j])),
       seq(|data[0]|, j requires 0 <= j < |data[0]| => WeighedByte(data[0][j], data[1][j], data[2][j]))]
  }

  /** The given shards are some of the code of these data. */
  ghost predicate CodeFits(shards: seq<Option<bytes>>, data: seq<bytes>) {
    exists n: nat :: n > 0 && EqualSized(data, n) && PartOf(shards, data + Parity(data))
  }

  ghost function Rebuild(shards: seq<Option<bytes>>): Option<seq<bytes>> {
    if exists data :: CodeFits(shards, data) then
      var data :| CodeFits(shards, data);
      Some(data)
    else None
  }

  lemma PresentLast(shards: seq<Option<bytes>>, x: Option<bytes>)
    ensures Present(shards + [x]) == Present(shards) + if x.Some? then 1 else 0
  {
    assert (shards + [x])[..|shards|] == shards;
  }

  lemma PresentFive(shards: seq<Option<bytes>>)
    requires |shards| == 5
    ensures Present(shards)
         == Count(Known(shards[0].Some?, shards[1].Some?, shards[2].Some?, shards[3].Some?, shards[4].Some?))
  {
    hide Present;
    PresentLast(shards[..4], shards[4]);
    PresentLast(shards[..3], shards[3]);
    PresentLast(shards[..2], shards[2]);
    PresentLast(shards[..1], shards[1]);
    PresentLast([], shards[0]);
    assert shards == shards[..4] + [shards[4]] && shards[..4] == shards[..3] + [shards[3]];
    assert shards[..3] == shards[..2] + [shards[2]] && shards[..2] == shards[..1] + [shards[1]];
    assert shards[..1] == [] + [shards[0]];
    PresentNone();
  }

  lemma PresentNone()
    ensures Present([]) == 0
  {
  }

  /** Three shards fit only one choice of data. */
  lemma DataUnique(shards: seq<Option<bytes>>, data: seq<bytes>, other: seq<bytes>)
    requires CodeFits(shards, data) && CodeFits(shards, other) && Present(shards) >= 3
    ensures data == other
  {
    hide EvenByte, WeighedByte, Present, Count;
    var n: nat :| n > 0 && EqualSized(data, n) && PartOf(shards, data + Parity(data));
    var m: nat :| m > 0 && EqualSized(other, m) && PartOf(shards, other + Parity(other));
    PresentFive(shards);
    var k := Known(shards[0].Some?, shards[1].Some?, shards[2].Some?, shards[3].Some?, shards[4].Some?);
    SameSize(shards, data, n, other, m);
    forall j | 0 <= j < n
      ensures data[0][j] == other[0][j] && data[1][j] == other[1][j] && data[2][j] == other[2][j]
    {
      SameColumns(shards, data, n, other, j);
      BytesUnique(k, data[0][j], data[1][j], data[2][j], other[0][j], other[1][j], other[2][j]);
    }
    assert data[0] == other[0] && data[1] == other[1] && data[2] == other[2];
    assert data == [data[0], data[1], data[2]] && other == [other[0], other[1], other[2]];
  }

  lemma SameSize(shards: seq<Option<bytes>>, data: seq<bytes>, n: nat, other: seq<bytes>, m: nat)
    requires EqualSized(data, n) && PartOf(shards, data + Parity(data))
    requires EqualSized(other, m) && PartOf(shards, other + Parity(other))
    requires Present(shards) >= 3 && |shards| == 5
    ensures n == m
  {
    hide EvenByte, WeighedByte;
    PresentFive(shards);
    assert forall i :: 0 <= i < 5 ==> |(data + Parity(data))[i]| == n && |(other + Parity(other))[i]| == m;
    var i :| 0 <= i < 5 && shards[i].Some?;
  }

  lemma SameColumns(shards: seq<Option<bytes>>, data: seq<bytes>, n: nat, other: seq<bytes>, j: nat)
    requires EqualSized(data, n) && PartOf(shards, data + Parity(data))
    requires EqualSized(other, n) && PartOf(shards, other + Parity(other))
    requires j < n && |shards| == 5
    ensures shards[0].Some? ==> data[0][j] == other[0][j]
    ensures shards[1].Some? ==> data[1][j] == other[1][j]
    ensures shards[2].Some? ==> data[2][j] == other[2][j]
    ensures shards[3].Some? ==>
              EvenByte(data[0][j], data[1][j], data[2][j]) == EvenByte(other[0][j], other[1][j], other[2][j])
    ensures shards[4].Some? ==>
              WeighedByte(data[0][j], data[1][j], data[2][j]) == WeighedByte(other[0][j], other[1][j], other[2][j])
  {
    hide EvenByte, WeighedByte;
    var p, q := data + Parity(data), other + Parity(other);
    assert p[0] == data[0] && p[1] == data[1] && p[2] == data[2] && p[3] == Parity(data)[0] && p[4] == Parity(data)[1];
    assert q[0] == other[0] && q[1] == other[1] && q[2] == other[2];
    assert q[3] == Parity(other)[0] && q[4] == Parity(other)[1];
    assert p[3][j] == EvenByte(data[0][j], data[1][j], data[2][j]);
    assert q[3][j] == EvenByte(other[0][j], other[1][j], other[2][j]);
    assert p[4][j] == WeighedByte(data[0][j], data[1][j], data[2][j]);
    assert q[4][j] == WeighedByte(other[0][j], other[1][j], other[2][j]);
  }

  ghost function Witness(): Engine {
    Engine((d: bytes, s: nat) => [0] + d,
           (e: bytes) => if e == [] then None else Some(e[1..]),
           (data: seq<bytes>) => Parity(data),
           (shards: seq<Option<bytes>>) => Rebuild(shards))
  }

  /** The contract can be met. */
  lemma ContractMet()
    ensures Contract(Witness())
  {
    hide Present, EvenByte, WeighedByte;
    var eng := Witness();
    forall d: bytes, s: nat ensures eng.encrypt(d, s) != [] && eng.decrypt(eng.encrypt(d, s)) == Some(d) {
      assert ([0] + d)[1..] == d;
    }
    forall data: seq<bytes>, n: nat, shards: seq<Option<bytes>> |
      EqualSized(data, n) && n > 0 && Present(shards) >= DATA_SHARDS && PartOf(shards, data + eng.parity(data))
      ensures eng.rebuild(shards) == Some(data)
    {
      assert CodeFits(shards, data);
      DataUnique(shards, data, Rebuild(shards).value);
    }
  }
}
