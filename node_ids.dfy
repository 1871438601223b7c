/**
 * Node ids of the form N#### and the edge key `source-destination`
 * (attackTreeDraw/data/types.py: `getNextID`, `Edge.__hash__`).
 */
module NodeIds {
  import opened Lists

  /** A node id. It never contains '-', the separator of the edge key. */
  type Id = s: string | '-' !in s

  /** Size of the id space N0000 .. N9999. */
  const IdSpace: nat := 10000

  predicate IsDigit(c: char) {
    '0' <= c <= '9'
  }

  predicate AllDigits(s: string) {
    forall i :: 0 <= i < |s| ==> IsDigit(s[i])
  }

  function DigitChar(d: nat): (c: char)
    requires d < 10
    ensures IsDigit(c)
  {
    ('0' as int + d) as char
  }

  function DigitValue(c: char): (d: nat)
    requires IsDigit(c)
    ensures d < 10
  {
    c as int - '0' as int
  }

  /** Python's `str(n)` for a non-negative integer: decimal digits, no leading zero. */
  function DecimalString(n: nat): (s: string)
    ensures |s| > 0 && AllDigits(s)
    decreases n
  {
    if n < 10 then [DigitChar(n)] else DecimalString(n / 10) + [DigitChar(n % 10)]
  }

  /** The number a string of decimal digits denotes. */
  function DigitsValue(s: string): nat
    requires AllDigits(s)
  {
    if s == [] then 0 else DigitsValue(s[..|s| - 1]) * 10 + DigitValue(s[|s| - 1])
  }

  /** Python's `s.zfill(width)` on a string of digits: pads with '0' on the left. */
  function ZFill(s: string, width: nat): (r: string)
    ensures |r| == if |s| >= width then |s| else width
    ensures AllDigits(s) ==> AllDigits(r)
  {
    if |s| >= width then s else Zeros(width - |s|) + s
  }

  function Zeros(k: nat): (z: string)
    ensures |z| == k && AllDigits(z)
  {
    seq(k, _ => '0')
  }

  /** The id `'N' + str(i).zfill(4)` that `getNextID` tries for slot `i`. */
  function IdOf(i: nat): (id: Id)
    requires i < IdSpace
  {
    DecimalStringShort(i);
    assert AllDigits(ZFill(DecimalString(i), 4));
    "N" + ZFill(DecimalString(i), 4)
  }

  /** `str(n)` reads back as `n`. */
  lemma {:induction false} DecimalStringValue(n: nat)
    ensures DigitsValue(DecimalString(n)) == n
    decreases n
  {
    var s := DecimalString(n);
    if n >= 10 {
      DecimalStringValue(n / 10);
      assert s[..|s| - 1] == DecimalString(n / 10);
    }
  }

  /** Below 10000, `str(n)` has at most four digits. */
  lemma DecimalStringShort(n: nat)
    requires n < IdSpace
    ensures |DecimalString(n)| <= 4
  {
    if n >= 10 {
      if n >= 100 {
        if n >= 1000 {
          assert |DecimalString(n / 1000)| == 1;
        }
        assert |DecimalString(n / 100)| <= 2;
      }
      assert |DecimalString(n / 10)| <= 3;
    }
  }

  /** Leading zeros do not change the value of a digit string. */
  lemma {:induction false} ZerosValue(k: nat, s: string)
    requires AllDigits(s)
    ensures DigitsValue(Zeros(k) + s) == DigitsValue(s)
    decreases |s|, k
  {
    var t := Zeros(k) + s;
    if s == [] {
      assert t == Zeros(k);
      if k > 0 {
        assert t[..|t| - 1] == Zeros(k - 1) + [];
        ZerosValue(k - 1, []);
      }
    } else {
      var init := s[..|s| - 1];
      assert t[..|t| - 1] == Zeros(k) + init;
      ZerosValue(k, init);
    }
  }

  /** `IdOf(i)` has the shape N followed by four digits, and those digits spell `i`. */
  lemma IdOfShape(i: nat)
    requires i < IdSpace
    ensures |IdOf(i)| == 5 && IdOf(i)[0] == 'N'
    ensures AllDigits(IdOf(i)[1..]) && DigitsValue(IdOf(i)[1..]) == i
  {
    var d := DecimalString(i);
    DecimalStringShort(i);
    DecimalStringValue(i);
    assert IdOf(i)[1..] == ZFill(d, 4);
    if |d| < 4 {
      ZerosValue(4 - |d|, d);
    }
  }

  /** Different slots give different ids, so the N#### scan never repeats an id. */
  lemma IdOfInjective(i: nat, j: nat)
    requires i < IdSpace && j < IdSpace
    ensures IdOf(i) == IdOf(j) ==> i == j
  {
    IdOfShape(i);
    IdOfShape(j);
  }

  /** A directed edge between two node ids (types.py `Edge`). */
  datatype Edge = Edge(source: Id, destination: Id) {
    /** `Edge.__hash__`: the key `'%s-%s' % (source, destination)`. */
    function Hash(): string {
      source + "-" + destination
    }
  }

  /** Because ids never contain '-', the key determines the edge. */
  lemma HashInjective(e1: Edge, e2: Edge)
    ensures e1.Hash() == e2.Hash() ==> e1 == e2
  {
    if e1.Hash() == e2.Hash() {
      var h := e1.Hash();
      var k1, k2 := |e1.source|, |e2.source|;
      assert h[k1] == '-' && h[k2] == '-';
      assert k1 == k2;
      assert e1.source == h[..k1] == e2.source;
      assert e1.destination == h[k1 + 1..] == e2.destination;
    }
  }
  /** Slot id `id` is taken neither by a node, nor by `keyList`, nor by the reserved list. */
  predicate Free(id: Id, taken: set<Id>, keyList: seq<string>, reserved: seq<string>) {
    id !in taken && id !in keyList && id !in reserved
  }

  /** `r` is the free id of the lowest slot, or None when all 10000 slots are taken. */
  ghost predicate IsLowestFree(r: Option<Id>, taken: set<Id>, keyList: seq<string>, reserved: seq<string>) {
    match r
    case None => forall i :: 0 <= i < IdSpace ==> !Free(IdOf(i), taken, keyList, reserved)
    case Some(id) =>
      exists i :: 0 <= i < IdSpace && id == IdOf(i) && Free(id, taken, keyList, reserved) &&
                  forall j :: 0 <= j < i ==> !Free(IdOf(j), taken, keyList, reserved)
  }

  /** There is only one lowest free id, and it is really free. */
  lemma LowestFreeUnique(r1: Option<Id>, r2: Option<Id>, taken: set<Id>, keyList: seq<string>, reserved: seq<string>)
    requires IsLowestFree(r1, taken, keyList, reserved) && IsLowestFree(r2, taken, keyList, reserved)
    ensures r1 == r2
    ensures r1.Some? ==> r1.value !in taken && r1.value !in keyList && r1.value !in reserved
  {
    if r1.Some? && r2.Some? {
      var i :| 0 <= i < IdSpace && r1.value == IdOf(i) && Free(r1.value, taken, keyList, reserved) &&
               forall j :: 0 <= j < i ==> !Free(IdOf(j), taken, keyList, reserved);
      var k :| 0 <= k < IdSpace && r2.value == IdOf(k) && Free(r2.value, taken, keyList, reserved) &&
               forall j :: 0 <= j < k ==> !Free(IdOf(j), taken, keyList, reserved);
      IdOfInjective(i, k);
    }
  }
}
