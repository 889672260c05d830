/** The number system behind the keys: position j has radix Radix(rows, j), and the digit
    of position 0 is the least significant. */
module MixedRadix {
  import opened Alphabet
  import opened Arith

  /** The digits encode emits from position j on while `v` is still to be written and the key
      is to be padded to `padTo` characters. While `v` is at least the radix, its remainder is
      written and its quotient carried on; the last digit is written as it is, followed by
      zero digits while the key is shorter than `padTo`. */
  function Digits(rows: seq<string>, v: nat, padTo: nat, j: nat): (ds: seq<nat>)
    requires ValidSchema(rows)
    ensures |ds| >= 1
    decreases v, if padTo > j then padTo - j else 0
  {
    var r := Radix(rows, j);
    if v >= r then
      QuotShrinks(v, r);
      [Wrap(v, r)] + Digits(rows, Quot(v, r), padTo, j + 1)
    else if padTo != 0 && j + 1 < padTo then
      [v] + Digits(rows, 0, padTo, j + 1)
    else
      [v]
  }

  /** Every digit of `ds`, written from position j on, is below the radix of its position. */
  predicate InRange(rows: seq<string>, ds: seq<nat>, j: nat)
    requires ValidSchema(rows)
    decreases |ds|
  {
    ds == [] || (ds[0] < Radix(rows, j) && InRange(rows, ds[1..], j + 1))
  }

  /** InRange says of each digit that it is below the radix of its position. */
  lemma {:induction false} InRangeIff(rows: seq<string>, ds: seq<nat>, j: nat)
    requires ValidSchema(rows)
    ensures InRange(rows, ds, j) <==> forall i :: 0 <= i < |ds| ==> ds[i] < Radix(rows, j + i)
    decreases |ds|
  {
    if ds != [] {
      var rest := ds[1..];
      InRangeIff(rows, rest, j + 1);
      if InRange(rows, ds, j) {
        forall i | 0 <= i < |ds| ensures ds[i] < Radix(rows, j + i) {
          if i > 0 {
            assert ds[i] == rest[i - 1] && j + 1 + (i - 1) == j + i;
          }
        }
      } else if ds[0] < Radix(rows, j + 0) {
        var m :| 0 <= m < |rest| && rest[m] >= Radix(rows, j + 1 + m);
        assert ds[m + 1] >= Radix(rows, j + (m + 1));
      }
    }
  }

  /** A number that does not fit the radix of position j: its remainder is the digit at j
      and its quotient is written from position j + 1 on. */
  lemma DigitsDivMod(rows: seq<string>, v: nat, padTo: nat, j: nat)
    requires ValidSchema(rows) && v >= Radix(rows, j)
    ensures Digits(rows, v, padTo, j) ==
            [v % Radix(rows, j)] + Digits(rows, v / Radix(rows, j), padTo, j + 1)
  {
    QuotWrapIsDivMod(v, Radix(rows, j));
  }

  /** A number that fits the radix of position j while the key is still shorter than padTo:
      it is the digit at j and zero is written from position j + 1 on. */
  lemma DigitsPad(rows: seq<string>, v: nat, padTo: nat, j: nat)
    requires ValidSchema(rows) && v < Radix(rows, j) && padTo != 0 && j + 1 < padTo
    ensures Digits(rows, v, padTo, j) == [v] + Digits(rows, 0, padTo, j + 1)
  {
  }

  /** Each digit encode writes is below the radix of its position. */
  lemma {:induction false} DigitsInRange(rows: seq<string>, v: nat, padTo: nat, j: nat)
    requires ValidSchema(rows)
    ensures InRange(rows, Digits(rows, v, padTo, j), j)
    decreases v, if padTo > j then padTo - j else 0
  {
    var r := Radix(rows, j);
    var ds := Digits(rows, v, padTo, j);
    if v >= r {
      QuotShrinks(v, r);
      DigitsInRange(rows, Quot(v, r), padTo, j + 1);
      assert ds[1..] == Digits(rows, Quot(v, r), padTo, j + 1);
    } else if padTo != 0 && j + 1 < padTo {
      DigitsInRange(rows, 0, padTo, j + 1);
      assert ds[1..] == Digits(rows, 0, padTo, j + 1);
    }
  }

  /** The number that digits `ds`, starting at position j, stand for. */
  function Value(rows: seq<string>, ds: seq<nat>, j: nat): nat
    requires ValidSchema(rows)
    decreases |ds|
  {
    if ds == [] then 0 else ds[0] + Mul(Value(rows, ds[1..], j + 1), Radix(rows, j))
  }

  /** Product of the radices of the n positions from j on: how many values they can hold. */
  function Capacity(rows: seq<string>, j: nat, n: nat): (c: nat)
    requires ValidSchema(rows)
    ensures c >= 1
    decreases n
  {
    if n == 0 then 1 else Mul(Capacity(rows, j + 1, n - 1), Radix(rows, j))
  }

  /** Number of positions from j on needed to write v without padding. */
  function MinLen(rows: seq<string>, v: nat, j: nat): (n: nat)
    requires ValidSchema(rows)
    ensures n >= 1
    decreases v
  {
    var r := Radix(rows, j);
    if v < r then 1 else QuotShrinks(v, r); 1 + MinLen(rows, Quot(v, r), j + 1)
  }

  /** MinLen(v, j) is the least n >= 1 whose n positions can hold v. */
  lemma {:induction false} MinLenLeast(rows: seq<string>, v: nat, j: nat)
    requires ValidSchema(rows)
    ensures Capacity(rows, j, MinLen(rows, v, j)) > v
    ensures forall m :: 1 <= m < MinLen(rows, v, j) ==> Capacity(rows, j, m) <= v
    decreases v
  {
    var r := Radix(rows, j);
    if v < r {
      assert Capacity(rows, j, 1) == Mul(1, r) == r;
    } else {
      var w := Quot(v, r);
      QuotShrinks(v, r);
      QuotWrap(v, r);
      MinLenLeast(rows, w, j + 1);
      var n := MinLen(rows, w, j + 1);
      assert MinLen(rows, v, j) == 1 + n;
      var c := Capacity(rows, j + 1, n);
      assert Capacity(rows, j, 1 + n) == Mul(c, r);
      MulMonotone(w + 1, c, r);
      forall m | 1 <= m < MinLen(rows, v, j)
        ensures Capacity(rows, j, m) <= v
      {
        var c' := Capacity(rows, j + 1, m - 1);
        assert Capacity(rows, j, m) == Mul(c', r);
        if m > 1 {
          MulMonotone(c', w, r);
        } else {
          assert Mul(c', r) == Mul(1, r) == r;
        }
      }
    }
  }

  /** Encoding writes max(padTo - j, MinLen(v, j)) digits from position j on. */
  lemma {:induction false} DigitsLength(rows: seq<string>, v: nat, padTo: nat, j: nat)
    requires ValidSchema(rows)
    ensures |Digits(rows, v, padTo, j)| ==
            if padTo > j + MinLen(rows, v, j) then padTo - j else MinLen(rows, v, j)
    decreases v, if padTo > j then padTo - j else 0
  {
    var r := Radix(rows, j);
    if v >= r {
      var q := Quot(v, r);
      QuotShrinks(v, r);
      DigitsLength(rows, q, padTo, j + 1);
      assert MinLen(rows, v, j) == 1 + MinLen(rows, q, j + 1);
      assert |Digits(rows, v, padTo, j)| == 1 + |Digits(rows, q, padTo, j + 1)|;
    } else if padTo != 0 && j + 1 < padTo {
      DigitsLength(rows, 0, padTo, j + 1);
      assert MinLen(rows, 0, j + 1) == 1 && MinLen(rows, v, j) == 1;
      assert |Digits(rows, v, padTo, j)| == 1 + |Digits(rows, 0, padTo, j + 1)|;
    } else {
      assert MinLen(rows, v, j) == 1;
    }
  }

  /** The digits encode writes stand for the number encoded. */
  lemma {:induction false} DigitsValue(rows: seq<string>, v: nat, padTo: nat, j: nat)
    requires ValidSchema(rows)
    ensures Value(rows, Digits(rows, v, padTo, j), j) == v
    decreases v, if padTo > j then padTo - j else 0
  {
    var r := Radix(rows, j);
    var ds := Digits(rows, v, padTo, j);
    if v >= r {
      var q := Quot(v, r);
      QuotShrinks(v, r);
      QuotWrap(v, r);
      DigitsValue(rows, q, padTo, j + 1);
      assert ds[1..] == Digits(rows, q, padTo, j + 1);
    } else if padTo != 0 && j + 1 < padTo {
      DigitsValue(rows, 0, padTo, j + 1);
      assert ds[1..] == Digits(rows, 0, padTo, j + 1);
    }
  }

  /** Every digit past the first MinLen(v, j) ones is padding, and padding is zero. */
  lemma {:induction false} PaddingIsZero(rows: seq<string>, v: nat, padTo: nat, j: nat)
    requires ValidSchema(rows)
    ensures forall i :: MinLen(rows, v, j) <= i < |Digits(rows, v, padTo, j)| ==>
              Digits(rows, v, padTo, j)[i] == 0
    decreases v, if padTo > j then padTo - j else 0
  {
    var r := Radix(rows, j);
    var ds := Digits(rows, v, padTo, j);
    if v >= r {
      QuotShrinks(v, r);
      PaddingIsZero(rows, Quot(v, r), padTo, j + 1);
      assert ds[1..] == Digits(rows, Quot(v, r), padTo, j + 1);
    } else if padTo != 0 && j + 1 < padTo {
      var rest := Digits(rows, 0, padTo, j + 1);
      PaddingIsZero(rows, 0, padTo, j + 1);
      assert ds[1..] == rest;
      assert rest[0] == 0;
    }
  }

  /** Padding to more characters only appends digits: the shorter padding is a prefix. */
  lemma {:induction false} DigitsPadPrefix(rows: seq<string>, v: nat, p: nat, q: nat, j: nat)
    requires ValidSchema(rows) && p <= q
    ensures Digits(rows, v, p, j) <= Digits(rows, v, q, j)
    decreases v, if q > j then q - j else 0
  {
    var r := Radix(rows, j);
    var dp, dq := Digits(rows, v, p, j), Digits(rows, v, q, j);
    if v >= r {
      var w := Quot(v, r);
      QuotShrinks(v, r);
      DigitsPadPrefix(rows, w, p, q, j + 1);
      assert dp == [Wrap(v, r)] + Digits(rows, w, p, j + 1);
      assert dq == [Wrap(v, r)] + Digits(rows, w, q, j + 1);
    } else if p != 0 && j + 1 < p {
      DigitsPadPrefix(rows, 0, p, q, j + 1);
      assert dp == [v] + Digits(rows, 0, p, j + 1);
      assert dq == [v] + Digits(rows, 0, q, j + 1);
    } else {
      assert dp == [v] && dq[0] == v;
    }
  }

  /** Digits in range of their positions stand for a number below the capacity of those positions. */
  lemma {:induction false} ValueBelowCapacity(rows: seq<string>, ds: seq<nat>, j: nat)
    requires ValidSchema(rows) && InRange(rows, ds, j)
    ensures Value(rows, ds, j) < Capacity(rows, j, |ds|)
    decreases |ds|
  {
    if ds != [] {
      var r := Radix(rows, j);
      var rest := ds[1..];
      ValueBelowCapacity(rows, rest, j + 1);
      var v' := Value(rows, rest, j + 1);
      var c' := Capacity(rows, j + 1, |rest|);
      assert Value(rows, ds, j) == ds[0] + Mul(v', r);
      assert Capacity(rows, j, |ds|) == Mul(c', r);
      MulMonotone(v' + 1, c', r);
    }
  }

  /** A digit string of length n in range is the padded encoding of its own value:
      the representation of a number by n in-range digits is unique. */
  lemma {:induction false} DigitsOfValue(rows: seq<string>, ds: seq<nat>, j: nat)
    requires ValidSchema(rows) && |ds| >= 1 && InRange(rows, ds, j)
    ensures Digits(rows, Value(rows, ds, j), j + |ds|, j) == ds
    decreases |ds|
  {
    var r := Radix(rows, j);
    var v := Value(rows, ds, j);
    var rest := ds[1..];
    if rest == [] {
      assert Value(rows, rest, j + 1) == 0;
    } else {
      DigitsOfValue(rows, rest, j + 1);
      var v' := Value(rows, rest, j + 1);
      assert v == ds[0] + Mul(v', r);
      assert j + |ds| == (j + 1) + |rest|;
      QuotWrapUnique(v, v', ds[0], r);
      assert ds == [ds[0]] + rest;
    }
  }
}
