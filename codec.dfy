/** The codec as functions: encoding renders mixed-radix digits as characters rotated by a
    running offset; decoding undoes the rotation and reads the digits back. */
module Codec {
  import opened Wrappers
  import opened Alphabet
  import opened MixedRadix
  import opened Arith

  /** The character that stands for digit d in `row` when the running offset is `offset`:
      the digit is moved `offset` places along the row, cyclically. */
  function Rotate(row: string, d: nat, offset: nat): (c: char)
    requires |row| > 0
    ensures c in row
  {
    row[Wrap(d + offset, |row|)]
  }

  /** The digit that character c of `row` stands for when the running offset is `offset`:
      the offset, reduced modulo the row length, is taken off the character's index, and the
      row length is added back when that goes below zero. A character that occurs twice
      stands at its last index. */
  function Unrotate(row: string, c: char, offset: nat): (d: nat)
    requires c in row
    ensures d < |row|
  {
    Wrap(LastIndex(row, c) + |row| - Wrap(offset, |row|), |row|)
  }

  /** Unrotate as decode computes it: the offset reduced modulo the row length is taken off
      the character's index, and the row length is added back when that is negative. */
  lemma UnrotateReduced(row: string, c: char, offset: nat)
    requires c in row
    ensures var x := LastIndex(row, c) - offset % |row|;
            Unrotate(row, c, offset) == if x < 0 then x + |row| else x
  {
    LastIndexFound(row, c);
    WrapIsMod(offset, |row|);
    var y := LastIndex(row, c) + |row| - Wrap(offset, |row|);
    if y >= |row| {
      assert Wrap(y, |row|) == Wrap(y - |row|, |row|);
    }
  }

  /** Taking the offset off modulo r undoes adding it modulo r. */
  lemma {:induction false} AddSubtractMod(d: nat, offset: nat, r: nat)
    requires d < r
    ensures Wrap(Wrap(d + offset, r) + r - Wrap(offset, r), r) == d
    decreases offset
  {
    if offset >= r {
      AddSubtractMod(d, offset - r, r);
    }
  }

  /** Adding the offset modulo r undoes taking it off modulo r. */
  lemma {:induction false} SubtractAddMod(k: nat, offset: nat, r: nat)
    requires k < r
    ensures Wrap(Wrap(k + r - Wrap(offset, r), r) + offset, r) == k
    decreases offset
  {
    if offset >= r {
      SubtractAddMod(k, offset - r, r);
    }
  }

  /** Looking up index d + offset % |row| in the row written twice, as encode does, picks the
      same character as the cyclic rotation. */
  lemma DoubledLookup(row: string, d: nat, offset: nat)
    requires 0 < |row| && d < |row|
    ensures d + offset % |row| < 2 * |row|
    ensures (row + row)[d + offset % |row|] == Rotate(row, d, offset)
  {
    WrapIsMod(offset, |row|);
    WrapAddWrap(d, offset, |row|);
  }

  /** Undoing the rotation recovers the digit. */
  lemma UnrotateRotate(row: string, d: nat, offset: nat)
    requires Distinct(row) && d < |row|
    ensures Rotate(row, d, offset) in row
    ensures Unrotate(row, Rotate(row, d, offset), offset) == d
  {
    var k := Wrap(d + offset, |row|);
    LastIndexDistinct(row, k);
    AddSubtractMod(d, offset, |row|);
  }

  /** Every character of a row stands for some digit at every offset: rotating the digit
      it stands for gives the character back. */
  lemma RotateUnrotate(row: string, c: char, offset: nat)
    requires c in row
    ensures Rotate(row, Unrotate(row, c, offset), offset) == c
  {
    LastIndexFound(row, c);
    SubtractAddMod(LastIndex(row, c), offset, |row|);
  }

  /** The characters for digits ds written from position j on, starting with running offset
      `offset`; each emitted character adds its weight to the offset. */
  function Render(rows: seq<string>, ds: seq<nat>, j: nat, offset: nat): (key: string)
    requires ValidSchema(rows)
    ensures |key| == |ds|
    decreases |ds|
  {
    if ds == [] then []
    else
      var c := Rotate(Row(rows, j), ds[0], offset);
      [c] + Render(rows, ds[1..], j + 1, offset + Weight(c))
  }

  /** Rendering a first digit d and then the rest: d's character, whose weight the rest
      starts from. */
  lemma RenderCons(rows: seq<string>, d: nat, rest: seq<nat>, j: nat, offset: nat)
    requires ValidSchema(rows)
    ensures var c := Rotate(Row(rows, j), d, offset);
            Render(rows, [d] + rest, j, offset) == [c] + Render(rows, rest, j + 1, offset + Weight(c))
  {
    assert ([d] + rest)[1..] == rest;
  }

  /** Encode's loop read as a function of its state: the key written so far, the part of
      the number still to encode, the key position and the running offset. A digit that
      does not fit the row leaves its quotient for the next position; a digit that fits is
      followed by zero digits until the key is padTo long; then the key is complete. */
  function EncodeFrom(rows: seq<string>, key: string, mod: nat, padTo: nat, j: nat, offset: nat): (r: string)
    requires ValidSchema(rows)
    ensures |r| > |key| && key < r
    decreases mod, if padTo > j then padTo - j else 0
  {
    var r := Radix(rows, j);
    if mod >= r then
      DivShrinks(mod, r);
      var c := Rotate(Row(rows, j), mod % r, offset);
      EncodeFrom(rows, key + [c], mod / r, padTo, j + 1, offset + Weight(c))
    else if padTo != 0 && j + 1 < padTo then
      var c := Rotate(Row(rows, j), mod, offset);
      EncodeFrom(rows, key + [c], 0, padTo, j + 1, offset + Weight(c))
    else
      key + [Rotate(Row(rows, j), mod, offset)]
  }

  /** One pass of encode's loop: a digit that does not fit the row, or a fitting digit
      while padding is due, emits its character and moves on to the next position, and the
      loop still ends with the same key. */
  lemma EncodeFromStep(rows: seq<string>, target: string, key: string, mod: nat, padTo: nat,
                       j: nat, offset: nat, c: char, q: nat, next: nat)
    requires ValidSchema(rows)
    requires EncodeFrom(rows, key, mod, padTo, j, offset) == target
    requires var r := Radix(rows, j);
             (mod >= r && q == mod / r && c == Rotate(Row(rows, j), mod % r, offset)) ||
             (mod < r && padTo != 0 && j + 1 < padTo && q == 0 && c == Rotate(Row(rows, j), mod, offset))
    requires next == offset + Weight(c)
    ensures EncodeFrom(rows, key + [c], q, padTo, j + 1, next) == target
  {
  }

  /** The last pass of encode's loop: a fitting digit with no padding due completes the key. */
  lemma EncodeFromLast(rows: seq<string>, key: string, mod: nat, padTo: nat, j: nat, offset: nat)
    requires ValidSchema(rows)
    requires mod < Radix(rows, j) && !(padTo != 0 && j + 1 < padTo)
    ensures EncodeFrom(rows, key, mod, padTo, j, offset) == key + [Rotate(Row(rows, j), mod, offset)]
    ensures EncodeFrom(rows, key, mod, padTo, j, offset) ==
            key + Render(rows, Digits(rows, mod, padTo, j), j, offset)
  {
    RenderCons(rows, mod, [], j, offset);
    assert [mod] + [] == [mod];
  }

  /** The loop's result is the key so far followed by the remaining digits, rendered from
      the current position and offset. */
  lemma {:induction false} EncodeFromRender(rows: seq<string>, key: string, mod: nat, padTo: nat,
                                            j: nat, offset: nat)
    requires ValidSchema(rows)
    ensures EncodeFrom(rows, key, mod, padTo, j, offset) ==
            key + Render(rows, Digits(rows, mod, padTo, j), j, offset)
    decreases mod, if padTo > j then padTo - j else 0
  {
    var r := Radix(rows, j);
    if mod >= r {
      DivShrinks(mod, r);
      DigitsDivMod(rows, mod, padTo, j);
      var c := Rotate(Row(rows, j), mod % r, offset);
      EncodeFromRender(rows, key + [c], mod / r, padTo, j + 1, offset + Weight(c));
      EncodeFromRenderStep(rows, key, mod, padTo, j, offset, mod % r, mod / r);
    } else if padTo != 0 && j + 1 < padTo {
      DigitsPad(rows, mod, padTo, j);
      var c := Rotate(Row(rows, j), mod, offset);
      EncodeFromRender(rows, key + [c], 0, padTo, j + 1, offset + Weight(c));
      EncodeFromRenderStep(rows, key, mod, padTo, j, offset, mod, 0);
    } else {
      EncodeFromLast(rows, key, mod, padTo, j, offset);
    }
  }

  /** The inductive step of EncodeFromRender: if the claim holds once the digit d at
      position j has been emitted, it holds before. */
  lemma EncodeFromRenderStep(rows: seq<string>, key: string, mod: nat, padTo: nat, j: nat,
                             offset: nat, d: nat, q: nat)
    requires ValidSchema(rows)
    requires var r := Radix(rows, j);
             (mod >= r && q == mod / r && d == mod % r) ||
             (mod < r && padTo != 0 && j + 1 < padTo && q == 0 && d == mod)
    requires Digits(rows, mod, padTo, j) == [d] + Digits(rows, q, padTo, j + 1)
    requires var c := Rotate(Row(rows, j), d, offset);
             EncodeFrom(rows, key + [c], q, padTo, j + 1, offset + Weight(c)) ==
             (key + [c]) + Render(rows, Digits(rows, q, padTo, j + 1), j + 1, offset + Weight(c))
    ensures EncodeFrom(rows, key, mod, padTo, j, offset) ==
            key + Render(rows, Digits(rows, mod, padTo, j), j, offset)
  {
    var c := Rotate(Row(rows, j), d, offset);
    var o := offset + Weight(c);
    var ds := Digits(rows, q, padTo, j + 1);
    var rest := Render(rows, ds, j + 1, o);
    EncodeFromStep(rows, EncodeFrom(rows, key, mod, padTo, j, offset), key, mod, padTo, j, offset, c, q, o);
    RenderCons(rows, d, ds, j, offset);
    AppendAssoc(key, [c], rest);
  }

  /** The key for v, padded to `padTo` characters. */
  function Encode(rows: seq<string>, v: nat, padTo: nat): (key: string)
    requires ValidSchema(rows)
    ensures |key| >= 1
  {
    Render(rows, Digits(rows, v, padTo, 0), 0, 0)
  }

  /** Encode's loop, started with the empty key at position 0 and offset 0, writes the key
      for v. */
  lemma EncodeFromStart(rows: seq<string>, v: nat, padTo: nat)
    requires ValidSchema(rows)
    ensures EncodeFrom(rows, [], v, padTo, 0, 0) == Encode(rows, v, padTo)
  {
    EncodeFromRender(rows, [], v, padTo, 0, 0);
    assert [] + Encode(rows, v, padTo) == Encode(rows, v, padTo);
  }

  /** Every character of `s`, read from key position j on, belongs to the row expected at
      its position. */
  predicate Admissible(rows: seq<string>, s: string, j: nat)
    requires ValidSchema(rows)
    decreases |s|
  {
    s == [] || (s[0] in Row(rows, j) && Admissible(rows, s[1..], j + 1))
  }

  /** Admissibility is exactly: no position holds a character outside its row. */
  lemma {:induction false} AdmissibleIff(rows: seq<string>, s: string, j: nat)
    requires ValidSchema(rows)
    ensures Admissible(rows, s, j) <==> forall m :: 0 <= m < |s| ==> s[m] in Row(rows, j + m)
    decreases |s|
  {
    if s != [] {
      AdmissibleIff(rows, s[1..], j + 1);
      if Admissible(rows, s, j) {
        forall m | 0 <= m < |s| ensures s[m] in Row(rows, j + m) {
          if m > 0 {
            assert s[m] == s[1..][m - 1] && j + 1 + (m - 1) == j + m;
          }
        }
      } else if s[0] in Row(rows, j + 0) {
        var m :| 0 <= m < |s[1..]| && s[1..][m] !in Row(rows, j + 1 + m);
        assert s[m + 1] !in Row(rows, j + (m + 1));
      }
    }
  }

  /** The digits that the characters of `s` stand for, read from key position j on with
      running offset `offset`: each character is unrotated by the offset and then adds its
      weight to it. This is Render run backwards. */
  function Unrender(rows: seq<string>, s: string, j: nat, offset: nat): (ds: seq<nat>)
    requires ValidSchema(rows) && Admissible(rows, s, j)
    ensures |ds| == |s|
    decreases |s|
  {
    if s == [] then []
    else [Unrotate(Row(rows, j), s[0], offset)] + Unrender(rows, s[1..], j + 1, offset + Weight(s[0]))
  }

  /** The number a key stands for, or None when some character is not in the row expected
      at its position. */
  function Decode(rows: seq<string>, key: string): (r: Option<nat>)
    requires ValidSchema(rows)
    ensures key == [] ==> r == Some(0)
  {
    if Admissible(rows, key, 0) then Some(Value(rows, Unrender(rows, key, 0, 0), 0)) else None
  }

  /** Decoding fails exactly when some character is not in the row expected at its position. */
  lemma DecodeNoneIff(rows: seq<string>, key: string)
    requires ValidSchema(rows)
    ensures Decode(rows, key).None? <==> exists i :: 0 <= i < |key| && key[i] !in Row(rows, i)
  {
    AdmissibleIff(rows, key, 0);
    if !Admissible(rows, key, 0) {
      var m :| 0 <= m < |key| && key[m] !in Row(rows, 0 + m);
      assert key[m] !in Row(rows, m);
    }
  }

  /** Decode's loop read as a function of its state: the characters at indices i down to 0
      are still to be read, `value` holds what the characters after index i stand for, and
      each character is de-rotated by the weights of the characters before it. */
  function DecodeFrom(rows: seq<string>, key: string, i: int, value: nat): Option<nat>
    requires ValidSchema(rows) && -1 <= i < |key|
    decreases i + 1
  {
    if i < 0 then Some(value)
    else if key[i] !in Row(rows, i) then None
    else DecodeFrom(rows, key, i - 1,
                    value * Radix(rows, i) + Unrotate(Row(rows, i), key[i], WeightSum(key[..i])))
  }

  /** One pass of decode's loop: a character of its row adds its digit below the value so far,
      and the loop still ends with the same result. */
  lemma DecodeFromStep(rows: seq<string>, target: Option<nat>, key: string, i: int, value: nat, d: nat)
    requires ValidSchema(rows) && 0 <= i < |key|
    requires DecodeFrom(rows, key, i, value) == target
    requires key[i] in Row(rows, i) && d == Unrotate(Row(rows, i), key[i], WeightSum(key[..i]))
    ensures DecodeFrom(rows, key, i - 1, value * Radix(rows, i) + d) == target
  {
  }

  /** Decode's loop ends in failure at the first character, from the end, that is not in the
      row of its position. */
  lemma DecodeFromMissing(rows: seq<string>, target: Option<nat>, key: string, i: int, value: nat)
    requires ValidSchema(rows) && 0 <= i < |key|
    requires DecodeFrom(rows, key, i, value) == target
    requires key[i] !in Row(rows, i)
    ensures target == None
  {
  }

  /** Started at any index i whose later characters are all admissible, with the value they
      stand for, decode's loop computes Decode. */
  lemma {:induction false} DecodeFromValue(rows: seq<string>, key: string, i: int)
    requires ValidSchema(rows) && -1 <= i < |key| && Admissible(rows, key[i + 1..], i + 1)
    ensures DecodeFrom(rows, key, i, Value(rows, Unrender(rows, key[i + 1..], i + 1, WeightSum(key[..i + 1])), i + 1))
            == Decode(rows, key)
    decreases i + 1
  {
    if i < 0 {
      assert key[i + 1..] == key && key[..i + 1] == [];
    } else {
      UnrenderStep(rows, key, i);
      if key[i] !in Row(rows, i) {
        DecodeNoneIff(rows, key);
      } else {
        var o := WeightSum(key[..i]);
        var d := Unrotate(Row(rows, i), key[i], o);
        var rest := Unrender(rows, key[i + 1..], i + 1, WeightSum(key[..i + 1]));
        assert Unrender(rows, key[i..], i, o) == [d] + rest;
        assert ([d] + rest)[1..] == rest;
        MulIsTimes(Value(rows, rest, i + 1), Radix(rows, i));
        DecodeFromValue(rows, key, i - 1);
      }
    }
  }

  /** Decode's loop, started at the last character with value 0, computes Decode. */
  lemma DecodeFromStart(rows: seq<string>, key: string)
    requires ValidSchema(rows)
    ensures DecodeFrom(rows, key, |key| - 1, 0) == Decode(rows, key)
  {
    assert key[|key|..] == [];
    DecodeFromValue(rows, key, |key| - 1);
  }

  /** Every digit read back is below the radix of its position. */
  lemma {:induction false} UnrenderInRange(rows: seq<string>, s: string, j: nat, offset: nat)
    requires ValidSchema(rows) && Admissible(rows, s, j)
    ensures InRange(rows, Unrender(rows, s, j, offset), j)
    decreases |s|
  {
    if s != [] {
      var ds := Unrender(rows, s, j, offset);
      var o := offset + Weight(s[0]);
      UnrenderInRange(rows, s[1..], j + 1, o);
      assert ds[1..] == Unrender(rows, s[1..], j + 1, o);
    }
  }

  /** Rendering the digits read back gives the characters back. */
  lemma {:induction false} RenderUnrender(rows: seq<string>, s: string, j: nat, offset: nat)
    requires ValidSchema(rows) && Admissible(rows, s, j)
    ensures Render(rows, Unrender(rows, s, j, offset), j, offset) == s
    decreases |s|
  {
    if s != [] {
      var ds := Unrender(rows, s, j, offset);
      var o := offset + Weight(s[0]);
      RotateUnrotate(Row(rows, j), s[0], offset);
      RenderUnrender(rows, s[1..], j + 1, o);
      assert ds[1..] == Unrender(rows, s[1..], j + 1, o);
      assert s == [s[0]] + s[1..];
    }
  }

  /** Digits in range of their positions render to an admissible string. */
  lemma {:induction false} RenderAdmissible(rows: seq<string>, ds: seq<nat>, j: nat, offset: nat)
    requires ValidSchema(rows) && InRange(rows, ds, j)
    ensures Admissible(rows, Render(rows, ds, j, offset), j)
    decreases |ds|
  {
    if ds != [] {
      var key := Render(rows, ds, j, offset);
      var c := Rotate(Row(rows, j), ds[0], offset);
      RenderAdmissible(rows, ds[1..], j + 1, offset + Weight(c));
      assert key[1..] == Render(rows, ds[1..], j + 1, offset + Weight(c));
    }
  }

  /** Reading back rendered digits in range of their positions gives the digits back. */
  lemma {:induction false} UnrenderRender(rows: seq<string>, ds: seq<nat>, j: nat, offset: nat)
    requires ValidSchema(rows) && DistinctRows(rows) && InRange(rows, ds, j)
    ensures Admissible(rows, Render(rows, ds, j, offset), j)
    ensures Unrender(rows, Render(rows, ds, j, offset), j, offset) == ds
    decreases |ds|
  {
    RenderAdmissible(rows, ds, j, offset);
    if ds != [] {
      var key := Render(rows, ds, j, offset);
      var c := Rotate(Row(rows, j), ds[0], offset);
      var rest := ds[1..];
      DistinctRowAt(rows, j);
      UnrotateRotate(Row(rows, j), ds[0], offset);
      UnrenderRender(rows, rest, j + 1, offset + Weight(c));
      assert key[1..] == Render(rows, rest, j + 1, offset + Weight(c));
      assert ds == [ds[0]] + rest;
    }
  }

  /** One step of decoding from the right: the digits read from position i on are the digit
      of key[i], unrotated by the weights of the characters before it, followed by the digits
      read from position i + 1 on. */
  lemma UnrenderStep(rows: seq<string>, key: string, i: nat)
    requires ValidSchema(rows) && i < |key|
    ensures Admissible(rows, key[i..], i) <==>
            key[i] in Row(rows, i) && Admissible(rows, key[i + 1..], i + 1)
    ensures Admissible(rows, key[i..], i) ==>
            Unrender(rows, key[i..], i, WeightSum(key[..i])) ==
            [Unrotate(Row(rows, i), key[i], WeightSum(key[..i]))] +
            Unrender(rows, key[i + 1..], i + 1, WeightSum(key[..i + 1]))
  {
    SplitAt(key, i);
    WeightSumAppend(key[..i], key[i]);
    assert key[i..][1..] == key[i + 1..];
  }

  /** Offset agreement: the character at index i of a rendered key was rotated by the starting
      offset plus the weights of the characters before it. */
  lemma {:induction false} RenderAt(rows: seq<string>, ds: seq<nat>, j: nat, offset: nat, i: nat)
    requires ValidSchema(rows) && i < |ds|
    ensures Render(rows, ds, j, offset)[i] ==
            Rotate(Row(rows, j + i), ds[i], offset + WeightSum(Render(rows, ds, j, offset)[..i]))
    decreases i
  {
    var key := Render(rows, ds, j, offset);
    var c := Rotate(Row(rows, j), ds[0], offset);
    var rest := Render(rows, ds[1..], j + 1, offset + Weight(c));
    assert key == [c] + rest;
    if i == 0 {
      assert key[..0] == [];
    } else {
      var o := offset + Weight(c);
      RenderAt(rows, ds[1..], j + 1, o, i - 1);
      var before := rest[..i - 1];
      assert key[..i] == [c] + before;
      assert ([c] + before)[1..] == before;
      assert WeightSum(key[..i]) == Weight(c) + WeightSum(before);
      assert key[i] == rest[i - 1] && ds[1..][i - 1] == ds[i] && j + 1 + (i - 1) == j + i;
      assert rest[i - 1] == Rotate(Row(rows, j + i), ds[i], o + WeightSum(before));
    }
  }

  /** Splitting a string around index i. */
  lemma SplitAt(s: string, i: nat)
    requires i < |s|
    ensures s[i..] == [s[i]] + s[i + 1..]
    ensures s[..i + 1] == s[..i] + [s[i]]
  {
  }

  /** Rendering a prefix of the digits gives a prefix of the key. */
  lemma {:induction false} RenderPrefix(rows: seq<string>, ds: seq<nat>, es: seq<nat>, j: nat, offset: nat)
    requires ValidSchema(rows) && ds <= es
    ensures Render(rows, ds, j, offset) <= Render(rows, es, j, offset)
    decreases |ds|
  {
    if ds != [] {
      var c := Rotate(Row(rows, j), ds[0], offset);
      assert ds[1..] <= es[1..];
      RenderPrefix(rows, ds[1..], es[1..], j + 1, offset + Weight(c));
    }
  }

  /** The key is max(padTo, MinLen(v)) characters long, where MinLen(v) is the least number of
      positions whose radices multiply to more than v: never empty, at least padTo long, and
      padTo 0 or 1 adds nothing. */
  lemma EncodeLength(rows: seq<string>, v: nat, padTo: nat)
    requires ValidSchema(rows)
    ensures |Encode(rows, v, padTo)| == if padTo > MinLen(rows, v, 0) then padTo else MinLen(rows, v, 0)
    ensures Capacity(rows, 0, MinLen(rows, v, 0)) > v
    ensures forall m :: 1 <= m < MinLen(rows, v, 0) ==> Capacity(rows, 0, m) <= v
    ensures 1 <= |Encode(rows, v, padTo)| && padTo <= |Encode(rows, v, padTo)|
  {
    DigitsLength(rows, v, padTo, 0);
    MinLenLeast(rows, v, 0);
  }

  /** The character at index i of a key comes from row i mod k, and every key encode
      writes is admissible. */
  lemma EncodeUsesRows(rows: seq<string>, v: nat, padTo: nat, i: nat)
    requires ValidSchema(rows) && i < |Encode(rows, v, padTo)|
    ensures Encode(rows, v, padTo)[i] in rows[i % |rows|]
    ensures Admissible(rows, Encode(rows, v, padTo), 0)
  {
    var key := Encode(rows, v, padTo);
    DigitsInRange(rows, v, padTo, 0);
    RenderAdmissible(rows, Digits(rows, v, padTo, 0), 0, 0);
    AdmissibleIff(rows, key, 0);
    assert key[i] in Row(rows, 0 + i);
    WrapIsMod(i, |rows|);
  }

  /** Padding only appends: a key padded to fewer characters is a prefix of one padded to more,
      in particular the unpadded key is a prefix of every padded one. */
  lemma EncodePadPrefix(rows: seq<string>, v: nat, p: nat, q: nat)
    requires ValidSchema(rows) && p <= q
    ensures Encode(rows, v, p) <= Encode(rows, v, q)
  {
    DigitsPadPrefix(rows, v, p, q, 0);
    RenderPrefix(rows, Digits(rows, v, p, 0), Digits(rows, v, q, 0), 0, 0);
  }

  /** The offset encode applied to key[i] is the sum of the weights of key[..i], the prefix sum
      decode rebuilds; unrotating key[i] by it gives back the digit encode rotated. */
  lemma OffsetAgreement(rows: seq<string>, v: nat, padTo: nat, i: nat)
    requires ValidSchema(rows) && DistinctRows(rows) && i < |Encode(rows, v, padTo)|
    ensures var key := Encode(rows, v, padTo);
            var ds := Digits(rows, v, padTo, 0);
            key[i] == Rotate(Row(rows, i), ds[i], WeightSum(key[..i])) &&
            key[i] in Row(rows, i) &&
            Unrotate(Row(rows, i), key[i], WeightSum(key[..i])) == ds[i]
  {
    var key := Encode(rows, v, padTo);
    var ds := Digits(rows, v, padTo, 0);
    RenderAt(rows, ds, 0, 0, i);
    DistinctRowAt(rows, i);
    DigitsInRange(rows, v, padTo, 0);
    InRangeIff(rows, ds, 0);
    assert ds[i] < Radix(rows, 0 + i);
    UnrotateRotate(Row(rows, i), ds[i], WeightSum(key[..i]));
  }

  /** Decoding a key recovers the number it was encoded from, whatever the padding. */
  lemma RoundTrip(rows: seq<string>, v: nat, padTo: nat)
    requires ValidSchema(rows) && DistinctRows(rows)
    ensures Decode(rows, Encode(rows, v, padTo)) == Some(v)
  {
    DigitsInRange(rows, v, padTo, 0);
    UnrenderRender(rows, Digits(rows, v, padTo, 0), 0, 0);
    DigitsValue(rows, v, padTo, 0);
  }

  /** Distinct numbers get distinct keys under the same padding. */
  lemma EncodeInjective(rows: seq<string>, v: nat, w: nat, padTo: nat)
    requires ValidSchema(rows) && DistinctRows(rows)
    requires Encode(rows, v, padTo) == Encode(rows, w, padTo)
    ensures v == w
  {
    RoundTrip(rows, v, padTo);
    RoundTrip(rows, w, padTo);
  }

  /** A key whose characters are all in their rows decodes to a number below the product of the
      radices of its positions. */
  lemma DecodeBound(rows: seq<string>, key: string)
    requires ValidSchema(rows) && Admissible(rows, key, 0)
    ensures Decode(rows, key).Some?
    ensures Decode(rows, key).value < Capacity(rows, 0, |key|)
  {
    UnrenderInRange(rows, key, 0, 0);
    ValueBelowCapacity(rows, Unrender(rows, key, 0, 0), 0);
  }

  /** Every non-empty key that decodes to v is the key encode writes for v padded to the key's
      own length: decoding is injective, and no admissible key is left unreached by encode. */
  lemma DecodeCanonical(rows: seq<string>, key: string)
    requires ValidSchema(rows) && |key| >= 1 && Decode(rows, key).Some?
    ensures Encode(rows, Decode(rows, key).value, |key|) == key
  {
    var ds := Unrender(rows, key, 0, 0);
    UnrenderInRange(rows, key, 0, 0);
    DigitsOfValue(rows, ds, 0);
    RenderUnrender(rows, key, 0, 0);
  }
}
