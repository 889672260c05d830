/** The ANIdEncoder object: the constructor pre-computes its lookup tables from the schema,
    encode and decode are the loops that use them, and enc and dec are the static wrappers
    that build an encoder for one call. Each loop is proved to compute the Codec function. */
module Encoder {
  import opened Wrappers
  import opened Arith
  import opened Alphabet
  import opened MixedRadix
  import Codec

  class ANIdEncoder {
    /** The rows, cycled in order over the key positions. */
    const schema: seq<string>
    /** Base character to its index: every emitted character's weight. */
    const flipBase: map<char, nat>
    /** Each row written twice, so that index pos + offset % len never runs off its end. */
    const charsets: seq<string>
    /** Each row's character-to-index table. */
    const flipCharsets: seq<map<char, nat>>
    const rowLengths: seq<nat>
    const numRows: nat

    /** The tables are the ones the constructor derives from `schema`. */
    predicate Valid()
    {
      flipBase == Flip(BaseChars) &&
      numRows == |schema| && |charsets| == numRows &&
      |flipCharsets| == numRows && |rowLengths| == numRows &&
      (forall i {:trigger charsets[i]} :: 0 <= i < numRows ==> charsets[i] == schema[i] + schema[i]) &&
      (forall i {:trigger flipCharsets[i]} :: 0 <= i < numRows ==> flipCharsets[i] == Flip(schema[i])) &&
      (forall i {:trigger rowLengths[i]} :: 0 <= i < numRows ==> rowLengths[i] == |schema[i]|)
    }

    /** Takes the caller's schema unless it is empty, then builds the tables row by row. The
        schema is not checked: encode and decode state what they need of it. */
    constructor(custom: seq<string> := [])
      ensures schema == SchemaOf(custom) && Valid()
    {
      var rows := SchemaOf(custom);
      var cs: seq<string> := [];
      var fcs: seq<map<char, nat>> := [];
      var lens: seq<nat> := [];
      for i := 0 to |rows|
        invariant |cs| == i && |fcs| == i && |lens| == i
        invariant forall m :: 0 <= m < i ==>
          cs[m] == rows[m] + rows[m] && fcs[m] == Flip(rows[m]) && lens[m] == |rows[m]|
      {
        var s := rows[i];
        cs := cs + [s + s];
        fcs := fcs + [Flip(s)];
        lens := lens + [|s|];
      }
      schema := rows;
      flipBase := Flip(BaseChars);
      numRows := |rows|;
      charsets := cs;
      flipCharsets := fcs;
      rowLengths := lens;
    }

    /** The row, its length and its doubled charset at key position j. */
    lemma TablesAt(j: nat)
      requires Valid() && ValidSchema(schema)
      ensures var row := Wrap(j, numRows);
              row < numRows && schema[row] == Row(schema, j) &&
              rowLengths[row] == Radix(schema, j) &&
              charsets[row] == Row(schema, j) + Row(schema, j)
    {
    }

    /** The key for v, padded with zero digits to at least padTo characters. */
    method Encode(v: nat, padTo: nat := 5) returns (key: string)
      requires Valid() && ValidSchema(schema)
      ensures key == Codec.Encode(schema, v, padTo)
    {
      var mod: nat := v;
      key := "";
      var row: nat := 0;
      var keyLen: nat := 1;
      var offsetBase: nat := 0;
      ghost var j: nat := 0;
      ghost var target := Codec.EncodeFrom(schema, [], v, padTo, 0, 0);
      while true
        invariant keyLen == j + 1 && row == Wrap(j, numRows)
        invariant Codec.EncodeFrom(schema, key, mod, padTo, j, offsetBase) == target
        decreases mod, if padTo >= keyLen then padTo - keyLen else 0
      {
        TablesAt(j);
        var curLen := rowLengths[row];
        var pos := mod;
        ghost var mod0 := mod;
        if mod >= curLen {
          DivShrinks(mod, curLen);
          DivMod(mod, curLen);
          mod := mod / curLen;
          pos := pos - mod * curLen;
          assert pos == mod0 % curLen;
        } else if padTo != 0 && keyLen < padTo {
          mod := 0;
        } else {
          Codec.DoubledLookup(Row(schema, j), pos, offsetBase);
          Codec.EncodeFromLast(schema, key, pos, padTo, j, offsetBase);
          Codec.EncodeFromStart(schema, v, padTo);
          return key + [charsets[row][pos + offsetBase % curLen]];
        }
        Codec.DoubledLookup(Row(schema, j), pos, offsetBase);
        var c := charsets[row][pos + offsetBase % curLen];
        ghost var key0, j0, off := key, j, offsetBase;
        key := key + [c];
        WrapSucc(j, numRows);
        row := row + 1;
        if row == numRows {
          row := 0;
        }
        FlippedBaseWeight(c);
        offsetBase := offsetBase + if c in flipBase then flipBase[c] else 0;
        keyLen := keyLen + 1;
        j := j + 1;
        Codec.EncodeFromStep(schema, target, key0, mod0, padTo, j0, off, c, mod, offsetBase);
      }
    }

    /** The offset table decode builds first: entry m is the running offset in front of the
        character at index m, for every index but the last of a non-empty key's. */
    method OffsetBases(key: string) returns (offsetBases: seq<nat>)
      requires Valid()
      ensures |offsetBases| == if |key| == 0 then 1 else |key|
      ensures forall m :: 0 <= m < |offsetBases| ==> offsetBases[m] == WeightSum(key[..m])
    {
      var strPos := |key| - 1;
      var offsetBase := 0;
      offsetBases := [offsetBase];
      var i := 0;
      while i < strPos
        invariant 0 <= i <= |key| && (i == 0 || i <= strPos)
        invariant offsetBase == WeightSum(key[..i])
        invariant |offsetBases| == i + 1
        invariant forall m :: 0 <= m <= i ==> offsetBases[m] == WeightSum(key[..m])
      {
        var c := key[i];
        assert key[..i + 1] == key[..i] + [c];
        WeightSumAppend(key[..i], c);
        FlippedBaseWeight(c);
        offsetBase := offsetBase + if c in flipBase then flipBase[c] else 0;
        offsetBases := offsetBases + [offsetBase];
        i := i + 1;
      }
    }

    /** The number key stands for, or None when some character is not in its row. */
    method Decode(key: string) returns (r: Option<nat>)
      requires Valid() && ValidSchema(schema)
      ensures r == Codec.Decode(schema, key)
    {
      var strPos := |key| - 1;
      var offsetBases := OffsetBases(key);
      var i;

      // For the empty key PHP's remainder is -1 where Dafny's is numRows - 1; the loop
      // below does not run then.
      var row := strPos % numRows;
      WrapIsMod(if strPos >= 0 then strPos else 0, numRows);
      var l := numRows - 1;
      var value: nat := 0;
      i := strPos;
      ghost var target := Codec.DecodeFrom(schema, key, strPos, 0);
      while i > -1
        invariant -1 <= i <= strPos && 0 <= row < numRows
        invariant i >= 0 ==> row == Wrap(i, numRows)
        invariant Codec.DecodeFrom(schema, key, i, value) == target
        decreases i
      {
        var c := key[i];
        assert schema[row] == Row(schema, i);
        var curLen := rowLengths[row];
        FlipDomain(schema[row], c);
        if c !in flipCharsets[row] {
          Codec.DecodeFromMissing(schema, target, key, i, value);
          Codec.DecodeFromStart(schema, key);
          return None;
        }
        FlipLookup(schema[row], c);
        Codec.UnrotateReduced(schema[row], c, offsetBases[i]);
        var val: int := flipCharsets[row][c];
        val := val - offsetBases[i] % curLen;
        if val < 0 {
          val := val + curLen;
        }
        ghost var d := Codec.Unrotate(Row(schema, i), c, WeightSum(key[..i]));
        assert val == d && curLen == Radix(schema, i);
        Codec.DecodeFromStep(schema, target, key, i, value, d);
        MulIsTimes(value, curLen);
        value := value * curLen + val;
        if i >= 1 {
          WrapSucc(i - 1, numRows);
        }
        row := row - 1;
        if row < 0 {
          row := l;
        }
        i := i - 1;
      }
      Codec.DecodeFromStart(schema, key);
      return Some(value);
    }

    /** encode with an encoder built for this one call. */
    static method Enc(v: nat, padTo: nat := 5, custom: seq<string> := []) returns (key: string)
      requires ValidSchema(SchemaOf(custom))
      ensures key == Codec.Encode(SchemaOf(custom), v, padTo)
    {
      var e := new ANIdEncoder(custom);
      key := e.Encode(v, padTo);
    }

    /** decode with an encoder built for this one call. */
    static method Dec(key: string, custom: seq<string> := []) returns (r: Option<nat>)
      requires ValidSchema(SchemaOf(custom))
      ensures r == Codec.Decode(SchemaOf(custom), key)
    {
      var e := new ANIdEncoder(custom);
      r := e.Decode(key);
    }
  }
}
