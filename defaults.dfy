/** Facts about the default schema: it meets what encode and decode need, so the round trip
    holds for it, and the key it gives for zero. */
module Defaults {
  import opened Wrappers
  import opened Alphabet
  import Codec

  /** A schema all of whose rows have at least two characters has only usable rows. */
  lemma {:induction false} AllRowsValidFromLengths(rows: seq<string>)
    requires forall i :: 0 <= i < |rows| ==> |rows[i]| >= 2
    ensures AllRowsValid(rows)
    decreases |rows|
  {
    if rows != [] {
      assert forall i :: 0 <= i < |rows[1..]| ==> rows[1..][i] == rows[i + 1];
      AllRowsValidFromLengths(rows[1..]);
    }
  }

  /** No character of a occurs in b. */
  predicate Disjoint(a: string, b: string)
  {
    forall i, j :: 0 <= i < |a| && 0 <= j < |b| ==> a[i] != b[j]
  }

  /** Two strings without repeats and without a common character join into one without repeats. */
  lemma DistinctConcat(a: string, b: string)
    requires Distinct(a) && Distinct(b) && Disjoint(a, b)
    ensures Distinct(a + b)
  {
    var s := a + b;
    forall i, j | 0 <= i < j < |s| ensures s[i] != s[j] {
      if j < |a| {
        assert s[i] == a[i] && s[j] == a[j];
      } else if i >= |a| {
        assert s[i] == b[i - |a|] && s[j] == b[j - |a|];
      } else {
        assert s[i] == a[i] && s[j] == b[j - |a|];
      }
    }
  }

  lemma Row0Distinct()
    ensures Distinct(DefaultSchema[0])
  {
    var a, b := "W1q3ewRQ2E4rT6tU", "5y7Ou8i9op0YIPnb";
    assert DefaultSchema[0] == a + b;
    Row0Halves();
    DistinctConcat(a, b);
  }

  lemma Row0Halves()
    ensures Distinct("W1q3ewRQ2E4rT6tU") && Distinct("5y7Ou8i9op0YIPnb")
  {
  }

  lemma Row1Distinct()
    ensures Distinct(DefaultSchema[1])
  {
  }

  lemma Row2Distinct()
    ensures Distinct(DefaultSchema[2])
  {
    var a, b := "H8YD5LJ3A7S2RPWQ", "KN1TBU0G4M6F9CVZ";
    assert DefaultSchema[2] == a + b;
    Row2Halves();
    DistinctConcat(a, b);
  }

  lemma Row2Halves()
    ensures Distinct("H8YD5LJ3A7S2RPWQ") && Distinct("KN1TBU0G4M6F9CVZ")
  {
  }

  lemma Row3Distinct()
    ensures Distinct(DefaultSchema[3])
  {
    var a, b := "nAXzFdxsBgHcZKjS", "DkMCfVGlNvmJbLah";
    assert DefaultSchema[3] == a + b;
    Row3Halves();
    DistinctConcat(a, b);
  }

  lemma Row3Halves()
    ensures Distinct("nAXzFdxsBgHcZKjS") && Distinct("DkMCfVGlNvmJbLah")
  {
  }

  lemma Row4Distinct()
    ensures Distinct(DefaultSchema[4])
  {
    var a, b := "1ax5z2mr7wsv3bcg", "8qn9l4i0dfp6tjky";
    assert DefaultSchema[4] == a + b;
    Row4Halves();
    DistinctConcat(a, b);
  }

  lemma Row4Halves()
    ensures Distinct("1ax5z2mr7wsv3bcg") && Distinct("8qn9l4i0dfp6tjky")
  {
  }

  /** The default schema has five rows, of 32, 20, 32, 32 and 32 characters. */
  lemma DefaultSchemaValid()
    ensures ValidSchema(DefaultSchema) && |DefaultSchema| == 5
    ensures |DefaultSchema[0]| == 32 && |DefaultSchema[1]| == 20 && |DefaultSchema[2]| == 32
    ensures |DefaultSchema[3]| == 32 && |DefaultSchema[4]| == 32
  {
    AllRowsValidFromLengths(DefaultSchema);
  }

  /** No row of the default schema repeats a character. */
  lemma DefaultSchemaDistinct()
    ensures DistinctRows(DefaultSchema)
  {
    Row0Distinct();
    Row1Distinct();
    Row2Distinct();
    Row3Distinct();
    Row4Distinct();
  }

  /** With the default schema, 0 unpadded is the single character "W", the first character
      of the first row. */
  lemma EncodeZeroExample()
    ensures ValidSchema(DefaultSchema)
    ensures Codec.Encode(DefaultSchema, 0, 0) == "W"
  {
    DefaultSchemaValid();
    var d := DefaultSchema;
    Codec.EncodeFromStart(d, 0, 0);
    Codec.EncodeFromLast(d, [], 0, 0, 0, 0);
    assert Row(d, 0) == d[0];
    assert [] + [Codec.Rotate(d[0], 0, 0)] == "W";
  }

  /** "W" decodes to 0 under the default schema. */
  lemma DecodeZeroExample()
    ensures Codec.Decode(DefaultSchema, "W") == Some(0)
  {
    EncodeZeroExample();
    DefaultSchemaDistinct();
    Codec.RoundTrip(DefaultSchema, 0, 0);
  }

  /** With no schema given, decoding the key of v gives v back, whatever the padding. */
  lemma DefaultRoundTrip(v: nat, padTo: nat)
    ensures ValidSchema(SchemaOf([]))
    ensures Codec.Decode(SchemaOf([]), Codec.Encode(SchemaOf([]), v, padTo)) == Some(v)
  {
    DefaultSchemaValid();
    DefaultSchemaDistinct();
    Codec.RoundTrip(DefaultSchema, v, padTo);
  }
}
