/** The fixed base alphabet, the default schema and the lookup tables derived from them. */
module Alphabet {
  import opened Arith

  /** The 62 characters whose positions give every emitted character its weight: the digits,
      then the lower-case, then the upper-case letters. */
  const BaseChars: string := "0123456789" + "abcdefghijklmnopqrstuvwxyz" + "ABCDEFGHIJKLMNOPQRSTUVWXYZ"

  /** The schema used when the caller supplies none: five rows, cycled in order. */
  const DefaultSchema: seq<string> := [
    "W1q3ewRQ2E4rT6tU5y7Ou8i9op0YIPnb",
    "nrmzdxsgtcjkqflvbahw",
    "H8YD5LJ3A7S2RPWQKN1TBU0G4M6F9CVZ",
    "nAXzFdxsBgHcZKjSDkMCfVGlNvmJbLah",
    "1ax5z2mr7wsv3bcg8qn9l4i0dfp6tjky"
  ]

  /** A falsy schema (none, or an empty list) leaves the default in place. */
  function SchemaOf(custom: seq<string>): (rows: seq<string>)
    ensures |rows| > 0
  {
    if custom == [] then DefaultSchema else custom
  }

  predicate Distinct(s: string)
  {
    forall i, j :: 0 <= i < j < |s| ==> s[i] != s[j]
  }

  /** The character-to-index table of `s`, as PHP's array_flip builds it. A character that
      occurs more than once maps to its last index, the last key array_flip sees. */
  function Flip(s: string): (m: map<char, nat>)
    ensures forall c :: c in m ==> m[c] < |s|
    decreases |s|
  {
    if s == [] then map[] else Flip(s[..|s| - 1])[s[|s| - 1] := |s| - 1]
  }

  /** The table has an entry for exactly the characters of s. */
  lemma {:induction false} FlipDomain(s: string, c: char)
    ensures c in Flip(s) <==> c in s
    decreases |s|
  {
    if s != [] {
      var init := s[..|s| - 1];
      FlipDomain(init, c);
      assert s == init + [s[|s| - 1]];
    }
  }

  /** The index of the last occurrence of c in s, or 0 when c does not occur in s. */
  function LastIndex(s: string, c: char): nat
    decreases |s|
  {
    if s == [] then 0
    else if s[|s| - 1] == c then |s| - 1
    else LastIndex(s[..|s| - 1], c)
  }

  /** A character of s is found at its last index. */
  lemma {:induction false} LastIndexFound(s: string, c: char)
    requires c in s
    ensures LastIndex(s, c) < |s| && s[LastIndex(s, c)] == c
    decreases |s|
  {
    var init := s[..|s| - 1];
    if s[|s| - 1] != c {
      assert s == init + [s[|s| - 1]];
      LastIndexFound(init, c);
    }
  }

  /** In a string without repeated characters the last index of s[i] is i. */
  lemma {:induction false} LastIndexDistinct(s: string, i: nat)
    requires Distinct(s) && i < |s|
    ensures LastIndex(s, s[i]) == i
    decreases |s|
  {
    if i < |s| - 1 {
      var init := s[..|s| - 1];
      assert s[|s| - 1] != s[i];
      assert init[i] == s[i];
      LastIndexDistinct(init, i);
    }
  }

  /** Looking c up in the flipped table of s gives its last index; a missing entry reads as 0. */
  lemma {:induction false} FlipLookup(s: string, c: char)
    ensures (if c in Flip(s) then Flip(s)[c] else 0) == LastIndex(s, c)
    decreases |s|
  {
    if s != [] && s[|s| - 1] != c {
      FlipLookup(s[..|s| - 1], c);
    }
  }

  /** The weight of a character: its index in the base alphabet (digits, then lower-case,
      then upper-case letters). A character outside the base alphabet weighs 0, as PHP adds
      the missing table entry (null) as 0. WeightIsBaseIndex shows this is the index. */
  function Weight(c: char): (w: nat)
    ensures w < 62
  {
    if '0' <= c <= '9' then c as int - '0' as int
    else if 'a' <= c <= 'z' then c as int - 'a' as int + 10
    else if 'A' <= c <= 'Z' then c as int - 'A' as int + 36
    else 0
  }

  /** The n consecutive characters from `lo` on. */
  function Span(lo: char, n: nat): (s: string)
    requires lo as int + n <= 0xD800
    ensures |s| == n
  {
    if n == 0 then [] else Span(lo, n - 1) + [(lo as int + n - 1) as char]
  }

  /** A string of consecutive characters is the span from its first character. */
  lemma {:induction false} SpanMatches(lo: char, s: string)
    requires lo as int + |s| <= 0xD800
    requires forall i :: 0 <= i < |s| ==> s[i] as int == lo as int + i
    ensures Span(lo, |s|) == s
    decreases |s|
  {
    if s != [] {
      var init := s[..|s| - 1];
      SpanMatches(lo, init);
      assert s == init + [s[|s| - 1]];
    }
  }

  /** A character is in a span exactly when it lies in its range, and then its index is its
      distance from the start. */
  lemma {:induction false} SpanIndex(lo: char, n: nat, c: char)
    requires lo as int + n <= 0xD800
    ensures c in Span(lo, n) <==> lo <= c && (c as int) < lo as int + n
    ensures c in Span(lo, n) ==> LastIndex(Span(lo, n), c) == c as int - lo as int
    decreases n
  {
    if n > 0 {
      var init := Span(lo, n - 1);
      SpanIndex(lo, n - 1, c);
      assert Span(lo, n)[..n - 1] == init;
    }
  }

  /** The last index of c in a + b: its last index in b, shifted by |a|, when it occurs in b,
      and its last index in a otherwise. */
  lemma {:induction false} LastIndexAppend(a: string, b: string, c: char)
    ensures LastIndex(a + b, c) == if c in b then |a| + LastIndex(b, c) else LastIndex(a, c)
    decreases |b|
  {
    if b != [] {
      var b' := b[..|b| - 1];
      assert (a + b)[..|a + b| - 1] == a + b';
      assert b == b' + [b[|b| - 1]];
      LastIndexAppend(a, b', c);
    } else {
      assert a + b == a;
    }
  }

  /** A character that does not occur has last index 0. */
  lemma {:induction false} LastIndexAbsent(s: string, c: char)
    requires c !in s
    ensures LastIndex(s, c) == 0
    decreases |s|
  {
    if s != [] {
      assert s == s[..|s| - 1] + [s[|s| - 1]];
      LastIndexAbsent(s[..|s| - 1], c);
    }
  }

  /** The base alphabet is the ten digits, then the 26 lower-case and the 26 upper-case letters. */
  lemma BaseCharsSpans()
    ensures BaseChars == Span('0', 10) + Span('a', 26) + Span('A', 26)
  {
    SpanMatches('0', "0123456789");
    SpanMatches('a', "abcdefghijklmnopqrstuvwxyz");
    SpanMatches('A', "ABCDEFGHIJKLMNOPQRSTUVWXYZ");
  }

  /** The weight of a character is its (last) index in the base alphabet, or 0 when it is not
      in the base alphabet: what looking it up in the flipped base table yields. */
  lemma WeightIsBaseIndex(c: char)
    ensures Weight(c) == LastIndex(BaseChars, c)
    ensures c in BaseChars <==> ('0' <= c <= '9' || 'a' <= c <= 'z' || 'A' <= c <= 'Z')
  {
    var d, l, u := Span('0', 10), Span('a', 26), Span('A', 26);
    BaseCharsSpans();
    SpanIndex('0', 10, c);
    SpanIndex('a', 26, c);
    SpanIndex('A', 26, c);
    LastIndexAppend(d + l, u, c);
    LastIndexAppend(d, l, c);
    if c !in BaseChars {
      LastIndexAbsent(BaseChars, c);
    }
  }

  /** Looking a character up in the flipped base alphabet, a missing entry counting as 0,
      gives its weight. */
  lemma FlippedBaseWeight(c: char)
    ensures (if c in Flip(BaseChars) then Flip(BaseChars)[c] else 0) == Weight(c)
  {
    FlipLookup(BaseChars, c);
    WeightIsBaseIndex(c);
  }

  lemma AppendAssoc(a: string, b: string, c: string)
    ensures (a + b) + c == a + (b + c)
  {
  }

  /** Sum of the weights of the characters of `s`: the running offset after emitting `s`. */
  function WeightSum(s: string): nat
  {
    if s == [] then 0 else Weight(s[0]) + WeightSum(s[1..])
  }

  /** The running offset can equally be accumulated from the left, one character at a time. */
  lemma {:induction false} WeightSumAppend(s: string, c: char)
    ensures WeightSum(s + [c]) == WeightSum(s) + Weight(c)
  {
    if s == [] {
      assert [] + [c] == [c];
    } else {
      assert (s + [c])[1..] == s[1..] + [c];
      WeightSumAppend(s[1..], c);
    }
  }

  /** A row encode can use: at least two characters. With one character the radix is 1 and
      the number never shrinks; with none the radix is 0. */
  predicate ValidRow(row: string)
  {
    |row| >= 2
  }

  /** A schema encode can use: at least one row, and every row usable. */
  predicate ValidSchema(rows: seq<string>)
  {
    |rows| > 0 && AllRowsValid(rows)
  }

  predicate AllRowsValid(rows: seq<string>)
  {
    rows == [] || (ValidRow(rows[0]) && AllRowsValid(rows[1..]))
  }

  lemma {:induction false} RowIsValid(rows: seq<string>, i: nat)
    requires AllRowsValid(rows) && i < |rows|
    ensures ValidRow(rows[i])
    decreases i
  {
    if i > 0 {
      RowIsValid(rows[1..], i - 1);
    }
  }

  /** No row repeats a character: what decoding a key back needs. */
  predicate DistinctRows(rows: seq<string>)
  {
    forall i :: 0 <= i < |rows| ==> Distinct(rows[i])
  }

  /** The row that serves key position j: rows are cycled in order. */
  function Row(rows: seq<string>, j: nat): (row: string)
    requires ValidSchema(rows)
    ensures |row| >= 2
  {
    RowIsValid(rows, Wrap(j, |rows|));
    rows[Wrap(j, |rows|)]
  }

  lemma DistinctRowAt(rows: seq<string>, j: nat)
    requires ValidSchema(rows) && DistinctRows(rows)
    ensures Distinct(Row(rows, j))
  {
  }

  /** The radix of key position j. */
  function Radix(rows: seq<string>, j: nat): (r: nat)
    requires ValidSchema(rows)
    ensures r >= 2 && r == |Row(rows, j)|
  {
    |Row(rows, j)|
  }
}
