# ANIdEncoder in Dafny

A model of `ANIdEncoder`, the PHP class that turns a non-negative integer into a short
alphanumeric key and back. A *schema* is a list of character rows. Key position j uses the row
j mod k, where k is the number of rows, and the length of that row is the radix of position j.
The number is written in this mixed radix, least significant digit first. Each digit is then
rotated along its row by a running *offset*: the sum of the base-alphabet weights of the
characters already emitted. The base alphabet is `0-9a-zA-Z`. Keys are padded with zero digits
to at least `padTo` characters. Decoding rebuilds the offsets as prefix sums, walks the key from
right to left, undoes each rotation and accumulates `value * radix + digit`. It fails when a
character is not in the row of its position.

Files:

- `wrappers.dfy`: the `Option` type. Decode's `FALSE` is `None`.
- `arith.dfy`: Euclidean division facts, plus `Mul`, `Wrap` and `Quot`, which are
  multiplication, remainder and quotient by repeated addition or subtraction, so that the
  mixed-radix proofs stay linear.
- `alphabet.dfy`: the base alphabet, the default schema, `array_flip` as `Flip`, character
  weights, and schema validity.
- `mixed_radix.dfy`: the digits encode writes (`Digits`), their value, and the capacity of n
  positions.
- `codec.dfy`: encode and decode as functions (`Encode`, `Decode`). It also has the loop
  functions `EncodeFrom` and `DecodeFrom`, which read each loop as a function of its state, and
  the properties: round trip, length, padding, per-position rows, offset agreement, bounds and
  canonicity.
- `encoder.dfy`: the class `ANIdEncoder`. Its constructor fills the tables, and its `Encode` and
  `Decode` methods are the PHP loops. Each method is proved to compute the `Codec` function. The
  static wrappers `Enc` and `Dec` are here too.
- `defaults.dfy`: the default schema meets encode's and decode's requirements, so the round trip
  holds when no schema is given.

Three points of the code the model follows closely:

- **Padding.** The padding branch (`anidencoder.class.php:152-162`) writes the remaining digit
  itself at the current position and sets `$mod` to 0, so the padding zeros come after it.
  `Digits` does the same, and `EncodePadPrefix` shows that padding only appends.
- **The constructor.** The constructor checks nothing about the schema
  (`anidencoder.class.php:94-116`), and neither does the constructor here. `Encode` and `Decode`
  state what they need of the schema instead.
- **Termination.** A one-character row leaves `$mod` unchanged at
  `anidencoder.class.php:154-156`, so when every row has one character, encode never ends for
  v ≥ 1. When no row is empty and some row has at least two characters, `$mod` at least halves
  once per cycle of rows, and encode ends on every input. The model requires every row to have
  at least two characters (see "Left out").

## Model

| member | source | states |
|---|---|---|
| Encoder.ANIdEncoder.constructor | anidencoder.class.php:94-116 | A falsy schema keeps the default. The tables are derived from the schema row by row: `charsets[i]` is row i twice, `flipCharsets[i]` is `array_flip` of row i, `rowLengths[i]` is its length, and `flipBase` flips the base alphabet |
| Encoder.ANIdEncoder.Encode | anidencoder.class.php:129-183 | The `while(true)` loop returns exactly `Codec.Encode(schema, v, padTo)`. Its invariant says that finishing the loop from the current state of `key`, `mod`, `row`, `keyLen` and `offsetBase` gives that same key |
| Encoder.ANIdEncoder.OffsetBases | anidencoder.class.php:209-214 | Entry m of the offset table is the sum of the base weights of the first m characters of the key. The table has one entry per character, and a single entry for the empty key |
| Encoder.ANIdEncoder.Decode | anidencoder.class.php:193-241 | The right-to-left loop returns exactly `Codec.Decode(schema, key)`. That is None when some character is not in the row of its position, and the number the key stands for otherwise |
| Encoder.ANIdEncoder.Enc | anidencoder.class.php:78-80 | The static wrapper returns the key `Codec.Encode` gives under the caller's schema, or under the default one |
| Encoder.ANIdEncoder.Dec | anidencoder.class.php:83-85 | The static wrapper returns what `Codec.Decode` gives under the caller's schema, or under the default one |
| Alphabet.SchemaOf | anidencoder.class.php:96 | A falsy (empty) schema leaves the default in place. The schema in use is never empty |
| Alphabet.Flip | anidencoder.class.php:113 | `array_flip` of a row maps characters to indexes of the row: every value is below the row length. Which characters and which index are stated by `FlipDomain`, `FlipLookup` and `LastIndexDistinct` |
| Alphabet.Weight | anidencoder.class.php:179 | The weight `$flipBase[$char]` adds to the offset is below 62, the size of the base alphabet |
| Alphabet.FlipDomain | anidencoder.class.php:113 | `array_flip` of a row has an entry exactly for the characters of the row |
| Alphabet.FlipLookup | anidencoder.class.php:225 | Looking a character up in a flipped row gives its last index in the row. A missing entry reads as 0 |
| Alphabet.LastIndexFound | anidencoder.class.php:113 | The last index of a character of the row lies in the row and holds that character |
| Alphabet.LastIndexDistinct | anidencoder.class.php:113 | In a row without repeated characters, the index `array_flip` keeps for `row[i]` is i |
| Alphabet.WeightIsBaseIndex | anidencoder.class.php:57-59 | A character's weight is its index in the base alphabet `0-9a-zA-Z`. The characters of that alphabet are exactly the ASCII digits and letters |
| Alphabet.FlippedBaseWeight | anidencoder.class.php:179 | `flipBase[$char]` is the character's weight, with a missing entry counting as 0 as PHP adds null |
| Alphabet.WeightSumAppend | anidencoder.class.php:211-213 | The running offset grows by each character's weight in key order, so the prefix sums can be built from the left |
| MixedRadix.Digits | anidencoder.class.php:152-167 | The digits encode writes for v from position j, least significant first. There is always at least one |
| MixedRadix.InRangeIff | anidencoder.class.php:229-230 | A digit string is in range exactly when each digit is below the radix of its position |
| MixedRadix.DigitsDivMod | anidencoder.class.php:154-158 | A number at least the radix writes its remainder at this position and carries its quotient to the next |
| MixedRadix.DigitsInRange | anidencoder.class.php:154-167 | Every digit encode writes is below the radix of its position |
| MixedRadix.DigitsValue | anidencoder.class.php:154-167 | The digits encode writes stand for the number encoded |
| MixedRadix.MinLenLeast | anidencoder.class.php:154-158 | MinLen(v) positions can hold v, and no fewer can |
| MixedRadix.DigitsLength | anidencoder.class.php:144-181 | Encode writes max(padTo, MinLen(v)) digits |
| MixedRadix.PaddingIsZero | anidencoder.class.php:160-162 | Every digit after the first MinLen(v) is a padding zero |
| MixedRadix.DigitsPadPrefix | anidencoder.class.php:152-167 | The digits for a smaller padTo are a prefix of those for a larger one |
| MixedRadix.ValueBelowCapacity | anidencoder.class.php:229-233 | In-range digits stand for a number below the product of the radices of their positions |
| MixedRadix.DigitsOfValue | anidencoder.class.php:154-167 | n in-range digits are the padded encoding, to n positions, of their own value: the representation is unique |
| Codec.Unrotate | anidencoder.class.php:229-230 | The digit read back from a character is below the row length |
| Codec.UnrotateReduced | anidencoder.class.php:229-230 | `$val -= offset % len; if ($val < 0) $val += len` computes the digit `Unrotate` defines |
| Codec.DoubledLookup | anidencoder.class.php:167 | Index `pos + offset % len` lies inside the doubled row and picks the character at `(pos + offset) mod len` |
| Codec.UnrotateRotate | anidencoder.class.php:225-230 | In a row without repeated characters, undoing the rotation of a digit gives the digit back |
| Codec.RotateUnrotate | anidencoder.class.php:225-230 | Every character of a row is the rotation of the digit decode reads from it |
| Codec.Rotate | anidencoder.class.php:167-172 | The character emitted for a digit under a running offset is a character of the position's row |
| Codec.Render | anidencoder.class.php:172-173 | Rendering emits one character per digit |
| Codec.EncodeFrom | anidencoder.class.php:147-182 | Encode's loop from a given state returns the key written so far extended by at least one more character |
| Codec.EncodeFromLast | anidencoder.class.php:163-167 | The last pass appends the rotated last digit to the key, which is what rendering that digit gives |
| Codec.EncodeFromRender | anidencoder.class.php:147-182 | From any state, encode's loop returns the key so far followed by the remaining digits, rendered from the current position and offset |
| Codec.EncodeFromStart | anidencoder.class.php:133-146 | The loop started with an empty key, row 0 and offset 0 computes `Encode` |
| Codec.Encode | anidencoder.class.php:129-183 | The key for v is the rendering of `Digits(v)` from row 0 with offset 0, and it is never empty. Its other properties are the lemmas below |
| Codec.AdmissibleIff | anidencoder.class.php:225-226 | A key is admissible exactly when every character is in the row of its position |
| Codec.Unrender | anidencoder.class.php:219-233 | Reading back gives one digit per character |
| Codec.Decode | anidencoder.class.php:193-241 | The empty key decodes to 0. Otherwise the result is None when the key is not admissible and the value of the digits read back from it when it is. Its properties are `DecodeNoneIff`, `DecodeBound`, `DecodeCanonical` and `RoundTrip` |
| Codec.DecodeNoneIff | anidencoder.class.php:225-226 | Decoding fails exactly when some character is not in the row of its position |
| Codec.DecodeFrom | anidencoder.class.php:219-238 | Decode's loop from index i with the value so far: None at the first character, from the right, that is not in its row. Otherwise each character adds its digit below the value so far |
| Codec.DecodeFromValue | anidencoder.class.php:219-240 | From any index whose later characters are admissible, the loop, started with the value of those characters, computes `Decode` |
| Codec.DecodeFromStart | anidencoder.class.php:197-219 | The loop started at the last index with value 0 computes `Decode`, and the empty key gives 0 |
| Codec.UnrenderInRange | anidencoder.class.php:229-230 | Every digit read back is below the radix of its position |
| Codec.RenderUnrender | anidencoder.class.php:172-230 | Rendering the digits read back from an admissible key gives the key back |
| Codec.RenderAdmissible | anidencoder.class.php:172-177 | In-range digits render to a key whose characters are all in their rows |
| Codec.UnrenderRender | anidencoder.class.php:172-230 | With rows free of repeats, reading back rendered in-range digits gives the digits back |
| Codec.UnrenderStep | anidencoder.class.php:219-233 | Reading from position i is key[i]'s digit, unrotated by the weights before it, followed by the digits from i + 1 |
| Codec.RenderAt | anidencoder.class.php:172-179 | Character i of a rendered key is rotated by the starting offset plus the weights of the characters before it |
| Codec.RenderPrefix | anidencoder.class.php:172-173 | Rendering a prefix of the digits gives a prefix of the key |
| Codec.EncodeLength | anidencoder.class.php:144-181 | The key has max(padTo, MinLen(v)) characters. It is never empty and is at least padTo long, and padTo 0 or 1 adds no padding |
| Codec.EncodeUsesRows | anidencoder.class.php:172-177 | Character i of a key comes from row i mod k, and every encoded key is admissible |
| Codec.EncodePadPrefix | anidencoder.class.php:152-167 | A key padded to fewer characters is a prefix of one padded to more. In particular, the unpadded key is a prefix of every padded one |
| Codec.OffsetAgreement | anidencoder.class.php:209-214 | The offset encode used for key[i] is decode's prefix sum over key[..i], and unrotating key[i] by it gives encode's digit back |
| Codec.RoundTrip | anidencoder.class.php:129-241 | With rows free of repeats, decoding the key of v gives v back, for every padTo |
| Codec.EncodeInjective | anidencoder.class.php:129-183 | Distinct numbers get distinct keys under the same padding |
| Codec.DecodeBound | anidencoder.class.php:229-233 | An admissible key of length n decodes to a number below the product of the radices of positions 0 to n - 1 |
| Codec.DecodeCanonical | anidencoder.class.php:193-241 | A non-empty key that decodes to v is the key of v padded to the key's length. No two keys of the same length decode to the same number |
| Defaults.DefaultSchemaValid | anidencoder.class.php:69-75 | The default schema has five rows of 32, 20, 32, 32 and 32 characters |
| Defaults.DefaultSchemaDistinct | anidencoder.class.php:69-75 | No row of the default schema repeats a character |
| Defaults.EncodeZeroExample | anidencoder.class.php:163-167 | With the default schema, 0 unpadded is the single character "W" |
| Defaults.DecodeZeroExample | anidencoder.class.php:219-240 | With the default schema, "W" decodes to 0 |
| Defaults.DefaultRoundTrip | anidencoder.class.php:78-85 | With no schema given, decoding the key of v gives v back, for every padTo |

## Left out

- Input coercion (`is_numeric`/`intval` in encode, `strval` in decode): the model takes a `nat` and a string of characters.
- Floating point: `floor()` returns a float, and decode's `$int` turns into a float beyond `PHP_INT_MAX`. Integers here are unbounded, so PHP may differ from the model once values exceed 2^53.
- Negative numbers: encode takes a `nat`.
- `str_split` splits bytes. A key or row is a sequence of characters here, so multibyte characters are not modelled.
- A schema that is not an array, and a row that is not a string: the schema is a `seq<string>`.
- Encoder.ANIdEncoder.Encode: requires every row to have at least two characters (`ValidSchema`). This leaves out every schema with a one-character row. PHP's encode ends on every input for such a schema when no row is empty and some row has two or more characters: for rows `a` and `bc`, v = 5 and padTo 0 it returns six characters. When every row has one character, it ends for v = 0. The model's loop measure is the number still to encode, and a one-character row does not reduce it.
- Encoder.ANIdEncoder.Enc: requires `ValidSchema` of the schema in use, as `Encode` does, so the same schemas with one-character rows are left out.
- Encoder.ANIdEncoder.Dec: requires `ValidSchema` of the schema in use, although PHP's decode needs only a non-empty schema.
- Codec.Encode: requires `ValidSchema`, for the reason given for `Encoder.ANIdEncoder.Encode`.
- Encoder.ANIdEncoder.Decode: requires `ValidSchema` of the schema as Encode does, although PHP's decode needs only a non-empty schema.
- Encoder.ANIdEncoder.Decode: an empty key gives `Some(0)`, as under PHP 8.2 and later, where `str_split('')` is empty. Before 8.2 it returns FALSE.
- Codec.RoundTrip: requires rows without repeated characters. With a repeat, `array_flip` keeps the last index and decoding can give another number. Encode and Decode themselves model repeats as PHP does.
- Characters outside the base alphabet weigh 0, as PHP adds the missing `flipBase` entry (null) as 0. PHP's notice is not modelled.
- The doubled charset is kept as a table. `Codec.Rotate` defines the lookup with an explicit modulo, and `Codec.DoubledLookup` shows the two agree.
- The example keys in the class's doc comment (`pv5L3` and the others): only the prefix relation among them is stated (`Codec.EncodePadPrefix`), not the strings themselves.
