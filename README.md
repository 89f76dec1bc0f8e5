# Ordinal value source and special-float literals

This project models two small parts of Solr's function-query and response-writer layer.

The main part is `OrdFieldSource`. It is a value source identified by one field name. Bound to
an index segment, it gives every document the *ordinal* of its value for that field. The
ordinal is the 1-based rank of the value among the field's distinct values in lexicographic
order. A document without a value gets ordinal 0. The source reads the ordinals from the
field cache's `StringIndex` and gives each one as an `int`, `long`, `float`, `double` and as
decimal text. It also defines `description()` (`ord(<field>)`), `toString(doc)`, `equals` and
`hashCode`.

The second part is the table the Python and Ruby response writers use for NaN, +Infinity and
-Infinity. The model also renders a map of such values in the shape the writer test expects.

Modules:

- `OrdField` (`ord_field_source.dfy`): the source, its bound accessor `DocValues`, `equals`
  as written and as intended, and `hashCode`.
- `TermIndex` (`term_index.dfy`): what the field cache hands out. This is the sorted distinct
  term dictionary and the per-document ordinals. The module also proves the order facts the
  class documentation promises.
- `FloatWidening` (`float_widening.dfy`): Java's `int` to `float` conversion. It rounds to
  nearest with ties to even, and is exact for all magnitudes up to 2^24.
- `DecimalText` (`decimal_text.dfy`): `Integer.toString`, with a parser as its inverse.
- `JavaString` (`java_string.dfy`): UTF-16 code units and `String.hashCode()`.
- `JavaInt` (`java_int.dfy`): `int` range and two's-complement wrap-around.
- `SpecialFloat` (`special_float.dfy`): the literal table, map rendering, and a reader for
  rendered maps.
- `Wrappers` (`wrappers.dfy`): `Option` and `Result`.

`equals` (OrdFieldSource.java:92-96) casts its argument to `other` but never uses it. It then
compares `this.field` with itself. Meanwhile `hashCode` (line 101) depends on the field. So
sources on different fields are all equal, and can hash differently (fields "a" and "b" do:
`OrdField.EqualsHashInconsistent`), which breaks Java's rule that equal objects have equal hash
codes. The model follows the code, and the discrepancy is listed under
Findings.

Every `int` of magnitude up to 2^24 converts to `float` exactly. Larger ordinals may be rounded
by `floatVal`, and the model follows the code there too.

## Model

| member | source | states |
|---|---|---|
| `OrdField.Description` | ryan-clean/src/java/org/apache/solr/search/function/OrdFieldSource.java:49-52 | `description()`. The description is `ord(`, then the field, then `)`: the field can be read back from positions 4 to length-1 |
| `OrdField.DescriptionInjective` | ryan-clean/src/java/org/apache/solr/search/function/OrdFieldSource.java:50-52 | two sources have the same description exactly when they have the same field |
| `OrdField.NumericViews` | ryan-clean/src/java/org/apache/solr/search/function/OrdFieldSource.java:58-76 | `IntVal`, `LongVal`, `DoubleVal` and `FloatVal` model `intVal`, `longVal`, `doubleVal` and `floatVal`. The first three return the ordinal unchanged. `floatVal` is `FloatWidening.IntToFloat` of the ordinal: exact for magnitudes up to 2^24, and it never reverses the order of two ordinals |
| `OrdField.StrValIsOrdinalText` | ryan-clean/src/java/org/apache/solr/search/function/OrdFieldSource.java:78-82 | `StrVal` models `strVal`: the decimal text of the ordinal. Reading it back gives `intVal` |
| `OrdField.ToStringParts` | ryan-clean/src/java/org/apache/solr/search/function/OrdFieldSource.java:84-87 | `ToString` models `toString(doc)`: it is `description()`, then `=`, then exactly `strVal(doc)`, the ordinal's text. The field and the ordinal can both be read back from it |
| `OrdField.GetValuesFailure` | ryan-clean/src/java/org/apache/solr/search/function/OrdFieldSource.java:54-56 | `GetValues` models `getValues`. An `IOException` from the field cache reaches the caller unchanged, and no accessor is returned |
| `OrdField.OrdinalIsRank` | ryan-clean/src/java/org/apache/solr/search/function/OrdFieldSource.java:30-35 | `GetValues` on the field cache's index. Take any strictly increasing listing `v` of the distinct values present. A document holding `v[i]` has ordinal `i + 1`, and conversely. A document without a value has ordinal 0, and conversely |
| `OrdField.OrdinalOrder` | ryan-clean/src/java/org/apache/solr/search/function/OrdFieldSource.java:30-35 | every document with a value has ordinal at least 1. A lexicographically smaller value has a smaller ordinal, and conversely. Equal values have equal ordinals, and conversely |
| `OrdField.AppleBananaPear` | ryan-clean/src/java/org/apache/solr/search/function/OrdFieldSource.java:33-35 | the documented example: with "apple", "banana" and "pear" present, their ordinals are 1, 2 and 3, and a document without a value gets 0 |
| `OrdField.Equals` | ryan-clean/src/java/org/apache/solr/search/function/OrdFieldSource.java:91-96 | as written: throws `NullPointerException` exactly for `null`. The result is true exactly when the argument's runtime class is `OrdFieldSource` itself, so subclasses and other classes are unequal, whatever the fields |
| `OrdField.EqualsHashInconsistent` | ryan-clean/src/java/org/apache/solr/search/function/OrdFieldSource.java:92-102 | as written, the sources on fields "a" and "b" are equal, yet their hash codes differ for every class salt |
| `OrdField.HashCodeFollowsField` | ryan-clean/src/java/org/apache/solr/search/function/OrdFieldSource.java:98-102 | `HashCode` models `hashCode()`: the class salt plus the field's `JavaString.HashCode`, with `int` wrap-around. For a fixed class salt, two sources hash alike exactly when their fields' `String.hashCode()` values agree. In particular, the same field always gives the same hash |
| `OrdField.EqualsIntended` | ryan-clean/src/java/org/apache/solr/search/function/OrdFieldSource.java:91-96 | corrected `equals`: throws for `null`, and is true exactly for an `OrdFieldSource` on the same field |
| `OrdField.EqualsIntendedConsistent` | ryan-clean/src/java/org/apache/solr/search/function/OrdFieldSource.java:91-102 | the corrected `equals` is reflexive, symmetric and transitive, and equal sources have equal hash codes |
| `TermIndex.Rank` | ryan-clean/src/java/org/apache/solr/search/function/OrdFieldSource.java:30-31 | a rank is 0 exactly when the term is absent from the dictionary. Otherwise it is at most the dictionary's size, and it is the 1-based position of the term |
| `TermIndex.RankOfPosition` | ryan-clean/src/java/org/apache/solr/search/function/OrdFieldSource.java:31 | in a strictly sorted dictionary, the term at position `i` has rank `i + 1` |
| `TermIndex.RankOrder` | ryan-clean/src/java/org/apache/solr/search/function/OrdFieldSource.java:30-31 | in a strictly sorted dictionary, term a < term b exactly when rank(a) < rank(b) |
| `TermIndex.SortedUnique` | ryan-clean/src/java/org/apache/solr/search/function/OrdFieldSource.java:31 | two strictly sorted dictionaries with the same terms are equal, so the set of values present fixes the numbering |
| `TermIndex.Dictionary` | ryan-clean/src/java/org/apache/solr/search/function/OrdFieldSource.java:28-31 | the term dictionary is strictly sorted, holds exactly the values that some document holds, and is no longer than the number of documents |
| `TermIndex.Ordinals` | ryan-clean/src/java/org/apache/solr/search/function/OrdFieldSource.java:56 | the ordinal array has one entry per document, and every entry lies between 0 and the dictionary size |
| `TermIndex.BuildStringIndex` | ryan-clean/src/java/org/apache/solr/search/function/OrdFieldSource.java:28-35 | the modelled `StringIndex`, with one value per document, has a sorted dictionary of exactly the present values. Ordinal 0 means exactly "no value", and ordinal `i + 1` means exactly "holds dictionary entry `i`" |
| `TermIndex.LessTotal` | ryan-clean/src/java/org/apache/solr/search/function/OrdFieldSource.java:31 | lexicographic order by character value is total: two different terms are always ordered one way or the other |
| `TermIndex.LessTransitive` | ryan-clean/src/java/org/apache/solr/search/function/OrdFieldSource.java:31 | lexicographic order by character value is transitive |
| `FloatWidening.IntToFloatExact` | ryan-clean/src/java/org/apache/solr/search/function/OrdFieldSource.java:58-61 | `IntToFloat` models Java's `int` to `float` widening. An `int` of magnitude at most 2^24 converts exactly |
| `FloatWidening.IntToFloatIsFloat` | ryan-clean/src/java/org/apache/solr/search/function/OrdFieldSource.java:58-61 | the converted value is a whole number of steps of the float spacing at the argument, with at most 2^24 steps, so it fits a 24-bit significand |
| `FloatWidening.IntToFloatNearest` | ryan-clean/src/java/org/apache/solr/search/function/OrdFieldSource.java:58-61 | no float at that spacing is nearer to the argument than the converted value |
| `FloatWidening.IntToFloatMonotone` | ryan-clean/src/java/org/apache/solr/search/function/OrdFieldSource.java:58-61 | conversion keeps the order of its arguments, though not strictly |
| `FloatWidening.IntToFloatLosesPrecision` | ryan-clean/src/java/org/apache/solr/search/function/OrdFieldSource.java:58-61 | 16777217 and 16777216 convert to the same float |
| `FloatWidening.RoundedSteps` | ryan-clean/src/java/org/apache/solr/search/function/OrdFieldSource.java:58-61 | the chosen number of steps is within half a step of the value, and a tie goes to the even count |
| `DecimalText.IntegerToString` | ryan-clean/src/java/org/apache/solr/search/function/OrdFieldSource.java:81 | `Integer.toString` output is nonempty. It starts with `-` exactly for negative numbers, and is otherwise all digits with no leading zero |
| `DecimalText.IntegerToStringRoundTrip` | ryan-clean/src/java/org/apache/solr/search/function/OrdFieldSource.java:81 | parsing the text of any `int` gives that `int` back |
| `DecimalText.IntegerToStringInjective` | ryan-clean/src/java/org/apache/solr/search/function/OrdFieldSource.java:81 | distinct numbers have distinct texts |
| `JavaString.CodeUnits` | ryan-clean/src/java/org/apache/solr/search/function/OrdFieldSource.java:101 | one character becomes one UTF-16 unit below U+10000. Otherwise it becomes a surrogate pair that decodes back to the character |
| `JavaString.HashMatchesFormula` | ryan-clean/src/java/org/apache/solr/search/function/OrdFieldSource.java:101 | `JavaString.HashCode` is `String.hashCode()`: the loop `HashUnits` over the string's UTF-16 units. That loop computes the documented `s[0]*31^(n-1) + ... + s[n-1]` modulo 2^32 |
| `JavaInt.Wrap` | ryan-clean/src/java/org/apache/solr/search/function/OrdFieldSource.java:101 | `int` arithmetic gives the unique `int` congruent to the exact result modulo 2^32 |
| `JavaInt.WrapAddInjective` | ryan-clean/src/java/org/apache/solr/search/function/OrdFieldSource.java:101 | adding the fixed class salt with wrap-around maps distinct `int`s to distinct `int`s |
| `SpecialFloat.FormatIgnoresWidthAndBits` | ryan-clean/src/test/org/apache/solr/request/JSONWriterTest.java:41-43 | `Format` renders a special value through the `Literal` table of the dialect. `float` and `double` specials use one table, and every NaN renders as the NaN literal whatever its sign and payload |
| `SpecialFloat.NegativeInfinityIsNegated` | ryan-clean/src/test/org/apache/solr/request/JSONWriterTest.java:45 | in both dialects, -Infinity is the +Infinity literal with a leading minus sign |
| `SpecialFloat.LiteralsPrefixFree` | ryan-clean/src/test/org/apache/solr/request/JSONWriterTest.java:45 | within a dialect no literal is a prefix of another, so a reader can tell the three values apart |
| `SpecialFloat.TestNaNInfPython` | ryan-clean/src/test/org/apache/solr/request/JSONWriterTest.java:41-45 | `RenderMap` with the Python `Literal`s renders the test response as `{'data1':float('NaN'),'data2':-float('Inf'),'data3':float('Inf')}` |
| `SpecialFloat.TestNaNInfRuby` | ryan-clean/src/test/org/apache/solr/request/JSONWriterTest.java:47-50 | `RenderMap` with the Ruby `Literal`s renders the test response as `{'data1'=>(0.0/0.0),'data2'=>-(1.0/0.0),'data3'=>(1.0/0.0)}` |
| `SpecialFloat.RenderEntriesAppend` | ryan-clean/src/test/org/apache/solr/request/JSONWriterTest.java:45 | the entries are written in insertion order: rendering a concatenation gives the two renderings joined by a comma |
| `SpecialFloat.RenderMapRoundTrip` | ryan-clean/src/test/org/apache/solr/request/JSONWriterTest.java:45-50 | a rendered map reads back to its keys, in order, with the kind of each value, for either dialect and its separator |

## Left out

- Building, caching and invalidating the ordinal array (`FieldCache.DEFAULT.getStringIndex`) belong to a process-wide cache in a foreign library. `OrdField.GetValues` takes the cache's answer as a parameter. `TermIndex.BuildStringIndex` states what that answer holds. At most one build per segment, and the dropping of stale arrays when a segment changes, belong to that cache and are not modelled. An accessor holds its array as an immutable value, so a later rebuild cannot change it.
- `OrdField.GetValuesFailure`: an `IOException` is an opaque value, because the reasons the cache can fail are not visible here.
- Out-of-range document ids: Java throws `ArrayIndexOutOfBoundsException`. The accessors require `0 <= doc < |arr|`, the only ids a caller may pass for the bound segment.
- A `null` field name is not modelled. With one, `description()` would print `ord(null)`, `equals` would throw when its argument is an `OrdFieldSource`, and `hashCode` would throw. The field is a plain string.
- `OrdFieldSource.class.hashCode()` is an identity hash chosen at run time, so it is the parameter `classHash`.
- `TermIndex.Less` orders terms by Unicode scalar value, as the class documentation says. Java's `String.compareTo` orders by UTF-16 code unit. The two differ only between supplementary characters and U+E000 to U+FFFF, and the model does not cover that case.
- Field names and terms holding an unpaired surrogate: a Java `String` can hold one, but the model's strings are sequences of Unicode scalar values, so `description`, `hashCode` and the term order are not modelled for such strings.
- Floating point is represented by exact values. A `float` or `double` made from an `int` is a whole number, so it is modelled by that number. Bit patterns and arithmetic on floats are not modelled.
- The Python and Ruby response writers are not part of this model. Only the special-value literals and the map shape that the writer test asserts are modelled. Finite numbers, string escaping, and request and schema setup are left out.
- `SpecialFloat.RenderMapRoundTrip`: keys are written between single quotes without escaping, so the round trip is stated only for keys without a quote.
- `TermIndex.BuildStringIndex` assumes one value per document and numbers only the values that documents hold. The field cache's own building of the index (how it treats terms held only by deleted documents, or a document with several terms in the field) is not part of this model.
- Dialects form a closed enumeration, so an unknown dialect cannot be requested and no error path exists for one.
- The base classes `ValueSource` and `DocValues` are not part of this model.
- client/ruby/solrb/test/functional/server_test.rb: these functional tests talk HTTP to a running server. They hold no logic to model.
- Concurrency: nothing in the modelled code synchronises, and sharing immutable values needs no model.

## Findings

| source | as written | input that shows it | evidently intended | confidence | as-written member | corrected member |
|---|---|---|---|---|---|---|
| ryan-clean/src/java/org/apache/solr/search/function/OrdFieldSource.java:95 | `this.field.equals(field)` compares the field with itself, so every `OrdFieldSource` equals every other | `new OrdFieldSource("a").equals(new OrdFieldSource("b"))` is true, yet the two hash codes differ by 1 | compare with `other.field`, so that equal sources have equal hash codes | high (not executed) | `OrdField.Equals` (shown by `OrdField.EqualsHashInconsistent`) | `OrdField.EqualsIntended` (proved by `OrdField.EqualsIntendedConsistent`) |
