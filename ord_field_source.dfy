/** `OrdFieldSource`: a function-query value source that gives every document the ordinal of
    its value for one field, i.e. the 1-based rank of that value among the field's distinct
    values in lexicographic order (0 for a document without a value). */
module OrdField {
  import opened Wrappers
  import opened JavaInt
  import JavaString
  import DecimalText
  import FloatWidening
  import TermIndex

  /** The value source; its whole state is the field name fixed by the constructor. */
  datatype OrdFieldSource = OrdFieldSource(field: string)

  /** `description()`: the textual identity `ord(<field>)`, from which the field can be read back. */
  function Description(src: OrdFieldSource): (r: string)
    ensures |r| == |src.field| + 5
    ensures r[..4] == "ord(" && r[4..|r| - 1] == src.field && r[|r| - 1] == ')'
  {
    "ord(" + src.field + ")"
  }

  /** Different fields never share a description. */
  lemma DescriptionInjective(a: OrdFieldSource, b: OrdFieldSource)
    ensures Description(a) == Description(b) <==> a == b
  {
    if Description(a) == Description(b) {
      var d := Description(a);
      assert a.field == d[4..|d| - 1] == b.field;
    }
  }

  /** The failure `getValues` declares when the field cache cannot read the index. */
  datatype IOException = IOException(message: string)

  /** The per-document accessor `getValues` returns: it captures the source (for its
      description) and the ordinal array, one entry per document of the segment. */
  datatype DocValues = DocValues(source: OrdFieldSource, arr: seq<Int32>)

  /** `getValues(reader)`: `cached` is the field cache's answer for this reader and field,
      either its `StringIndex` or the exception it raised, which is passed on unchanged. */
  function GetValues(src: OrdFieldSource, cached: Result<TermIndex.StringIndex, IOException>)
    : (r: Result<DocValues, IOException>)
  {
    match cached
    case Success(index) => Success(DocValues(src, index.order))
    case Failure(e) => Failure(e)
  }

  /** `intVal(doc)`. */
  function IntVal(dv: DocValues, doc: int): Int32
    requires 0 <= doc < |dv.arr|
  {
    dv.arr[doc]
  }

  /** `longVal(doc)`: the ordinal widened to `long`. */
  function LongVal(dv: DocValues, doc: int): Int64
    requires 0 <= doc < |dv.arr|
  {
    dv.arr[doc]
  }

  /** `doubleVal(doc)`: the ordinal widened to `double`, which holds every `int` exactly. */
  function DoubleVal(dv: DocValues, doc: int): int
    requires 0 <= doc < |dv.arr|
  {
    dv.arr[doc]
  }

  /** `floatVal(doc)`: the ordinal widened to `float`, rounded above 2^24. */
  function FloatVal(dv: DocValues, doc: int): int
    requires 0 <= doc < |dv.arr|
  {
    FloatWidening.IntToFloat(dv.arr[doc])
  }

  /** `strVal(doc)`: the decimal text of the ordinal (not the term it ranks). */
  function StrVal(dv: DocValues, doc: int): string
    requires 0 <= doc < |dv.arr|
  {
    DecimalText.IntegerToString(dv.arr[doc])
  }

  /** `toString(doc)`: the source's description, `=`, and the ordinal. */
  function ToString(dv: DocValues, doc: int): string
    requires 0 <= doc < |dv.arr|
  {
    Description(dv.source) + "=" + DecimalText.IntegerToString(IntVal(dv, doc))
  }

  /** The integer views all give the ordinal itself. The float view is exact for magnitudes up
      to 2^24 and never reverses the order of two ordinals; `FloatWidening.IntToFloatNearest`
      states that it is the nearest float. */
  lemma NumericViews(dv: DocValues, doc: int, other: int)
    requires 0 <= doc < |dv.arr| && 0 <= other < |dv.arr|
    ensures IntVal(dv, doc) == LongVal(dv, doc) == DoubleVal(dv, doc) == dv.arr[doc]
    ensures -0x100_0000 <= dv.arr[doc] <= 0x100_0000 ==> FloatVal(dv, doc) == dv.arr[doc]
    ensures IntVal(dv, doc) <= IntVal(dv, other) ==> FloatVal(dv, doc) <= FloatVal(dv, other)
  {
    if -0x100_0000 <= dv.arr[doc] <= 0x100_0000 {
      FloatWidening.IntToFloatExact(dv.arr[doc]);
    }
    if IntVal(dv, doc) <= IntVal(dv, other) {
      FloatWidening.IntToFloatMonotone(dv.arr[doc], dv.arr[other]);
    }
  }

  /** `strVal` is the text of the ordinal: reading it back gives `intVal`. */
  lemma StrValIsOrdinalText(dv: DocValues, doc: int)
    requires 0 <= doc < |dv.arr|
    ensures DecimalText.ParseInt(StrVal(dv, doc)) == Some(IntVal(dv, doc))
  {
    DecimalText.IntegerToStringRoundTrip(dv.arr[doc]);
  }

  /** `toString` is `description()` followed by `=` and the text of `intVal`, and both the
      field and the ordinal can be read back from it. */
  lemma ToStringParts(dv: DocValues, doc: int)
    requires 0 <= doc < |dv.arr|
    ensures var d, s := Description(dv.source), ToString(dv, doc);
      && |s| > |d| + 1
      && s[..|d|] == d
      && s[4..|d| - 1] == dv.source.field
      && s[|d|] == '='
      && s[|d| + 1..] == StrVal(dv, doc)
      && DecimalText.ParseInt(s[|d| + 1..]) == Some(IntVal(dv, doc))
  {
    var d, s := Description(dv.source), ToString(dv, doc);
    var t := DecimalText.IntegerToString(IntVal(dv, doc));
    assert s == d + "=" + t;
    assert s[..|d|] == d;
    assert s[|d| + 1..] == t;
    DecimalText.IntegerToStringRoundTrip(IntVal(dv, doc));
  }

  /** A failure of the field cache reaches the caller unchanged, and no accessor is made. */
  lemma GetValuesFailure(src: OrdFieldSource, e: IOException)
    ensures GetValues(src, Failure(e)) == Failure(e)
  {
  }

  /** The accessor bound to a segment whose documents hold `docTerms`. For any listing
      `v[0] < v[1] < ...` of the distinct values present, a document holding `v[i]` has ordinal
      `i + 1`, and a document without a value has ordinal 0. */
  lemma OrdinalIsRank(src: OrdFieldSource, docTerms: seq<Option<string>>, v: seq<string>, doc: int)
    requires |docTerms| <= MAX_INT
    requires TermIndex.StrictlySorted(v)
    requires forall t :: t in v <==> Some(t) in docTerms
    requires 0 <= doc < |docTerms|
    ensures var r := GetValues(src, Success(TermIndex.BuildStringIndex(docTerms)));
      && r.Success? && r.value.source == src && |r.value.arr| == |docTerms|
      && (IntVal(r.value, doc) == 0 <==> docTerms[doc] == None)
      && forall i :: 0 <= i < |v| ==> (IntVal(r.value, doc) == i + 1 <==> docTerms[doc] == Some(v[i]))
  {
    var index := TermIndex.BuildStringIndex(docTerms);
    TermIndex.SortedUnique(index.lookup, v);
  }

  /** Ordinals compare as the documents' values do: a smaller value has a smaller ordinal,
      equal values have equal ordinals, and every document with a value ranks above 0. */
  lemma OrdinalOrder(src: OrdFieldSource, docTerms: seq<Option<string>>, d1: int, d2: int)
    requires |docTerms| <= MAX_INT
    requires 0 <= d1 < |docTerms| && 0 <= d2 < |docTerms|
    requires docTerms[d1].Some? && docTerms[d2].Some?
    ensures var dv := GetValues(src, Success(TermIndex.BuildStringIndex(docTerms))).value;
      && |dv.arr| == |docTerms|
      && IntVal(dv, d1) >= 1
      && (TermIndex.Less(docTerms[d1].value, docTerms[d2].value) <==> IntVal(dv, d1) < IntVal(dv, d2))
      && (docTerms[d1] == docTerms[d2] <==> IntVal(dv, d1) == IntVal(dv, d2))
  {
    var index := TermIndex.BuildStringIndex(docTerms);
    var a, b := docTerms[d1].value, docTerms[d2].value;
    assert a in index.lookup && b in index.lookup;
    var i, j := TermIndex.Rank(index.lookup, a) - 1, TermIndex.Rank(index.lookup, b) - 1;
    assert index.order[d1] == i + 1 && index.order[d2] == j + 1;
    TermIndex.RankOrder(index.lookup, a, b);
    TermIndex.SortedDistinct(index.lookup, i, j);
  }

  /** The example of the class documentation: with the values "apple", "banana" and "pear"
      present, ord("apple") = 1, ord("banana") = 2 and ord("pear") = 3. */
  lemma AppleBananaPear(src: OrdFieldSource, docTerms: seq<Option<string>>)
    requires docTerms == [Some("pear"), Some("apple"), None, Some("banana"), Some("apple")]
    ensures GetValues(src, Success(TermIndex.BuildStringIndex(docTerms))).value.arr == [3, 1, 0, 2, 1]
  {
    var v := ["apple", "banana", "pear"];
    ExampleListing(docTerms, v);
    var dv := GetValues(src, Success(TermIndex.BuildStringIndex(docTerms))).value;
    OrdinalAt(src, docTerms, v, 0, 2);
    OrdinalAt(src, docTerms, v, 1, 0);
    assert dv.arr[2] == 0 by { OrdinalIsRank(src, docTerms, v, 2); }
    OrdinalAt(src, docTerms, v, 3, 1);
    OrdinalAt(src, docTerms, v, 4, 0);
    ExampleOrdinals(dv.arr);
  }

  lemma ExampleOrdinals(arr: seq<Int32>)
    requires |arr| == 5 && arr[0] == 3 && arr[1] == 1 && arr[2] == 0 && arr[3] == 2 && arr[4] == 1
    ensures arr == [3, 1, 0, 2, 1]
  {
  }

  /** One instance of `OrdinalIsRank`: the document holding `v[i]` has ordinal `i + 1`. */
  lemma OrdinalAt(src: OrdFieldSource, docTerms: seq<Option<string>>, v: seq<string>, doc: int, i: int)
    requires |docTerms| <= MAX_INT
    requires TermIndex.StrictlySorted(v)
    requires forall t :: t in v <==> Some(t) in docTerms
    requires 0 <= doc < |docTerms| && 0 <= i < |v| && docTerms[doc] == Some(v[i])
    ensures var arr := GetValues(src, Success(TermIndex.BuildStringIndex(docTerms))).value.arr;
      |arr| == |docTerms| && arr[doc] == i + 1
  {
    OrdinalIsRank(src, docTerms, v, doc);
  }

  /** The values of the example, listed in order. */
  lemma ExampleListing(docTerms: seq<Option<string>>, v: seq<string>)
    requires docTerms == [Some("pear"), Some("apple"), None, Some("banana"), Some("apple")]
    requires v == ["apple", "banana", "pear"]
    ensures TermIndex.StrictlySorted(v)
    ensures forall t :: t in v <==> Some(t) in docTerms
  {
    assert TermIndex.Less("apple", "banana") && TermIndex.Less("banana", "pear");
    forall t ensures t in v <==> Some(t) in docTerms {
    }
  }

  /** The run-time class of the argument of `equals`, with whatever state matters here. */
  datatype JavaObject =
    | Null
    | OrdInstance(src: OrdFieldSource)                          // exactly class OrdFieldSource
    | SubclassInstance(className: string, src: OrdFieldSource)  // a subclass of OrdFieldSource
    | OtherInstance(className: string)                          // any unrelated class

  datatype NullPointerException = NullPointerException

  /** `equals(o)` as written: `o.getClass()` throws on null; any other class than exactly
      `OrdFieldSource` is unequal; and for an `OrdFieldSource` it compares `this.field` with
      itself, so every `OrdFieldSource` is equal to every other, whatever their fields. */
  function Equals(self: OrdFieldSource, o: JavaObject): (r: Result<bool, NullPointerException>)
    ensures r.Failure? <==> o.Null?
    ensures r == Success(true) <==> o.OrdInstance?
  {
    match o
    case Null => Failure(NullPointerException)
    case OrdInstance(other) => Success(self.field == self.field)
    case _ => Success(false)
  }

  /** `hashCode()`: the class's identity hash `classHash` (fixed for a run, unknown in advance)
      plus the field's `String.hashCode()`, in `int` arithmetic. */
  function HashCode(src: OrdFieldSource, classHash: Int32): Int32
  {
    Wrap(classHash + JavaString.HashCode(src.field))
  }

  /** Within a run two sources hash alike exactly when their fields' string hashes agree; in
      particular sources with the same field always hash alike. */
  lemma HashCodeFollowsField(a: OrdFieldSource, b: OrdFieldSource, classHash: Int32)
    ensures HashCode(a, classHash) == HashCode(b, classHash)
      <==> JavaString.HashCode(a.field) == JavaString.HashCode(b.field)
  {
    WrapAddInjective(classHash, JavaString.HashCode(a.field), JavaString.HashCode(b.field));
  }

  /** As written, `equals` and `hashCode` disagree: sources on fields "a" and "b" are equal,
      yet their hashes differ in every run. */
  lemma EqualsHashInconsistent(classHash: Int32)
    ensures var a, b := OrdFieldSource("a"), OrdFieldSource("b");
      && Equals(a, OrdInstance(b)) == Success(true)
      && HashCode(a, classHash) != HashCode(b, classHash)
  {
    var a, b := OrdFieldSource("a"), OrdFieldSource("b");
    assert JavaString.Utf16("a") == [97] && JavaString.Utf16("b") == [98];
    assert JavaString.HashCode("a") == 97 && JavaString.HashCode("b") == 98;
    HashCodeFollowsField(a, b, classHash);
  }

  /** `equals(o)` as evidently intended: equal to exactly the `OrdFieldSource`s on the same field. */
  function EqualsIntended(self: OrdFieldSource, o: JavaObject): (r: Result<bool, NullPointerException>)
    ensures r.Failure? <==> o.Null?
    ensures r == Success(true) <==> o == OrdInstance(self)
  {
    match o
    case Null => Failure(NullPointerException)
    case OrdInstance(other) => Success(self.field == other.field)
    case _ => Success(false)
  }

  /** The intended `equals` is an equivalence on sources and agrees with `hashCode`: equal
      sources hash alike in every run. */
  lemma EqualsIntendedConsistent(a: OrdFieldSource, b: OrdFieldSource, c: OrdFieldSource, classHash: Int32)
    ensures EqualsIntended(a, OrdInstance(a)) == Success(true)
    ensures EqualsIntended(a, OrdInstance(b)) == EqualsIntended(b, OrdInstance(a))
    ensures EqualsIntended(a, OrdInstance(b)) == Success(true) && EqualsIntended(b, OrdInstance(c)) == Success(true)
      ==> EqualsIntended(a, OrdInstance(c)) == Success(true)
    ensures EqualsIntended(a, OrdInstance(b)) == Success(true) ==> HashCode(a, classHash) == HashCode(b, classHash)
  {
  }
}
