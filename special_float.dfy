/** How the Python and Ruby response writers render the special floating-point values (NaN and
    the two infinities): each dialect writes them as an expression of its own language. Also the
    shape of a rendered map of such values: `{'key'<sep>literal,...}`, entries in insertion order. */
module SpecialFloat {
  import opened Wrappers

  /** The three special values, as far as the writers can tell them apart. */
  datatype Kind = NaN | PositiveInfinity | NegativeInfinity

  /** The response formats whose writers spell out special values. */
  datatype Dialect = Python | Ruby

  /** Java `float` or `double`. */
  datatype Width = Single | Double

  /** A special `float` or `double` value. A NaN's sign bit and payload are kept, though no
      writer looks at them. */
  datatype SpecialValue =
    | NotANumber(width: Width, signBit: bool, payload: nat)
    | Infinite(width: Width, negative: bool)

  /** `Float.NaN`: the canonical quiet NaN, bit pattern 0x7fc00000. */
  const FLOAT_NAN: SpecialValue := NotANumber(Single, false, 0x40_0000)
  /** `Double.NEGATIVE_INFINITY`. */
  const DOUBLE_NEGATIVE_INFINITY: SpecialValue := Infinite(Double, true)
  /** `Float.POSITIVE_INFINITY`. */
  const FLOAT_POSITIVE_INFINITY: SpecialValue := Infinite(Single, false)

  function KindOf(v: SpecialValue): Kind
  {
    match v
    case NotANumber(_, _, _) => NaN
    case Infinite(_, negative) => if negative then NegativeInfinity else PositiveInfinity
  }

  /** The literal table. */
  function Literal(k: Kind, d: Dialect): string
  {
    match (d, k)
    case (Python, NaN) => "float('NaN')"
    case (Python, PositiveInfinity) => "float('Inf')"
    case (Python, NegativeInfinity) => "-float('Inf')"
    case (Ruby, NaN) => "(0.0/0.0)"
    case (Ruby, PositiveInfinity) => "(1.0/0.0)"
    case (Ruby, NegativeInfinity) => "-(1.0/0.0)"
  }

  /** The text a writer emits for a special value. */
  function Format(v: SpecialValue, d: Dialect): string
  {
    Literal(KindOf(v), d)
  }

  /** `float` and `double` share one table, and a NaN renders alike whatever its bits. */
  lemma FormatIgnoresWidthAndBits(w1: Width, w2: Width, s1: bool, s2: bool, p1: nat, p2: nat, neg: bool, d: Dialect)
    ensures Format(NotANumber(w1, s1, p1), d) == Format(NotANumber(w2, s2, p2), d) == Literal(NaN, d)
    ensures Format(Infinite(w1, neg), d) == Format(Infinite(w2, neg), d)
  {
  }

  /** In both dialects negative infinity is positive infinity with a minus sign in front. */
  lemma NegativeInfinityIsNegated(d: Dialect)
    ensures Literal(NegativeInfinity, d) == "-" + Literal(PositiveInfinity, d)
  {
  }

  /** A position at which the literals of two different kinds differ. */
  function DiffIndex(k1: Kind, k2: Kind, d: Dialect): (j: nat)
    requires k1 != k2
    ensures j < |Literal(k1, d)| && j < |Literal(k2, d)|
    ensures Literal(k1, d)[j] != Literal(k2, d)[j]
  {
    if k1 == NegativeInfinity || k2 == NegativeInfinity then 0
    else match d
      case Python => 7
      case Ruby => 1
  }

  /** The table is unambiguous: no literal is a prefix of another (in particular, no two are equal). */
  lemma LiteralsPrefixFree(k1: Kind, k2: Kind, d: Dialect)
    ensures Literal(k1, d) <= Literal(k2, d) <==> k1 == k2
  {
    if k1 != k2 {
      var j := DiffIndex(k1, k2, d);
    }
  }

  /** The separator between a key and its value. */
  function Separator(d: Dialect): string
  {
    match d
    case Python => ":"
    case Ruby => "=>"
  }

  /** One entry of a response map. */
  datatype Entry = Entry(key: string, value: SpecialValue)

  /** `'key'`, the separator, and the value's literal. */
  function RenderEntry(e: Entry, d: Dialect): string
  {
    "'" + e.key + "'" + Separator(d) + Format(e.value, d)
  }

  /** The entries, in order, separated by commas. */
  function RenderEntries(es: seq<Entry>, d: Dialect): string
  {
    if |es| == 0 then ""
    else if |es| == 1 then RenderEntry(es[0], d)
    else RenderEntry(es[0], d) + "," + RenderEntries(es[1..], d)
  }

  /** A map rendered between braces, with no spaces. */
  function RenderMap(es: seq<Entry>, d: Dialect): string
  {
    "{" + RenderEntries(es, d) + "}"
  }

  /** Rendering follows insertion order: the text of a concatenation is the texts of its parts
      joined by a comma. */
  lemma {:induction false} RenderEntriesAppend(a: seq<Entry>, b: seq<Entry>, d: Dialect)
    requires |a| > 0 && |b| > 0
    ensures RenderEntries(a + b, d) == RenderEntries(a, d) + "," + RenderEntries(b, d)
  {
    var ab := a + b;
    if |a| == 1 {
      assert ab[0] == a[0] && ab[1..] == b;
    } else {
      assert ab[0] == a[0] && ab[1..] == a[1..] + b;
      RenderEntriesAppend(a[1..], b, d);
      CommaAssoc(RenderEntry(a[0], d), RenderEntries(a[1..], d), RenderEntries(b, d));
    }
  }

  lemma CommaAssoc(x: string, y: string, z: string)
    ensures x + "," + (y + "," + z) == x + "," + y + "," + z
  {
  }

  /** The response of the NaN/Infinity test of the JSON writer test suite. */
  function TestResponse(): seq<Entry>
  {
    [Entry("data1", FLOAT_NAN), Entry("data2", DOUBLE_NEGATIVE_INFINITY), Entry("data3", FLOAT_POSITIVE_INFINITY)]
  }

  lemma RenderThree(a: Entry, b: Entry, c: Entry, d: Dialect)
    ensures RenderMap([a, b, c], d) == "{" + RenderEntry(a, d) + "," + RenderEntry(b, d) + "," + RenderEntry(c, d) + "}"
  {
    var es := [a, b, c];
    assert es[0] == a && es[1..] == [b, c];
    assert [b, c][0] == b && [b, c][1..] == [c];
    var ra, rb, rc := RenderEntry(a, d), RenderEntry(b, d), RenderEntry(c, d);
    assert RenderEntries([c], d) == rc;
    assert RenderEntries([b, c], d) == rb + "," + rc;
    assert RenderEntries(es, d) == ra + "," + (rb + "," + rc);
    CommaAssoc(ra, rb, rc);
  }

  /** The entries of the test response, one by one. */
  lemma TestEntries(d: Dialect)
    ensures var es := TestResponse();
      && RenderEntry(es[0], d) == "'data1'" + Separator(d) + Literal(NaN, d)
      && RenderEntry(es[1], d) == "'data2'" + Separator(d) + Literal(NegativeInfinity, d)
      && RenderEntry(es[2], d) == "'data3'" + Separator(d) + Literal(PositiveInfinity, d)
  {
    var es := TestResponse();
    TestEntry(es[0], "'data1'", NaN, d);
    TestEntry(es[1], "'data2'", NegativeInfinity, d);
    TestEntry(es[2], "'data3'", PositiveInfinity, d);
  }

  lemma TestEntry(e: Entry, quoted: string, k: Kind, d: Dialect)
    requires "'" + e.key + "'" == quoted && KindOf(e.value) == k
    ensures RenderEntry(e, d) == quoted + Separator(d) + Literal(k, d)
  {
  }

  /** The Python writer's output for it. */
  lemma TestNaNInfPython()
    ensures RenderMap(TestResponse(), Python) == "{'data1':float('NaN'),'data2':-float('Inf'),'data3':float('Inf')}"
  {
    var es := TestResponse();
    RenderThree(es[0], es[1], es[2], Python);
    TestEntries(Python);
    JoinPython(RenderEntry(es[0], Python), RenderEntry(es[1], Python), RenderEntry(es[2], Python));
  }

  lemma JoinPython(x1: string, x2: string, x3: string)
    requires x1 == "'data1'" + ":" + "float('NaN')"
    requires x2 == "'data2'" + ":" + "-float('Inf')"
    requires x3 == "'data3'" + ":" + "float('Inf')"
    ensures "{" + x1 + "," + x2 + "," + x3 + "}" == "{'data1':float('NaN'),'data2':-float('Inf'),'data3':float('Inf')}"
  {
    var l1, l2 := "{'data1':float('NaN'),", "'data2':-float('Inf'),";
    JoinPythonFirst(x1);
    JoinPythonSecond(l1, x2);
    JoinPythonThird(l1 + l2, x3);
  }

  lemma JoinPythonFirst(x1: string)
    requires x1 == "'data1'" + ":" + "float('NaN')"
    ensures "{" + x1 + "," == "{'data1':float('NaN'),"
  {
    assert x1 == "'data1':float('NaN')";
    assert "{" + x1 == "{'data1':float('NaN')";
  }

  lemma JoinPythonSecond(l1: string, x2: string)
    requires l1 == "{'data1':float('NaN'),"
    requires x2 == "'data2'" + ":" + "-float('Inf')"
    ensures l1 + x2 + "," == "{'data1':float('NaN'),'data2':-float('Inf'),"
  {
    assert x2 + "," == "'data2':-float('Inf'),";
    assert l1 + x2 + "," == l1 + (x2 + ",");
  }

  lemma JoinPythonThird(l12: string, x3: string)
    requires l12 == "{'data1':float('NaN'),'data2':-float('Inf'),"
    requires x3 == "'data3'" + ":" + "float('Inf')"
    ensures l12 + x3 + "}" == "{'data1':float('NaN'),'data2':-float('Inf'),'data3':float('Inf')}"
  {
    assert x3 + "}" == "'data3':float('Inf')}";
    assert l12 + x3 + "}" == l12 + (x3 + "}");
  }

  /** The Ruby writer's output for it. */
  lemma TestNaNInfRuby()
    ensures RenderMap(TestResponse(), Ruby) == "{'data1'=>(0.0/0.0),'data2'=>-(1.0/0.0),'data3'=>(1.0/0.0)}"
  {
    var es := TestResponse();
    RenderThree(es[0], es[1], es[2], Ruby);
    TestEntries(Ruby);
    JoinRuby(RenderEntry(es[0], Ruby), RenderEntry(es[1], Ruby), RenderEntry(es[2], Ruby));
  }

  lemma JoinRuby(x1: string, x2: string, x3: string)
    requires x1 == "'data1'" + "=>" + "(0.0/0.0)"
    requires x2 == "'data2'" + "=>" + "-(1.0/0.0)"
    requires x3 == "'data3'" + "=>" + "(1.0/0.0)"
    ensures "{" + x1 + "," + x2 + "," + x3 + "}" == "{'data1'=>(0.0/0.0),'data2'=>-(1.0/0.0),'data3'=>(1.0/0.0)}"
  {
    var l1, l2 := "{'data1'=>(0.0/0.0),", "'data2'=>-(1.0/0.0),";
    JoinRubyFirst(x1);
    JoinRubySecond(l1, x2);
    JoinRubyThird(l1 + l2, x3);
  }

  lemma JoinRubyFirst(x1: string)
    requires x1 == "'data1'" + "=>" + "(0.0/0.0)"
    ensures "{" + x1 + "," == "{'data1'=>(0.0/0.0),"
  {
    assert x1 == "'data1'=>(0.0/0.0)";
    assert "{" + x1 == "{'data1'=>(0.0/0.0)";
  }

  lemma JoinRubySecond(l1: string, x2: string)
    requires l1 == "{'data1'=>(0.0/0.0),"
    requires x2 == "'data2'" + "=>" + "-(1.0/0.0)"
    ensures l1 + x2 + "," == "{'data1'=>(0.0/0.0),'data2'=>-(1.0/0.0),"
  {
    assert x2 + "," == "'data2'=>-(1.0/0.0),";
    assert l1 + x2 + "," == l1 + (x2 + ",");
  }

  lemma JoinRubyThird(l12: string, x3: string)
    requires l12 == "{'data1'=>(0.0/0.0),'data2'=>-(1.0/0.0),"
    requires x3 == "'data3'" + "=>" + "(1.0/0.0)"
    ensures l12 + x3 + "}" == "{'data1'=>(0.0/0.0),'data2'=>-(1.0/0.0),'data3'=>(1.0/0.0)}"
  {
    assert x3 + "}" == "'data3'=>(1.0/0.0)}";
    assert l12 + x3 + "}" == l12 + (x3 + "}");
  }

  // ---- Reading a rendered map back ----

  /** The position of the first quote in `s`, or `|s|` when there is none. */
  function FindQuote(s: string): (i: nat)
    ensures i <= |s|
    ensures forall j :: 0 <= j < i ==> s[j] != '\''
    ensures i < |s| ==> s[i] == '\''
  {
    if |s| == 0 || s[0] == '\'' then 0 else 1 + FindQuote(s[1..])
  }

  /** The literal at the front of `s`, with the text after it. */
  function MatchLiteral(s: string, d: Dialect): (r: Option<(Kind, string)>)
    ensures r.Some? ==> Literal(r.value.0, d) + r.value.1 == s
  {
    if Literal(NaN, d) <= s then Some((NaN, s[|Literal(NaN, d)|..]))
    else if Literal(NegativeInfinity, d) <= s then Some((NegativeInfinity, s[|Literal(NegativeInfinity, d)|..]))
    else if Literal(PositiveInfinity, d) <= s then Some((PositiveInfinity, s[|Literal(PositiveInfinity, d)|..]))
    else None
  }

  /** `'key'`, the separator and a literal at the front of `s`: key, kind and the rest of `s`. */
  function ParseEntry(s: string, d: Dialect): (r: Option<(string, Kind, string)>)
    ensures r.Some? ==> |r.value.2| < |s|
  {
    if |s| == 0 || s[0] != '\'' then None
    else
      var i := FindQuote(s[1..]);
      if i == |s| - 1 then None
      else
        var key, afterKey := s[1..i + 1], s[i + 2..];
        if !(Separator(d) <= afterKey) then None
        else match MatchLiteral(afterKey[|Separator(d)|..], d)
          case None => None
          case Some((k, rest)) => Some((key, k, rest))
  }

  /** Comma-separated entries filling all of `s`. */
  function ParseEntries(s: string, d: Dialect): Option<seq<(string, Kind)>>
    decreases |s|
  {
    match ParseEntry(s, d)
    case None => None
    case Some((key, k, rest)) =>
      if rest == "" then Some([(key, k)])
      else if rest[0] != ',' then None
      else match ParseEntries(rest[1..], d)
        case None => None
        case Some(more) => Some([(key, k)] + more)
  }

  /** A rendered map: braces around no entries or comma-separated entries. */
  function ParseMap(s: string, d: Dialect): Option<seq<(string, Kind)>>
  {
    if |s| < 2 || s[0] != '{' || s[|s| - 1] != '}' then None
    else if |s| == 2 then Some([])
    else ParseEntries(s[1..|s| - 1], d)
  }

  /** What a rendered map tells a reader: each key with the kind of its value, in order. */
  function Summary(es: seq<Entry>): (r: seq<(string, Kind)>)
    ensures |r| == |es|
    ensures forall i :: 0 <= i < |es| ==> r[i] == (es[i].key, KindOf(es[i].value))
  {
    if |es| == 0 then [] else [(es[0].key, KindOf(es[0].value))] + Summary(es[1..])
  }

  predicate QuoteFree(key: string)
  {
    forall j :: 0 <= j < |key| ==> key[j] != '\''
  }

  lemma {:induction false} MatchLiteralOf(k: Kind, t: string, d: Dialect)
    ensures MatchLiteral(Literal(k, d) + t, d) == Some((k, t))
  {
    var s := Literal(k, d) + t;
    forall k' | k' != k ensures !(Literal(k', d) <= s) {
      var j := DiffIndex(k', k, d);
      assert s[j] == Literal(k, d)[j];
    }
    assert s[|Literal(k, d)|..] == t;
  }

  /** A quoted quote-free key followed by `rest`: the parser finds the key and then `rest`. */
  lemma QuotedKey(key: string, rest: string)
    requires QuoteFree(key)
    ensures var s := "'" + key + "'" + rest;
      FindQuote(s[1..]) == |key| && s[1..|key| + 1] == key && s[|key| + 2..] == rest
  {
    var s := "'" + key + "'" + rest;
    assert s[1..] == key + "'" + rest;
    assert s[1..][|key|] == '\'';
    assert forall j :: 0 <= j < |key| ==> s[1..][j] == key[j];
  }

  lemma {:induction false} ParseRenderedEntry(e: Entry, t: string, d: Dialect)
    requires QuoteFree(e.key)
    ensures ParseEntry(RenderEntry(e, d) + t, d) == Some((e.key, KindOf(e.value), t))
  {
    var q, sep, value := "'" + e.key + "'", Separator(d), Literal(KindOf(e.value), d);
    var lit := value + t;
    var rest := sep + lit;
    assert RenderEntry(e, d) == q + sep + value;
    AppendAssoc(q + sep, value, t);
    AppendAssoc(q, sep, lit);
    QuotedKey(e.key, rest);
    DropPrefix(sep, lit);
    MatchLiteralOf(KindOf(e.value), t, d);
  }

  lemma {:induction false} ParseRenderedEntries(es: seq<Entry>, d: Dialect)
    requires |es| > 0
    requires forall i :: 0 <= i < |es| ==> QuoteFree(es[i].key)
    ensures ParseEntries(RenderEntries(es, d), d) == Some(Summary(es))
  {
    var first := RenderEntry(es[0], d);
    var head := (es[0].key, KindOf(es[0].value));
    if |es| == 1 {
      ParseRenderedEntry(es[0], "", d);
      assert first + "" == first;
      assert Summary(es[1..]) == [];
      assert Summary(es) == [head];
    } else {
      var tail := RenderEntries(es[1..], d);
      ParseRenderedEntry(es[0], "," + tail, d);
      AppendAssoc(first, ",", tail);
      assert ("," + tail)[0] == ',' && ("," + tail)[1..] == tail;
      ParseRenderedEntries(es[1..], d);
      assert Summary(es) == [head] + Summary(es[1..]);
    }
  }

  lemma DropPrefix(x: string, y: string)
    ensures (x + y)[|x|..] == y
  {
  }

  lemma AppendAssoc(x: string, y: string, z: string)
    ensures x + y + z == x + (y + z)
  {
  }

  lemma {:induction false} RenderEntriesNonEmpty(es: seq<Entry>, d: Dialect)
    requires |es| > 0
    ensures |RenderEntries(es, d)| > 0
  {
    var first := RenderEntry(es[0], d);
    assert |first| > 0 by {
      assert first[0] == '\'';
    }
    if |es| > 1 {
      assert RenderEntries(es, d) == first + "," + RenderEntries(es[1..], d);
    }
  }

  lemma Unbrace(x: string)
    ensures var s := "{" + x + "}";
      |s| == |x| + 2 && s[0] == '{' && s[|s| - 1] == '}' && s[1..|s| - 1] == x
  {
  }

  /** A rendered map can be read back: its text determines the keys, in insertion order, and
      the kind of each value, as long as no key contains a quote. */
  lemma {:induction false} RenderMapRoundTrip(es: seq<Entry>, d: Dialect)
    requires forall i :: 0 <= i < |es| ==> QuoteFree(es[i].key)
    ensures ParseMap(RenderMap(es, d), d) == Some(Summary(es))
  {
    Unbrace(RenderEntries(es, d));
    if |es| > 0 {
      RenderEntriesNonEmpty(es, d);
      ParseRenderedEntries(es, d);
    }
  }
}
