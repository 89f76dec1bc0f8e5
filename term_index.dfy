/** The term dictionary that the field cache keeps for one field of one index segment: the
    distinct values present, in lexicographic order, and for every document the 1-based rank
    of its value in that order (0 for a document without a value). */
module TermIndex {
  import opened Wrappers
  import opened JavaInt

  /** Lexicographic order of terms by character value; a proper prefix comes first. */
  predicate Less(a: string, b: string)
  {
    if |a| == 0 then |b| > 0
    else if |b| == 0 then false
    else if a[0] == b[0] then Less(a[1..], b[1..])
    else a[0] < b[0]
  }

  lemma {:induction false} LessIrreflexive(a: string)
    ensures !Less(a, a)
  {
    if |a| > 0 {
      LessIrreflexive(a[1..]);
    }
  }

  lemma {:induction false} LessAsymmetric(a: string, b: string)
    ensures !(Less(a, b) && Less(b, a))
  {
    if |a| > 0 && |b| > 0 && a[0] == b[0] {
      LessAsymmetric(a[1..], b[1..]);
    }
  }

  lemma {:induction false} LessTransitive(a: string, b: string, c: string)
    requires Less(a, b) && Less(b, c)
    ensures Less(a, c)
  {
    if |a| > 0 && a[0] == b[0] && b[0] == c[0] {
      LessTransitive(a[1..], b[1..], c[1..]);
    }
  }

  lemma {:induction false} LessTotal(a: string, b: string)
    ensures a == b || Less(a, b) || Less(b, a)
  {
    if |a| > 0 && |b| > 0 && a[0] == b[0] {
      LessTotal(a[1..], b[1..]);
      if a[1..] == b[1..] {
        assert a == [a[0]] + a[1..] && b == [b[0]] + b[1..];
      }
    }
  }

  /** Each term is strictly below the next one: sorted and free of duplicates. */
  predicate StrictlySorted(d: seq<string>)
  {
    forall i :: 0 < i < |d| ==> Less(d[i - 1], d[i])
  }

  lemma {:induction false} SortedOrder(d: seq<string>, i: nat, j: nat)
    requires StrictlySorted(d) && i < j < |d|
    ensures Less(d[i], d[j])
  {
    if i + 1 < j {
      SortedOrder(d, i, j - 1);
      LessTransitive(d[i], d[j - 1], d[j]);
    }
  }

  /** In a strictly sorted dictionary every term sits at a single position. */
  lemma {:induction false} SortedDistinct(d: seq<string>, i: nat, j: nat)
    requires StrictlySorted(d) && i < |d| && j < |d|
    ensures d[i] == d[j] <==> i == j
  {
    if i < j {
      SortedOrder(d, i, j);
      LessIrreflexive(d[i]);
    } else if j < i {
      SortedOrder(d, j, i);
      LessIrreflexive(d[j]);
    }
  }

  /** The 1-based position of `t` in `d`, or 0 when `t` does not occur. */
  function Rank(d: seq<string>, t: string): (r: nat)
    ensures r <= |d|
    ensures r == 0 <==> t !in d
    ensures r > 0 ==> d[r - 1] == t
  {
    if |d| == 0 then 0
    else if d[0] == t then 1
    else
      var r := Rank(d[1..], t);
      if r == 0 then 0 else r + 1
  }

  /** In a strictly sorted dictionary the term at position i has rank i + 1. */
  lemma {:induction false} RankOfPosition(d: seq<string>, i: nat)
    requires StrictlySorted(d) && i < |d|
    ensures Rank(d, d[i]) == i + 1
  {
    assert d[i] in d;
    var r := Rank(d, d[i]);
    SortedDistinct(d, r - 1, i);
  }

  /** Ranks follow the order of the terms, in both directions. */
  lemma {:induction false} RankOrder(d: seq<string>, a: string, b: string)
    requires StrictlySorted(d) && a in d && b in d
    ensures Less(a, b) <==> Rank(d, a) < Rank(d, b)
  {
    var i, j := Rank(d, a) - 1, Rank(d, b) - 1;
    if i < j {
      SortedOrder(d, i, j);
      LessAsymmetric(a, b);
    } else if j < i {
      SortedOrder(d, j, i);
      LessAsymmetric(a, b);
    } else {
      LessIrreflexive(a);
    }
  }

  /** Two strictly sorted dictionaries with the same terms are the same dictionary: the
      dictionary of a field is determined by the set of values present. */
  lemma {:induction false} SortedUnique(d1: seq<string>, d2: seq<string>)
    requires StrictlySorted(d1) && StrictlySorted(d2)
    requires forall x :: x in d1 <==> x in d2
    ensures d1 == d2
  {
    assert |d1| > 0 ==> d1[0] in d2;
    assert |d2| > 0 ==> d2[0] in d1;
    if |d1| > 0 {
      var m1, m2 := d1[0], d2[0];
      assert m2 == m1 || Less(m1, m2) by {
        var j := Rank(d1, m2) - 1;
        if j > 0 { SortedOrder(d1, 0, j); }
      }
      assert m1 == m2 || Less(m2, m1) by {
        var j := Rank(d2, m1) - 1;
        if j > 0 { SortedOrder(d2, 0, j); }
      }
      LessAsymmetric(m1, m2);
      forall x | x in d1[1..] ensures x in d2[1..] {
        var i := Rank(d1[1..], x);
        SortedDistinct(d1, 0, i);
        var j := Rank(d2, x) - 1;
      }
      forall x | x in d2[1..] ensures x in d1[1..] {
        var i := Rank(d2[1..], x);
        SortedDistinct(d2, 0, i);
        var j := Rank(d1, x) - 1;
      }
      SortedUnique(d1[1..], d2[1..]);
      assert d1 == [m1] + d1[1..] && d2 == [m2] + d2[1..];
    }
  }

  /** Adds `t` to a strictly sorted dictionary at its place, unless it is already there. */
  function Insert(d: seq<string>, t: string): (r: seq<string>)
    requires StrictlySorted(d)
    ensures StrictlySorted(r)
    ensures forall x :: x in r <==> x in d || x == t
    ensures |r| <= |d| + 1
    ensures |r| > 0 && (r[0] == t || (|d| > 0 && r[0] == d[0]))
  {
    if |d| == 0 then [t]
    else if d[0] == t then d
    else if Less(t, d[0]) then [t] + d
    else
      var rest := Insert(d[1..], t);
      LessTotal(t, d[0]);
      assert |d| > 1 ==> Less(d[0], d[1]);
      [d[0]] + rest
  }

  /** The term dictionary of a field: the distinct values the documents hold, in order. */
  function Dictionary(docTerms: seq<Option<string>>): (d: seq<string>)
    ensures StrictlySorted(d)
    ensures forall t :: t in d <==> Some(t) in docTerms
    ensures |d| <= |docTerms|
  {
    if |docTerms| == 0 then []
    else
      var n := |docTerms| - 1;
      var prefix := Dictionary(docTerms[..n]);
      assert docTerms == docTerms[..n] + [docTerms[n]];
      match docTerms[n]
      case None => prefix
      case Some(t) => Insert(prefix, t)
  }

  /** What the field cache hands out for one field of one segment: the dictionary `lookup` and
      the per-document ordinals `order`. Here `lookup[i]` is the term of ordinal `i + 1`; a cache
      that keeps a placeholder at position 0 stores the same term one position later. Only
      `order` is read by the value source, so the shift does not change its behaviour. */
  datatype StringIndex = StringIndex(lookup: seq<string>, order: seq<Int32>)

  /** The ordinal of each document: the rank of its value in `lookup`, 0 when it has none. */
  function Ordinals(lookup: seq<string>, docTerms: seq<Option<string>>): (order: seq<Int32>)
    requires |lookup| <= MAX_INT
    ensures |order| == |docTerms|
    ensures forall doc :: 0 <= doc < |order| ==> 0 <= order[doc] <= |lookup|
  {
    seq(|docTerms|, doc requires 0 <= doc < |docTerms| =>
      match docTerms[doc]
      case None => 0
      case Some(t) => Rank(lookup, t))
  }

  /** The field cache's index for a field whose documents hold `docTerms`. */
  function BuildStringIndex(docTerms: seq<Option<string>>): (si: StringIndex)
    requires |docTerms| <= MAX_INT
    ensures StrictlySorted(si.lookup)
    ensures forall t :: t in si.lookup <==> Some(t) in docTerms
    ensures |si.order| == |docTerms|
    ensures forall doc :: 0 <= doc < |docTerms| ==> (si.order[doc] == 0 <==> docTerms[doc] == None)
    ensures forall doc, i :: 0 <= doc < |docTerms| && 0 <= i < |si.lookup| ==>
      (si.order[doc] == i + 1 <==> docTerms[doc] == Some(si.lookup[i]))
  {
    var lookup := Dictionary(docTerms);
    var order := Ordinals(lookup, docTerms);
    forall doc, i | 0 <= doc < |docTerms| && 0 <= i < |lookup|
      ensures order[doc] == i + 1 <==> docTerms[doc] == Some(lookup[i])
    {
      RankOfPosition(lookup, i);
      if docTerms[doc].Some? {
        assert docTerms[doc].value in lookup;
      }
    }
    forall doc | 0 <= doc < |docTerms|
      ensures order[doc] == 0 <==> docTerms[doc] == None
    {
      if docTerms[doc].Some? {
        assert docTerms[doc].value in lookup;
      }
    }
    StringIndex(lookup, order)
  }
}
