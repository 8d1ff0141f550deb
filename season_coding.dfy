/**
 * Season coding: the list of distinct seasons in order of first appearance
 * (what pandas' `Series.unique` gives) and the 0-based code of each row into
 * that list (the codes of a `Categorical` over those categories).
 */
module SeasonCoding {

  ghost predicate NoDuplicates(u: seq<int>) {
    forall i, j :: 0 <= i < j < |u| ==> u[i] != u[j]
  }

  /** Position of the first occurrence of `x` in `s`. */
  function FirstIndex(s: seq<int>, x: int): (k: nat)
    requires x in s
    ensures k < |s| && s[k] == x && x !in s[..k]
  {
    if s[0] == x then 0
    else
      assert x in s[1..];
      var k' := FirstIndex(s[1..], x);
      assert s[..k' + 1] == [s[0]] + s[1..][..k'];
      k' + 1
  }

  /** Distinct values of `s`, each once, in the order they first appear. */
  function Unique(s: seq<int>): (u: seq<int>)
    ensures forall x :: x in u <==> x in s
    ensures NoDuplicates(u)
    ensures |u| <= |s|
    decreases |s|
  {
    if s == [] then []
    else
      var u0 := Unique(s[..|s| - 1]);
      var x := s[|s| - 1];
      assert s == s[..|s| - 1] + [x];
      if x in u0 then u0 else u0 + [x]
  }

  /**
   * The code of `x` among `categories`: its position there, or -1 when it is
   * not a category.
   */
  function CodeOf(categories: seq<int>, x: int): (c: int)
    ensures -1 <= c < |categories|
    ensures c == -1 <==> x !in categories
    ensures c >= 0 ==> categories[c] == x
  {
    if x in categories then FirstIndex(categories, x) else -1
  }

  /** The codes of every value of `s` among `categories`. */
  function Categorize(s: seq<int>, categories: seq<int>): (codes: seq<int>)
    ensures |codes| == |s|
    ensures forall i :: 0 <= i < |s| ==> -1 <= codes[i] < |categories|
    ensures forall i :: 0 <= i < |s| ==> (codes[i] == -1 <==> s[i] !in categories)
    ensures forall i :: 0 <= i < |s| && codes[i] >= 0 ==> categories[codes[i]] == s[i]
  {
    seq(|s|, i requires 0 <= i < |s| => CodeOf(categories, s[i]))
  }

  /** The codes of a column against its own distinct values. */
  function SeasonCodes(s: seq<int>): (codes: seq<int>)
    ensures |codes| == |s|
    ensures forall i :: 0 <= i < |s| ==>
      0 <= codes[i] < |Unique(s)| && Unique(s)[codes[i]] == s[i]
  {
    Categorize(s, Unique(s))
  }

  /** Rows with equal seasons get equal codes, rows with different seasons different codes. */
  lemma SeasonCodesInjective(s: seq<int>, i: nat, j: nat)
    requires i < |s| && j < |s|
    ensures SeasonCodes(s)[i] == SeasonCodes(s)[j] <==> s[i] == s[j]
  {
  }

  /** Every code of a column is used by some row. */
  lemma SeasonCodesOnto(s: seq<int>, c: nat)
    requires c < |Unique(s)|
    ensures exists i :: 0 <= i < |s| && SeasonCodes(s)[i] == c
  {
    var x := Unique(s)[c];
    var i := FirstIndex(s, x);
    assert CodeOf(Unique(s), x) == c;
    assert SeasonCodes(s)[i] == c;
  }

  /** Within a prefix the first occurrence stays where it was. */
  lemma FirstIndexAppend(s: seq<int>, y: int, x: int)
    requires x in s
    ensures x in s + [y] && FirstIndex(s + [y], x) == FirstIndex(s, x)
  {
    var k := FirstIndex(s, x);
    assert (s + [y])[k] == x;
  }

  /** Unique extends at the end: appending a value adds it last, if it is new. */
  lemma {:induction false} UniqueAppend(s: seq<int>, x: int)
    ensures Unique(s + [x]) == if x in s then Unique(s) else Unique(s) + [x]
  {
    assert (s + [x])[..|s + [x]| - 1] == s;
  }

  /** Unique lists its values in order of their first appearance in the column. */
  lemma {:induction false} UniqueFirstAppearanceOrder(s: seq<int>)
    ensures forall i, j :: 0 <= i < j < |Unique(s)| ==>
      FirstIndex(s, Unique(s)[i]) < FirstIndex(s, Unique(s)[j])
    decreases |s|
  {
    if s != [] {
      var p := s[..|s| - 1];
      var x := s[|s| - 1];
      assert s == p + [x];
      UniqueFirstAppearanceOrder(p);
      UniqueAppend(p, x);
      var u := Unique(s);
      forall i, j | 0 <= i < j < |u|
        ensures FirstIndex(s, u[i]) < FirstIndex(s, u[j])
      {
        FirstIndexAppend(p, x, u[i]);
        if j < |Unique(p)| {
          FirstIndexAppend(p, x, u[j]);
        } else {
          assert u[j] == x && x !in p;
          assert FirstIndex(s, x) == |p|;
        }
      }
    }
  }

  /** A code into a list is unchanged when the list is extended at the end. */
  lemma CodeOfExtend(categories: seq<int>, y: int, x: int)
    requires x in categories
    ensures CodeOf(categories + [y], x) == CodeOf(categories, x)
  {
    FirstIndexAppend(categories, y, x);
  }

  /** Codes of values that are categories already survive extending the categories. */
  lemma CategorizeExtend(s: seq<int>, categories: seq<int>, y: int)
    requires forall i :: 0 <= i < |s| ==> s[i] in categories
    ensures Categorize(s, categories + [y]) == Categorize(s, categories)
  {
    forall i | 0 <= i < |s|
      ensures Categorize(s, categories + [y])[i] == Categorize(s, categories)[i]
    {
      CodeOfExtend(categories, y, s[i]);
    }
  }

  /** Categorizing a longer column appends the new value's code. */
  lemma CategorizeAppend(s: seq<int>, categories: seq<int>, x: int)
    ensures Categorize(s + [x], categories) == Categorize(s, categories) + [CodeOf(categories, x)]
  {
  }

  /**
   * Appending a row never renumbers the rows already there; a season seen
   * for the first time is appended to the list of seasons and gets the next
   * free code, a season seen before gets the code it already had.
   */
  lemma {:induction false} SeasonCodesStableUnderAppend(s: seq<int>, x: int)
    ensures SeasonCodes(s + [x])[..|s|] == SeasonCodes(s)
    ensures x !in s ==> Unique(s + [x]) == Unique(s) + [x]
    ensures x !in s ==> SeasonCodes(s + [x])[|s|] == |Unique(s)|
    ensures x in s ==> Unique(s + [x]) == Unique(s)
    ensures x in s ==> SeasonCodes(s + [x])[|s|] == CodeOf(Unique(s), x)
  {
    UniqueAppend(s, x);
    var u := Unique(s);
    var u' := Unique(s + [x]);
    CategorizeAppend(s, u', x);
    if x !in s {
      CategorizeExtend(s, u, x);
      assert u' == u + [x];
      assert CodeOf(u', x) == |u|;
    }
  }

  /**
   * The same facts for a column coded before and after a row was appended:
   * the old codes are kept and the new row's code is the next free one or the
   * one its season already had. Stated over the stored season list and codes
   * rather than over `Unique` and `SeasonCodes` of the columns, so that a
   * method that recomputes them can use it without unfolding either function.
   */
  lemma RecodeAppend(s: seq<int>, x: int, seasons: seq<int>, codes: seq<int>,
                     seasons': seq<int>, codes': seq<int>)
    requires seasons == Unique(s) && codes == SeasonCodes(s)
    requires seasons' == Unique(s + [x]) && codes' == SeasonCodes(s + [x])
    ensures |codes'| == |codes| + 1 && codes'[..|codes|] == codes
    ensures x in seasons ==> seasons' == seasons && codes'[|codes|] == CodeOf(seasons, x)
    ensures x !in seasons ==> seasons' == seasons + [x] && codes'[|codes|] == |seasons|
  {
    SeasonCodesStableUnderAppend(s, x);
  }
}
