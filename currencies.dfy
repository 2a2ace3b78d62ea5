/**
 * The currency list (`getCurrencies`): one entry per `.currencyList li`
 * item, its code cut out of the link after `?from=` and its name the link
 * text, sorted by code.
 */
module Currencies {
  import opened Wrappers
  import opened Entities
  import opened Strings

  /** One `.currencyList li` item: the `href` of its link ("" when absent) and the link text. */
  datatype Item = Item(href: string, text: string)

  const FromMarker: string := "?from="

  /** How one item fares in the source's loop body. */
  datatype ItemOutcome = Code(code: string) | Skipped | IndexOutOfRange

  /**
   * The loop body as written: `code := strings.Split(href, "?from=")`, skip
   * the item when `len(code) < 1`, else read `code[1]`. The guard never
   * fires, and an `href` without the marker makes `code[1]` out of range.
   */
  function ItemCodeAsWritten(href: string): (r: ItemOutcome)
    ensures !r.Skipped?
    ensures r.IndexOutOfRange? <==> !Contains(href, FromMarker)
  {
    SplitLength(href, FromMarker);
    var parts := Split(href, FromMarker);
    if |parts| < 1 then Skipped
    else if |parts| < 2 then IndexOutOfRange
    else Code(parts[1])
  }

  lemma NoMarkerWithoutQuestionMark(s: string)
    requires forall k :: 0 <= k < |s| ==> s[k] != '?'
    ensures !Contains(s, FromMarker)
  {
    forall i | 0 <= i <= |s|
      ensures !OccursAt(s, FromMarker, i)
    {
      if i + |FromMarker| <= |s| {
        assert s[i..i + |FromMarker|][0] == s[i];
      }
    }
  }

  /**
   * A link without `?from=`, such as the site's home page (or the empty href
   * of an item without a link), splits into one piece, and the source indexes
   * past it.
   */
  lemma HomeLinkIndexOutOfRange()
    ensures |Split("https://www.x-rates.com/", FromMarker)| == 1
    ensures ItemCodeAsWritten("https://www.x-rates.com/") == IndexOutOfRange
  {
    var href := "https://www.x-rates.com/";
    NoMarkerWithoutQuestionMark(href);
    SplitLength(href, FromMarker);
  }

  /**
   * The loop body with the guard it evidently means, `len(code) < 2`: an
   * item without the marker is skipped, any other yields its code.
   */
  function ItemCode(href: string): (r: Option<string>)
    ensures r.None? <==> !Contains(href, FromMarker)
  {
    SplitLength(href, FromMarker);
    var parts := Split(href, FromMarker);
    if |parts| < 2 then None else Some(parts[1])
  }

  /**
   * The code of an item is what follows the first `?from=` in its link, up
   * to the next `?from=` or the end.
   */
  lemma ItemCodeFollowsMarker(href: string)
    requires Contains(href, FromMarker)
    ensures ItemCode(href).Some? && FollowsFirst(href, FromMarker, ItemCode(href).value)
  {
    SecondPieceFollowsFirst(href, FromMarker);
  }

  /** Wherever the source does not fail, the corrected body yields the same code. */
  lemma ItemCodeAgreesWithSource(href: string)
    ensures ItemCodeAsWritten(href).Code? <==> ItemCode(href).Some?
    ensures ItemCodeAsWritten(href).Code? ==> ItemCodeAsWritten(href).code == ItemCode(href).value
  {
  }

  /** The entries the loop appends for `items`, in item order. */
  function Collect(items: seq<Item>): (r: seq<Currency>)
    ensures |r| <= |items|
  {
    if items == [] then []
    else
      var last := items[|items| - 1];
      Collect(items[..|items| - 1])
        + match ItemCode(last.href)
          case Some(code) => [Currency(code, last.text)]
          case None => []
  }

  /** Every entry is the code and link text of some item whose link holds a code. */
  lemma {:induction false} CollectEntriesFromItems(items: seq<Item>)
    ensures forall m :: 0 <= m < |Collect(items)| ==>
              exists k :: 0 <= k < |items| && ItemCode(items[k].href) == Some(Collect(items)[m].code)
                          && items[k].text == Collect(items)[m].name
  {
    if items != [] {
      var n := |items| - 1;
      var init := items[..n];
      CollectEntriesFromItems(init);
      var r := Collect(items);
      forall m | 0 <= m < |r|
        ensures exists k :: 0 <= k < |items| && ItemCode(items[k].href) == Some(r[m].code) && items[k].text == r[m].name
      {
        if m < |Collect(init)| {
          assert r[m] == Collect(init)[m];
          var k :| 0 <= k < |init| && ItemCode(init[k].href) == Some(Collect(init)[m].code)
                   && init[k].text == Collect(init)[m].name;
          assert init[k] == items[k];
        } else {
          assert ItemCode(items[n].href) == Some(r[m].code) && items[n].text == r[m].name;
        }
      }
    } else {
      assert Collect(items) == [];
    }
  }

  /** Collecting one more coded item appends its entry. */
  lemma CollectCodedLast(items: seq<Item>)
    requires items != [] && ItemCode(items[|items| - 1].href).Some?
    ensures var last := items[|items| - 1];
            Collect(items) == Collect(items[..|items| - 1]) + [Currency(ItemCode(last.href).value, last.text)]
  {
  }

  /** When every item links with a code, there is one entry per item, item `k` giving entry `k`. */
  lemma {:induction false} CollectOnePerItem(items: seq<Item>)
    requires forall k :: 0 <= k < |items| ==> ItemCode(items[k].href).Some?
    ensures |Collect(items)| == |items|
    ensures forall k :: 0 <= k < |items| ==>
              Collect(items)[k] == Currency(ItemCode(items[k].href).value, items[k].text)
  {
    if items != [] {
      var n := |items| - 1;
      var init := items[..n];
      assert forall k :: 0 <= k < n ==> init[k] == items[k];
      CollectOnePerItem(init);
      CollectCodedLast(items);
      forall k | 0 <= k < |items|
        ensures Collect(items)[k] == Currency(ItemCode(items[k].href).value, items[k].text)
      {
        if k < n {
          assert init[k] == items[k];
          assert Collect(items)[k] == Collect(init)[k];
        } else {
          assert Collect(items)[k] == Currency(ItemCode(items[n].href).value, items[n].text);
        }
      }
    }
  }

  /** Entries are in non-decreasing order of code (Go's `<` on strings). */
  predicate SortedByCode(s: seq<Currency>)
  {
    forall i, j :: 0 <= i < j < |s| ==> !Less(s[j].code, s[i].code)
  }

  /** Neighbours in order are enough: the order on codes is transitive. */
  lemma {:induction false} NeighboursSorted(s: seq<Currency>)
    requires forall p :: 0 < p < |s| ==> !Less(s[p].code, s[p - 1].code)
    ensures SortedByCode(s)
    decreases |s|
  {
    if |s| > 1 {
      var init := s[..|s| - 1];
      NeighboursSorted(init);
      var last := |s| - 1;
      forall i | 0 <= i < last
        ensures !Less(s[last].code, s[i].code)
      {
        var k := last - 1;
        while k > i
          invariant i <= k <= last - 1
          invariant !Less(s[last].code, s[k].code)
        {
          assert init[k - 1] == s[k - 1] && init[k] == s[k];
          NotLessTransitive(s[k - 1].code, s[k].code, s[last].code);
          k := k - 1;
        }
      }
    }
  }

  /** Exchanges two entries of `a`. */
  method Swap(a: array<Currency>, i: int, j: int)
    requires 0 <= i < a.Length && 0 <= j < a.Length
    modifies a
    ensures a[i] == old(a[j]) && a[j] == old(a[i])
    ensures forall m :: 0 <= m < a.Length && m != i && m != j ==> a[m] == old(a[m])
    ensures multiset(a[..]) == old(multiset(a[..]))
  {
    a[i], a[j] := a[j], a[i];
  }

  /**
   * Moves `a[i]` left past every entry with a larger code, so that the
   * prefix `a[..i + 1]` is in order when `a[..i]` was.
   */
  method InsertLeft(a: array<Currency>, i: int)
    requires 0 <= i < a.Length
    requires forall p :: 0 < p < i ==> !Less(a[p].code, a[p - 1].code)
    modifies a
    ensures forall p :: 0 < p <= i ==> !Less(a[p].code, a[p - 1].code)
    ensures a[i + 1..] == old(a[i + 1..])
    ensures multiset(a[..]) == old(multiset(a[..]))
  {
    var j := i;
    while j > 0 && Less(a[j].code, a[j - 1].code)
      invariant 0 <= j <= i
      invariant forall p :: 0 < p <= i && p != j ==> !Less(a[p].code, a[p - 1].code)
      invariant 0 < j < i ==> !Less(a[j + 1].code, a[j - 1].code)
      invariant a[i + 1..] == old(a[i + 1..])
      invariant multiset(a[..]) == old(multiset(a[..]))
    {
      LessAsymmetric(a[j].code, a[j - 1].code);
      Swap(a, j - 1, j);
      j := j - 1;
    }
  }

  /** `sort.Slice(currencies, less-by-Code)`, as an in-place insertion sort on the codes. */
  method SortByCode(a: array<Currency>)
    modifies a
    ensures SortedByCode(a[..])
    ensures multiset(a[..]) == old(multiset(a[..]))
  {
    var i := 0;
    while i < a.Length
      invariant 0 <= i <= a.Length
      invariant forall p :: 0 < p < i ==> !Less(a[p].code, a[p - 1].code)
      invariant multiset(a[..]) == old(multiset(a[..]))
    {
      InsertLeft(a, i);
      i := i + 1;
    }
    NeighboursSorted(a[..]);
  }

  /**
   * `getCurrencies` with the corrected guard: the entries of `items`, sorted
   * by code.
   */
  method GetCurrencies(items: seq<Item>) returns (currencies: seq<Currency>)
    ensures SortedByCode(currencies)
    ensures multiset(currencies) == multiset(Collect(items))
    ensures items == [] ==> currencies == []
  {
    var collected: seq<Currency> := [];
    var i := 0;
    while i < |items|
      invariant 0 <= i <= |items|
      invariant collected == Collect(items[..i])
    {
      var item := items[i];
      var code := ItemCode(item.href);
      if code.Some? {
        collected := collected + [Currency(code.value, item.text)];
      }
      assert items[..i + 1][..i] == items[..i];
      i := i + 1;
    }
    assert items[..i] == items;
    var a := new Currency[|collected|](k requires 0 <= k < |collected| => collected[k]);
    assert a[..] == collected;
    SortByCode(a);
    currencies := a[..];
  }

  /** When every item carries a code, the list has exactly one entry per item. */
  lemma GetCurrenciesLength(items: seq<Item>, currencies: seq<Currency>)
    requires forall k :: 0 <= k < |items| ==> Contains(items[k].href, FromMarker)
    requires multiset(currencies) == multiset(Collect(items))
    ensures |currencies| == |items|
  {
    CollectOnePerItem(items);
    assert |multiset(currencies)| == |multiset(Collect(items))|;
  }
}
