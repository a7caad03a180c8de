/** dmutils/filters.py: the `smartjoin` template filter. */
module Filters {
  import opened Common

  /** `smartjoin(input)`: all but the last item joined with commas, then
      "and" before the last; one item is itself, none is the empty text. */
  function SmartJoin(items: seq<string>): string
  {
    if |items| > 1 then Join(items[..|items| - 1], ", ") + " and " + items[|items| - 1]
    else if |items| == 1 then items[0]
    else ""
  }

  /** The English list phrase, built from the front: "a", "a and b",
      "a, b and c", ... */
  function ListPhrase(items: seq<string>): string
  {
    if items == [] then ""
    else if |items| == 1 then items[0]
    else if |items| == 2 then items[0] + " and " + items[1]
    else items[0] + ", " + ListPhrase(items[1..])
  }

  /** `smartjoin` writes the list phrase of its items, in their order. */
  lemma {:induction false} SmartJoinIsListPhrase(items: seq<string>)
    ensures SmartJoin(items) == ListPhrase(items)
    decreases |items|
  {
    if |items| > 2 {
      var n := |items|;
      var init := items[..n - 1];
      assert init[1..] == items[1..][..n - 2];
      assert Join(init, ", ") == items[0] + ", " + Join(items[1..][..n - 2], ", ");
      SmartJoinIsListPhrase(items[1..]);
      assert SmartJoin(items[1..]) == Join(items[1..][..n - 2], ", ") + " and " + items[n - 1];
    }
  }

  /** An item appended to a non-empty list follows the final "and", the
      earlier items joined by commas. */
  lemma SmartJoinAppend(items: seq<string>, x: string)
    requires |items| >= 1
    ensures SmartJoin(items + [x]) == Join(items, ", ") + " and " + x
  {
    assert (items + [x])[..|items|] == items;
  }

  /** The phrase begins with the first item and ends with the last. */
  lemma SmartJoinEnds(items: seq<string>)
    requires items != []
    ensures StartsWith(SmartJoin(items), items[0])
    ensures EndsWith(SmartJoin(items), items[|items| - 1])
  {
    SmartJoinIsListPhrase(items);
    ListPhraseStarts(items);
  }

  lemma {:induction false} ListPhraseStarts(items: seq<string>)
    requires items != []
    ensures StartsWith(ListPhrase(items), items[0])
  {
    var p := ListPhrase(items);
    if |items| == 2 {
      assert p == items[0] + (" and " + items[1]);
    } else if |items| > 2 {
      assert p == items[0] + (", " + ListPhrase(items[1..]));
    }
  }
}
