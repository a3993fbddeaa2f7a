/**
 * The decision logic of the three read endpoints (main.py:125-152) over the
 * store's items, given in the store's iteration order.
 */
module Queries {
  import opened Catalog
  import opened CostProjection
  import opened SqlLike

  /** List-all: one response per stored item, in store order; this endpoint never answers NotFound. */
  function GetAllItems(items: seq<Item>): (r: seq<ItemResponse>)
    ensures |r| == |items|
    ensures forall i :: 0 <= i < |items| ==> r[i] == CreateItemResponse(items[i])
  {
    if items == [] then [] else [CreateItemResponse(items[0])] + GetAllItems(items[1..])
  }

  /** Get-by-id: the response for the item with that id, or NotFound when no stored item has it. */
  function GetItemById(items: seq<Item>, id: int): (r: Response<ItemResponse>)
    ensures r.NotFound? <==> forall i :: 0 <= i < |items| ==> items[i].id != id
    ensures r.Ok? ==> exists i :: 0 <= i < |items| && items[i].id == id && r.value == CreateItemResponse(items[i])
  {
    if items == [] then NotFound
    else if items[0].id == id then Ok(CreateItemResponse(items[0]))
    else
      var rest := GetItemById(items[1..], id);
      assert rest.Ok? ==> exists j :: 0 <= j < |items[1..]| && items[1..][j].id == id && rest.value == CreateItemResponse(items[1..][j]);
      assert forall j :: 0 <= j < |items[1..]| ==> items[1..][j] == items[j + 1];
      rest
  }

  /** With unique ids, get-by-id of any stored item's id answers with exactly that item's response. */
  lemma GetItemByIdFindsStored(items: seq<Item>, k: int)
    requires UniqueIds(items)
    requires 0 <= k < |items|
    ensures GetItemById(items, items[k].id) == Ok(CreateItemResponse(items[k]))
  {
    var r := GetItemById(items, items[k].id);
    var i :| 0 <= i < |items| && items[i].id == items[k].id && r.value == CreateItemResponse(items[i]);
    assert i == k;
  }

  /**
   * The store's match for a search term: the name, lower-cased, is LIKE the
   * lower-cased pattern `%term%`. For a term without '%' or '_', this is
   * exactly "the folded name contains the folded term".
   */
  predicate NameMatches(name: string, term: string): (b: bool)
    ensures NoWildcards(term) ==> (b <==> IsSubstring(Fold(term), Fold(name)))
  {
    FoldAppend("%" + term, "%");
    FoldAppend("%", term);
    assert Fold("%") == "%";
    if NoWildcards(term) then
      FoldKeepsNoWildcards(term);
      LikeContains(Fold(name), Fold(term));
      Like(Fold(name), Fold("%" + term + "%"))
    else
      Like(Fold(name), Fold("%" + term + "%"))
  }

  /** The items a search selects, kept in store order. */
  function Matching(items: seq<Item>, term: string): (r: seq<Item>)
    ensures |r| <= |items|
    ensures forall x :: x in r <==> x in items && NameMatches(x.name, term)
  {
    if items == [] then []
    else if NameMatches(items[0].name, term) then [items[0]] + Matching(items[1..], term)
    else Matching(items[1..], term)
  }

  /** Selection keeps store order: the matches of a concatenation are the matches of each part, in turn. */
  lemma {:induction false} MatchingAppend(a: seq<Item>, b: seq<Item>, term: string)
    ensures Matching(a + b, term) == Matching(a, term) + Matching(b, term)
  {
    if a == [] {
      assert a + b == b;
    } else {
      assert (a + b)[0] == a[0];
      assert (a + b)[1..] == a[1..] + b;
      MatchingAppend(a[1..], b, term);
    }
  }

  /** Search-by-name: the responses of the matching items in store order, or NotFound when none match. */
  function SearchItemsByName(items: seq<Item>, term: string): (r: Response<seq<ItemResponse>>)
    ensures r.NotFound? <==> forall i :: 0 <= i < |items| ==> !NameMatches(items[i].name, term)
    ensures r.Ok? ==> r.value == GetAllItems(Matching(items, term)) && r.value != []
  {
    var found := Matching(items, term);
    assert found == [] <==> forall i :: 0 <= i < |items| ==> !NameMatches(items[i].name, term) by {
      if found != [] {
        assert found[0] in items;
      }
      if i :| 0 <= i < |items| && NameMatches(items[i].name, term) {
        assert items[i] in found;
      }
    }
    if found == [] then NotFound else Ok(GetAllItems(found))
  }

  /** The search ignores ASCII case on both sides. */
  lemma NameMatchesIgnoresCase(name: string, term: string)
    ensures NameMatches(Fold(name), term) == NameMatches(name, term)
    ensures NameMatches(name, Fold(term)) == NameMatches(name, term)
  {
    FoldIdempotent(name);
    FoldAppend("%" + term, "%");
    FoldAppend("%", term);
    FoldAppend("%" + Fold(term), "%");
    FoldAppend("%", Fold(term));
    FoldIdempotent(term);
  }

  /** A wildcard-free term matches every name whose folded form holds the folded term at some position. */
  lemma NameMatchesAt(name: string, term: string, k: int)
    requires NoWildcards(term) && OccursAt(Fold(term), Fold(name), k)
    ensures NameMatches(name, term)
  {
    assert IsSubstring(Fold(term), Fold(name));
  }

  /** The term "shield" matches the name "Energy Shield Generator", ignoring case. */
  lemma ShieldMatchesEnergyShieldGenerator()
    ensures NameMatches("Energy Shield Generator", "shield")
  {
    var name, term := "Energy Shield Generator", "shield";
    assert name[7..13] == "Shield";
    FoldSlice(name, 7, 13);
    assert Fold("Shield") == term == Fold(term);
    assert NoWildcards(term);
    NameMatchesAt(name, term, 7);
  }

  /** Searching "shield" in a store holding only "Energy Shield Generator" answers with that item. */
  lemma ShieldFindsEnergyShieldGenerator(it: Item)
    requires it.name == "Energy Shield Generator"
    ensures SearchItemsByName([it], "shield") == Ok([CreateItemResponse(it)])
  {
    ShieldMatchesEnergyShieldGenerator();
    assert [it][1..] == [];
    assert Matching([it], "shield") == [it];
    assert GetAllItems([it]) == [CreateItemResponse(it)];
  }

  /** As written, '_' in a term is a wildcard: the term "_" matches every item whose name is not empty. */
  lemma UnderscoreMatchesAnyName(name: string)
    requires name != []
    ensures NameMatches(name, "_")
  {
    var s := Fold(name);
    assert "%" + "_" + "%" == "%_%" == "%" + "_%";
    assert Fold("%_%") == "%_%";
    var p := "_%";
    assert p[0] == '_' && p[1..] == "%";
    LikePercentMatchesAll(s[1..]);
    assert Like(s, p);
    assert s[0..] == s;
    LikeLeadingPercent(s, p);
  }
}
