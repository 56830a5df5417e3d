/**
 * The two decisions bot.py makes on catalog data: the keyword filter of the
 * `?search` command and the truthiness branch of the `?recipe` command.
 */
module Bot {
  import opened Base
  import opened Text
  import opened Catalog

  /** The names of `get_all_items()`, in table order. */
  function Names(items: seq<(int, string)>): (r: seq<string>)
    ensures |r| == |items|
    ensures forall i | 0 <= i < |items| :: r[i] == items[i].1
  {
    seq(|items|, i requires 0 <= i < |items| => items[i].1)
  }

  predicate MatchesKeyword(name: string, keyword: string) {
    Contains(Lower(name), Lower(keyword))
  }

  /**
   * `[name for _, name in items if keyword.lower() in name.lower()]`: the
   * matching names in table order, each as many times as rows carry it.
   */
  function SearchResults(items: seq<(int, string)>, keyword: string): (r: seq<string>)
    ensures forall n :: n in r <==> n in Names(items) && MatchesKeyword(n, keyword)
    ensures IsSubseq(r, Names(items))
    ensures forall n :: multiset(r)[n] == if MatchesKeyword(n, keyword) then multiset(Names(items))[n] else 0
    decreases |items|
  {
    if items == [] then []
    else
      var rest := SearchResults(items[1..], keyword);
      assert Names(items) == [items[0].1] + Names(items[1..]);
      assert multiset(Names(items)) == multiset{items[0].1} + multiset(Names(items[1..]));
      if MatchesKeyword(items[0].1, keyword) then
        assert ([items[0].1] + rest)[1..] == rest;
        assert multiset([items[0].1] + rest) == multiset{items[0].1} + multiset(rest);
        [items[0].1] + rest
      else rest
  }

  /** A name shared by two rows is listed twice, once per row. */
  lemma SharedNameListedPerRow()
    ensures SearchResults([(1, "Dirt"), (2, "Dirt")], "dirt") == ["Dirt", "Dirt"]
  {
    assert Lower("Dirt") == "dirt";
    assert OccursAt(Lower("Dirt"), Lower("dirt"), 0);
    assert [(1, "Dirt"), (2, "Dirt")][1..] == [(2, "Dirt")];
    assert [(2, "Dirt")][1..] == [];
  }

  /** Every stored name that contains the keyword, ignoring case, is listed. */
  lemma SearchFindsEveryMatch(items: seq<(int, string)>, keyword: string, i: nat)
    requires i < |items| && MatchesKeyword(items[i].1, keyword)
    ensures items[i].1 in SearchResults(items, keyword)
  {
    assert Names(items)[i] == items[i].1;
  }

  /** `"" in s` always holds, so an empty keyword lists every stored name. */
  lemma {:induction false} EmptyKeywordListsAll(items: seq<(int, string)>)
    ensures SearchResults(items, "") == Names(items)
    decreases |items|
  {
    if items != [] {
      assert Lower("") == "";
      EmptyIsContained(Lower(items[0].1));
      assert MatchesKeyword(items[0].1, "");
      assert SearchResults(items, "") == [items[0].1] + SearchResults(items[1..], "");
      EmptyKeywordListsAll(items[1..]);
      assert Names(items) == [items[0].1] + Names(items[1..]);
    }
  }

  lemma {:induction false} NothingMatchesNothingListed(items: seq<(int, string)>, keyword: string)
    requires forall i | 0 <= i < |items| :: !MatchesKeyword(items[i].1, keyword)
    ensures SearchResults(items, keyword) == []
    decreases |items|
  {
    if items != [] {
      assert forall i | 0 <= i < |items| - 1 :: items[1..][i] == items[i + 1];
      NothingMatchesNothingListed(items[1..], keyword);
    }
  }

  /** What `?search` sends: the matching names, or the "no matching item" message. */
  datatype SearchReply = Found(names: seq<string>) | NoMatch

  function Search(items: seq<(int, string)>, keyword: string): (r: SearchReply)
    ensures r.NoMatch? <==> forall i | 0 <= i < |items| :: !MatchesKeyword(items[i].1, keyword)
    ensures r.Found? ==> r.names == SearchResults(items, keyword) && r.names != []
  {
    var results := SearchResults(items, keyword);
    if exists i | 0 <= i < |items| :: MatchesKeyword(items[i].1, keyword) then
      var i :| 0 <= i < |items| && MatchesKeyword(items[i].1, keyword);
      SearchFindsEveryMatch(items, keyword, i);
      assert results != [];
      Found(results)
    else
      NothingMatchesNothingListed(items, keyword);
      NoMatch
  }

  /** What `?recipe` sends: the recipe text, or the "no recipe" message. */
  datatype RecipeReply = ShowRecipe(text: string) | NoRecipeFor

  /**
   * `if recipe_text:` on the value `get_recipe` returned: a shown recipe is
   * the returned text and is non-empty; None and '' both get the "no
   * recipe" message.
   */
  function ReplyToRecipe(recipeText: Option<string>): (r: RecipeReply)
    ensures r.ShowRecipe? ==> recipeText == Some(r.text) && r.text != ""
    ensures r.NoRecipeFor? <==> recipeText in {None, Some("")}
  {
    if recipeText.Some? && recipeText.value != "" then ShowRecipe(recipeText.value) else NoRecipeFor
  }

  /**
   * The recipe command shows a recipe exactly when some stored name matches
   * the query, ignoring case, and the first such row's recipe is non-empty;
   * a stored empty recipe gets the same reply as a missing item.
   */
  lemma RecipeReplyShowsOnlyNonEmpty(rows: seq<Item>, itemName: string)
    ensures ReplyToRecipe(RecipeOf(rows, itemName)).ShowRecipe?
        <==> FindByName(rows, itemName).Some? && rows[FindByName(rows, itemName).value].recipe != ""
    ensures ReplyToRecipe(RecipeOf(rows, itemName)).ShowRecipe?
        ==> ReplyToRecipe(RecipeOf(rows, itemName)).text == rows[FindByName(rows, itemName).value].recipe
  {
  }
}
