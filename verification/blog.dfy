/** The blog page's search box and category buttons (main.js
    `initBlogFilters`). `filterBlogs` decides for every card whether it is
    displayed, from the lower-cased search term, the category of the first
    active button, and the card's title, excerpt and category. */
module Blog {
  import opened Wrappers
  import opened Widgets

  /** `toLowerCase` on the ASCII letters; every other character is kept. */
  function LowerChar(c: char): char {
    if 'A' <= c <= 'Z' then (c as int - 'A' as int + 'a' as int) as char else c
  }

  function Lower(s: string): (r: string)
    ensures |r| == |s|
    ensures forall i | 0 <= i < |s| :: r[i] == LowerChar(s[i])
  {
    seq(|s|, i requires 0 <= i < |s| => LowerChar(s[i]))
  }

  /** `hay.includes(needle)`: `needle` occurs in `hay` as a contiguous slice.
      The empty string occurs in every string. */
  predicate Includes(hay: string, needle: string) {
    exists i | 0 <= i <= |hay| - |needle| :: OccursAt(hay, needle, i)
  }

  /** `needle` is the slice of `hay` starting at index `i`. */
  predicate OccursAt(hay: string, needle: string, i: nat) {
    i + |needle| <= |hay| && hay[i..i + |needle|] == needle
  }

  /** A blog card: its title and excerpt text ("" when the element is
      missing), its `data-category` (None when unset), whether it is
      displayed and whether it carries the `fade-in` class. */
  datatype Card = Card(title: string, excerpt: string, category: Option<string>, visible: bool, fadeIn: bool)

  /** A category button: its `data-category` and whether it is active. */
  datatype CategoryButton = CategoryButton(category: Option<string>, active: bool)

  const AllCategories := "all"

  /** The category of the first active button, or "all" when none is active. */
  function SelectedCategory(buttons: seq<CategoryButton>): (sel: Option<string>)
    ensures (forall j | 0 <= j < |buttons| :: !buttons[j].active) ==> sel == Some(AllCategories)
    ensures forall i | 0 <= i < |buttons| && buttons[i].active && (forall j | 0 <= j < i :: !buttons[j].active) ::
              sel == buttons[i].category
  {
    if |buttons| == 0 then Some(AllCategories)
    else if buttons[0].active then buttons[0].category
    else
      var sel := SelectedCategory(buttons[1..]);
      assert forall i | 1 <= i < |buttons| :: buttons[i] == buttons[1..][i - 1];
      sel
  }

  /** The lower-cased term occurs in the lower-cased title or excerpt. */
  predicate MatchesSearch(term: string, card: Card) {
    Includes(Lower(card.title), Lower(term)) || Includes(Lower(card.excerpt), Lower(term))
  }

  /** The selection is "all", or the card's category equals it (an unset
      category on both sides compares equal, as `undefined === undefined`). */
  predicate MatchesCategory(selected: Option<string>, card: Card) {
    selected == Some(AllCategories) || card.category == selected
  }

  /** `filterBlogs`: every card is shown iff it matches the search and the
      category, and every card gets `fade-in`; its texts and category stay. */
  function FilterBlogs(term: string, selected: Option<string>, cards: seq<Card>): (r: seq<Card>)
    ensures |r| == |cards|
    ensures forall i | 0 <= i < |r| ::
              && (r[i].visible <==> MatchesSearch(term, cards[i]) && MatchesCategory(selected, cards[i]))
              && r[i].fadeIn
              && r[i].title == cards[i].title && r[i].excerpt == cards[i].excerpt
              && r[i].category == cards[i].category
  {
    seq(|cards|, i requires 0 <= i < |cards| =>
      cards[i].(visible := MatchesSearch(term, cards[i]) && MatchesCategory(selected, cards[i]), fadeIn := true))
  }

  /** The page's search term, category buttons and cards. */
  datatype BlogPage = BlogPage(term: string, buttons: seq<CategoryButton>, cards: seq<Card>)

  /** Typing in the search box: the cards are filtered with the new term and
      the current category. */
  function OnSearchInput(page: BlogPage, term: string): (r: BlogPage)
    ensures r.term == term && r.buttons == page.buttons
    ensures r.cards == FilterBlogs(term, SelectedCategory(page.buttons), page.cards)
    ensures |r.cards| == |page.cards|
    ensures forall c | 0 <= c < |r.cards| ::
              r.cards[c].visible <==>
                MatchesSearch(term, page.cards[c]) && MatchesCategory(SelectedCategory(page.buttons), page.cards[c])
  {
    BlogPage(term, page.buttons, FilterBlogs(term, SelectedCategory(page.buttons), page.cards))
  }

  /** A click on category button `i`: only that button is active afterwards,
      and the cards are filtered by its category and the current term. */
  function OnCategoryClick(page: BlogPage, i: nat): (r: BlogPage)
    requires i < |page.buttons|
    ensures r.term == page.term
    ensures |r.buttons| == |page.buttons|
    ensures forall j | 0 <= j < |r.buttons| ::
              r.buttons[j].category == page.buttons[j].category && (r.buttons[j].active <==> j == i)
    ensures |r.cards| == |page.cards|
    ensures forall c | 0 <= c < |r.cards| ::
              r.cards[c].visible <==>
                && MatchesSearch(page.term, page.cards[c])
                && (page.buttons[i].category == Some(AllCategories) || page.cards[c].category == page.buttons[i].category)
    ensures r.cards == FilterBlogs(page.term, page.buttons[i].category, page.cards)
  {
    var flags := SetActive(seq(|page.buttons|, j requires 0 <= j < |page.buttons| => page.buttons[j].active), Some(i));
    var buttons := seq(|page.buttons|, j requires 0 <= j < |page.buttons| => page.buttons[j].(active := flags[j]));
    assert buttons[i].active;
    var selected := SelectedCategory(buttons);
    assert selected == page.buttons[i].category;
    BlogPage(page.term, buttons, FilterBlogs(page.term, selected, page.cards))
  }

  // ---------------------------------------------------------------------
  // Properties of the search

  /** Lower-casing twice is lower-casing once. */
  lemma LowerIdempotent(s: string)
    ensures Lower(Lower(s)) == Lower(s)
  {
  }

  /** Lower-casing a slice is slicing the lower-cased string. */
  lemma LowerSlice(s: string, a: nat, b: nat)
    requires a <= b <= |s|
    ensures Lower(s[a..b]) == Lower(s)[a..b]
  {
  }

  /** An empty search term never hides a card on search grounds. */
  lemma EmptyTermMatchesEveryCard(card: Card)
    ensures MatchesSearch("", card)
  {
    assert OccursAt(Lower(card.title), Lower(""), 0);
  }

  /** The search ignores the case of the term. */
  lemma SearchIgnoresTermCase(term: string, card: Card)
    ensures MatchesSearch(Lower(term), card) <==> MatchesSearch(term, card)
  {
    LowerIdempotent(term);
  }

  /** A term that occurs verbatim in the title or the excerpt finds the card. */
  lemma VerbatimOccurrenceMatches(term: string, card: Card)
    requires Includes(card.title, term) || Includes(card.excerpt, term)
    ensures MatchesSearch(term, card)
  {
    if Includes(card.title, term) {
      var i :| 0 <= i <= |card.title| - |term| && OccursAt(card.title, term, i);
      LowerSlice(card.title, i, i + |term|);
      assert OccursAt(Lower(card.title), Lower(term), i);
    } else {
      var i :| 0 <= i <= |card.excerpt| - |term| && OccursAt(card.excerpt, term, i);
      LowerSlice(card.excerpt, i, i + |term|);
      assert OccursAt(Lower(card.excerpt), Lower(term), i);
    }
  }

  /** Filtering again with the same term and category changes nothing. */
  lemma FilterBlogsIdempotent(term: string, selected: Option<string>, cards: seq<Card>)
    ensures FilterBlogs(term, selected, FilterBlogs(term, selected, cards)) == FilterBlogs(term, selected, cards)
  {
  }
}
