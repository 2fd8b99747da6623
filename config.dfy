/** The interpreter's configuration (`interpreter::config`): the words that
    mean "all", the words to ignore, the two prefix symbols, and the two
    case-insensitive membership tests built on them. */
module Config {
  import opened Ustr

  /** Default `list_of_all`. */
  const ListOfAll: seq<string> := ["all"]

  /** Default `list_of_ingnore`, in the order the source lists it. */
  const ListOfIgnore: seq<string> := ["in", "from", "with", "and", "the", "on", "at", "to", "a", "an"]

  /** Default `list_of_symbols_multiplier`: the quantity symbol. */
  const QuantitySymbols: string := "*"

  /** Default `list_of_symbols_index`: the index symbol. */
  const IndexSymbols: string := "."

  /** `word_is_among(word, list, sensitive = false, begins_with = false,
      ends_with = false, exact_match = true)`: `word` equals some entry of
      `list`, ignoring ASCII case. Scans the list in order. */
  function WordIsAmong(word: string, list: seq<string>): (r: bool)
    ensures r <==> exists i :: 0 <= i < |list| && Lower(word) == Lower(list[i])
  {
    if list == [] then false
    else if Lower(word) == Lower(list[0]) then true
    else
      var r := WordIsAmong(word, list[1..]);
      assert forall i :: 1 <= i < |list| ==> list[i] == list[1..][i - 1];
      r
  }

  /** `means_all(word)`: the word is "all" in any case, and nothing longer
      or shorter. */
  function MeansAll(word: string): (r: bool)
    ensures r <==> Lower(word) == "all"
  {
    var r := WordIsAmong(word, ListOfAll);
    assert Lower(ListOfAll[0]) == "all";
    r
  }

  /** `must_ignore(word)`: the lower-cased word is one of the ignore list. */
  function MustIgnore(word: string): (r: bool)
    ensures r <==> Lower(word) in ListOfIgnore
  {
    LowerOfLowerWords(ListOfIgnore);
    WordIsAmong(word, ListOfIgnore)
  }

  /** Lower-casing leaves a word already in lower case unchanged. */
  lemma LowerOfLowerWords(list: seq<string>)
    requires forall i, j :: 0 <= i < |list| && 0 <= j < |list[i]| ==> 'a' <= list[i][j] <= 'z'
    ensures forall i :: 0 <= i < |list| ==> Lower(list[i]) == list[i]
  {
    forall i | 0 <= i < |list|
      ensures Lower(list[i]) == list[i]
    {
      assert forall j :: 0 <= j < |list[i]| ==> LowerChar(list[i][j]) == list[i][j];
    }
  }

  /** "all" matches only as a whole word: no prefix, no extension. */
  lemma MeansAllIsExact()
    ensures MeansAll("all") && MeansAll("ALL") && MeansAll("All")
    ensures !MeansAll("al") && !MeansAll("alla") && !MeansAll("") && !MeansAll("all.coin")
  {
    assert Lower("ALL") == "all";
    assert Lower("All") == "all";
    assert |Lower("al")| == 2;
    assert |Lower("alla")| == 4;
    assert |Lower("all.coin")| == 8;
  }

  /** A word meaning "all" holds a letter, so it is not a number. */
  lemma MeansAllIsNotNumber(word: string)
    requires MeansAll(word)
    ensures !IsNumber(word)
  {
    assert Lower(word)[0] == 'a';
    assert LowerChar(word[0]) == 'a';
  }
}
