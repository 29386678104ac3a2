/** Concrete interaction traces of the autocomplete widget, driven through
    the handlers in the order React would call them. */
module AutocompleteScenarios {
  import opened AutocompleteFilter
  import opened AutocompleteWidget

  const Fruits: seq<string> := ["apple", "banana", "cherry"]

  /** Every character of an included string occurs in the including one. */
  lemma IncludedCharsOccur(s: string, t: string)
    ensures Includes(s, t) ==> forall k :: 0 <= k < |t| ==> t[k] in s
  {
    IncludesIffOccurs(s, t);
    if Includes(s, t) {
      var i :| OccursAt(s, t, i);
      forall k | 0 <= k < |t|
        ensures t[k] in s
      {
        assert s[i..i + |t|][k] == s[i + k];
      }
    }
  }

  /** Lower-casing leaves a string without upper-case ASCII letters as it is. */
  lemma LowerOfLowercase(s: string)
    requires forall i :: 0 <= i < |s| ==> !('A' <= s[i] <= 'Z')
    ensures Lower(s) == s
  {
  }

  /** A lower-case candidate lacking one character of a lower-case query does not match it. */
  lemma MissingCharNoMatch(item: string, query: string, k: int)
    requires forall i :: 0 <= i < |item| ==> !('A' <= item[i] <= 'Z')
    requires forall i :: 0 <= i < |query| ==> !('A' <= query[i] <= 'Z')
    requires 0 <= k < |query| && query[k] !in item
    ensures !Matches(item, query)
  {
    LowerOfLowercase(item);
    LowerOfLowercase(query);
    IncludedCharsOccur(item, query);
  }

  /** Typing "an" over the fruits leaves only "banana". */
  lemma FruitsMatchingAn()
    ensures Suggest(Fruits, "an") == ["banana"]
  {
    MissingCharNoMatch("apple", "an", 1);
    LowerOfLowercase("banana");
    LowerOfLowercase("an");
    assert "banana"[..2] == "ba" && "banana"[1..] == "anana" && "anana"[..2] == "an";
    assert Matches("banana", "an");
    MissingCharNoMatch("cherry", "an", 0);
    assert Filter([], "an") == [];
    assert Filter(["cherry"], "an") == [];
    assert Filter(["banana", "cherry"], "an") == ["banana"];
    assert Fruits[1..] == ["banana", "cherry"];
  }

  /** Typing "xyz" matches no fruit, so all of them are shown. */
  lemma FruitsMatchingXyz()
    ensures Suggest(Fruits, "xyz") == Fruits
  {
    MissingCharNoMatch("apple", "xyz", 0);
    MissingCharNoMatch("banana", "xyz", 0);
    MissingCharNoMatch("cherry", "xyz", 0);
    assert Filter([], "xyz") == [];
    assert Filter(["cherry"], "xyz") == [];
    assert Filter(["banana", "cherry"], "xyz") == [];
    assert Fruits[1..] == ["banana", "cherry"];
  }

  /** Mount the widget over the candidates and let the first debounce fire. */
  method Mount(candidates: seq<string>) returns (w: Autocomplete)
    ensures fresh(w) && w.Valid()
    ensures w.data == candidates && w.suggestions == candidates
    ensures w.hidden && w.input == "" && !w.selected && w.activeIndex == -1 && !w.pending
  {
    w := new Autocomplete(candidates);
    w.InputEffect();
    w.DebounceFire();
  }

  /** Type text and let the debounce timer fire. */
  method Type(w: Autocomplete, text: string)
    requires w.Valid()
    modifies w
    ensures w.Valid() && w.input == text && !w.selected && !w.pending
    ensures |text| > 0 ==> w.suggestions == Suggest(w.data, text) && !w.hidden && w.activeIndex == old(w.activeIndex)
    ensures |text| == 0 ==> w.suggestions == w.data && w.activeIndex == -1 && w.hidden == old(w.hidden)
  {
    w.InputChange(text);
    w.InputEffect();
    w.DebounceFire();
  }

  /** Typing "an" shows only "banana"; typing "xyz" matches nothing and falls
      back to all three fruits; ArrowDown twice from no highlight then Enter
      selects "banana", and the following effect run closes the dropdown
      without re-filtering; clearing the query restores all fruits and the
      index -1. */
  method FruitScenario() returns (afterAn: seq<string>, afterXyz: seq<string>, chosen: string,
                                  closedAfterSelect: bool, cleared: seq<string>, clearedIndex: int)
    ensures afterAn == ["banana"]
    ensures afterXyz == ["apple", "banana", "cherry"]
    ensures chosen == "banana" && closedAfterSelect
    ensures cleared == ["apple", "banana", "cherry"] && clearedIndex == -1
  {
    FruitsMatchingAn();
    FruitsMatchingXyz();
    var w := Mount(Fruits);
    Type(w, "an");
    afterAn := w.suggestions;
    Type(w, "xyz");
    afterXyz := w.suggestions;
    w.KeyDown(ArrowDown);
    w.KeyDown(ArrowDown);
    w.KeyDown(Enter);
    chosen := w.input;
    w.InputEffect();
    closedAfterSelect := w.hidden && !w.pending && w.suggestions == Fruits;
    Type(w, "");
    cleared := w.suggestions;
    clearedIndex := w.activeIndex;
  }

  /** A re-filter keeps the old highlight: after highlighting "cherry" and
      typing "an", the index is 2 while the list has one entry, so Enter as
      written would read past the end; the guarded Enter leaves the state
      as it was. */
  method StaleIndexScenario() returns (index: int, count: int, inputAfterEnter: string, selectedAfterEnter: bool)
    ensures index == 2 && count == 1
    ensures !(0 <= index < count)
    ensures inputAfterEnter == "an" && !selectedAfterEnter
  {
    FruitsMatchingAn();
    var w := Mount(Fruits);
    w.KeyDown(ArrowDown);
    w.KeyDown(ArrowDown);
    w.KeyDown(ArrowDown);
    Type(w, "an");
    index, count := w.activeIndex, |w.suggestions|;
    w.KeyDown(Enter);
    inputAfterEnter, selectedAfterEnter := w.input, w.selected;
  }

  /** Once the mount debounce has fired with the empty input the index is -1,
      so Enter as written would read suggestions[-1] although the list is
      full; the guarded Enter does nothing. */
  method ClearedIndexScenario() returns (index: int, count: int, inputAfterEnter: string)
    ensures index == -1 && count == 3
    ensures !(0 <= index < count)
    ensures inputAfterEnter == ""
  {
    var w := Mount(Fruits);
    index, count := w.activeIndex, |w.suggestions|;
    w.KeyDown(Enter);
    inputAfterEnter := w.input;
  }
}
