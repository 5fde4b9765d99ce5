/**
 * The older `suggestBuildingsFromInput` of `testWebsite/inputValidate.js`:
 * it narrows the list of display names once per input word, keeping the
 * names that contain the lower-cased word, so a name survives only if it
 * contains every input word.
 */
module LegacySuggestions {
  import opened Text
  import opened Sequences
  import opened InputValidation

  /** `campusSuggestions.map(b => b.display_name)`. */
  function DisplayNames(campus: seq<Place>): (r: seq<string>)
    ensures |r| == |campus| && forall i :: 0 <= i < |campus| ==> r[i] == campus[i].displayName
  {
    seq(|campus|, i requires 0 <= i < |campus| => campus[i].displayName)
  }

  /** Ignoring case, the name contains each of the words. */
  ghost predicate ContainsAll(name: string, words: seq<string>) {
    forall i :: 0 <= i < |words| ==> Contains(Lower(name), Lower(words[i]))
  }

  /** What the old filter returns: the display names containing every input word, in catalog order. */
  ghost function LegacySuggestions(input: seq<string>, campus: seq<Place>): seq<string> {
    Filter(DisplayNames(campus), name => ContainsAll(name, input))
  }

  /** One more word narrows the test by one more `indexOf`. */
  lemma ContainsAllStep(name: string, words: seq<string>, k: nat)
    requires k < |words|
    ensures ContainsAll(name, words[..k + 1]) == (ContainsAll(name, words[..k]) && IndexOf(Lower(name), Lower(words[k]), 0) != -1)
  {
    IndexOfFound(Lower(name), Lower(words[k]));
    assert forall i :: 0 <= i < k ==> words[..k + 1][i] == words[..k][i];
    assert words[..k + 1][k] == words[k];
  }

  /** Filtering the names that hold the first k words by word k leaves those that hold k + 1. */
  lemma NarrowStep(names: seq<string>, words: seq<string>, k: nat)
    requires k < |words|
    ensures Filter(Filter(names, name => ContainsAll(name, words[..k])), building => IndexOf(Lower(building), Lower(words[k]), 0) != -1)
         == Filter(names, name => ContainsAll(name, words[..k + 1]))
  {
    forall name: string
      ensures ContainsAll(name, words[..k + 1]) == (ContainsAll(name, words[..k]) && IndexOf(Lower(name), Lower(words[k]), 0) != -1)
    {
      ContainsAllStep(name, words, k);
    }
    FilterFilter(names, name => ContainsAll(name, words[..k]),
      building => IndexOf(Lower(building), Lower(words[k]), 0) != -1, name => ContainsAll(name, words[..k + 1]));
  }

  /** `suggestBuildingsFromInput(input, campusSuggestions)` of the old front end. */
  method SuggestNames(input: seq<string>, campus: seq<Place>) returns (r: seq<string>)
    ensures r == LegacySuggestions(input, campus)
  {
    r := DisplayNames(campus);
    FilterAll(r, name => ContainsAll(name, input[..0]));
    for k := 0 to |input|
      invariant r == Filter(DisplayNames(campus), name => ContainsAll(name, input[..k]))
    {
      var w := Lower(input[k]);
      NarrowStep(DisplayNames(campus), input, k);
      r := Filter(r, building => IndexOf(Lower(building), w, 0) != -1);
    }
    assert input[..|input|] == input;
  }

  /** A name is returned exactly when it is a display name containing every word. */
  lemma LegacyMembers(input: seq<string>, campus: seq<Place>)
    ensures forall name :: name in LegacySuggestions(input, campus) <==> name in DisplayNames(campus) && ContainsAll(name, input)
    ensures Subsequence(LegacySuggestions(input, campus), DisplayNames(campus))
  {
    FilterMembers(DisplayNames(campus), name => ContainsAll(name, input));
    FilterSubsequence(DisplayNames(campus), name => ContainsAll(name, input));
  }

  /** Without input words every display name is returned. */
  lemma LegacyNoWords(campus: seq<Place>)
    ensures LegacySuggestions([], campus) == DisplayNames(campus)
  {
    FilterAll(DisplayNames(campus), name => ContainsAll(name, []));
  }

  /** Each further word can only remove names: the test is all the words together. */
  lemma LegacyMoreWords(input: seq<string>, more: seq<string>, campus: seq<Place>)
    ensures Subsequence(LegacySuggestions(input + more, campus), LegacySuggestions(input, campus))
  {
    forall name | ContainsAll(name, input + more)
      ensures ContainsAll(name, input)
    {
      assert forall i :: 0 <= i < |input| ==> (input + more)[i] == input[i];
    }
    FilterWeaker(DisplayNames(campus), name => ContainsAll(name, input + more), name => ContainsAll(name, input));
  }
}
