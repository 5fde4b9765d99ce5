/**
 * `inputValidate.ts`: splitting what the user typed into words, and the
 * fuzzy building filter that keeps every catalog entry with a name word
 * that some input word matches: as a substring either way, ignoring case,
 * or within a small edit distance.
 */
module InputValidation {
  import opened Text
  import opened Sequences
  import opened EditDistance

  /** An entry of the campus catalog (`display_name`, `lat`, `lon`). */
  datatype Place = Place(displayName: string, lat: string, lon: string)

  /** `validateInput(m)`: `m.trim().split(/\s+/).filter(word => word.length > 0)`. */
  function ValidateInput(m: string): seq<string> {
    Words(Trim(m), IsSpace)
  }

  /**
   * The words are non-empty and hold no whitespace, and put back together
   * they are the input without its whitespace.
   */
  lemma ValidateInputWords(m: string)
    ensures forall k :: 0 <= k < |ValidateInput(m)| ==> ValidateInput(m)[k] != [] && NoSep(ValidateInput(m)[k], IsSpace)
    ensures Concat(ValidateInput(m)) == Keep(m, IsSpace)
  {
    WordsSpec(Trim(m), IsSpace);
    TrimKeeps(m, IsSpace);
  }

  /** Trimming first changes no word: the words are those of the raw input. */
  lemma ValidateInputUntrimmed(m: string)
    ensures ValidateInput(m) == Words(m, IsSpace)
  {
    TrimStartWords(m, IsSpace);
    TrimEndWords(TrimStart(m), IsSpace);
  }

  /**
   * Whitespace between a and b separates their words, and a run of
   * non-whitespace is one word: the words are the maximal runs of
   * non-whitespace characters.
   */
  lemma ValidateInputCut(a: string, c: char, b: string)
    requires IsSpace(c)
    ensures ValidateInput(a + [c] + b) == ValidateInput(a) + ValidateInput(b)
  {
    ValidateInputUntrimmed(a + [c] + b);
    ValidateInputUntrimmed(a);
    ValidateInputUntrimmed(b);
    WordsCut(a, c, b, IsSpace);
  }

  lemma ValidateInputSingle(w: string)
    requires w != [] && NoSep(w, IsSpace)
    ensures ValidateInput(w) == [w]
  {
    ValidateInputUntrimmed(w);
    WordsSingle(w, IsSpace);
  }

  /** No words exactly when the input is empty or only whitespace. */
  lemma ValidateInputBlank(m: string)
    ensures ValidateInput(m) == [] <==> forall i :: 0 <= i < |m| ==> IsSpace(m[i])
  {
    ValidateInputWords(m);
    ConcatNonEmpty(ValidateInput(m));
    KeepEmpty(m, IsSpace);
  }

  /** Words joined by single spaces come back unchanged. */
  lemma ValidateInputJoin(ws: seq<string>)
    requires forall k :: 0 <= k < |ws| ==> ws[k] != [] && NoSep(ws[k], IsSpace)
    ensures ValidateInput(Join(ws, ' ')) == ws
  {
    var s := Join(ws, ' ');
    JoinNoSepEnds(ws, ' ', IsSpace);
    TrimNoop(s);
    assert Trim(s) == s;
    WordsJoin(ws, ' ', IsSpace);
    assert Words(s, IsSpace) == ws;
  }

  /** The input the end-to-end test types: a trailing space is dropped. */
  lemma ValidateInputExample()
    ensures ValidateInput("Finn Art ") == ["Finn", "Art"]
  {
    var m := "Finn Art ";
    TrimSlice(m, 0, 8);
    assert Trim(m) == Join(["Finn", "Art"], ' ');
    ValidateInputJoin(["Finn", "Art"]);
  }

  /* ---------- wordMatches ---------- */

  /** `Math.max(1, Math.floor(Math.min(a.length, b.length) / 4))`. */
  function MaxDist(a: string, b: string): nat {
    var shorter := if |a| <= |b| then |a| else |b|;
    if shorter / 4 >= 1 then shorter / 4 else 1
  }

  /**
   * An input word matches a name word when, both lower-cased, either occurs
   * in the other or they are within `MaxDist` edits.
   */
  ghost predicate Matches(inputWord: string, targetWord: string) {
    var a, b := Lower(inputWord), Lower(targetWord);
    Contains(b, a) || Contains(a, b) || Levenshtein(a, b) <= MaxDist(a, b)
  }

  /** `wordMatches(inputWord, targetWord)`. */
  method WordMatches(inputWord: string, targetWord: string) returns (r: bool)
    ensures r == Matches(inputWord, targetWord)
  {
    var a := Lower(inputWord);
    var b := Lower(targetWord);
    IndexOfFound(b, a);
    IndexOfFound(a, b);
    if IndexOf(b, a, 0) != -1 {
      return true;
    }
    if IndexOf(a, b, 0) != -1 {
      return true;
    }
    var shorter := if |a| <= |b| then |a| else |b|;
    var maxDist := if 1 >= shorter / 4 then 1 else shorter / 4;
    var d := ComputeLevenshtein(a, b);
    r := d <= maxDist;
  }

  /** The test does not depend on which word is the input. */
  lemma MatchesSymmetric(x: string, y: string)
    ensures Matches(x, y) == Matches(y, x)
  {
    LevenshteinSymmetric(Lower(x), Lower(y));
  }

  /** A word matches itself. */
  lemma MatchesReflexive(x: string)
    ensures Matches(x, x)
  {
    ContainsSelf(Lower(x));
  }

  /** Upper and lower case make no difference. */
  lemma MatchesIgnoresCase(x: string, y: string)
    ensures Matches(Lower(x), y) == Matches(x, y)
    ensures Matches(x, Lower(y)) == Matches(x, y)
  {
    LowerIdempotent(x);
    LowerIdempotent(y);
  }

  /** The positions below i where two strings differ. */
  function Mismatches(a: string, b: string, i: nat): nat
    requires i <= |a| && i <= |b|
  {
    if i == 0 then 0 else Mismatches(a, b, i - 1) + Cost(a[i - 1], b[i - 1])
  }

  /** Replacing the differing characters one by one is an edit sequence. */
  lemma {:induction false} DistAtMostMismatches(a: string, b: string, i: nat)
    requires i <= |a| && i <= |b|
    ensures Dist(a, b, i, i) <= Mismatches(a, b, i)
  {
    if i > 0 {
      DistAtMostMismatches(a, b, i - 1);
    }
  }

  /**
   * Small typos are accepted: two words of the same length that differ, once
   * lower-cased, in at most `MaxDist` positions match.
   */
  lemma MatchesTypos(x: string, y: string)
    requires |x| == |y|
    requires Mismatches(Lower(x), Lower(y), |x|) <= MaxDist(Lower(x), Lower(y))
    ensures Matches(x, y)
  {
    DistAtMostMismatches(Lower(x), Lower(y), |x|);
  }

  /** "Finn" is one replacement away from "Fine", within the allowance for four letters. */
  lemma MatchesTypoExample()
    ensures Matches("Finn", "Fine")
  {
    assert Lower("Finn") == "finn" && Lower("Fine") == "fine";
    assert Mismatches("finn", "fine", 4) == 1;
    MatchesTypos("Finn", "Fine");
  }

  /** "Art" occurs in "Arts". */
  lemma MatchesPrefixExample()
    ensures Matches("Art", "Arts")
  {
    assert Lower("Art") == "art" && Lower("Arts") == "arts";
    assert OccursAt("arts", "art", 0);
  }

  /* ---------- suggestBuildingsFromInput ---------- */

  /** `name.split(/[^\w]+/).filter(Boolean)`. */
  function NameWords(name: string): seq<string> {
    Words(name, NotWordChar)
  }

  /** The name words are the runs of word characters of the name. */
  lemma NameWordsSpec(name: string)
    ensures forall k :: 0 <= k < |NameWords(name)| ==>
              NameWords(name)[k] != [] && forall i :: 0 <= i < |NameWords(name)[k]| ==> IsWordChar(NameWords(name)[k][i])
    ensures Concat(NameWords(name)) == Keep(name, NotWordChar)
  {
    WordsSpec(name, NotWordChar);
  }

  /**
   * A non-word character between a and b separates their name words, and a
   * run of word characters is one name word: the name words are the maximal
   * runs of word characters.
   */
  lemma NameWordsCut(a: string, c: char, b: string)
    requires !IsWordChar(c)
    ensures NameWords(a + [c] + b) == NameWords(a) + NameWords(b)
  {
    WordsCut(a, c, b, NotWordChar);
  }

  lemma NameWordsSingle(w: string)
    requires w != [] && forall i :: 0 <= i < |w| ==> IsWordChar(w[i])
    ensures NameWords(w) == [w]
  {
    WordsSingle(w, NotWordChar);
  }

  /**
   * The test catalog entry "Fine Arts Building" is suggested for the words of
   * "Finn Art ": "art" occurs in "arts".
   */
  lemma SuggestedExample()
    ensures Suggested(["Finn", "Art"], Place("Fine Arts Building", "39.2532", "-76.7110"))
  {
    var input, ws := ["Finn", "Art"], ["Fine", "Arts", "Building"];
    NameWordsExample();
    MatchesPrefixExample();
    assert input[1] == "Art" && ws[1] == "Arts";
    assert Matches(input[1], ws[1]);
  }

  /** The words of a name with single spaces are its space-separated parts. */
  lemma NameWordsExample()
    ensures NameWords("Fine Arts Building") == ["Fine", "Arts", "Building"]
  {
    var ws := ["Fine", "Arts", "Building"];
    assert Join(ws, ' ') == "Fine Arts Building";
    WordsJoin(ws, ' ', NotWordChar);
  }

  /** Some input word matches some word of the name. */
  ghost predicate AnyMatch(input: seq<string>, nameWords: seq<string>) {
    exists i, j :: 0 <= i < |input| && 0 <= j < |nameWords| && Matches(input[i], nameWords[j])
  }

  ghost predicate Suggested(input: seq<string>, p: Place) {
    AnyMatch(input, NameWords(p.displayName))
  }

  /** What `suggestBuildingsFromInput(input, campus)` returns. */
  ghost function Suggestions(input: seq<string>, campus: seq<Place>): seq<Place> {
    Filter(campus, p => Suggested(input, p))
  }

  /** The callback of `campusSuggestions.filter`: the two nested loops with their early return. */
  method AnyWordMatches(input: seq<string>, nameWords: seq<string>) returns (r: bool)
    ensures r == AnyMatch(input, nameWords)
  {
    for i := 0 to |input|
      invariant forall i', j :: 0 <= i' < i && 0 <= j < |nameWords| ==> !Matches(input[i'], nameWords[j])
    {
      for j := 0 to |nameWords|
        invariant forall j' :: 0 <= j' < j ==> !Matches(input[i], nameWords[j'])
      {
        var m := WordMatches(input[i], nameWords[j]);
        if m {
          return true;
        }
      }
    }
    return false;
  }

  /** `suggestBuildingsFromInput(input, campusSuggestions)`. */
  method SuggestBuildingsFromInput(input: seq<string>, campus: seq<Place>) returns (r: seq<Place>)
    ensures r == Suggestions(input, campus)
  {
    r := [];
    for k := 0 to |campus|
      invariant r == Filter(campus[..k], p => Suggested(input, p))
    {
      var name := campus[k].displayName;
      var keep := AnyWordMatches(input, NameWords(name));
      FilterAppend(campus[..k], [campus[k]], p => Suggested(input, p));
      assert campus[..k + 1] == campus[..k] + [campus[k]];
      if keep {
        r := r + [campus[k]];
      }
    }
    assert campus[..|campus|] == campus;
  }

  /**
   * Exactly the catalog entries with a name word that some input word
   * matches are kept, in catalog order.
   */
  lemma SuggestionsMembers(input: seq<string>, campus: seq<Place>)
    ensures forall p :: p in Suggestions(input, campus) <==> p in campus && Suggested(input, p)
    ensures Subsequence(Suggestions(input, campus), campus)
  {
    FilterMembers(campus, p => Suggested(input, p));
    FilterSubsequence(campus, p => Suggested(input, p));
  }

  /** Without input words nothing is suggested. */
  lemma SuggestionsNoInput(campus: seq<Place>)
    ensures Suggestions([], campus) == []
  {
    FilterNone(campus, p => Suggested([], p));
  }

  /** More input words never remove a suggestion: one matching word is enough. */
  lemma SuggestionsMoreWords(input: seq<string>, more: seq<string>, campus: seq<Place>)
    ensures Subsequence(Suggestions(input, campus), Suggestions(input + more, campus))
  {
    forall p | Suggested(input, p)
      ensures Suggested(input + more, p)
    {
      var ws := NameWords(p.displayName);
      var i, j :| 0 <= i < |input| && 0 <= j < |ws| && Matches(input[i], ws[j]);
      assert (input + more)[i] == input[i];
    }
    FilterWeaker(campus, p => Suggested(input, p), p => Suggested(input + more, p));
  }
}
