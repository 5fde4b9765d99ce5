/**
 * The JavaScript string operations the input matchers rely on: `trim`,
 * `split` on a regular expression that matches runs of one character class,
 * `filter` of the empty pieces, `toLowerCase` and `indexOf(x) !== -1`.
 * Strings are sequences of characters (UTF-16 code units in the source).
 */
module Text {

  /** The characters `\s` matches and `trim` removes: ECMAScript WhiteSpace and LineTerminator. */
  predicate IsSpace(c: char) {
    || c == ' ' || c == '\t' || c == '\n' || c == '\r' || c == '\U{000B}' || c == '\U{000C}'
    || c == '\U{00A0}' || c == '\U{1680}' || ('\U{2000}' <= c <= '\U{200A}')
    || c == '\U{2028}' || c == '\U{2029}' || c == '\U{202F}' || c == '\U{205F}'
    || c == '\U{3000}' || c == '\U{FEFF}'
  }

  /** The characters `\w` matches. */
  predicate IsWordChar(c: char) {
    ('a' <= c <= 'z') || ('A' <= c <= 'Z') || ('0' <= c <= '9') || c == '_'
  }

  /** The characters `[^\w]` matches. */
  predicate NotWordChar(c: char) {
    !IsWordChar(c)
  }

  /* ---------- toLowerCase ---------- */

  function LowerChar(c: char): (r: char)
    ensures 'A' <= c <= 'Z' ==> r as int == c as int + 32
    ensures !('A' <= c <= 'Z') ==> r == c
  {
    if 'A' <= c <= 'Z' then (c as int + 32) as char else c
  }

  /** `s.toLowerCase()` on the ASCII letters. */
  function Lower(s: string): (r: string)
    ensures |r| == |s|
    ensures forall i :: 0 <= i < |s| ==> r[i] == LowerChar(s[i])
  {
    seq(|s|, i requires 0 <= i < |s| => LowerChar(s[i]))
  }

  lemma LowerIdempotent(s: string)
    ensures Lower(Lower(s)) == Lower(s)
  {
    assert forall i :: 0 <= i < |s| ==> LowerChar(LowerChar(s[i])) == LowerChar(s[i]);
  }

  /** `toLowerCase` leaves a string unchanged exactly when it holds no ASCII capital. */
  lemma LowerFixed(s: string)
    ensures Lower(s) == s <==> forall i :: 0 <= i < |s| ==> !('A' <= s[i] <= 'Z')
  {
    if Lower(s) == s {
      forall i | 0 <= i < |s|
        ensures !('A' <= s[i] <= 'Z')
      {
        assert Lower(s)[i] == LowerChar(s[i]);
      }
    }
  }

  /** No upper-case ASCII letter is left. */
  lemma LowerHasNoCapital(s: string)
    ensures forall i :: 0 <= i < |s| ==> !('A' <= Lower(s)[i] <= 'Z')
  {
  }

  /* ---------- indexOf ---------- */

  /** needle occurs in hay starting at position i. */
  predicate OccursAt(hay: string, needle: string, i: int) {
    0 <= i && i + |needle| <= |hay| && hay[i..i + |needle|] == needle
  }

  /** needle occurs somewhere in hay. */
  ghost predicate Contains(hay: string, needle: string) {
    exists i :: OccursAt(hay, needle, i)
  }

  /** `hay.indexOf(needle, from)`: the first position from `from` on where needle occurs, or -1. */
  function IndexOf(hay: string, needle: string, from: nat): (r: int)
    ensures r == -1 || (from <= r && OccursAt(hay, needle, r))
    ensures forall i :: from <= i < r || (r == -1 && from <= i) ==> !OccursAt(hay, needle, i)
    decreases |hay| - from
  {
    if from + |needle| > |hay| then -1
    else if hay[from..from + |needle|] == needle then from
    else IndexOf(hay, needle, from + 1)
  }

  /** `hay.indexOf(needle) !== -1` holds exactly when needle occurs in hay. */
  lemma IndexOfFound(hay: string, needle: string)
    ensures IndexOf(hay, needle, 0) != -1 <==> Contains(hay, needle)
  {
    var r := IndexOf(hay, needle, 0);
    if r != -1 {
      assert OccursAt(hay, needle, r);
    }
  }

  lemma ContainsEmpty(hay: string)
    ensures Contains(hay, [])
  {
    assert OccursAt(hay, [], 0);
  }

  lemma ContainsSelf(s: string)
    ensures Contains(s, s)
  {
    assert OccursAt(s, s, 0);
  }

  /* ---------- trim ---------- */

  function TrimStart(s: string): (r: string)
    ensures |r| <= |s| && r == s[|s| - |r|..]
    ensures r == [] || !IsSpace(r[0])
    ensures forall i :: 0 <= i < |s| - |r| ==> IsSpace(s[i])
  {
    if |s| > 0 && IsSpace(s[0]) then TrimStart(s[1..]) else s
  }

  function TrimEnd(s: string): (r: string)
    ensures |r| <= |s| && r == s[..|r|]
    ensures r == [] || !IsSpace(r[|r| - 1])
    ensures forall i :: |r| <= i < |s| ==> IsSpace(s[i])
  {
    if |s| > 0 && IsSpace(s[|s| - 1]) then TrimEnd(s[..|s| - 1]) else s
  }

  /** `s.trim()`: what is left once the leading and the trailing whitespace is gone. */
  function Trim(s: string): string {
    TrimEnd(TrimStart(s))
  }

  /** The result of `trim` neither starts nor ends with whitespace and is a slice of the input. */
  lemma TrimEnds(s: string)
    ensures Trim(s) == [] || (!IsSpace(Trim(s)[0]) && !IsSpace(Trim(s)[|Trim(s)| - 1]))
  {
    var t := TrimStart(s);
    if Trim(s) != [] {
      assert Trim(s)[0] == t[0];
    }
  }

  /** Only whitespace is removed. */
  lemma TrimKeeps(s: string, sep: char -> bool)
    requires forall c :: IsSpace(c) ==> sep(c)
    ensures Keep(Trim(s), sep) == Keep(s, sep)
  {
    TrimStartKeeps(s, sep);
    TrimEndKeeps(TrimStart(s), sep);
  }

  lemma {:induction false} TrimStartKeeps(s: string, sep: char -> bool)
    requires forall c :: IsSpace(c) ==> sep(c)
    ensures Keep(TrimStart(s), sep) == Keep(s, sep)
  {
    if |s| > 0 && IsSpace(s[0]) {
      TrimStartKeeps(s[1..], sep);
    }
  }

  lemma {:induction false} TrimEndKeeps(s: string, sep: char -> bool)
    requires forall c :: IsSpace(c) ==> sep(c)
    ensures Keep(TrimEnd(s), sep) == Keep(s, sep)
  {
    if |s| > 0 && IsSpace(s[|s| - 1]) {
      var u := s[..|s| - 1];
      assert s == u + [s[|s| - 1]];
      KeepAppend(u, [s[|s| - 1]], sep);
      TrimEndKeeps(u, sep);
    }
  }

  /** A string with no whitespace at either end is its own trim. */
  lemma TrimNoop(s: string)
    requires s == [] || (!IsSpace(s[0]) && !IsSpace(s[|s| - 1]))
    ensures Trim(s) == s
  {
  }

  /** `trim` keeps exactly the span from the first to the last non-whitespace character. */
  lemma TrimSlice(s: string, lo: nat, hi: nat)
    requires lo < hi <= |s|
    requires forall i :: 0 <= i < lo ==> IsSpace(s[i])
    requires forall i :: hi <= i < |s| ==> IsSpace(s[i])
    requires !IsSpace(s[lo]) && !IsSpace(s[hi - 1])
    ensures Trim(s) == s[lo..hi]
  {
    var t := TrimStart(s);
    assert t == s[lo..];
    assert TrimEnd(t) == s[lo..hi];
  }

  /* ---------- split on runs of one character class ---------- */

  /** The characters of s that are not separators, in order. */
  function Keep(s: string, sep: char -> bool): (r: string)
    ensures forall i :: 0 <= i < |r| ==> !sep(r[i])
    ensures |r| <= |s|
  {
    if |s| == 0 then [] else if sep(s[0]) then Keep(s[1..], sep) else [s[0]] + Keep(s[1..], sep)
  }

  lemma {:induction false} KeepAppend(s: string, t: string, sep: char -> bool)
    ensures Keep(s + t, sep) == Keep(s, sep) + Keep(t, sep)
    decreases |s|
  {
    if |s| > 0 {
      assert (s + t)[1..] == s[1..] + t;
      KeepAppend(s[1..], t, sep);
    } else {
      assert s + t == t;
    }
  }

  /** Keep nothing exactly when every character is a separator. */
  lemma {:induction false} KeepEmpty(s: string, sep: char -> bool)
    ensures Keep(s, sep) == [] <==> forall i :: 0 <= i < |s| ==> sep(s[i])
  {
    if |s| > 0 {
      KeepEmpty(s[1..], sep);
      assert forall i :: 1 <= i < |s| ==> s[i] == s[1..][i - 1];
    }
  }

  /** A string with no separator in it. */
  predicate NoSep(w: string, sep: char -> bool) {
    forall i :: 0 <= i < |w| ==> !sep(w[i])
  }

  /** Drops the run of separators at the front. */
  function SkipSeps(s: string, sep: char -> bool): (r: string)
    ensures |r| <= |s| && r == s[|s| - |r|..]
    ensures r == [] || !sep(r[0])
    ensures Keep(r, sep) == Keep(s, sep)
  {
    if |s| > 0 && sep(s[0]) then SkipSeps(s[1..], sep) else s
  }

  /**
   * `s.split(re)` where re matches maximal runs of the separator class: the
   * pieces between the runs, with an empty piece before a leading run, after
   * a trailing run, and for the empty string.
   */
  function Split(s: string, sep: char -> bool): (r: seq<string>)
    ensures |r| >= 1
    decreases |s|
  {
    if |s| == 0 then [[]]
    else if sep(s[0]) then [[]] + Split(SkipSeps(s, sep), sep)
    else
      var rest := Split(s[1..], sep);
      [[s[0]] + rest[0]] + rest[1..]
  }

  /** `.filter(w => w.length > 0)` and `.filter(Boolean)` on strings. */
  function NonEmpty(ws: seq<string>): (r: seq<string>)
    ensures |r| <= |ws|
    ensures forall i :: 0 <= i < |r| ==> r[i] != [] && r[i] in ws
  {
    if |ws| == 0 then []
    else if ws[0] == [] then NonEmpty(ws[1..])
    else [ws[0]] + NonEmpty(ws[1..])
  }

  /** The words of s: the non-empty pieces of the split. */
  function Words(s: string, sep: char -> bool): seq<string> {
    NonEmpty(Split(s, sep))
  }

  function Concat(ws: seq<string>): string {
    if |ws| == 0 then [] else ws[0] + Concat(ws[1..])
  }

  function Join(ws: seq<string>, c: char): string {
    if |ws| == 0 then [] else if |ws| == 1 then ws[0] else ws[0] + [c] + Join(ws[1..], c)
  }

  lemma {:induction false} ConcatAppend(a: seq<string>, b: seq<string>)
    ensures Concat(a + b) == Concat(a) + Concat(b)
    decreases |a|
  {
    if |a| > 0 {
      assert (a + b)[1..] == a[1..] + b;
      ConcatAppend(a[1..], b);
    } else {
      assert a + b == b;
    }
  }

  /** No piece of the split holds a separator. */
  lemma {:induction false} SplitNoSep(s: string, sep: char -> bool)
    ensures forall k :: 0 <= k < |Split(s, sep)| ==> NoSep(Split(s, sep)[k], sep)
    decreases |s|
  {
    if |s| > 0 {
      if sep(s[0]) {
        SplitNoSep(SkipSeps(s, sep), sep);
      } else {
        SplitNoSep(s[1..], sep);
      }
    }
  }

  /** The pieces put back together are the input without its separators. */
  lemma {:induction false} SplitConcat(s: string, sep: char -> bool)
    ensures Concat(Split(s, sep)) == Keep(s, sep)
    decreases |s|
  {
    if |s| > 0 {
      if sep(s[0]) {
        SplitConcat(SkipSeps(s, sep), sep);
      } else {
        var rest := Split(s[1..], sep);
        SplitConcat(s[1..], sep);
        assert rest == [rest[0]] + rest[1..];
        ConcatAppend([rest[0]], rest[1..]);
        ConcatAppend([[s[0]] + rest[0]], rest[1..]);
      }
    }
  }

  lemma {:induction false} NonEmptyConcat(ws: seq<string>)
    ensures Concat(NonEmpty(ws)) == Concat(ws)
  {
    if |ws| > 0 {
      NonEmptyConcat(ws[1..]);
    }
  }

  /**
   * The words are non-empty, hold no separator, and put back together they
   * are exactly the non-separator characters of s, in order.
   */
  lemma WordsSpec(s: string, sep: char -> bool)
    ensures forall k :: 0 <= k < |Words(s, sep)| ==> Words(s, sep)[k] != [] && NoSep(Words(s, sep)[k], sep)
    ensures Concat(Words(s, sep)) == Keep(s, sep)
  {
    SplitNoSep(s, sep);
    SplitConcat(s, sep);
    NonEmptyConcat(Split(s, sep));
  }

  /** Non-empty pieces put back together are empty only when there is none. */
  lemma {:induction false} ConcatNonEmpty(ws: seq<string>)
    requires forall k :: 0 <= k < |ws| ==> ws[k] != []
    ensures Concat(ws) == [] <==> ws == []
  {
    if |ws| > 0 {
      assert |Concat(ws)| >= |ws[0]| > 0;
    }
  }

  /** There are no words exactly when every character is a separator. */
  lemma WordsEmpty(s: string, sep: char -> bool)
    ensures Words(s, sep) == [] <==> forall i :: 0 <= i < |s| ==> sep(s[i])
  {
    WordsSpec(s, sep);
    ConcatNonEmpty(Words(s, sep));
    KeepEmpty(s, sep);
  }

  /** Splitting a separator-free prefix just extends the first piece. */
  lemma {:induction false} SplitPrefix(w: string, t: string, sep: char -> bool)
    requires NoSep(w, sep)
    ensures Split(w + t, sep) == [w + Split(t, sep)[0]] + Split(t, sep)[1..]
    decreases |w|
  {
    var S := Split(t, sep);
    if |w| == 0 {
      assert w + t == t && w + S[0] == S[0];
      assert S == [S[0]] + S[1..];
    } else {
      var c, u := w[0], w[1..];
      ConsAppend(c, u, t);
      ConsAppend(c, u, S[0]);
      assert NoSep(u, sep);
      SplitPrefix(u, t, sep);
      SplitCons(c, u + t, sep);
      var R := Split(u + t, sep);
      assert R[0] == u + S[0] && R[1..] == S[1..];
      assert w == [c] + u;
    }
  }

  /** `[c] + (u + t)` is `w + t` for `w == [c] + u`. */
  lemma ConsAppend(c: char, u: string, t: string)
    ensures [c] + (u + t) == ([c] + u) + t
  {
  }

  /** A string starting with a word character continues the first piece. */
  lemma SplitCons(c: char, u: string, sep: char -> bool)
    requires !sep(c)
    ensures Split([c] + u, sep) == [[c] + Split(u, sep)[0]] + Split(u, sep)[1..]
  {
    assert ([c] + u)[0] == c && ([c] + u)[1..] == u;
  }

  lemma AppendNil(w: string, e: string)
    requires e == []
    ensures w + e == w
  {
  }

  lemma NonEmptyCons(w: string, ws: seq<string>)
    requires w != []
    ensures NonEmpty([w] + ws) == [w] + NonEmpty(ws)
  {
    assert ([w] + ws)[1..] == ws;
  }

  /** One separator in front of a piece that does not start with one opens a new, empty piece. */
  lemma SplitSepFront(c: char, u: string, sep: char -> bool)
    requires sep(c) && (u == [] || !sep(u[0]))
    ensures Split([c] + u, sep) == [[]] + Split(u, sep)
  {
    var t := [c] + u;
    assert t[1..] == u;
    assert SkipSeps(t, sep) == SkipSeps(u, sep) == u;
  }

  /** A word, one separator, then text that does not start with a separator. */
  lemma SplitJoinStep(w: string, c: char, u: string, sep: char -> bool)
    requires NoSep(w, sep) && sep(c) && (u == [] || !sep(u[0]))
    ensures Split(w + ([c] + u), sep) == [w] + Split(u, sep)
  {
    var t := [c] + u;
    SplitSepFront(c, u, sep);
    var S := Split(t, sep);
    assert S[0] == [] && S[1..] == Split(u, sep);
    SplitPrefix(w, t, sep);
    AppendNil(w, S[0]);
  }

  /** Joining non-empty words starts with the first word's first character and ends with the last word's last. */
  lemma {:induction false} JoinEnds(ws: seq<string>, c: char)
    requires forall k :: 0 <= k < |ws| ==> ws[k] != []
    ensures Join(ws, c) == [] <==> ws == []
    ensures ws != [] ==> Join(ws, c)[0] == ws[0][0]
    ensures ws != [] ==> Join(ws, c)[|Join(ws, c)| - 1] == ws[|ws| - 1][|ws[|ws| - 1]| - 1]
    decreases |ws|
  {
    if |ws| > 1 {
      var rest := ws[1..];
      assert forall k :: 0 <= k < |rest| ==> rest[k] == ws[k + 1];
      JoinEnds(rest, c);
      var t := Join(rest, c);
      var j := ws[0] + [c] + t;
      assert Join(ws, c) == j;
      assert j[0] == ws[0][0];
      assert j[|j| - 1] == t[|t| - 1];
      assert rest[|rest| - 1] == ws[|ws| - 1];
    }
  }

  /** Words joined by one separator split back into the same words. */
  lemma {:induction false} WordsJoin(ws: seq<string>, c: char, sep: char -> bool)
    requires sep(c)
    requires forall k :: 0 <= k < |ws| ==> ws[k] != [] && NoSep(ws[k], sep)
    ensures Words(Join(ws, c), sep) == ws
    decreases |ws|
  {
    if |ws| == 1 {
      SplitPrefix(ws[0], [], sep);
      assert ws[0] + [] == ws[0];
      assert Split(ws[0], sep) == [ws[0]];
    } else if |ws| > 1 {
      var u := Join(ws[1..], c);
      WordsJoin(ws[1..], c, sep);
      JoinEnds(ws[1..], c);
      SplitJoinStep(ws[0], c, u, sep);
      assert Join(ws, c) == ws[0] + ([c] + u);
      NonEmptyCons(ws[0], Split(u, sep));
    } else {
      assert Split([], sep) == [[]];
    }
  }

  /** Skipping leading separators loses no word. */
  lemma WordsSkip(t: string, sep: char -> bool)
    ensures Words(SkipSeps(t, sep), sep) == Words(t, sep)
  {
    if |t| > 0 && sep(t[0]) {
      var S := Split(SkipSeps(t, sep), sep);
      assert Split(t, sep) == [[]] + S;
      assert ([[]] + S)[1..] == S;
    }
  }

  /** A separator in front adds no word. */
  lemma WordsSepFront(x: char, t: string, sep: char -> bool)
    requires sep(x)
    ensures Words([x] + t, sep) == Words(t, sep)
  {
    var u := [x] + t;
    assert u[1..] == t;
    assert SkipSeps(u, sep) == SkipSeps(t, sep);
    var S := Split(SkipSeps(t, sep), sep);
    assert Split(u, sep) == [[]] + S;
    assert ([[]] + S)[1..] == S;
    WordsSkip(t, sep);
  }

  /**
   * A word character in front is a word of its own when the rest is empty or
   * starts with a separator, and otherwise joins the rest's first word.
   */
  lemma WordsWordFront(x: char, t: string, sep: char -> bool)
    requires !sep(x)
    ensures (t == [] || sep(t[0])) ==> Words([x] + t, sep) == [[x]] + Words(t, sep)
    ensures t != [] && !sep(t[0]) ==>
              Words(t, sep) != [] && Words([x] + t, sep) == [[x] + Words(t, sep)[0]] + Words(t, sep)[1..]
  {
    var S := Split(t, sep);
    SplitCons(x, t, sep);
    NonEmptyCons([x] + S[0], S[1..]);
    if t == [] {
      assert S == [[]];
      assert [x] + S[0] == [x];
    } else if sep(t[0]) {
      assert S == [[]] + Split(SkipSeps(t, sep), sep);
      assert [x] + S[0] == [x];
      assert S[1..] == Split(SkipSeps(t, sep), sep);
      assert ([[]] + S[1..])[1..] == S[1..];
    } else {
      var R := Split(t[1..], sep);
      assert S == [[t[0]] + R[0]] + R[1..];
      assert S[0] != [];
      assert S == [S[0]] + S[1..];
      NonEmptyCons(S[0], S[1..]);
    }
  }

  /**
   * A separator between a and b cuts the words there: the words of a, then
   * those of b. With `WordsSingle` and `WordsEmpty` this fixes the words as
   * the maximal runs of non-separator characters.
   */
  lemma {:induction false} WordsCut(a: string, c: char, b: string, sep: char -> bool)
    requires sep(c)
    ensures Words(a + [c] + b, sep) == Words(a, sep) + Words(b, sep)
    decreases |a|
  {
    assert Split([], sep) == [[]];
    if |a| == 0 {
      assert a + [c] + b == [c] + b;
      WordsSepFront(c, b, sep);
    } else {
      var x, a' := a[0], a[1..];
      var t := a' + [c] + b;
      assert a + [c] + b == [x] + t;
      assert a == [x] + a';
      WordsCut(a', c, b, sep);
      if sep(x) {
        WordsSepFront(x, t, sep);
        WordsSepFront(x, a', sep);
      } else {
        WordsCutWordHead(x, a', c, b, sep);
      }
    }
  }

  /** `WordsCut` when a starts with a word character, given the cut for the rest of a. */
  lemma WordsCutWordHead(x: char, a': string, c: char, b: string, sep: char -> bool)
    requires !sep(x) && sep(c)
    requires Words(a' + [c] + b, sep) == Words(a', sep) + Words(b, sep)
    ensures Words([x] + (a' + [c] + b), sep) == Words([x] + a', sep) + Words(b, sep)
  {
    var t := a' + [c] + b;
    assert t != [] && t[0] == if a' == [] then c else a'[0];
    if a' == [] || sep(a'[0]) {
      WordsAloneFirst(x, t, a', Words(b, sep), sep);
    } else {
      WordsJoinFirst(x, t, a', Words(b, sep), sep);
    }
  }

  /** t and a' are empty or start with a separator, and the words of t are those of a' followed by more. */
  lemma WordsAloneFirst(x: char, t: string, a': string, B: seq<string>, sep: char -> bool)
    requires !sep(x) && (t == [] || sep(t[0])) && (a' == [] || sep(a'[0]))
    requires Words(t, sep) == Words(a', sep) + B
    ensures Words([x] + t, sep) == Words([x] + a', sep) + B
  {
    WordsWordFront(x, t, sep);
    WordsWordFront(x, a', sep);
  }

  /** Both t and a' start with a word character and the words of t are those of a' followed by more. */
  lemma WordsJoinFirst(x: char, t: string, a': string, B: seq<string>, sep: char -> bool)
    requires !sep(x) && t != [] && a' != [] && !sep(t[0]) && !sep(a'[0])
    requires Words(t, sep) == Words(a', sep) + B
    ensures Words([x] + t, sep) == Words([x] + a', sep) + B
  {
    WordsWordFront(x, t, sep);
    WordsWordFront(x, a', sep);
    var A := Words(a', sep);
    assert (A + B)[0] == A[0];
    assert (A + B)[1..] == A[1..] + B;
  }

  /** A non-empty run of non-separators is one word. */
  lemma {:induction false} WordsSingle(w: string, sep: char -> bool)
    requires w != [] && NoSep(w, sep)
    ensures Words(w, sep) == [w]
    decreases |w|
  {
    var x, w' := w[0], w[1..];
    assert w == [x] + w';
    WordsWordFront(x, w', sep);
    if w' == [] {
      assert Split([], sep) == [[]];
    } else {
      assert NoSep(w', sep);
      WordsSingle(w', sep);
    }
  }

  /** Leading separators add no word. */
  lemma {:induction false} WordsSepsFront(p: string, t: string, sep: char -> bool)
    requires forall i :: 0 <= i < |p| ==> sep(p[i])
    ensures Words(p + t, sep) == Words(t, sep)
    decreases |p|
  {
    if |p| > 0 {
      assert p + t == [p[0]] + (p[1..] + t);
      WordsSepsFront(p[1..], t, sep);
      WordsSepFront(p[0], p[1..] + t, sep);
    } else {
      assert p + t == t;
    }
  }

  /** Trailing separators add no word. */
  lemma WordsSepsBack(t: string, p: string, sep: char -> bool)
    requires forall i :: 0 <= i < |p| ==> sep(p[i])
    ensures Words(t + p, sep) == Words(t, sep)
  {
    if |p| > 0 {
      assert t + p == t + [p[0]] + p[1..];
      WordsCut(t, p[0], p[1..], sep);
      WordsEmpty(p[1..], sep);
    } else {
      assert t + p == t;
    }
  }

  /** Removing leading whitespace loses no word when whitespace separates. */
  lemma TrimStartWords(m: string, sep: char -> bool)
    requires forall c :: IsSpace(c) ==> sep(c)
    ensures Words(TrimStart(m), sep) == Words(m, sep)
  {
    var s := TrimStart(m);
    var lead := m[..|m| - |s|];
    assert m == lead + s;
    forall i | 0 <= i < |lead|
      ensures sep(lead[i])
    {
      assert lead[i] == m[i] && IsSpace(m[i]);
    }
    WordsSepsFront(lead, s, sep);
  }

  /** Removing trailing whitespace loses no word when whitespace separates. */
  lemma TrimEndWords(m: string, sep: char -> bool)
    requires forall c :: IsSpace(c) ==> sep(c)
    ensures Words(TrimEnd(m), sep) == Words(m, sep)
  {
    var r := TrimEnd(m);
    var trail := m[|r|..];
    assert m == r + trail;
    forall i | 0 <= i < |trail|
      ensures sep(trail[i])
    {
      assert trail[i] == m[|r| + i] && IsSpace(m[|r| + i]);
    }
    WordsSepsBack(r, trail, sep);
  }

  /** The joined text neither starts nor ends with a separator. */
  lemma JoinNoSepEnds(ws: seq<string>, c: char, sep: char -> bool)
    requires forall k :: 0 <= k < |ws| ==> ws[k] != [] && NoSep(ws[k], sep)
    ensures Join(ws, c) == [] || (!sep(Join(ws, c)[0]) && !sep(Join(ws, c)[|Join(ws, c)| - 1]))
  {
    JoinEnds(ws, c);
  }
}
