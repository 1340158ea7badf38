/**
 * Filtering rows by a text column (PerseusPluginLib/Filter/FilterTextualColumn.cs):
 * a cell matches when one of its ';'-separated words matches the search
 * string, and the rows are split into those kept and those dropped.
 */
module TextFilter {
  import opened Seqs
  import opened Text
  import opened Wrappers

  /**
   * `MatchesWord`: upper-case both strings unless the case must match,
   * trim both, then compare whole words or look for the search string
   * inside the word.
   */
  function MatchesWord(word: string, searchString: string, matchCase: bool, matchWholeWord: bool): bool
  {
    var w := Trim(if matchCase then word else ToUpper(word));
    var s := Trim(if matchCase then searchString else ToUpper(searchString));
    if matchWholeWord then s == w else Contains(w, s)
  }

  /** Some word of the cell matches. */
  predicate SomeWordMatches(words: seq<string>, searchString: string, matchCase: bool, matchWholeWord: bool)
  {
    exists k :: 0 <= k < |words| && MatchesWord(words[k], searchString, matchCase, matchWholeWord)
  }

  /** A null cell never matches; otherwise some ';'-separated word of it must. */
  predicate CellMatches(text: Option<string>, searchString: string, matchCase: bool, matchWholeWord: bool)
  {
    text.Some? && SomeWordMatches(Split(text.value, ';'), searchString, matchCase, matchWholeWord)
  }

  /** The loop of `Matches` over the words of a cell, returning at the first match. */
  method AnyWordMatches(words: seq<string>, searchString: string, matchCase: bool, matchWholeWord: bool) returns (r: bool)
    ensures r <==> SomeWordMatches(words, searchString, matchCase, matchWholeWord)
  {
    for k := 0 to |words|
      invariant forall j :: 0 <= j < k ==> !MatchesWord(words[j], searchString, matchCase, matchWholeWord)
    {
      var word := words[k];
      if MatchesWord(word, searchString, matchCase, matchWholeWord) {
        return true;
      }
      assert forall j :: 0 <= j < k + 1 ==> words[j] == word || j < k;
    }
    return false;
  }

  /** `Matches`: a null cell never matches; otherwise its ';'-separated words are tried in turn. */
  method Matches(text: Option<string>, searchString: string, matchCase: bool, matchWholeWord: bool) returns (r: bool)
    ensures r <==> CellMatches(text, searchString, matchCase, matchWholeWord)
  {
    if text.None? {
      return false;
    }
    r := AnyWordMatches(Split(text.value, ';'), searchString, matchCase, matchWholeWord);
  }

  /** Every word matches itself, in every mode. */
  lemma MatchesItself(word: string, matchCase: bool, matchWholeWord: bool)
    ensures MatchesWord(word, word, matchCase, matchWholeWord)
  {
    ContainsSelf(Trim(if matchCase then word else ToUpper(word)));
  }

  /**
   * Without `matchCase`, matching ignores the case of both the word and
   * the search string.
   */
  lemma MatchesWordIgnoresCase(word: string, searchString: string, matchWholeWord: bool)
    ensures MatchesWord(ToUpper(word), searchString, false, matchWholeWord) == MatchesWord(word, searchString, false, matchWholeWord)
    ensures MatchesWord(ToLower(word), searchString, false, matchWholeWord) == MatchesWord(word, searchString, false, matchWholeWord)
    ensures MatchesWord(word, ToUpper(searchString), false, matchWholeWord) == MatchesWord(word, searchString, false, matchWholeWord)
    ensures MatchesWord(word, ToLower(searchString), false, matchWholeWord) == MatchesWord(word, searchString, false, matchWholeWord)
  {
    ToUpperCased(word);
    ToUpperCased(searchString);
  }

  /** Matching ignores white space around the word and around the search string. */
  lemma MatchesWordIgnoresPadding(word: string, searchString: string, matchCase: bool, matchWholeWord: bool, c: char)
    requires IsWhiteSpace(c)
    ensures MatchesWord([c] + word + [c], searchString, matchCase, matchWholeWord) ==
            MatchesWord(word, searchString, matchCase, matchWholeWord)
    ensures MatchesWord(word, [c] + searchString + [c], matchCase, matchWholeWord) ==
            MatchesWord(word, searchString, matchCase, matchWholeWord)
  {
    Padded(word, matchCase, c);
    Padded(searchString, matchCase, c);
  }

  /** A padded string, case-normalised and trimmed, is the string case-normalised and trimmed. */
  lemma Padded(s: string, matchCase: bool, c: char)
    requires IsWhiteSpace(c)
    ensures Trim(if matchCase then [c] + s + [c] else ToUpper([c] + s + [c])) == Trim(if matchCase then s else ToUpper(s))
  {
    var t := if matchCase then s else ToUpper(s);
    if !matchCase {
      ToUpperPadded(s, c);
    }
    assert [c] + t + [c] == [c] + (t + [c]);
    TrimPadded(t + [c], c);
    TrimPadded(t, c);
  }

  /** The empty string occurs in every string. */
  lemma ContainsEmpty(s: string)
    ensures Contains(s, [])
  {
  }

  /** Every string occurs in itself. */
  lemma ContainsSelf(s: string)
    ensures Contains(s, s)
  {
  }

  /** Upper-casing leaves white space white space. */
  lemma ToUpperAllWhiteSpace(s: string)
    requires AllWhiteSpace(s)
    ensures AllWhiteSpace(ToUpper(s))
  {
    forall i | 0 <= i < |s|
      ensures IsWhiteSpace(ToUpper(s)[i])
    {
      assert IsWhiteSpace(s[i]);
    }
  }

  /** A whole-word match is also a substring match. */
  lemma WholeWordIsSubstring(word: string, searchString: string, matchCase: bool)
    requires MatchesWord(word, searchString, matchCase, true)
    ensures MatchesWord(word, searchString, matchCase, false)
  {
    ContainsSelf(Trim(if matchCase then word else ToUpper(word)));
  }

  /** A search string of white space only trims to nothing, so in substring mode it matches every word. */
  lemma BlankSearchMatchesWord(word: string, searchString: string, matchCase: bool)
    requires AllWhiteSpace(searchString)
    ensures MatchesWord(word, searchString, matchCase, false)
  {
    if !matchCase {
      ToUpperAllWhiteSpace(searchString);
    }
    TrimBlank(if matchCase then searchString else ToUpper(searchString));
    ContainsEmpty(Trim(if matchCase then word else ToUpper(word)));
  }

  /** ... and so every cell that is not null. */
  lemma BlankSearchMatchesCell(text: string, searchString: string, matchCase: bool)
    requires AllWhiteSpace(searchString)
    ensures CellMatches(Some(text), searchString, matchCase, false)
  {
    BlankSearchMatchesWord(Split(text, ';')[0], searchString, matchCase);
  }

  /** A single word matches as a cell exactly when it matches as a word. */
  lemma SingleWord(w: string, searchString: string, matchCase: bool, matchWholeWord: bool)
    ensures SomeWordMatches([w], searchString, matchCase, matchWholeWord) <==>
      MatchesWord(w, searchString, matchCase, matchWholeWord)
  {
    assert [w][0] == w;
  }

  /** A cell without ';' is a single word. */
  lemma SingleWordCell(text: string, searchString: string, matchCase: bool, matchWholeWord: bool)
    requires ';' !in text
    ensures CellMatches(Some(text), searchString, matchCase, matchWholeWord) <==>
      MatchesWord(text, searchString, matchCase, matchWholeWord)
  {
    SplitWithoutSep(text, ';');
    SingleWord(text, searchString, matchCase, matchWholeWord);
  }

  /** A cell made by joining words with ';' matches exactly when one of those words does. */
  lemma JoinedCell(words: seq<string>, searchString: string, matchCase: bool, matchWholeWord: bool)
    requires |words| >= 1 && forall k :: 0 <= k < |words| ==> ';' !in words[k]
    ensures CellMatches(Some(Join(words, ';')), searchString, matchCase, matchWholeWord) <==>
      SomeWordMatches(words, searchString, matchCase, matchWholeWord)
  {
    SplitJoin(words, ';');
    assert Split(Join(words, ';'), ';') == words;
  }

  /** What filtering produces: an error message, or the rows to keep and the rows to drop. */
  datatype Outcome = Error(message: string) | Partition(valids: seq<nat>, notvalids: seq<nat>)

  const NoSearchStringError: string :=
    "Please provide a search string, or set 'Match whole word' to match empty entries."

  /** Row `i` is kept: it matches and matching rows are kept, or it does not and matching rows are removed. */
  predicate Kept(vals: seq<Option<string>>, i: nat, searchString: string, remove: bool, matchCase: bool,
                 matchWholeWord: bool)
    requires i < |vals|
  {
    CellMatches(vals[i], searchString, matchCase, matchWholeWord) != remove
  }

  /** The first `n` positions are split by `flags`, in order: set ones into `valids`, the others into `notvalids`. */
  predicate SplitBy(flags: seq<bool>, n: nat, valids: seq<nat>, notvalids: seq<nat>)
    requires n <= |flags|
  {
    && StrictlyIncreasing(valids) && StrictlyIncreasing(notvalids)
    && InBounds(valids, n) && InBounds(notvalids, n)
    && (forall k :: 0 <= k < n ==> (k in valids <==> flags[k]) && (k in notvalids <==> !flags[k]))
  }

  /** Placing position `n` on the side its flag chooses extends the split by one. */
  lemma SplitByStep(flags: seq<bool>, n: nat, valids: seq<nat>, notvalids: seq<nat>)
    requires n < |flags| && SplitBy(flags, n, valids, notvalids)
    ensures flags[n] ==> SplitBy(flags, n + 1, valids + [n], notvalids)
    ensures !flags[n] ==> SplitBy(flags, n + 1, valids, notvalids + [n])
  {
    IncreasingSnoc(valids, n);
    IncreasingSnoc(notvalids, n);
  }

  /** Which rows are kept, row by row. */
  function KeptFlags(vals: seq<Option<string>>, searchString: string, remove: bool, matchCase: bool,
                     matchWholeWord: bool): (r: seq<bool>)
    ensures |r| == |vals|
    ensures forall k :: 0 <= k < |vals| ==> r[k] == Kept(vals, k, searchString, remove, matchCase, matchWholeWord)
  {
    seq(|vals|, k requires 0 <= k < |vals| => Kept(vals, k, searchString, remove, matchCase, matchWholeWord))
  }

  /**
   * The guard and the row loop of `ProcessData`: without whole-word
   * matching an empty search string is an error; otherwise every row goes,
   * in order, to `valids` when it is kept and to `notvalids` when not.
   */
  method PartitionRows(vals: seq<Option<string>>, searchString: string, remove: bool, matchCase: bool,
                       matchWholeWord: bool) returns (outcome: Outcome)
    ensures outcome.Error? <==> !matchWholeWord && searchString == []
    ensures outcome.Error? ==> outcome.message == NoSearchStringError
    ensures outcome.Partition? ==>
      SplitBy(KeptFlags(vals, searchString, remove, matchCase, matchWholeWord), |vals|, outcome.valids, outcome.notvalids)
  {
    if !matchWholeWord && searchString == [] {
      return Error(NoSearchStringError);
    }
    ghost var flags := KeptFlags(vals, searchString, remove, matchCase, matchWholeWord);
    var valids: seq<nat> := [];
    var notvalids: seq<nat> := [];
    for i := 0 to |vals|
      invariant SplitBy(flags, i, valids, notvalids)
    {
      var matches := Matches(vals[i], searchString, matchCase, matchWholeWord);
      assert flags[i] == (matches != remove);
      SplitByStep(flags, i, valids, notvalids);
      if matches && !remove {
        valids := valids + [i];
      } else if !matches && remove {
        valids := valids + [i];
      } else {
        notvalids := notvalids + [i];
      }
    }
    return Partition(valids, notvalids);
  }

  /**
   * Keeping and removing the matching rows split the rows the opposite way:
   * the rows one mode keeps are exactly those the other drops.
   */
  lemma ModesSwapSides(vals: seq<Option<string>>, searchString: string, matchCase: bool, matchWholeWord: bool,
                       keptValids: seq<nat>, keptNotvalids: seq<nat>, removedValids: seq<nat>, removedNotvalids: seq<nat>)
    requires SplitBy(KeptFlags(vals, searchString, false, matchCase, matchWholeWord), |vals|, keptValids, keptNotvalids)
    requires SplitBy(KeptFlags(vals, searchString, true, matchCase, matchWholeWord), |vals|, removedValids, removedNotvalids)
    ensures keptValids == removedNotvalids && keptNotvalids == removedValids
  {
    var keep := KeptFlags(vals, searchString, false, matchCase, matchWholeWord);
    var remove := KeptFlags(vals, searchString, true, matchCase, matchWholeWord);
    assert forall k :: 0 <= k < |vals| ==> keep[k] == !remove[k];
    IncreasingUnique(keptValids, removedNotvalids);
    IncreasingUnique(keptNotvalids, removedValids);
  }
}
