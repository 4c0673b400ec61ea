/** The profanity filter applied to a chirp body before it is stored:
    `contains` and `censor_words` of main.go. */
module Censor {
  import opened GoTypes
  import opened GoStrings
  import opened SplitJoinLaws

  /** The replacement for a blocked word, `"****"`. */
  const Mask: Bytes := [42, 42, 42, 42]

  /** The block-list `handlePOSTChirp` passes to `censor_words`. */
  const Profanities: seq<Bytes> := [Lit("kerfuffle"), Lit("sharbert"), Lit("fornax")]

  /** `contains`: a linear scan of the slice that stops at the first element
      equal to `item`. */
  method Contains(slice: seq<Bytes>, item: Bytes) returns (found: bool)
    ensures found <==> item in slice
  {
    for i := 0 to |slice|
      invariant item !in slice[..i]
    {
      if slice[i] == item {
        return true;
      }
    }
    return false;
  }

  /** Whether a word is blocked: its lower-cased form is on the list. */
  predicate Blocked(word: Bytes, blockList: seq<Bytes>) {
    Lower(word) in blockList
  }

  /** What `censor_words` puts in place of one word. */
  function CensorWord(word: Bytes, blockList: seq<Bytes>): Bytes {
    if Blocked(word, blockList) then Mask else word
  }

  /** Every word of `words` put through `CensorWord`. */
  function CensorAll(words: seq<Bytes>, blockList: seq<Bytes>): (r: seq<Bytes>)
    ensures |r| == |words|
  {
    seq(|words|, i requires 0 <= i < |words| => CensorWord(words[i], blockList))
  }

  /** The string `censor_words(source, blockList)` returns. */
  function Censored(source: Bytes, blockList: seq<Bytes>): Bytes {
    Join(CensorAll(Split(source), blockList))
  }

  /** `censor_words`: split on single spaces, replace each blocked word by
      the mask while appending to `replaced`, and join with single spaces. */
  method CensorWords(source: Bytes, wordsToReplace: seq<Bytes>) returns (result: Bytes)
    ensures result == Censored(source, wordsToReplace)
  {
    var replaced: seq<Bytes> := [];
    var words := Split(source);
    for i := 0 to |words|
      invariant replaced == CensorAll(words[..i], wordsToReplace)
    {
      var blocked := Contains(wordsToReplace, Lower(words[i]));
      if blocked {
        replaced := replaced + [Mask];
      } else {
        replaced := replaced + [words[i]];
      }
    }
    assert words[..|words|] == words;
    result := Join(replaced);
  }

  /** The censored body has exactly as many space-separated words as the
      original, and word `i` of it is the mask when word `i` of the
      original is blocked, and otherwise that word unchanged, case and all. */
  lemma CensoredWords(source: Bytes, blockList: seq<Bytes>)
    ensures Split(Censored(source, blockList)) == CensorAll(Split(source), blockList)
    ensures |Split(Censored(source, blockList))| == |Split(source)|
    ensures forall i :: 0 <= i < |Split(source)| ==>
      Split(Censored(source, blockList))[i] ==
        (if Lower(Split(source)[i]) in blockList then Mask else Split(source)[i])
  {
    SplitJoinCensored(Split(source), blockList);
  }

  lemma SplitJoinCensored(words: seq<Bytes>, blockList: seq<Bytes>)
    requires |words| >= 1
    requires forall i :: 0 <= i < |words| ==> Space !in words[i]
    ensures Split(Join(CensorAll(words, blockList))) == CensorAll(words, blockList)
  {
    var out := CensorAll(words, blockList);
    assert forall i :: 0 <= i < |out| ==> Space !in out[i];
    SplitJoin(out);
  }

  /** A body with no blocked word comes back byte for byte. */
  lemma CensorKeepsCleanBody(source: Bytes, blockList: seq<Bytes>)
    requires forall i :: 0 <= i < |Split(source)| ==> !Blocked(Split(source)[i], blockList)
    ensures Censored(source, blockList) == source
  {
    assert CensorAll(Split(source), blockList) == Split(source);
    JoinSplit(source);
  }

  /** Censoring twice is censoring once, for every block-list: a mask is
      replaced by the mask, whether or not `****` is listed. */
  lemma CensorIdempotent(source: Bytes, blockList: seq<Bytes>)
    ensures Censored(Censored(source, blockList), blockList) == Censored(source, blockList)
  {
    var words := Split(source);
    var once := CensorAll(words, blockList);
    var c := Censored(source, blockList);
    assert c == Join(once);
    SplitJoinCensored(words, blockList);
    assert Split(c) == once;
    assert Lower(Mask) == Mask;
    forall i | 0 <= i < |once|
      ensures CensorWord(once[i], blockList) == once[i]
    {
      if Blocked(words[i], blockList) {
        assert once[i] == Mask;
      }
    }
    assert CensorAll(once, blockList) == once;
  }

  /** When every blocked word is at least as long as the mask, censoring
      never makes a body longer. */
  lemma CensorNeverLengthens(source: Bytes, blockList: seq<Bytes>)
    requires forall j :: 0 <= j < |blockList| ==> |blockList[j]| >= |Mask|
    ensures |Censored(source, blockList)| <= |source|
  {
    var words := Split(source);
    var out := CensorAll(words, blockList);
    forall i | 0 <= i < |words|
      ensures |out[i]| <= |words[i]|
    {
      if Blocked(words[i], blockList) {
        var j :| 0 <= j < |blockList| && blockList[j] == Lower(words[i]);
        assert |Lower(words[i])| == |words[i]|;
      }
    }
    JoinNoLonger(out, words);
    JoinSplit(source);
  }
}
