/** `doBuild` in main.go: the user picks the first 23 words of a 24-word
    mnemonic from the word list, one prompt per position; every word of the
    list that completes those 23 into a phrase the validity check accepts is
    offered for the last position; the chosen one is appended.

    The validity check (`bip39.MnemonicToByteArray` returning no error) lives
    in a library outside this model and is the parameter `valid`. The two
    prompts are parameters too: `pickWord` answers a prompt label with an
    index into the word list, `pickLast` answers the list of candidates with
    an index into it, and `None` stands for a prompt that failed. */
module Build {

  import opened Wrappers
  import Ordinals
  import opened Phrase

  /** How many words the user picks by hand; the mnemonic has one more. */
  const Chosen := 23

  /** The label of the prompt for position i (counted from 0). */
  function Label(i: nat): (r: string)
    ensures |r| >= 15
  {
    "Select " + Ordinals.Ordinal(i + 1) + " word"
  }

  /** Between "Select " and " word" a label carries the ordinal of its
      position, which reads back as i + 1. */
  lemma LabelCarriesOrdinal(i: nat)
    ensures var r := Label(i);
      && r[..7] == "Select " && r[|r| - 5..] == " word"
      && Ordinals.ParseOrdinal(r[7..|r| - 5]) == Some(i + 1)
  {
    var o := Ordinals.Ordinal(i + 1);
    Ordinals.OrdinalRoundTrip(i + 1, o);
    var r := Label(i);
    assert r == "Select " + o + " word";
    assert r[7..|r| - 5] == o;
  }

  /** Every position gets its own prompt label. */
  lemma LabelsDistinct(i: nat, j: nat)
    requires Label(i) == Label(j)
    ensures i == j
  {
    LabelCarriesOrdinal(i);
    LabelCarriesOrdinal(j);
  }

  /** The prompt for the first position. */
  lemma FirstPromptLabel()
    ensures Label(0) == "Select 1st word"
  {
    Ordinals.FirstLabels();
  }

  /** The prompts for the last three of the 23 positions. */
  lemma LastPromptLabels()
    ensures Label(20) == "Select 21st word" && Label(21) == "Select 22nd word" && Label(22) == "Select 23rd word"
  {
    Ordinals.TwentiesLabels();
  }

  /** The phrase handed to the validity check for candidate last word w:
      the 23 chosen words joined by spaces, one space, then w. */
  function CandidatePhrase(first: string, w: string): (r: string)
    ensures ' ' !in w ==> Split(r) == Split(first) + [w]
  {
    // Both branches give the same phrase; the first only carries the split fact.
    if ' ' !in w then SplitSnoc(first, w); first + " " + w
    else first + " " + w
  }

  /** The candidate phrase is the 24-word mnemonic itself: joining the 23
      words with w gives it, and it splits back into exactly those 24 words. */
  lemma CandidateIsMnemonic(first: seq<string>, w: string)
    requires |first| == Chosen && AllWords(first) && IsWord(w)
    ensures CandidatePhrase(Join(first), w) == Join(first + [w])
    ensures Split(CandidatePhrase(Join(first), w)) == first + [w]
    ensures |Split(CandidatePhrase(Join(first), w))| == Chosen + 1
  {
    JoinSnoc(first, w);
    SplitJoin(first + [w]);
  }

  /** The words of the list, in list order, that complete `first` into a
      phrase `valid` accepts. */
  function Completions(wordlist: seq<string>, first: string, valid: string -> bool): (items: seq<string>)
    ensures |items| <= |wordlist|
    ensures forall w :: w in items ==> w in wordlist && valid(CandidatePhrase(first, w))
  {
    if wordlist == [] then []
    else
      var init, w := wordlist[..|wordlist| - 1], wordlist[|wordlist| - 1];
      if valid(CandidatePhrase(first, w)) then Completions(init, first, valid) + [w]
      else Completions(init, first, valid)
  }

  /** The positions of the list whose word `valid` accepts, in increasing order. */
  function AcceptedPositions(wordlist: seq<string>, first: string, valid: string -> bool): (idx: seq<nat>)
    ensures forall k :: 0 <= k < |idx| ==> idx[k] < |wordlist|
  {
    if wordlist == [] then []
    else
      var n := |wordlist| - 1;
      if valid(CandidatePhrase(first, wordlist[n])) then AcceptedPositions(wordlist[..n], first, valid) + [n]
      else AcceptedPositions(wordlist[..n], first, valid)
  }

  /** The i-th candidate is the word at the i-th accepted position. */
  lemma {:induction false} CompletionsAtPositions(wordlist: seq<string>, first: string, valid: string -> bool)
    ensures var items, idx := Completions(wordlist, first, valid), AcceptedPositions(wordlist, first, valid);
      |idx| == |items| && forall k :: 0 <= k < |idx| ==> items[k] == wordlist[idx[k]]
  {
    if wordlist != [] {
      var n := |wordlist| - 1;
      var init := wordlist[..n];
      CompletionsAtPositions(init, first, valid);
      var items0, idx0 := Completions(init, first, valid), AcceptedPositions(init, first, valid);
      assert forall k :: 0 <= k < |idx0| ==> items0[k] == wordlist[idx0[k]];
      if valid(CandidatePhrase(first, wordlist[n])) {
        var items, idx := items0 + [wordlist[n]], idx0 + [n];
        assert Completions(wordlist, first, valid) == items;
        assert AcceptedPositions(wordlist, first, valid) == idx;
        assert items[|idx0|] == wordlist[idx[|idx0|]];
      } else {
        assert Completions(wordlist, first, valid) == items0;
        assert AcceptedPositions(wordlist, first, valid) == idx0;
      }
    }
  }

  predicate Increasing(idx: seq<nat>) {
    forall k, l :: 0 <= k < l < |idx| ==> idx[k] < idx[l]
  }

  /** The accepted positions strictly increase: the candidates keep list order. */
  lemma {:induction false} AcceptedPositionsIncrease(wordlist: seq<string>, first: string, valid: string -> bool)
    ensures Increasing(AcceptedPositions(wordlist, first, valid))
  {
    if wordlist != [] {
      var n := |wordlist| - 1;
      AcceptedPositionsIncrease(wordlist[..n], first, valid);
      var idx0 := AcceptedPositions(wordlist[..n], first, valid);
      assert forall k :: 0 <= k < |idx0| ==> idx0[k] < n;
      if valid(CandidatePhrase(first, wordlist[n])) {
        var idx := idx0 + [n];
        assert AcceptedPositions(wordlist, first, valid) == idx;
        forall k, l | 0 <= k < l < |idx| ensures idx[k] < idx[l] {
          if l < |idx0| {
            assert idx[k] == idx0[k] && idx[l] == idx0[l];
          } else {
            assert idx[k] == idx0[k] && idx[l] == n;
          }
        }
      }
    }
  }

  /** A position is accepted exactly when `valid` accepts the phrase its word completes. */
  lemma {:induction false} AcceptedPositionsExact(wordlist: seq<string>, first: string, valid: string -> bool)
    ensures var idx := AcceptedPositions(wordlist, first, valid);
      forall j :: 0 <= j < |wordlist| ==> (j in idx <==> valid(CandidatePhrase(first, wordlist[j])))
  {
    if wordlist != [] {
      var n := |wordlist| - 1;
      var init := wordlist[..n];
      AcceptedPositionsExact(init, first, valid);
      var idx0 := AcceptedPositions(init, first, valid);
      assert n !in idx0;
      assert forall j :: 0 <= j < n ==> init[j] == wordlist[j];
    }
  }

  /** The candidates are the accepted entries of the list and nothing else:
      a strictly increasing choice of positions (an order-preserving
      subsequence) that contains a position exactly when its word is accepted. */
  lemma CompletionsAreAcceptedEntries(wordlist: seq<string>, first: string, valid: string -> bool)
    ensures var items, idx := Completions(wordlist, first, valid), AcceptedPositions(wordlist, first, valid);
      && |idx| == |items|
      && (forall k :: 0 <= k < |idx| ==> items[k] == wordlist[idx[k]])
      && (forall k, l :: 0 <= k < l < |idx| ==> idx[k] < idx[l])
      && (forall j :: 0 <= j < |wordlist| ==> (j in idx <==> valid(CandidatePhrase(first, wordlist[j]))))
  {
    CompletionsAtPositions(wordlist, first, valid);
    AcceptedPositionsIncrease(wordlist, first, valid);
    AcceptedPositionsExact(wordlist, first, valid);
  }

  /** A word is offered exactly when it is on the list and completes `first`
      into a phrase `valid` accepts. */
  lemma {:induction false} CompletionsMembership(wordlist: seq<string>, first: string, valid: string -> bool, w: string)
    ensures w in Completions(wordlist, first, valid) <==> w in wordlist && valid(CandidatePhrase(first, w))
  {
    if wordlist != [] {
      var n := |wordlist| - 1;
      CompletionsMembership(wordlist[..n], first, valid, w);
      assert wordlist == wordlist[..n] + [wordlist[n]];
    }
  }

  /** A list without repeated words offers no word twice. */
  lemma CompletionsDistinct(wordlist: seq<string>, first: string, valid: string -> bool)
    requires forall j, k :: 0 <= j < k < |wordlist| ==> wordlist[j] != wordlist[k]
    ensures var items := Completions(wordlist, first, valid);
      forall k, l :: 0 <= k < l < |items| ==> items[k] != items[l]
  {
    CompletionsAreAcceptedEntries(wordlist, first, valid);
  }

  /** The scan over the whole word list (no early exit) that collects the
      candidates for the last word. */
  method LastWordCandidates(wordlist: seq<string>, first: string, valid: string -> bool) returns (items: seq<string>)
    ensures items == Completions(wordlist, first, valid)
    ensures forall w :: w in items <==> w in wordlist && valid(CandidatePhrase(first, w))
  {
    items := [];
    for i := 0 to |wordlist|
      invariant items == Completions(wordlist[..i], first, valid)
    {
      var word := wordlist[i];
      assert wordlist[..i + 1][..i] == wordlist[..i];
      if valid(CandidatePhrase(first, word)) {
        items := items + [word];
      }
    }
    assert wordlist[..|wordlist|] == wordlist;
    forall w | true
      ensures w in items <==> w in wordlist && valid(CandidatePhrase(first, w))
    {
      CompletionsMembership(wordlist, first, valid, w);
    }
  }

  /** The word prompt only ever answers with a position of the list it shows. */
  ghost predicate PicksFrom(pickWord: string -> Option<nat>, n: nat) {
    forall text :: pickWord(text).Some? ==> pickWord(text).value < n
  }

  /** The last-word prompt only ever answers with a position of the items it shows. */
  ghost predicate PicksItem(pickLast: seq<string> -> Option<nat>) {
    forall items :: pickLast(items).Some? ==> pickLast(items).value < |items|
  }

  /** Every one of the 23 word prompts was answered. */
  predicate AllAnswered(pickWord: string -> Option<nat>) {
    forall i :: 0 <= i < Chosen ==> pickWord(Label(i)).Some?
  }

  /** The 23 words picked, in prompt order. */
  function Picked(wordlist: seq<string>, pickWord: string -> Option<nat>): (ws: seq<string>)
    requires PicksFrom(pickWord, |wordlist|) && AllAnswered(pickWord)
    ensures |ws| == Chosen
    ensures forall i :: 0 <= i < Chosen ==> ws[i] in wordlist
  {
    seq(Chosen, i requires 0 <= i < Chosen => wordlist[pickWord(Label(i)).value])
  }

  /** The loop of 23 prompts; a failed prompt ends it with no words. */
  method SelectFirstWords(wordlist: seq<string>, pickWord: string -> Option<nat>) returns (words: Option<seq<string>>)
    requires PicksFrom(pickWord, |wordlist|)
    ensures words.Some? <==> AllAnswered(pickWord)
    ensures words.Some? ==> words.value == Picked(wordlist, pickWord)
  {
    var ws: seq<string> := [];
    for i := 0 to Chosen
      invariant |ws| == i
      invariant forall k :: 0 <= k < i ==> pickWord(Label(k)).Some? && ws[k] == wordlist[pickWord(Label(k)).value]
    {
      var answer := pickWord(Label(i));
      if answer.None? {
        assert !AllAnswered(pickWord);
        return None;
      }
      ws := ws + [wordlist[answer.value]];
    }
    assert AllAnswered(pickWord);
    assert ws == Picked(wordlist, pickWord);
    return Some(ws);
  }

  /** How `doBuild` ends: with a mnemonic, or with the process exit code. */
  datatype Outcome = Mnemonic(words: seq<string>) | Exit(code: nat)

  /** The candidates offered once all 23 prompts are answered. */
  function Offered(wordlist: seq<string>, valid: string -> bool, pickWord: string -> Option<nat>): (items: seq<string>)
    requires PicksFrom(pickWord, |wordlist|) && AllAnswered(pickWord)
    ensures |items| <= |wordlist|
    ensures forall w :: w in items ==> w in wordlist && valid(CandidatePhrase(Join(Picked(wordlist, pickWord)), w))
  {
    Completions(wordlist, Join(Picked(wordlist, pickWord)), valid)
  }

  /** `doBuild`: 23 prompts (exit code 1 on a failed one), the candidate
      scan, the last prompt (exit code 2 on failure), and the 24-word result. */
  method DoBuild(wordlist: seq<string>, valid: string -> bool,
                 pickWord: string -> Option<nat>, pickLast: seq<string> -> Option<nat>)
    returns (out: Outcome)
    requires PicksFrom(pickWord, |wordlist|) && PicksItem(pickLast)
    ensures out.Exit? ==> out.code == 1 || out.code == 2
    ensures out == Exit(1) <==> !AllAnswered(pickWord)
    ensures out == Exit(2) <==> AllAnswered(pickWord) && pickLast(Offered(wordlist, valid, pickWord)).None?
    ensures out.Mnemonic? ==>
      var items := Offered(wordlist, valid, pickWord);
      && pickLast(items).Some?
      && out.words == Picked(wordlist, pickWord) + [items[pickLast(items).value]]
    ensures out.Mnemonic? ==> |out.words| == Chosen + 1 && out.words[Chosen] in wordlist && valid(Join(out.words))
  {
    var first := SelectFirstWords(wordlist, pickWord);
    if first.None? {
      return Exit(1);
    }
    var words := first.value;
    var first23 := Join(words);
    var items := LastWordCandidates(wordlist, first23, valid);
    var last := pickLast(items);
    if last.None? {
      return Exit(2);
    }
    var word := items[last.value];
    JoinSnoc(words, word);
    words := words + [word];
    return Mnemonic(words);
  }
}
