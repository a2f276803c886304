/** Mnemonic phrases as text: words joined by single spaces, as main.go does
    with `strings.Join(words, " ")`, and the split that reads them back. */
module Phrase {

  /** A word that survives being joined and split: non-empty, no space. */
  predicate IsWord(w: string) {
    |w| >= 1 && ' ' !in w
  }

  predicate AllWords(ws: seq<string>) {
    forall i :: 0 <= i < |ws| ==> IsWord(ws[i])
  }

  /** The number of characters in all the words together. */
  function Letters(ws: seq<string>): nat {
    if ws == [] then 0 else Letters(ws[..|ws| - 1]) + |ws[|ws| - 1]|
  }

  /** `strings.Join(ws, " ")`: the words in order with one space between
      neighbours; the empty list joins to the empty string. */
  function Join(ws: seq<string>): (s: string)
    ensures |ws| >= 1 ==> |s| == Letters(ws) + |ws| - 1
  {
    if |ws| == 0 then ""
    else if |ws| == 1 then ws[0]
    else Join(ws[..|ws| - 1]) + " " + ws[|ws| - 1]
  }

  /** Cuts a string at every space, keeping empty pieces: n spaces give n + 1 pieces. */
  function Split(s: string): (ws: seq<string>)
    ensures |ws| >= 1
  {
    if |s| == 0 then [""]
    else
      var init := Split(s[..|s| - 1]);
      var c := s[|s| - 1];
      if c == ' ' then init + [""]
      else init[..|init| - 1] + [init[|init| - 1] + [c]]
  }

  /** Appending one word to a non-empty list adds one space and the word to
      its joined text. */
  lemma JoinSnoc(ws: seq<string>, w: string)
    requires |ws| >= 1
    ensures Join(ws + [w]) == Join(ws) + " " + w
  {
    assert (ws + [w])[..|ws|] == ws;
  }

  /** Text without spaces is one piece, appended to the last piece before it. */
  lemma {:induction false} SplitAppendWord(a: string, w: string)
    requires ' ' !in w
    ensures |Split(a + w)| == |Split(a)|
    ensures Split(a + w)[..|Split(a)| - 1] == Split(a)[..|Split(a)| - 1]
    ensures Split(a + w)[|Split(a)| - 1] == Split(a)[|Split(a)| - 1] + w
  {
    if |w| == 0 {
      assert a + w == a;
    } else {
      var v := w[..|w| - 1];
      var c := w[|w| - 1];
      assert ' ' !in v by { assert forall i :: 0 <= i < |v| ==> v[i] == w[i]; }
      SplitAppendWord(a, v);
      assert (a + w)[..|a + w| - 1] == a + v;
      assert (a + w)[|a + w| - 1] == c;
      assert v + [c] == w;
    }
  }

  /** One space and then a word add exactly that word as a new last piece. */
  lemma SplitSnoc(a: string, w: string)
    requires ' ' !in w
    ensures Split(a + " " + w) == Split(a) + [w]
  {
    var b := a + " ";
    assert b[..|b| - 1] == a && b[|b| - 1] == ' ';
    var sb := Split(b);
    assert sb == Split(a) + [""];
    SplitAppendWord(b, w);
    var r := Split(b + w);
    assert r[..|sb| - 1] == Split(a);
    assert r[|sb| - 1] == w by { assert "" + w == w; }
    assert r == r[..|sb| - 1] + [r[|sb| - 1]];
    assert a + " " + w == b + w;
  }

  /** Joining words and splitting the text gives back the same words. */
  lemma {:induction false} SplitJoin(ws: seq<string>)
    requires |ws| >= 1 && AllWords(ws)
    ensures Split(Join(ws)) == ws
  {
    if |ws| == 1 {
      SplitAppendWord("", ws[0]);
      assert "" + ws[0] == ws[0];
    } else {
      var init := ws[..|ws| - 1];
      SplitJoin(init);
      SplitSnoc(Join(init), ws[|ws| - 1]);
      assert init + [ws[|ws| - 1]] == ws;
    }
  }

  /** Different word lists never join to the same text. */
  lemma JoinInjective(us: seq<string>, ws: seq<string>)
    requires |us| >= 1 && AllWords(us)
    requires |ws| >= 1 && AllWords(ws)
    requires Join(us) == Join(ws)
    ensures us == ws
  {
    SplitJoin(us);
    SplitJoin(ws);
  }
}
