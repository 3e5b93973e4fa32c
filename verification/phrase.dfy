/**
 * A mnemonic as one line of text: the words joined with single spaces
 * (`String.join(" ", words)`), and read back with Java's `split(" ")`.
 *
 * `split` with the default limit cuts at every space, keeps empty pieces
 * between and before spaces, drops the empty pieces at the end, and answers
 * the whole string when there is no space at all.
 */
module Phrase {

  /** No space in the word. */
  predicate SpaceFree(word: string) {
    forall i :: 0 <= i < |word| ==> word[i] != ' '
  }

  /** `String.join(" ", words)`. */
  function Join(words: seq<string>): (r: string)
    ensures |words| == 0 ==> r == ""
    ensures |words| > 0 ==> |words[0]| <= |r| && r[..|words[0]|] == words[0]
    ensures |words| > 1 ==> |words[0]| < |r| && r[|words[0]|] == ' '
  {
    if |words| == 0 then ""
    else if |words| == 1 then words[0]
    else words[0] + " " + Join(words[1..])
  }

  /** The string cut at every space, keeping every piece, empty ones included. */
  function Pieces(s: string): (r: seq<string>)
    ensures |r| >= 1
    ensures forall k :: 0 <= k < |r| ==> SpaceFree(r[k])
  {
    if |s| == 0 then [""]
    else
      var rest := Pieces(s[1..]);
      if s[0] == ' ' then [""] + rest
      else [[s[0]] + rest[0]] + rest[1..]
  }

  /** Drop the empty strings at the end. */
  function DropTrailingEmpty(pieces: seq<string>): (r: seq<string>)
    ensures |r| <= |pieces| && r == pieces[..|r|]
    ensures |r| > 0 ==> r[|r| - 1] != ""
    ensures forall k :: |r| <= k < |pieces| ==> pieces[k] == ""
  {
    if |pieces| > 0 && pieces[|pieces| - 1] == "" then DropTrailingEmpty(pieces[..|pieces| - 1])
    else pieces
  }

  /** Java's `s.split(" ")`. */
  function Split(s: string): (r: seq<string>)
    ensures forall k :: 0 <= k < |r| ==> SpaceFree(r[k])
    ensures !SpaceFree(s) ==> |r| == 0 || r[|r| - 1] != ""
  {
    if SpaceFree(s) then [s] else DropTrailingEmpty(Pieces(s))
  }

  /** Joining the pieces puts the cut spaces back. */
  lemma {:induction false} JoinPieces(s: string)
    ensures Join(Pieces(s)) == s
  {
    if |s| > 0 {
      JoinPieces(s[1..]);
      var rest := Pieces(s[1..]);
      if s[0] == ' ' {
        assert ([""] + rest)[1..] == rest;
        assert s == [s[0]] + s[1..];
      } else if |rest| == 1 {
        assert s == [s[0]] + s[1..];
      } else {
        assert Join(rest) == rest[0] + " " + Join(rest[1..]);
        assert ([[s[0]] + rest[0]] + rest[1..])[1..] == rest[1..];
        assert s == [s[0]] + s[1..];
      }
    }
  }

  /** Cutting the join of space-free words at every space gives the words back. */
  lemma {:induction false} PiecesJoin(words: seq<string>)
    requires |words| >= 1
    requires forall k :: 0 <= k < |words| ==> SpaceFree(words[k])
    ensures Pieces(Join(words)) == words
    decreases |words|, |words[0]|
  {
    var w := words[0];
    if |words| == 1 {
      PiecesOfWord(w);
    } else if |w| == 0 {
      PiecesJoin(words[1..]);
      var s := Join(words);
      assert s == " " + Join(words[1..]);
      assert s[1..] == Join(words[1..]);
      assert words == [""] + words[1..];
    } else {
      var shorter := [w[1..]] + words[1..];
      assert SpaceFree(w[1..]) by {
        assert forall i :: 0 <= i < |w[1..]| ==> w[1..][i] == w[i + 1];
      }
      assert forall k :: 1 <= k < |shorter| ==> shorter[k] == words[k];
      PiecesJoin(shorter);
      assert shorter[1..] == words[1..];
      var s := Join(words);
      assert s == [w[0]] + Join(shorter);
      assert s[1..] == Join(shorter);
      assert w == [w[0]] + w[1..];
    }
  }

  lemma {:induction false} PiecesOfWord(w: string)
    requires SpaceFree(w)
    ensures Pieces(w) == [w]
  {
    if |w| > 0 {
      assert SpaceFree(w[1..]) by {
        assert forall i :: 0 <= i < |w[1..]| ==> w[1..][i] == w[i + 1];
      }
      PiecesOfWord(w[1..]);
      assert w == [w[0]] + w[1..];
    }
  }

  /** A string with a space joins more than one word. */
  lemma JoinSpaceFree(words: seq<string>)
    requires forall k :: 0 <= k < |words| ==> SpaceFree(words[k])
    ensures SpaceFree(Join(words)) <==> |words| <= 1
  {
    if |words| > 1 {
      var s := Join(words);
      assert s[|words[0]|] == ' ';
    }
  }

  /**
   * Reading back the joined words gives the same words exactly when there is
   * at least one word and, if there are several, the last one is not empty:
   * `split` drops a trailing empty word and answers `[""]` for no words.
   */
  lemma SplitJoin(words: seq<string>)
    requires forall k :: 0 <= k < |words| ==> SpaceFree(words[k])
    ensures Split(Join(words)) == words <==> |words| == 1 || (|words| > 1 && words[|words| - 1] != "")
  {
    if |words| > 1 {
      SplitJoinMany(words);
      if words[|words| - 1] == "" {
        assert |DropTrailingEmpty(words)| < |words|;
      } else {
        assert DropTrailingEmpty(words) == words;
      }
    } else if |words| == 1 {
      JoinSpaceFree(words);
      assert Split(Join(words)) == [words[0]];
    } else {
      assert Split(Join(words)) == [""];
    }
  }

  /** Several space-free words read back with only their trailing empty words dropped. */
  lemma SplitJoinMany(words: seq<string>)
    requires |words| > 1
    requires forall k :: 0 <= k < |words| ==> SpaceFree(words[k])
    ensures Split(Join(words)) == DropTrailingEmpty(words)
  {
    JoinSpaceFree(words);
    PiecesJoin(words);
  }

  /** A trailing empty word is lost: ["a", ""] joins to "a " and reads back as ["a"]. */
  lemma TrailingEmptyWordLost()
    ensures Join(["a", ""]) == "a " && Split("a ") == ["a"]
  {
    assert Join(["a", ""]) == "a " + "";
    assert "a "[1] == ' ';
    assert Pieces("a ") == ["a", ""] by {
      assert " "[1..] == "";
      assert Pieces(" ") == ["", ""];
      assert "a "[1..] == " ";
      assert ['a'] + "" == "a";
    }
  }

  /** Every string that does not end in a space is the join of its split. */
  lemma JoinSplit(s: string)
    requires |s| == 0 || s[|s| - 1] != ' '
    ensures Join(Split(s)) == s
  {
    if !SpaceFree(s) {
      var pieces := Pieces(s);
      JoinPieces(s);
      LastPieceOf(s);
      assert DropTrailingEmpty(pieces) == pieces;
    }
  }

  /** The last piece of a string that does not end in a space is not empty. */
  lemma {:induction false} LastPieceOf(s: string)
    requires |s| > 0 && s[|s| - 1] != ' '
    ensures Pieces(s)[|Pieces(s)| - 1] != ""
  {
    if |s| > 1 {
      LastPieceOf(s[1..]);
    }
  }
}
