/**
 The two walkthroughs of the program's `main`, stated as lemmas about the
 model: a post taken through review, approval and redaction, and a draft
 redacted before review.
 */
module Scenarios {
  import opened Text
  import opened Redaction
  import opened Blog

  const Lunch: string := "I ate a salad for lunch today"
  const LunchRedacted: string := "I ate a =====  for =====  =====  "
  const Movie: string := "I am a big fan of the movie The Shining"

  const LunchTokens: seq<string> := ["I", "ate", "a", "salad", "for", "lunch", "today"]

  // The lemmas below about the lunch sentence take it as a parameter pinned
  // by `requires` instead of naming the constant in their conclusions: a
  // string literal inside `Words(..)` or `EmitAll(..)` makes the verifier
  // unroll those definitions character by character, which exhausts its
  // resource budget.

  lemma LunchTokensAreTokens(ws: seq<string>)
    requires ws == LunchTokens
    ensures forall i :: 0 <= i < |ws| ==> IsToken(ws[i]) && IsAscii(ws[i])
  {
  }

  lemma LunchJoin(ws: seq<string>)
    requires ws == LunchTokens
    ensures Join(ws) == Lunch
  {
  }

  /** The tokens of the lunch sentence. */
  lemma LunchWords(s: string)
    requires s == Lunch
    ensures Words(s) == LunchTokens
  {
    LunchTokensAreTokens(LunchTokens);
    LunchJoin(LunchTokens);
    WordsOfJoin(LunchTokens);
  }

  /** The piece emitted for an ASCII token: the marker and a space when it
      has five characters, the token and a space otherwise. */
  lemma EmitAscii(w: string)
    requires IsAscii(w)
    ensures Emit(w) == (if |w| == 5 then "=====  " else w + " ")
  {
    ByteLenAscii(w);
  }

  /** The output for seven tokens, piece by piece. */
  lemma SevenPieces(ws: seq<string>)
    requires |ws| == 7
    ensures EmitAll(ws) == Emit(ws[0]) + Emit(ws[1]) + Emit(ws[2]) + Emit(ws[3])
                           + Emit(ws[4]) + Emit(ws[5]) + Emit(ws[6])
  {
    var e0, e1, e2, e3, e4, e5, e6 := Emit(ws[0]), Emit(ws[1]), Emit(ws[2]),
      Emit(ws[3]), Emit(ws[4]), Emit(ws[5]), Emit(ws[6]);
    assert ws[..0] == [];
    EmitAllPrefix(ws, 0);
    assert EmitAll(ws[..1]) == e0;
    EmitAllPrefix(ws, 1);
    assert EmitAll(ws[..2]) == e0 + e1;
    EmitAllPrefix(ws, 2);
    assert EmitAll(ws[..3]) == e0 + e1 + e2;
    EmitAllPrefix(ws, 3);
    assert EmitAll(ws[..4]) == e0 + e1 + e2 + e3;
    EmitAllPrefix(ws, 4);
    assert EmitAll(ws[..5]) == e0 + e1 + e2 + e3 + e4;
    EmitAllPrefix(ws, 5);
    assert EmitAll(ws[..6]) == e0 + e1 + e2 + e3 + e4 + e5;
    EmitAllPrefix(ws, 6);
    assert ws[..7] == ws;
  }

  /** The pieces of the lunch tokens: "salad", "lunch" and "today" have five
      bytes each. */
  lemma LunchPieceValues(ws: seq<string>)
    requires ws == LunchTokens
    ensures Emit(ws[0]) == "I " && Emit(ws[1]) == "ate " && Emit(ws[2]) == "a "
    ensures Emit(ws[3]) == "=====  " && Emit(ws[4]) == "for "
    ensures Emit(ws[5]) == "=====  " && Emit(ws[6]) == "=====  "
  {
    LunchTokensAreTokens(ws);
    EmitAscii(ws[0]);
    EmitAscii(ws[1]);
    EmitAscii(ws[2]);
    EmitAscii(ws[3]);
    EmitAscii(ws[4]);
    EmitAscii(ws[5]);
    EmitAscii(ws[6]);
  }

  lemma LunchRedactedPieces()
    ensures LunchRedacted == "I " + "ate " + "a " + "=====  " + "for " + "=====  " + "=====  "
  {
  }

  /** `create_redaction` on the lunch sentence: "salad", "lunch" and "today"
      each become the marker and its separator. */
  lemma LunchRedaction(s: string)
    requires s == Lunch
    ensures Redacted(s) == LunchRedacted
  {
    LunchWords(s);
    SevenPieces(Words(s));
    LunchPieceValues(Words(s));
    LunchRedactedPieces();
  }

  /** The first walkthrough: hidden as a draft, hidden while pending review,
      shown once approved, and shown redacted after `redact`. */
  lemma ReviewedPostScenario()
    ensures NewPost().AddText(Lunch).Content() == []
    ensures NewPost().AddText(Lunch).RequestReview().Content() == []
    ensures NewPost().AddText(Lunch).RequestReview().Approve().Content() == Lunch
    ensures NewPost().AddText(Lunch).RequestReview().Approve().Redact().Content() == LunchRedacted
  {
    LunchRedaction(Lunch);
  }

  /** The second walkthrough: redacting a draft changes neither its state nor
      its text, so it still shows nothing. */
  lemma DraftRedactScenario()
    ensures NewPost().AddText(Movie).Redact() == NewPost().AddText(Movie)
    ensures NewPost().AddText(Movie).Redact().Content() == []
  {
  }
}
