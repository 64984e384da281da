/**
 The redaction helper `create_redaction`: every whitespace-separated token of
 the input whose UTF-8 byte length is exactly five is replaced by the marker
 "===== ", every other token is copied, and each emitted piece is followed by
 one space. Because the marker already ends in a space, a redacted token
 contributes "=====" and two spaces to the output.
 */
module Redaction {
  import opened Text

  /** The text pushed in place of a five-byte token (note its own trailing space). */
  const Marker: string := "===== "

  /** The separator pushed after every token. */
  const Separator: string := " "

  /** The token a reader sees where a five-byte token was: the marker without
      its trailing space. */
  const Blot: string := "====="

  /** Byte length that triggers redaction. */
  const RedactedLen: nat := 5

  /** The text emitted for one token `w`. */
  function Emit(w: string): string {
    (if ByteLen(w) == RedactedLen then Marker else w) + Separator
  }

  /** The piece of a five-byte token is the blot and two spaces; the piece
      of any other token is the token and one space. */
  lemma EmitPiece(w: string)
    ensures ByteLen(w) == RedactedLen ==> Emit(w) == Blot + "  "
    ensures ByteLen(w) != RedactedLen ==> Emit(w) == w + " "
    ensures Emit(w) == Shown(w) + (if ByteLen(w) == RedactedLen then "  " else " ")
  {
  }

  /** The output for a list of tokens: their pieces, in order. It is empty
      only for no tokens, and otherwise ends in a space. */
  function EmitAll(ws: seq<string>): (out: string)
    ensures out == [] <==> ws == []
    ensures out != [] ==> out[|out| - 1] == ' '
  {
    if ws == [] then [] else Emit(ws[0]) + EmitAll(ws[1..])
  }

  /** Reference definition of `create_redaction` on a whole input. The
      output is empty exactly when the input is empty or whitespace only;
      otherwise it ends in a space, even after the last token. */
  function Redacted(input: string): (out: string)
    ensures out == [] <==> AllWhitespace(input)
    ensures out != [] ==> out[|out| - 1] == ' '
  {
    WordsEmptyIff(input);
    EmitAll(Words(input))
  }

  /** What a reader sees of one token after redaction. */
  function Shown(w: string): string {
    if ByteLen(w) == RedactedLen then Blot else w
  }

  /** The token list a reader of the output sees: five-byte tokens become
      the blot, the others stay as they are. */
  function Mask(ws: seq<string>): (r: seq<string>)
    ensures |r| == |ws|
    ensures forall i :: 0 <= i < |ws| ==>
      (ByteLen(ws[i]) == RedactedLen ==> r[i] == Blot)
      && (ByteLen(ws[i]) != RedactedLen ==> r[i] == ws[i])
    ensures forall i :: 0 <= i < |ws| ==> ByteLen(r[i]) == ByteLen(ws[i])
  {
    if ws == [] then []
    else [Shown(ws[0])] + Mask(ws[1..])
  }

  lemma BlotFacts()
    ensures IsToken(Blot)
    ensures ByteLen(Blot) == RedactedLen
    ensures Marker == Blot + Separator
  {
    assert !IsWhitespace('=');
    assert Blot[1..][1..][1..][1..][1..] == [];
  }

  /** The output for two token lists in a row is their outputs in a row. */
  lemma {:induction false} EmitAllAppend(a: seq<string>, b: seq<string>)
    ensures EmitAll(a + b) == EmitAll(a) + EmitAll(b)
  {
    if a == [] {
      assert a + b == b;
    } else {
      assert (a + b)[0] == a[0];
      assert (a + b)[1..] == a[1..] + b;
      EmitAllAppend(a[1..], b);
    }
  }

  /** One more token of the loop adds exactly its piece to the output. */
  lemma EmitAllPrefix(ws: seq<string>, k: nat)
    requires k < |ws|
    ensures EmitAll(ws[..k + 1]) == EmitAll(ws[..k]) + Emit(ws[k])
  {
    assert ws[..k + 1] == ws[..k] + [ws[k]];
    EmitAllAppend(ws[..k], [ws[k]]);
    assert [ws[k]][1..] == [];
  }

  /** Pushing the marker or the token, then the separator, appends the
      token's piece. */
  lemma PushedPiece(before: string, word: string, after: string)
    requires after == (if ByteLen(word) == RedactedLen then before + Marker else before + word) + Separator
    ensures after == before + Emit(word)
  {
  }

  /** The body of the `create_redaction` loop run over `words`: for each
      token push the marker or the token, then a space, onto the end of the
      buffer `acc`. */
  method PushPieces(words: seq<string>, acc: string) returns (out: string)
    ensures out == acc + EmitAll(words)
  {
    out := acc;
    var k := 0;
    while k < |words|
      invariant 0 <= k <= |words|
      invariant out == acc + EmitAll(words[..k])
    {
      var word := words[k];
      ghost var before := out;
      if ByteLen(word) == RedactedLen {
        out := out + Marker;
      } else {
        out := out + word;
      }
      out := out + Separator;
      assert out == acc + EmitAll(words[..k + 1]) by {
        PushedPiece(before, word, out);
        EmitAllPrefix(words, k);
      }
      k := k + 1;
    }
    assert words[..k] == words;
  }

  /** `create_redaction` as the source writes it: the tokens of
      `split_whitespace`, each pushed as its piece onto the end of the
      caller's buffer `acc`. */
  method CreateRedaction(input: string, acc: string) returns (out: string)
    ensures out == acc + Redacted(input)
  {
    var words := SplitWhitespace(input);
    out := PushPieces(words, acc);
  }

  /** One emitted piece, followed by anything, reads back as the token
      shown for it followed by whatever the rest reads as. */
  lemma WordsOfEmit(w: string, rest: string)
    requires IsToken(w)
    ensures Words(Emit(w) + rest) == [Shown(w)] + Words(rest)
  {
    BlotFacts();
    var gap: string := if ByteLen(w) == RedactedLen then "  " else " ";
    assert Emit(w) == Shown(w) + gap;
    assert Emit(w) + rest == Shown(w) + (gap + rest);
    TokenThenBreak(Shown(w), gap + rest);
    WordsSkipWhitespace(gap, rest);
  }

  /** Reading the output back: its tokens are the input's tokens with every
      five-byte token replaced by the blot. */
  lemma {:induction false} WordsOfEmitAll(ws: seq<string>)
    requires forall i :: 0 <= i < |ws| ==> IsToken(ws[i])
    ensures Words(EmitAll(ws)) == Mask(ws)
  {
    if ws != [] {
      WordsOfEmit(ws[0], EmitAll(ws[1..]));
      WordsOfEmitAll(ws[1..]);
    }
  }

  lemma RedactedWords(input: string)
    ensures Words(Redacted(input)) == Mask(Words(input))
  {
    WordsOfEmitAll(Words(input));
  }

  /** Redacting the blot emits the same piece as redacting the token it hides. */
  lemma {:induction false} EmitAllMask(ws: seq<string>)
    ensures EmitAll(Mask(ws)) == EmitAll(ws)
  {
    if ws != [] {
      BlotFacts();
      assert Emit(Mask(ws)[0]) == Emit(ws[0]);
      assert Mask(ws)[1..] == Mask(ws[1..]);
      EmitAllMask(ws[1..]);
    }
  }

  /** Redacting twice gives the same text as redacting once. */
  lemma RedactedIdempotent(input: string)
    ensures Redacted(Redacted(input)) == Redacted(input)
  {
    RedactedWords(input);
    EmitAllMask(Words(input));
  }

  /** Tokens that are not five bytes long survive redaction. */
  lemma RedactedKeepsOtherTokens(input: string, i: nat)
    requires i < |Words(input)|
    requires ByteLen(Words(input)[i]) != RedactedLen
    ensures i < |Words(Redacted(input))| && Words(Redacted(input))[i] == Words(input)[i]
  {
    RedactedWords(input);
  }
}
