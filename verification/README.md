# Blog post workflow: a Dafny model

This project models the blog post state machine of `src/main.rs` and proves
properties about it. A `Post` has a text buffer, which `add_text` appends to
and `redact` rewrites, and exactly one editorial state: `Draft`,
`PendingReview` or `Published`. Between redactions the buffer only grows.
Only two operations change the state. `request_review` moves a draft to
pending review, and `approve` moves a pending post to published. Every other
operation and state pair leaves the state unchanged. Readers see the buffer
only once the post is published. `redact` rewrites the buffer through the current state
and never changes the state. A draft keeps its text as is. The other two
states run the redaction helper `create_redaction`. That helper splits the
text on whitespace, replaces every token of exactly five UTF-8 bytes with
the marker `"===== "`, copies every other token, and pushes one space after
each piece.

Files (one module each):

- `text.dfy` (`Text`): the text primitives behind the helper.
  - Rust's `char::is_whitespace`, written out as the Unicode White_Space code points.
  - `str::len`, as UTF-8 byte length.
  - `split_whitespace`, given twice: as a recursive reference definition
    (`Words`) and as a character scanner (`SplitWhitespace`) proved equal to it.
- `redaction.dfy` (`Redaction`): `create_redaction`.
  - The source's loop, as the method `CreateRedaction`, which appends to
    the caller's buffer just as the source pushes onto `new_content`.
  - A reference definition, `Redacted`.
  - What the output reads as once it is tokenized again.
- `post.dfy` (`Blog`): the `State` behaviour as a closed datatype and the
  `Post` operations as pure functions from post to post.
  - Runs of operations (`Op`, `Step`, `Run`) are used to state properties
    that hold over every sequence of calls.
- `scenarios.dfy` (`Scenarios`): the two walkthroughs of the program's
  `main`, proved as lemmas.

Two consequences of the code are worth stating plainly:

- The marker `"===== "` already ends in a space, and a separator space
  follows it, so a redacted token contributes `"====="` and two spaces. The
  assertion at `src/main.rs:132` expects exactly that output.
- Redaction is idempotent (`Redaction.RedactedIdempotent`). The marker reads
  back as the five-byte token `"====="`, so redacting again emits exactly the
  same piece.

## Model

| member | source | states |
|---|---|---|
| Text.WhitespaceRange | src/main.rs:109 | the whitespace `split_whitespace` splits on is, within ASCII, exactly space, tab, line feed, vertical tab, form feed and carriage return, and no whitespace character lies above U+3000 |
| Text.ByteLen | src/main.rs:110 | `word.len()` is the UTF-8 byte length: at least the character count, and zero only for the empty string |
| Text.ByteLenAscii | src/main.rs:110 | byte length equals character count exactly when the token is ASCII, so "salad" is five bytes but a five-character non-ASCII word is not |
| Text.Words | src/main.rs:109 | every token `split_whitespace` yields is non-empty and contains no whitespace |
| Text.SplitWhitespace | src/main.rs:109 | a left-to-right scan that cuts a token whenever a run of non-whitespace characters ends yields exactly the reference tokenization |
| Text.WordsEmptyIff | src/main.rs:109 | the input has no tokens if and only if it is empty or all whitespace |
| Text.WordsOfJoin | src/main.rs:109 | tokens joined by single spaces split back into the same tokens |
| Text.WordsOfUnwords | src/main.rs:109 | tokens each followed by one space split back into the same tokens |
| Text.WordsKeepVisible | src/main.rs:109 | splitting loses only whitespace: the tokens, concatenated, are the input's non-whitespace characters in order |
| Redaction.EmitPiece | src/main.rs:110-115 | one loop iteration pushes `"====="` and two spaces for a five-byte token, and the token and one space for any other token |
| Redaction.EmitAll | src/main.rs:109-116 | the pieces for a token list are empty only for no tokens, and otherwise end in a space |
| Redaction.Redacted | src/main.rs:108-117 | the reference redaction of a whole input is empty exactly when the input is empty or all whitespace, and otherwise ends in a space, even after the last token |
| Redaction.PushPieces | src/main.rs:109-116 | pushing each token's piece in turn onto a buffer leaves the old buffer followed by the pieces of all tokens, in order |
| Redaction.CreateRedaction | src/main.rs:108-117 | the method appends to the caller's buffer `acc` exactly the reference redaction of the input: the concatenation over the tokens, in order, of `"=====  "` for a five-byte token and of the token plus one space otherwise |
| Redaction.Mask | src/main.rs:110-114 | the redacted token list has the input's length; each five-byte token becomes `"====="`, every other token is unchanged, and byte lengths are kept |
| Redaction.BlotFacts | src/main.rs:111 | the marker is the token `"====="` followed by a space, and that token is five bytes long |
| Redaction.WordsOfEmitAll | src/main.rs:108-117 | re-tokenizing the pieces emitted for a token list gives the token list with five-byte tokens replaced by `"====="` |
| Redaction.RedactedWords | src/main.rs:108-117 | the tokens of the redacted text are the input's tokens with every five-byte token replaced by `"====="` |
| Redaction.RedactedKeepsOtherTokens | src/main.rs:112-113 | a token whose byte length is not five appears unchanged at the same position in the redacted text |
| Redaction.RedactedIdempotent | src/main.rs:108-117 | redacting already redacted text changes nothing |
| Blog.State.Rank | src/main.rs:54-106 | the approval order Draft < PendingReview < Published; only Draft has rank 0 and only Published has rank 2 |
| Blog.State.RequestReview | src/main.rs:55-91 | a review request raises the rank by one exactly from Draft (to PendingReview) and is a self-loop in the other states |
| Blog.State.Approve | src/main.rs:59-95 | an approval raises the rank by one exactly from PendingReview (to Published), is a self-loop in Draft and Published, and leaves every non-draft state Published |
| Blog.State.ContentOf | src/main.rs:45-99 | Draft and PendingReview show the empty string (the trait default); Published shows the stored text |
| Blog.State.RedactText | src/main.rs:63-105 | Draft returns its input unchanged; the other states return the `create_redaction` output, whose tokens are the input's with five-byte tokens replaced by `"====="` |
| Blog.NewPost | src/main.rs:7-11 | a new post is a draft with an empty buffer and shows `""` |
| Blog.Post.AddText | src/main.rs:14-16 | appending keeps the state and makes the buffer the old buffer followed by the text |
| Blog.Post.Content | src/main.rs:18-20 | a post shows its buffer exactly when published and `""` otherwise |
| Blog.Post.RequestReview | src/main.rs:22-26 | the buffer is untouched; a draft becomes pending review, any other post is unchanged |
| Blog.Post.Approve | src/main.rs:28-32 | the buffer is untouched; a pending post becomes published, any other post is unchanged |
| Blog.Post.Redact | src/main.rs:34-39 | the state never changes; a draft is unchanged; otherwise the buffer becomes the `create_redaction` output of the old buffer, whose tokens are the redacted token list |
| Blog.StepRank | src/main.rs:55-95 | one operation moves the state at most one step forward, and only request_review from Draft or approve from PendingReview moves it |
| Blog.RunRankMonotone | src/main.rs:55-95 | over any sequence of operations the state's rank never decreases |
| Blog.PublishedStaysPublished | src/main.rs:88-95 | Published is absorbing: no sequence of operations leaves it |
| Blog.FromPending | src/main.rs:70-77 | from PendingReview a sequence of operations ends Published if and only if it contains an approval |
| Blog.FromDraft | src/main.rs:54-77 | from Draft a sequence of operations ends Published if and only if it requests review and approves later, so no transition is skipped |
| Blog.HiddenUntilApproved | src/main.rs:18-20 | after any sequence of operations on a new post, readers see `""` unless the sequence requested review and then approved, and the buffer once it did |
| Blog.RunContentWithoutRedact | src/main.rs:14-16 | without redaction the buffer after a run is the initial buffer followed by every added text, in order |
| Blog.AddTextTwice | src/main.rs:14-16 | adding `a` then `b` gives the same post as adding `a + b` |
| Blog.TransitionsIdempotent | src/main.rs:22-32 | requesting review twice equals requesting it once, and approving twice equals approving once |
| Blog.ApproveDraftIsNoOp | src/main.rs:59-61 | approving a draft leaves it an unchanged draft that still shows `""`, so review cannot be skipped |
| Blog.RedactKeepsState | src/main.rs:34-39 | redaction keeps the state; after it a post shows `""` exactly when it showed `""` before or its buffer was all whitespace |
| Scenarios.LunchWords | src/main.rs:122 | "I ate a salad for lunch today" splits into its seven words |
| Scenarios.LunchRedaction | src/main.rs:131-132 | redacting "I ate a salad for lunch today" gives "I ate a =====  for =====  =====  " |
| Scenarios.ReviewedPostScenario | src/main.rs:120-132 | the first walkthrough: the text is hidden in draft and in review, shown after approval, and shown redacted after `redact` |
| Scenarios.DraftRedactScenario | src/main.rs:134-138 | the second walkthrough: redacting a draft changes nothing, and the post still shows `""` |

## Left out

- The `Option` slot around the state and the `take`/reinstall in `request_review` and `approve`: the slot is `Some` at every point a caller can observe, so the model stores the state directly and the `None` branches (`src/main.rs:23`, `:29`, `:35`) do not appear.
- `Box<dyn State>` dynamic dispatch and the `self: Box<Self>` ownership transfer: the three implementations are a closed datatype with one total `match` per behaviour.
- Lifetimes and borrowing (`&'a str`, `&mut self`): operations are pure functions that return the updated post.
- The `main` driver as a program: its assertions are the lemmas in `Scenarios`.
- Buffer growth and allocation of `String`: strings are unbounded sequences of Unicode scalar values.
