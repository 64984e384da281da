/**
 The blog post state machine. A `Post` holds a text buffer, which `AddText`
 appends to and `Redact` rewrites, and exactly one editorial state. Every
 public operation either advances the state one step along
 Draft -> PendingReview -> Published or leaves it as it is. The state decides what `Content` shows and how `Redact` rewrites the
 buffer.
 */
module Blog {
  import opened Text
  import opened Redaction

  /** The three implementations of the `State` behaviour, as a closed set of tags. */
  datatype State = Draft | PendingReview | Published {

    /** Position along the approval axis. */
    function Rank(): (n: nat)
      ensures n <= 2
      ensures n == 0 <==> this == Draft
      ensures n == 2 <==> this == Published
    {
      match this
      case Draft => 0
      case PendingReview => 1
      case Published => 2
    }

    /** The state's answer to a review request. */
    function RequestReview(): (next: State)
      ensures next.Rank() == this.Rank() + 1 <==> this == Draft
      ensures this != Draft ==> next == this
      ensures next != Draft
    {
      match this
      case Draft => PendingReview
      case PendingReview => this
      case Published => this
    }

    /** The state's answer to an approval. */
    function Approve(): (next: State)
      ensures next.Rank() == this.Rank() + 1 <==> this == PendingReview
      ensures this != PendingReview ==> next == this
      ensures this != Draft ==> next == Published
    {
      match this
      case Draft => this
      case PendingReview => Published
      case Published => this
    }

    /** What the state lets a reader of `post` see. */
    function ContentOf(post: Post): (shown: string)
      ensures shown == [] || shown == post.content
      ensures this == Published ==> shown == post.content
      ensures this != Published ==> shown == []
    {
      match this
      case Draft => []
      case PendingReview => []
      case Published => post.content
    }

    /** The state's rewriting of a buffer on `redact`. */
    function RedactText(input: string): (output: string)
      ensures this == Draft ==> output == input
      ensures this != Draft ==> output == Redacted(input)
      ensures this != Draft ==> Words(output) == Mask(Words(input))
    {
      match this
      case Draft => input
      case PendingReview =>
        RedactedWords(input);
        Redacted(input)
      case Published =>
        RedactedWords(input);
        Redacted(input)
    }
  }

  /** A post: its editorial state and its stored text. */
  datatype Post = Post(state: State, content: string) {

    /** The text visible to readers: the stored text once published,
        empty before. */
    function Content(): (shown: string)
      ensures state == Published ==> shown == content
      ensures state != Published ==> shown == []
    {
      state.ContentOf(this)
    }

    /** Appends `text` to the buffer in any state. */
    function AddText(text: string): (p: Post)
      ensures p.state == state
      ensures |p.content| == |content| + |text|
      ensures p.content[..|content|] == content && p.content[|content|..] == text
    {
      Post(state, content + text)
    }

    function RequestReview(): (p: Post)
      ensures p.content == content
      ensures state == Draft ==> p.state == PendingReview
      ensures state != Draft ==> p == this
    {
      Post(state.RequestReview(), content)
    }

    function Approve(): (p: Post)
      ensures p.content == content
      ensures state == PendingReview ==> p.state == Published
      ensures state != PendingReview ==> p == this
    {
      Post(state.Approve(), content)
    }

    /** Rewrites the buffer through the current state; the state stays. */
    function Redact(): (p: Post)
      ensures p.state == state
      ensures state == Draft ==> p == this
      ensures state != Draft ==> p.content == Redacted(content)
      ensures state != Draft ==> Words(p.content) == Mask(Words(content))
    {
      Post(state, state.RedactText(content))
    }
  }

  /** `Post::new`: a draft with an empty buffer. */
  function NewPost(): (p: Post)
    ensures p.state == Draft && p.content == []
    ensures p.Content() == []
  {
    Post(Draft, [])
  }

  /** The state-changing operations a caller can apply to a post. */
  datatype Op = AddText(text: string) | RequestReview | Approve | Redact

  function Step(p: Post, op: Op): Post {
    match op
    case AddText(t) => p.AddText(t)
    case RequestReview => p.RequestReview()
    case Approve => p.Approve()
    case Redact => p.Redact()
  }

  /** The post after applying `ops` in order. */
  function Run(p: Post, ops: seq<Op>): Post
    decreases |ops|
  {
    if ops == [] then p else Run(Step(p, ops[0]), ops[1..])
  }

  /** One operation moves the state at most one step, and never back. */
  lemma StepRank(p: Post, op: Op)
    ensures p.state.Rank() <= Step(p, op).state.Rank() <= p.state.Rank() + 1
    ensures Step(p, op).state != p.state ==>
      (p.state == Draft && op == RequestReview) || (p.state == PendingReview && op == Approve)
  {
  }

  /** The state rank never decreases over any sequence of operations. */
  lemma {:induction false} RunRankMonotone(p: Post, ops: seq<Op>)
    ensures p.state.Rank() <= Run(p, ops).state.Rank()
    decreases |ops|
  {
    if ops != [] {
      StepRank(p, ops[0]);
      RunRankMonotone(Step(p, ops[0]), ops[1..]);
    }
  }

  /** Published is absorbing. */
  lemma {:induction false} PublishedStaysPublished(p: Post, ops: seq<Op>)
    requires p.state == Published
    ensures Run(p, ops).state == Published
  {
    RunRankMonotone(p, ops);
  }

  /** Some approval occurs in `ops`. */
  ghost predicate HasApprove(ops: seq<Op>) {
    exists j :: 0 <= j < |ops| && ops[j] == Approve
  }

  /** A review request occurs in `ops`, followed later by an approval. */
  ghost predicate ReviewThenApprove(ops: seq<Op>) {
    exists i, j :: 0 <= i < j < |ops| && ops[i] == RequestReview && ops[j] == Approve
  }

  lemma {:induction false} FromPending(p: Post, ops: seq<Op>)
    requires p.state == PendingReview
    ensures Run(p, ops).state == Published <==> HasApprove(ops)
    decreases |ops|
  {
    if ops != [] {
      var q := Step(p, ops[0]);
      if ops[0] == Approve {
        PublishedStaysPublished(q, ops[1..]);
        assert HasApprove(ops) by { assert ops[0] == Approve; }
      } else {
        assert q.state == PendingReview;
        FromPending(q, ops[1..]);
        assert HasApprove(ops) <==> HasApprove(ops[1..]) by {
          if HasApprove(ops) {
            var j :| 0 <= j < |ops| && ops[j] == Approve;
            assert ops[1..][j - 1] == Approve;
          }
          if HasApprove(ops[1..]) {
            var j :| 0 <= j < |ops[1..]| && ops[1..][j] == Approve;
            assert ops[j + 1] == Approve;
          }
        }
      }
    }
  }

  /** No transition is skipped: a draft is published by a run exactly when
      the run requests review and later approves. */
  lemma {:induction false} FromDraft(p: Post, ops: seq<Op>)
    requires p.state == Draft
    ensures Run(p, ops).state == Published <==> ReviewThenApprove(ops)
    decreases |ops|
  {
    if ops != [] {
      var q := Step(p, ops[0]);
      if ops[0] == RequestReview {
        FromPending(q, ops[1..]);
        assert ReviewThenApprove(ops) <==> HasApprove(ops[1..]) by {
          if HasApprove(ops[1..]) {
            var j :| 0 <= j < |ops[1..]| && ops[1..][j] == Approve;
            assert ops[0] == RequestReview && ops[j + 1] == Approve;
          }
          if ReviewThenApprove(ops) {
            var i, j :| 0 <= i < j < |ops| && ops[i] == RequestReview && ops[j] == Approve;
            assert ops[1..][j - 1] == Approve;
          }
        }
      } else {
        assert q.state == Draft;
        FromDraft(q, ops[1..]);
        assert ReviewThenApprove(ops) <==> ReviewThenApprove(ops[1..]) by {
          if ReviewThenApprove(ops) {
            var i, j :| 0 <= i < j < |ops| && ops[i] == RequestReview && ops[j] == Approve;
            assert i > 0;
            assert ops[1..][i - 1] == RequestReview && ops[1..][j - 1] == Approve;
          }
          if ReviewThenApprove(ops[1..]) {
            var i, j :| 0 <= i < j < |ops[1..]| && ops[1..][i] == RequestReview && ops[1..][j] == Approve;
            assert ops[i + 1] == RequestReview && ops[j + 1] == Approve;
          }
        }
      }
    }
  }

  /** Whatever is added or redacted, a new post shows nothing until a run
      has requested review and then approved. */
  lemma HiddenUntilApproved(ops: seq<Op>)
    ensures !ReviewThenApprove(ops) ==> Run(NewPost(), ops).Content() == []
    ensures ReviewThenApprove(ops) ==> Run(NewPost(), ops).Content() == Run(NewPost(), ops).content
  {
    FromDraft(NewPost(), ops);
  }

  /** The texts added by a run, concatenated. */
  function Added(ops: seq<Op>): string {
    if ops == [] then []
    else (if ops[0].AddText? then ops[0].text else []) + Added(ops[1..])
  }

  /** Without redaction the buffer only grows, by exactly the added texts. */
  lemma {:induction false} RunContentWithoutRedact(p: Post, ops: seq<Op>)
    requires forall k :: 0 <= k < |ops| ==> ops[k] != Redact
    ensures Run(p, ops).content == p.content + Added(ops)
    decreases |ops|
  {
    if ops != [] {
      var head: string := if ops[0].AddText? then ops[0].text else [];
      var q := Step(p, ops[0]);
      assert q.content == p.content + head by {
        match ops[0]
        case AddText(t) =>
        case RequestReview =>
        case Approve =>
        case Redact => assert false;
      }
      assert forall k :: 0 <= k < |ops[1..]| ==> ops[1..][k] == ops[k + 1];
      RunContentWithoutRedact(q, ops[1..]);
      assert Added(ops) == head + Added(ops[1..]);
      assert p.content + head + Added(ops[1..]) == p.content + (head + Added(ops[1..]));
    }
  }

  /** Two appends read the same as one append of the joined text. */
  lemma AddTextTwice(p: Post, a: string, b: string)
    ensures p.AddText(a).AddText(b) == p.AddText(a + b)
  {
  }

  /** Repeating a transition changes nothing more. */
  lemma TransitionsIdempotent(p: Post)
    ensures p.RequestReview().RequestReview() == p.RequestReview()
    ensures p.Approve().Approve() == p.Approve()
  {
  }

  /** Approving a draft does not skip review: the post stays a hidden draft. */
  lemma ApproveDraftIsNoOp(p: Post)
    requires p.state == Draft
    ensures p.Approve() == p && p.Approve().Content() == []
  {
  }

  /** Redacting never moves the state, whatever the run before it. */
  lemma RedactKeepsState(p: Post)
    ensures p.Redact().state == p.state
    ensures p.Redact().Content() == [] <==> p.Content() == [] || AllWhitespace(p.content)
  {
  }
}
