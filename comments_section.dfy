/** `CommentsSection`: the comment form of an event page, its optimistic list
    (newest first) and the submit handler that trims the text, shows the comment
    at once and reports a failed post. */
module CommentsSection {
  import opened Wrappers
  import opened Text

  /** One comment as the list shows it; `userName` is optional. */
  datatype CommentItem = CommentItem(id: string, body: string, createdAt: string, userName: Option<string>)

  /** The reducer handed to `useOptimistic`: the new item goes in front. */
  function AddOptimistic(state: seq<CommentItem>, next: CommentItem): (r: seq<CommentItem>)
    ensures |r| == |state| + 1 && r[0] == next && r[1..] == state
  {
    [next] + state
  }

  /** Applying the reducer to `items` in turn. */
  function AddAll(state: seq<CommentItem>, items: seq<CommentItem>): seq<CommentItem>
    decreases |items|
  {
    if items == [] then state else AddAll(AddOptimistic(state, items[0]), items[1..])
  }

  function Reversed(s: seq<CommentItem>): (r: seq<CommentItem>)
    ensures |r| == |s|
  {
    if s == [] then [] else Reversed(s[1..]) + [s[0]]
  }

  /** Several optimistic comments appear newest first, ahead of the initial ones. */
  lemma {:induction false} AddAllNewestFirst(state: seq<CommentItem>, items: seq<CommentItem>)
    ensures AddAll(state, items) == Reversed(items) + state
    decreases |items|
  {
    if items != [] {
      AddAllNewestFirst([items[0]] + state, items[1..]);
      assert Reversed(items) == Reversed(items[1..]) + [items[0]];
    }
  }

  /** `String(n)` for a natural number. */
  function Decimal(n: nat): (r: string)
    ensures |r| >= 1
    ensures forall k :: 0 <= k < |r| ==> '0' <= r[k] <= '9'
  {
    var d := [(('0' as int) + n % 10) as char];
    if n < 10 then d else Decimal(n / 10) + d
  }

  /** The number a string of decimal digits denotes. */
  function DigitsValue(s: string): int {
    if s == [] then 0 else DigitsValue(s[..|s| - 1]) * 10 + (s[|s| - 1] as int - '0' as int)
  }

  /** `String(n)` reads back as `n`. */
  lemma {:induction false} DecimalValue(n: nat)
    ensures DigitsValue(Decimal(n)) == n
  {
    var d := [(('0' as int) + n % 10) as char];
    if n >= 10 {
      DecimalValue(n / 10);
      var s := Decimal(n / 10) + d;
      assert s[..|s| - 1] == Decimal(n / 10);
    }
  }

  /** The id of the temporary item, `temp-${Date.now()}`. */
  function TempId(nowMillis: nat): (id: string)
    ensures |id| > 5 && id[..5] == "temp-"
    ensures DigitsValue(id[5..]) == nowMillis
  {
    DecimalValue(nowMillis);
    var id := "temp-" + Decimal(nowMillis);
    assert id[5..] == Decimal(nowMillis);
    id
  }

  /** Two distinct instants give distinct temporary ids. */
  lemma TempIdInjective(a: nat, b: nat)
    ensures TempId(a) == TempId(b) ==> a == b
  {
  }

  /** The form data handed to `onSubmit`. */
  datatype Submission = Submission(shareToken: string, text: string)

  /** How the awaited `onSubmit(fd)` ended: it resolved with `{ ok }` (an absent
      result counting as not ok), or it threw, with the message when it threw an `Error`. */
  datatype SubmitReply = Resolved(ok: bool) | Threw(message: Option<string>)

  const FailedToPost: string := "Failed to post"
  const SomethingWentWrong: string := "Something went wrong"

  /** The error line shown after the reply; `None` when the post went through. */
  function ErrorAfter(reply: SubmitReply): (r: Option<string>)
    ensures r.None? <==> reply == Resolved(true)
    ensures reply == Resolved(false) ==> r == Some(FailedToPost)
    ensures reply.Threw? && reply.message.Some? ==> r == reply.message
    ensures reply == Threw(None) ==> r == Some(SomethingWentWrong)
  {
    match reply
    case Resolved(ok) => if ok then None else Some(FailedToPost)
    case Threw(m) => Some(m.GetOr(SomethingWentWrong))
  }

  /** `disabled={!canPost || !text.trim()}` on the post button, together with the
      button's own pending state. */
  function PostDisabled(canPost: bool, text: string, pending: bool): (r: bool)
    ensures r <==> !canPost || IsBlank(text) || pending
  {
    TrimEmptyIffBlank(text);
    !canPost || Trim(text) == "" || pending
  }

  /** The component's state. */
  class CommentForm {
    const shareToken: string
    const canPost: bool
    var text: string
    var error: Option<string>
    var optimistic: seq<CommentItem>

    constructor (shareToken: string, canPost: bool, initial: seq<CommentItem>)
      ensures this.shareToken == shareToken && this.canPost == canPost
      ensures text == "" && error.None? && optimistic == initial
    {
      this.shareToken := shareToken;
      this.canPost := canPost;
      text := "";
      error := None;
      optimistic := initial;
    }

    /** `onChange` of the text area. */
    method Edit(value: string)
      modifies this
      ensures text == value && error == old(error) && optimistic == old(optimistic)
    {
      text := value;
    }

    /** `handleSubmit`. The clock is `nowMillis` and `nowIso`; `reply` is how the awaited
        call ends. Returns the form data sent, or `None` when the trimmed text is empty. */
    method HandleSubmit(nowMillis: nat, nowIso: string, reply: SubmitReply) returns (sent: Option<Submission>)
      modifies this
      ensures sent.None? <==> IsBlank(old(text))
      ensures sent.None? ==> text == old(text) && error.None? && optimistic == old(optimistic)
      ensures sent.Some? ==> && sent.value == Submission(shareToken, Trim(old(text)))
                             && optimistic == AddOptimistic(old(optimistic),
                                  CommentItem(TempId(nowMillis), Trim(old(text)), nowIso, None))
                             && error == ErrorAfter(reply)
                             && text == (if reply == Resolved(true) then "" else old(text))
    {
      error := None;
      var value := Trim(text);
      TrimEmptyIffBlank(text);
      if value == "" {
        sent := None;
        return;
      }
      var temp := CommentItem(TempId(nowMillis), value, nowIso, None);
      optimistic := AddOptimistic(optimistic, temp);
      sent := Some(Submission(shareToken, value));
      match reply {
        case Resolved(ok) =>
          if !ok {
            error := Some(FailedToPost);
          } else {
            text := "";
          }
        case Threw(m) =>
          error := Some(m.GetOr(SomethingWentWrong));
      }
    }
  }

  /** The comment sent is never blank and never padded. */
  lemma SentTextTrimmed(text: string)
    requires !IsBlank(text)
    ensures Trim(text) != [] && !IsWhite(Trim(text)[0]) && !IsWhite(Trim(text)[|Trim(text)| - 1])
    ensures Trim(Trim(text)) == Trim(text)
  {
    TrimEmptyIffBlank(text);
    TrimIdempotent(text);
  }
}
