/**
 Recovery of the JSON text from the model's reply (`parse_json_response`):
 the body of the first ```json block, else of the first ``` block, else the
 whole reply, whitespace-stripped, then handed to the JSON parser.
 */
module Response {
  import opened Optional
  import opened PyStr
  import opened JsonValue

  const JsonFence: string := "```json"
  const Fence: string := "```"

  /** The candidate JSON text, described with `find` rather than `split`:
      after the first ```json, the text before the next ```json and then
      before the first ``` in that; failing that, the text between the first
      and the second ```; failing that, the whole reply. Always stripped. */
  function Candidate(reply: string): (c: string)
    ensures !Contains(c, Fence)
  {
    match Find(reply, JsonFence)
    case Some(i) =>
      var inner := Before(Before(reply[i + |JsonFence|..], JsonFence), Fence);
      SubstringKeepsAbsence(Strip(inner), inner, Fence);
      Strip(inner)
    case None =>
      match Find(reply, Fence)
      case Some(i) =>
        var inner := Before(reply[i + |Fence|..], Fence);
        SubstringKeepsAbsence(Strip(inner), inner, Fence);
        Strip(inner)
      case None =>
        SubstringKeepsAbsence(Strip(reply), reply, Fence);
        Strip(reply)
  }

  /** The fence extraction as the code writes it, with `split` and list
      indexing; None stands for the IndexError the handler catches. The
      handler is never reached, and the text is the candidate above. */
  function FencedText(reply: string): (r: Option<string>)
    ensures r == Some(Candidate(reply))
  {
    if Contains(reply, JsonFence) then
      SplitPieces(reply, JsonFence);
      match At(Split(reply, JsonFence), 1)
      case None => None
      case Some(after) =>
        SplitPieces(after, Fence);
        match At(Split(after, Fence), 0)
        case None => None
        case Some(body) => Some(Strip(body))
    else if Contains(reply, Fence) then
      SplitPieces(reply, Fence);
      match At(Split(reply, Fence), 1)
      case None => None
      case Some(after) =>
        SplitPieces(after, Fence);
        match At(Split(after, Fence), 0)
        case None => None
        case Some(body) => Some(Strip(body))
    else
      Some(Strip(reply))
  }

  /** How `parse_json_response` ends: it returns a value (None after a caught
      error), or an exception it does not catch leaves it. */
  datatype Parse = Returned(data: Option<Json>) | Raised

  /** `parse_json_response`, with `json.loads` given as a parameter. A candidate
      that parses gives exactly the parsed value; a JSONDecodeError gives None;
      any other exception from the parser passes through. */
  function ParseJsonResponse(reply: string, loads: string -> Loaded): (r: Parse)
    ensures match loads(Candidate(reply))
      case Parsed(v) => r == Returned(Some(v))
      case DecodeError => r == Returned(None)
      case Uncaught => r == Raised
  {
    match FencedText(reply)
    case None => Returned(None)
    case Some(text) =>
      match loads(text)
      case Parsed(v) => Returned(Some(v))
      case DecodeError => Returned(None)
      case Uncaught => Raised
  }

  /** Every occurrence of ```json is an occurrence of ```. */
  lemma JsonFenceIsFence(s: string, j: int)
    requires OccursAt(s, JsonFence, j)
    ensures OccursAt(s, Fence, j)
  {
    assert s[j..j + 3] == s[j..j + 7][..3];
  }

  /** A ```json cannot overlap the end of text that contains none. */
  lemma JsonFenceNoStraddle(a: string)
    requires !Contains(a, JsonFence)
    ensures !Contains(a + JsonFence[..6], JsonFence)
  {
    var s := a + JsonFence[..6];
    forall j | 0 <= j ensures !OccursAt(s, JsonFence, j) {
      if j + 7 <= |a| {
        assert s[j..j + 7] == a[j..j + 7];
        assert !OccursAt(a, JsonFence, j);
      } else if j + 7 <= |s| {
        var d := |a| - j;
        if d >= 3 {
          assert s[j..j + 7][d] == '`' != JsonFence[d];
        } else {
          assert s[j..j + 7][3] == s[|a| + 3 - d] == '`' != JsonFence[3];
        }
      }
    }
  }

  /** A ``` cannot overlap the end of text that contains none and does not end in a backtick. */
  lemma FenceNoStraddle(a: string)
    requires !Contains(a, Fence)
    requires a == [] || a[|a| - 1] != '`'
    ensures !Contains(a + Fence[..2], Fence)
  {
    var s := a + Fence[..2];
    forall j | 0 <= j ensures !OccursAt(s, Fence, j) {
      if j + 3 <= |a| {
        assert s[j..j + 3] == a[j..j + 3];
        assert !OccursAt(a, Fence, j);
      } else if j + 3 <= |s| {
        assert s[j..j + 3][|a| - 1 - j] == a[|a| - 1] != Fence[|a| - 1 - j];
      }
    }
  }

  /** Text that contains no ``` and does not end in a backtick, then ```, then text
      that does not start with a backtick: the first ```json, if any, is exactly at
      the fence or lies after it. */
  lemma JsonFenceAfterClose(body: string, post: string, j: nat)
    requires !Contains(body + Fence[..2], Fence)
    requires post == [] || post[0] != '`'
    requires OccursAt(body + Fence + post, JsonFence, j)
    ensures j == |body| || j >= |body| + |Fence|
  {
    var rest := body + Fence + post;
    JsonFenceIsFence(rest, j);
    FindAfterPrefix(body, Fence, post);
    NoJsonFenceInClose(body, post, j);
  }

  /** A ```json starting inside a closing ``` would need a backtick right after it. */
  lemma NoJsonFenceInClose(body: string, post: string, j: int)
    requires post == [] || post[0] != '`'
    ensures |body| < j < |body| + |Fence| ==> !OccursAt(body + Fence + post, JsonFence, j)
  {
    var rest := body + Fence + post;
    if |body| < j < |body| + 3 && j + 7 <= |rest| {
      assert rest[j..j + 7][|body| + 3 - j] == post[0] != JsonFence[|body| + 3 - j];
    }
  }

  /** Two ``` fences with text between: cutting at the first ```json and then at
      the first ``` leaves the text, whatever follows, as long as the fences are
      not run together with more backticks. */
  lemma ClosedBodyIsFirst(body: string, post: string)
    requires !Contains(body, Fence)
    requires body == [] || body[|body| - 1] != '`'
    requires post == [] || post[0] != '`'
    ensures Before(Before(body + Fence + post, JsonFence), Fence) == body
  {
    var rest := body + Fence + post;
    FenceNoStraddle(body);
    match Find(rest, JsonFence)
    case None =>
      assert Before(rest, JsonFence) == rest;
      BeforeFirst(body, Fence, post);
    case Some(j) =>
      JsonFenceAfterClose(body, post, j);
      assert Before(rest, JsonFence) == rest[..j];
      if j == |body| {
        assert rest[..j] == body;
      } else {
        var tail := post[..j - |body| - 3];
        assert rest[..j] == body + Fence + tail;
        BeforeFirst(body, Fence, tail);
      }
  }

  /** A reply that wraps a ```json block in prose: the candidate is the block's
      content, stripped; the prose before and after plays no part. */
  lemma JsonBlockIgnoresProse(pre: string, body: string, post: string)
    requires !Contains(pre, JsonFence)
    requires !Contains(body, Fence)
    requires body == [] || body[|body| - 1] != '`'
    requires post == [] || post[0] != '`'
    ensures Candidate(pre + JsonFence + body + Fence + post) == Strip(body)
  {
    var rest := body + Fence + post;
    var reply := pre + JsonFence + rest;
    assert pre + JsonFence + body + Fence + post == reply;
    JsonFenceNoStraddle(pre);
    FindAfterPrefix(pre, JsonFence, rest);
    assert reply[|pre| + |JsonFence|..] == rest;
    ClosedBodyIsFirst(body, post);
  }

  /** An unclosed ```json block runs to the end of the reply. */
  lemma UnclosedJsonBlock(pre: string, body: string)
    requires !Contains(pre, JsonFence)
    requires !Contains(body, Fence)
    ensures Candidate(pre + JsonFence + body) == Strip(body)
  {
    JsonFenceNoStraddle(pre);
    FindAfterPrefix(pre, JsonFence, body);
    assert (pre + JsonFence + body)[|pre| + |JsonFence|..] == body;
    assert !Contains(body, JsonFence) by {
      forall j | OccursAt(body, JsonFence, j) ensures false { JsonFenceIsFence(body, j); }
    }
  }

  /** With no ```json anywhere, the first ``` block's content is the candidate. */
  lemma PlainBlockIgnoresProse(pre: string, body: string, post: string)
    requires !Contains(pre + Fence + body + Fence + post, JsonFence)
    requires !Contains(pre, Fence) && (pre == [] || pre[|pre| - 1] != '`')
    requires !Contains(body, Fence) && (body == [] || body[|body| - 1] != '`')
    ensures Candidate(pre + Fence + body + Fence + post) == Strip(body)
  {
    var rest := body + Fence + post;
    var reply := pre + Fence + body + Fence + post;
    assert reply == pre + Fence + rest;
    assert Candidate(reply) == Strip(Before(rest, Fence)) by { PlainBlockRest(pre, rest); }
    assert Before(rest, Fence) == body by {
      FenceNoStraddle(body);
      BeforeFirst(body, Fence, post);
    }
  }

  /** With no ```json, the candidate is cut from what follows the first ```. */
  lemma PlainBlockRest(pre: string, rest: string)
    requires !Contains(pre + Fence + rest, JsonFence)
    requires !Contains(pre, Fence) && (pre == [] || pre[|pre| - 1] != '`')
    ensures Candidate(pre + Fence + rest) == Strip(Before(rest, Fence))
  {
    var reply := pre + Fence + rest;
    FenceNoStraddle(pre);
    FindAfterPrefix(pre, Fence, rest);
    assert reply[|pre| + |Fence|..] == rest;
  }

  /** A single ``` with no closing fence: the candidate runs to the end of the reply. */
  lemma UnclosedPlainBlock(pre: string, body: string)
    requires !Contains(pre + Fence + body, JsonFence)
    requires !Contains(pre, Fence) && (pre == [] || pre[|pre| - 1] != '`')
    requires !Contains(body, Fence)
    ensures Candidate(pre + Fence + body) == Strip(body)
  {
    FenceNoStraddle(pre);
    FindAfterPrefix(pre, Fence, body);
    assert (pre + Fence + body)[|pre| + |Fence|..] == body;
  }

  /** Without any fence the whole reply, stripped, is the candidate. */
  lemma NoFenceWholeReply(reply: string)
    requires !Contains(reply, Fence)
    ensures Candidate(reply) == Strip(reply)
  {
    assert !Contains(reply, JsonFence) by {
      forall j | OccursAt(reply, JsonFence, j) ensures false { JsonFenceIsFence(reply, j); }
    }
  }
}
