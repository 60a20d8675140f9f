/**
 The choice made when the operator presses the submit button: reject the
 request, or extract from audio and memo, audio alone, or memo alone.
 */
module Routing {
  import opened PyStr

  datatype Route =
    | Rejected
    | AudioWithMemo(memo: string)
    | AudioOnly
    | TextOnly(memo: string)

  /** `text.strip()` is empty. */
  predicate Blank(text: string) {
    Strip(text) == []
  }

  /** A memo counts only if something other than whitespace is in it; the memo
      passed on is the one typed, not its stripped form. */
  function RouteInput(hasAudio: bool, memo: string): (r: Route)
    ensures r.Rejected? <==> !hasAudio && AllSpace(memo)
    ensures r.AudioWithMemo? <==> hasAudio && !AllSpace(memo)
    ensures r.AudioOnly? <==> hasAudio && AllSpace(memo)
    ensures r.TextOnly? <==> !hasAudio && !AllSpace(memo)
    ensures (r.AudioWithMemo? || r.TextOnly?) ==> r.memo == memo
  {
    if !hasAudio && Blank(memo) then Rejected
    else if hasAudio && !Blank(memo) then AudioWithMemo(memo)
    else if hasAudio then AudioOnly
    else TextOnly(memo)
  }

  /** A memo of full-width spaces and line breaks is blank: with no audio the
      request is refused, with audio the memo is dropped. */
  lemma WhitespaceMemoIsBlank()
    ensures RouteInput(false, "\U{3000}\n \t") == Rejected
    ensures RouteInput(true, "\U{3000}\n \t") == AudioOnly
  {
    var m := "\U{3000}\n \t";
    assert IsSpace(m[0]) && IsSpace(m[1]) && IsSpace(m[2]) && IsSpace(m[3]);
    assert AllSpace(m);
  }

  /** A memo is passed on with its surrounding whitespace kept. */
  lemma MemoKeptUnstripped()
    ensures RouteInput(false, " 商談メモ\n") == TextOnly(" 商談メモ\n")
  {
    var m := " 商談メモ\n";
    assert !IsSpace(m[1]);
  }
}
