/**
 The fixed texts sent to the extraction model: the system instruction
 (`get_extraction_prompt`) and the three per-pattern prompts, into which the
 operator's memo is spliced verbatim.
 */
module Prompts {
  import opened PyStr
  import Response

  /** The example object the system instruction asks the model to fill in. */
  const InstructionTemplate: string :=
    "\n{\n"
    + "    \"date\": \"YYYY-MM-DD\",\n"
    + "    \"customer_name\": \"顧客名\",\n"
    + "    \"activity_detail\": \"活動内容の要約\",\n"
    + "    \"next_action\": \"次のアクション\"\n"
    + "}\n"

  const InstructionIntro: string :=
    "\nあなたは営業報告データを抽出するAIアシスタントです。\n"
    + "入力された情報から以下のフィールドを抽出し、厳密なJSON形式で出力してください。\n"
    + "\n"
    + "## 抽出フィールド:\n"
    + "- date: 活動日（YYYY-MM-DD形式）。明示されていない場合は今日の日付を使用。\n"
    + "- customer_name: 顧客名・会社名\n"
    + "- activity_detail: 活動内容の要約（簡潔に）\n"
    + "- next_action: 次に取るべきアクション\n"
    + "\n"
    + "## 出力形式:\n"
    + "必ず以下のJSON形式のみを出力してください。説明や前置きは不要です。\n"

  const InstructionOutro: string :=
    "\n\n情報が不明な場合は空文字列 \"\" を使用してください。\n"

  /** The system instruction: an introduction, the template in a ```json block, a closing note. */
  const SystemInstruction: string :=
    InstructionIntro + Response.JsonFence + InstructionTemplate + Response.Fence + InstructionOutro

  /** The prompt sent with the audio alone. */
  const AudioOnlyPrompt: string := "この音声ファイルの内容を聞き取り、営業報告データを抽出してください。"

  const TextOnlyLead: string := "以下のテキストから営業報告データを抽出してください:\n\n"

  /** The line that introduces the memo in the audio-and-text prompt. */
  const MemoLabel: string := "【テキストメモ（優先）】"

  const AudioMemoLead: string :=
    "\n音声ファイルの内容を分析し、営業報告データを抽出してください。\n"
    + "ただし、以下のテキストメモに記載された事実を優先してください:\n"
    + "\n"
    + MemoLabel + "\n"

  const AudioMemoTail: string :=
    "\n\n音声とテキストの両方から情報を統合して、最も正確な営業報告データを作成してください。\n"

  /** The text-only prompt is the fixed lead followed by the memo, character for character. */
  function TextOnlyPrompt(text: string): (p: string)
    ensures |p| == |TextOnlyLead| + |text|
    ensures p[..|TextOnlyLead|] == TextOnlyLead
    ensures p[|TextOnlyLead|..] == text
  {
    TextOnlyLead + text
  }

  /** The audio-and-text prompt holds the memo, unchanged, right after the line
      with the priority label and before the fixed closing request. */
  function AudioAndTextPrompt(text: string): (p: string)
    ensures |p| == |AudioMemoLead| + |text| + |AudioMemoTail|
    ensures p[..|AudioMemoLead|] == AudioMemoLead
    ensures p[|AudioMemoLead| - |MemoLabel| - 1..|AudioMemoLead|] == MemoLabel + "\n"
    ensures p[|AudioMemoLead|..|AudioMemoLead| + |text|] == text
    ensures p[|AudioMemoLead| + |text|..] == AudioMemoTail
  {
    var p := AudioMemoLead + text + AudioMemoTail;
    assert p[..|AudioMemoLead|] == AudioMemoLead;
    p
  }

  /** Different memos give different prompts: nothing of the memo is lost. */
  lemma PromptsInjective(a: string, b: string)
    ensures TextOnlyPrompt(a) == TextOnlyPrompt(b) ==> a == b
    ensures AudioAndTextPrompt(a) == AudioAndTextPrompt(b) ==> a == b
  {
    if AudioAndTextPrompt(a) == AudioAndTextPrompt(b) {
      assert |a| == |b|;
      assert a == AudioAndTextPrompt(a)[|AudioMemoLead|..|AudioMemoLead| + |a|];
    }
  }

  /** The memo occurs in both memo-bearing prompts as a contiguous piece. */
  lemma PromptsContainMemo(text: string)
    ensures IsSubstring(text, TextOnlyPrompt(text))
    ensures IsSubstring(text, AudioAndTextPrompt(text))
  {
    assert SubstringAt(text, TextOnlyPrompt(text), |TextOnlyLead|);
    assert SubstringAt(text, AudioAndTextPrompt(text), |AudioMemoLead|);
  }
}
