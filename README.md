# Sales report app: the deterministic core, in Dafny

The application (`app.py`) takes a voice recording, a text memo, or both. It
asks the Gemini model to turn them into a sales-report record with four keys
(`date`, `customer_name`, `activity_detail`, `next_action`). It recovers the
JSON from the model's reply and is meant to post the record to a Kintone app. Around that
flow sits a small amount of pure string and record logic. This project models
that logic and proves what it guarantees:

- **Fence recovery** (`parse_json_response`), module `Response`. The candidate
  JSON text comes from the first ```` ```json ```` block. Failing that, it
  comes from the first ```` ``` ```` block. Failing that, it is the whole
  reply. The result is always stripped. The code uses Python's `split`, `in`,
  `strip` and list indexing. Module `PyStr` gives their exact semantics,
  including Python's full set of Unicode whitespace, so the full-width space
  U+3000 counts as whitespace. The JSON parser `json.loads` is a parameter
  that yields a value, a JSONDecodeError (caught, giving None), or another
  exception (not caught, ending in the AI-error branch at app.py:339-341).
- **Input routing** (the submit handler in `main`), modules `Routing` and
  `Report`. A request is refused, or handled as audio+memo, audio only or
  memo only. "Blank" means `memo.strip()` is empty.
- **Prompt assembly** (`get_extraction_prompt` and `process_*`), module
  `Prompts`. The system instruction `Prompts.SystemInstruction` (app.py:58-82)
  and the audio-only prompt `Prompts.AudioOnlyPrompt` (app.py:95) are the
  fixed texts, character for character. The text-only and audio+memo prompts
  (app.py:108, app.py:124-132) splice the memo in verbatim.
- **Saved-file naming** (`save_audio_file`), module `AudioFile`. The name is
  `saved_audio/<YYYYMMDD_HHMMSS>_<stem><suffix>`. The clock reading is a
  parameter. `pathlib`'s `name`, `stem` and `suffix` are modelled exactly.
- **Kintone payload** (`upload_to_kintone`), module `Kintone`. If the
  configuration is incomplete, no request is built. Otherwise the request
  carries the app id and a record with exactly four field codes. Each field is
  `{"value": data.get(key, "")}`. The HTTP post is a parameter.

The whole core is pure: it is made of functions and lemmas. The only state
changes in the source are the file write, the HTTP post and the UI, and those
are I/O.

An opening fence without a closing one does not raise IndexError. Once the
`in` test holds, `split` yields at least two pieces, and `[0]` of a split
always exists, so IndexError never reaches the handler at app.py:150-153
(`Response.FencedText`); the handler is reached only when `json.loads` raises
JSONDecodeError, and then `parse_json_response` returns None
(`Response.ParseJsonResponse`). An unclosed block runs to the end of the reply
(`Response.UnclosedJsonBlock`).

## Model

| member | source | states |
|---|---|---|
| PyStr.Find | app.py:142-144 | `find` returns the first index where the separator occurs, or None exactly when it occurs nowhere |
| PyStr.Contains | app.py:142-144 | Python's `sep in s` holds exactly when `sep` occurs at some index of `s` |
| PyStr.Before | app.py:143-145 | the text before the first separator is a prefix of the input that holds no separator; it is shorter than the input exactly when the separator occurs |
| PyStr.Split | app.py:143-145 | `s.split(sep)` has at least one piece, and two or more exactly when `sep in s`; no piece contains `sep`; joining the pieces with `sep` gives back `s` |
| PyStr.SplitPieces | app.py:143-145 | piece 0 of a split is the text before the first separator; piece 1, when the separator occurs, is the text between the first and the second separator (or the end) |
| PyStr.At | app.py:143-150 | list indexing yields a value exactly when the index is in range, and that value is the element; otherwise it is the IndexError |
| PyStr.Strip | app.py:143-147 | `strip()` gives a contiguous piece of the input with no whitespace at either end; it is empty exactly when the input is all whitespace |
| PyStr.StripPadded | app.py:143-147 | stripping removes exactly the surrounding whitespace and keeps everything between, whatever whitespace it holds inside |
| PyStr.StripIdempotent | app.py:143-147 | stripping a stripped text changes nothing |
| PyStr.LStrip | app.py:143-147 | the leading-whitespace cut is a suffix of the input, all that it removed is whitespace, and it does not start with whitespace |
| PyStr.RStrip | app.py:143-147 | the trailing-whitespace cut is a prefix of the input, all that it removed is whitespace, and it does not end with whitespace |
| PyStr.FindAfterPrefix | app.py:142-145 | in `a + sep + b`, the first separator is right after `a` when no separator straddles the end of `a` |
| PyStr.BeforeFirst | app.py:143-145 | cutting `a + sep + b` at its first separator gives `a` back under the same condition |
| PyStr.SubstringKeepsAbsence | app.py:143-147 | a contiguous piece of a text without the separator holds no separator either |
| PyStr.ContainsChar | app.py:166-170 | for a one-character separator, `in` is plain character membership |
| PyStr.RFindChar | app.py:166-167 | `rfind` of a character gives its last index, or None when the character is absent |
| Response.Candidate | app.py:142-147 | the candidate JSON text never contains a ``` fence |
| Response.FencedText | app.py:140-150 | the split-and-index extraction never reaches the IndexError handler, and it yields the candidate text |
| Response.ParseJsonResponse | app.py:138-153 | for the candidate text, a parsed value is returned exactly, a JSONDecodeError gives None, and any other parser exception passes through uncaught |
| Response.JsonBlockIgnoresProse | app.py:142-143 | for prose + ```json + body + ``` + prose, the candidate is the stripped body, whatever the prose before and after |
| Response.UnclosedJsonBlock | app.py:142-143 | a ```json block with no closing fence yields the rest of the reply, stripped |
| Response.PlainBlockIgnoresProse | app.py:144-145 | with no ```json anywhere, prose + ``` + body + ``` + prose yields the stripped body |
| Response.UnclosedPlainBlock | app.py:144-145 | a single ``` and no ```json yield the rest of the reply after the fence, stripped |
| Response.NoFenceWholeReply | app.py:146-147 | a reply without any fence yields the whole reply, stripped |
| Response.JsonFenceIsFence | app.py:142-144 | every ```json occurrence is also a ``` occurrence, so the ```json test comes first for a reason |
| Response.JsonFenceNoStraddle | app.py:142-143 | a ```json cannot overlap the end of text that holds none, because the marker has no overlap with itself |
| Response.FenceNoStraddle | app.py:143-145 | a ``` cannot overlap the end of text that holds none and does not end in a backtick |
| Response.NoJsonFenceInClose | app.py:143 | no ```json can start inside a closing ``` unless a backtick follows that fence |
| Response.JsonFenceAfterClose | app.py:143 | after body + ```, the first ```json, if any, is at the fence or after it |
| Response.ClosedBodyIsFirst | app.py:143 | cutting body + ``` + tail at ```json and then at ``` leaves exactly the body |
| Prompts.TextOnlyPrompt | app.py:108 | the text-only prompt is the fixed lead `以下のテキストから営業報告データを抽出してください:` and a blank line, followed by the memo character for character |
| Prompts.AudioAndTextPrompt | app.py:124-132 | the audio+memo prompt is the fixed lead, ending with the line `【テキストメモ（優先）】`, then the memo unchanged, then the fixed closing request |
| Prompts.PromptsInjective | app.py:108-129 | different memos give different prompts, so nothing of the memo is lost |
| Prompts.PromptsContainMemo | app.py:108-129 | the memo occurs as a contiguous piece of both memo-bearing prompts |
| Routing.RouteInput | app.py:310-337 | refused exactly when there is no audio and the memo is all whitespace; audio+memo, audio only and memo only in the other three cases; the memo passed on is the one typed |
| Routing.WhitespaceMemoIsBlank | app.py:310-331 | a memo of full-width spaces, tabs and line breaks is blank: refused without audio, dropped with audio |
| Routing.MemoKeptUnstripped | app.py:334-337 | the memo handed on keeps its surrounding whitespace |
| AudioFile.ZeroPadded | app.py:165 | a number below 10^width is written in exactly `width` digits whose decimal value is the number |
| AudioFile.Timestamp | app.py:165 | `%Y%m%d_%H%M%S` is 15 characters: digits with `_` at position 8, and each field reads back from its fixed position |
| AudioFile.TimestampInjective | app.py:164-165 | different clock readings give different timestamps |
| AudioFile.Components | app.py:166-167 | the kept components are the pieces that are neither empty nor `.`, each kept piece appears, and there are none exactly when every piece is dropped |
| AudioFile.LastKept | app.py:166-167 | the last kept component is the last piece between slashes that is neither empty nor `.` |
| AudioFile.Name | app.py:166-167 | `Path(name).name` is the last piece between slashes that is neither empty nor `.`, or `""` exactly when there is no such piece; it holds no slash |
| AudioFile.Suffix | app.py:167 | the suffix is empty, or it starts with the name's last dot, holds no other dot, and that dot neither opens nor ends the name |
| AudioFile.Stem | app.py:166 | stem followed by suffix rebuilds the final name component; the stem is non-empty whenever there is a suffix |
| AudioFile.SuffixAtLastDot | app.py:166-167 | for `stem.ext` with no dot in `ext`, the suffix is `.ext` and the stem is `stem` |
| AudioFile.LeadingDotIsNoSuffix | app.py:166-167 | a name whose only dot opens it has no suffix, and its stem is the whole name |
| AudioFile.NameOfBareName | app.py:166-167 | a bare file name is its own final component |
| AudioFile.TimestampHasNoSlash | app.py:165-168 | the timestamp holds no path separator |
| AudioFile.SavedFileName | app.py:164-168 | the saved name is the timestamp, `_`, then the upload's final name component unchanged, and it holds no slash |
| AudioFile.JoinedPathParts | app.py:170 | `dir / name` splits back into the directory and the name, and the name is its final component |
| AudioFile.SavedPath | app.py:168-170 | the saved path lies directly in `saved_audio`, and its final component is the saved file name |
| Kintone.Record | app.py:217-237 | the record has exactly the field codes 日付, 顧客名, 活動内容 and 次回アクション; each is `{"value": data.get(key, "")}` for its key |
| Kintone.ReadBackRecord | app.py:217-237 | reading the record back gives the four mapped keys with their values, an absent key as `""`, and no other key |
| Kintone.RecordDependsOnMappedKeysOnly | app.py:217-237 | two dicts give the same record exactly when they agree on the four mapped keys |
| Kintone.UnmappedKeyDropped | app.py:217-237 | adding a key outside the mapping leaves the record unchanged |
| Kintone.BuildRequest | app.py:200-237 | a request exists exactly when subdomain, app id and token are all set and non-empty; it posts to the subdomain's record endpoint with the token header, `Content-Type: application/json` and the body `{app, record}` |
| Kintone.UploadToKintone | app.py:200-254 | false with incomplete configuration; otherwise true exactly when the post created a record |
| Report.CallFor | app.py:85-135 | every generation call carries the fixed system instruction; audio is attached except on the memo-only route; audio+memo sends the audio+memo prompt, audio only the audio-only prompt, memo only the text-only prompt |
| Report.SavedPathFor | app.py:322-331 | a file is saved exactly when audio was uploaded, at `saved_audio/` followed by the timestamped name |
| Report.Submit | app.py:307-341 | refused exactly when there is no audio and the memo is blank; otherwise one generation call; the result is the parsed candidate text of its reply, None after a JSONDecodeError, or the AI error when the call or the parser raised something else |
| Report.CallCarriesInputs | app.py:321-337 | a non-blank memo appears verbatim in the prompt; audio goes along exactly when uploaded; a blank memo next to audio is not sent |

## Left out

- Streamlit: page layout, widgets, warnings, spinners and `st.stop`. The results display (app.py:343-390) is also left out. That covers the truthiness test on the extracted data, the second button, and the `.get` calls that fail when the model returns JSON that is not an object.
- Gemini: `init_gemini`, `genai.configure`, `upload_file` and `generate_content`. They are network calls. They appear as one parameter, `generate`, which takes the call (instruction, saved audio path, prompt) and returns the reply text or None when it raises.
- `json.loads` is a library parser. It appears as the parameter `loads`, whose result says which of its three endings occurs; when it raises something other than JSONDecodeError (RecursionError, ValueError) is not modelled. Integers (`JInt`) and other numbers (`JFloat`) are kept apart as Python keeps `int` and `float` apart, but a `JFloat` is an exact `real`: the NaN and Infinity values that `json.loads` accepts, and the rounding to a binary float, are not represented.
- `requests.post`, `raise_for_status` and `response.json()` are network I/O. They appear as the parameter `post`. The success message and its record id are display only.
- File writing, `init_directories`, `datetime.now()`, `load_dotenv` and `os.getenv` are filesystem, clock and environment I/O. The clock reading and the configuration are parameters. A failed write, which the handler at app.py:339 would report, is not modelled.
- AudioFile.Timestamp: writes the year in four zero-padded digits. glibc's `%Y` prints years below 1000 with fewer digits.
- AudioFile.Name: follows POSIX `pathlib` rules, where `/` is the only separator. Windows paths are not modelled.
- AudioFile.Suffix: follows the rule that a suffix needs its dot strictly inside the name (`0 < i < len(name) - 1`).
- Response.JsonBlockIgnoresProse: requires that the block body not end in a backtick and that the text after the closing fence not start with one. When four or more backticks run together, the code cuts at a different place. `Response.Candidate` states the exact cut for every reply.
- Response.ParseJsonResponse: a candidate text `null` makes `json.loads` return Python `None`, the same value `parse_json_response` returns on a parse failure. The model keeps the two apart, as `Some(JNull)` and `None`.
- The upload as written: the only call to `upload_to_kintone` (app.py:388) sits under a second `st.button` (app.py:386), inside the branch of the first button (app.py:307). A Streamlit button is true only on the rerun its own click triggers, so on that rerun the outer branch is not taken and the post looks unreachable. The model describes the upload as the function defines it.
- Response.PlainBlockIgnoresProse: requires that neither the prose before the block nor the block body end in a backtick, for the same reason.
