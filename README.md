# VarietyBot chat turn, modelled in Dafny

VarietyBot is a Streamlit chat page that answers questions about an uploaded
PDF. Each page of the PDF is cut into chunks of up to 1000 characters, with up
to 200 characters of overlap, within each page.
For each question the script retrieves the chunks most similar to it and sends
Gemini a prompt made of those chunk texts and the question. This project models
the logic the script itself performs around one chat turn. Library calls are
not modelled.

- **Prompt assembly** (`prompt.dfy`). The retrieved chunk texts are joined with
  `"\n\n--\n\n"` and wrapped in the fixed template
  `"Answer this query based on the Context: \n" … "?\nQuestion: \n" <question>`.
- **Question recovery** (`extract_user_question`, `prompt.dfy`). The parts of
  a stored message are scanned from last to first. The first part holding
  `"Question:"` gives `text.split("Question:")[1].strip()`; if no part holds
  it, the result is None.
- **Word streaming** (`stream`, `streaming.dfy`). The answer text is split on
  `" "` and each word is emitted with a trailing space. The result is a
  method with a loop, proved against a specification function.
- **Chat page logic** (`chat.dfy`):
  - `role_name`, the role-to-avatar map;
  - the history display rule, including its literal lower-case `"content"` test;
  - the chat session's history, with `clear_chat_convo` and the rendering loop;
  - the non-blank input guard, and the prompt an accepted input leads to.
- **Python string operations** (`pystr.dfy`) used by the above:
  - `m in s` and `s.find(m)`;
  - `s.split(sep)`, which keeps empty fields;
  - `sep.join(parts)`;
  - `s.strip()`, over the full `str.isspace` character set.

The code joins the chunk texts unescaped and finds the question again by
substring search and strip. So the round-trip lemmas need every chunk text and
the question to be free of `"Question:"`, and the question comes back stripped.

## Model

| member | source | states |
|---|---|---|
| Prompt.AssemblePrompt | VarietyBot.py:68-71 | the prompt starts with the template's head and ends with the question as asked |
| Prompt.PromptMarkerIndex | VarietyBot.py:68-71 | when no chunk text holds "Question:", the first marker in the prompt is the template's own, right after the chunk texts and "?\n" |
| Prompt.PromptSecondField | VarietyBot.py:68-71 | in such a prompt, the second field of split("Question:") is " \n" followed by the question's own first field |
| Prompt.ExtractUserQuestion | VarietyBot.py:98-104 | a recovered question has no whitespace at either end; ExtractNoneIffUnmarked, ExtractFromLastMarkedPart and QuestionBetweenMarkers determine the result for every part list |
| Prompt.QuestionAfterMarker | VarietyBot.py:104 | the recovered text has no whitespace at either end |
| Prompt.QuestionBetweenMarkers | VarietyBot.py:104 | the recovered text is the stripped text between the first "Question:" and the next one, or the end of the text |
| Prompt.ExtractNoneIffUnmarked | VarietyBot.py:98-104 | nothing is recovered exactly when no part contains "Question:"; a recovered question is stripped |
| Prompt.ExtractFromLastMarkedPart | VarietyBot.py:100-104 | the question comes from the last part, in list order, whose text contains "Question:" |
| Prompt.ExtractFromAssembledPrompt | VarietyBot.py:98-104 | from a part list ending in an assembled prompt whose chunk texts lack the marker, the recovered question is the question's text before its own first marker, stripped |
| Prompt.QuestionRoundTrip | VarietyBot.py:98-104 | when neither the chunk texts nor the question contain "Question:", recovery from the stored prompt gives strip(question), whatever parts come before it |
| PyStr.IndexOf | VarietyBot.py:102 | the result is the first position where the marker occurs; None means it occurs nowhere |
| PyStr.Contains | VarietyBot.py:102 | `m in s` holds exactly when `m` occurs at some position of `s` |
| PyStr.Join | VarietyBot.py:68 | joining no parts gives the empty string, and a join starts with its first part; JoinSplit makes it the inverse of split |
| PyStr.Split | VarietyBot.py:104 | split always yields at least one field |
| PyStr.SplitHasSecondField | VarietyBot.py:104 | split yields a second field exactly when the separator occurs |
| PyStr.SplitFieldsLackSeparator | VarietyBot.py:93 | no field of a split contains the separator |
| PyStr.JoinSplit | VarietyBot.py:93 | joining the fields of a split with the same separator gives back the text |
| PyStr.SplitCount | VarietyBot.py:93 | splitting on one character yields one field more than the character's occurrences |
| PyStr.Strip | VarietyBot.py:104 | strip returns the infix between leading and trailing whitespace, with no whitespace at either end, and is empty exactly when the text is all whitespace |
| PyStr.StripAfterWhitespace | VarietyBot.py:104 | leading whitespace does not change what strip returns |
| Streaming.Fragments | VarietyBot.py:92-94 | there is at least one fragment, and every fragment ends in a space; FragmentsRoundTrip, FragmentCount and FragmentShape give the concatenation, the count and the shape of each fragment |
| Streaming.Stream | VarietyBot.py:92-95 | fragment k is word k followed by one space; there are count(text, " ") + 1 fragments; each ends in its only space; their concatenation is text + " " |
| Streaming.FragmentsRoundTrip | VarietyBot.py:92-94 | the fragments glue back to the answer text followed by one space |
| Streaming.FragmentCount | VarietyBot.py:93 | there is one fragment per space in the answer, plus one |
| Streaming.FragmentShape | VarietyBot.py:94 | every fragment is a space-free word followed by one space |
| Chat.RoleName | VarietyBot.py:83-89 | "model" maps to bot.png, "user" to user.png, and every other role to None, each as an if-and-only-if |
| Chat.DisplayedText | VarietyBot.py:147-157 | a bubble is left empty only when its first part mentions "content"; what is shown is either the first part unchanged or a non-empty stripped question; DisplayRule gives the exact rule |
| Chat.DisplayRule | VarietyBot.py:147-157 | a first part without "content" is shown unchanged; with it, something is shown exactly when some part holds "Question:" and the recovered question is not empty, and what is shown is that question, non-empty and stripped |
| Chat.ContentWithoutMarkerShowsNothing | VarietyBot.py:148-154 | a message whose first part mentions "content" and none of whose parts holds "Question:" (a bot answer, say) gets an empty bubble |
| Chat.PromptShownWhole | VarietyBot.py:148-157 | because the test looks for lower-case "content" and the template says "Context", a stored prompt whose chunk texts and question lack "content" is shown whole, template included |
| Chat.QuestionShownWhenItSaysContent | VarietyBot.py:148-154 | a stored prompt whose question mentions "content" (and whose chunk texts and question lack the marker) is shown as the stripped question |
| Chat.Render | VarietyBot.py:142-157 | a message gets one bubble exactly when its role is "model" or "user"; a message with another role needs no part; the bubble carries its role, the role's avatar and the text the display rule picks |
| Chat.Rendered | VarietyBot.py:140-146 | a history gets at most one bubble per message, and only messages with a known role need a part; RenderedConcat, RenderedRoles and RenderedKnownRoles give the order, the roles and each bubble |
| Chat.RenderedConcat | VarietyBot.py:140-157 | rendering a history is rendering its parts in order: bubbles keep the order of their messages |
| Chat.RenderedRoles | VarietyBot.py:140-146 | only messages whose role is "model" or "user" get a bubble, and a bubble carries its role's avatar |
| Chat.RenderedKnownRoles | VarietyBot.py:140-157 | when every role is known, message k gets bubble k with its role, its avatar and the text the display rule picks |
| Chat.ChatSession.RenderHistory | VarietyBot.py:140-157 | the loop lays out exactly the bubbles of the whole history, at most one per message, each with bot.png or user.png |
| Chat.ChatSession.ClearChatConvo | VarietyBot.py:79-80 | after clearing, the history is empty; only the history field may change |
| Chat.ChatSession.constructor | VarietyBot.py:132-137 | a chat starts with an empty history |
| Chat.AcceptsQuestion | VarietyBot.py:163 | an input is processed exactly when it is present and has a character that is not whitespace |
| Chat.PromptForInput | VarietyBot.py:163-172 | no prompt is produced exactly when there is no input or it is all whitespace; a produced prompt starts with the template's head and ends with the input as typed |
| Chat.AcceptedQuestionRecoverable | VarietyBot.py:163-172 | an accepted input whose text and chunk texts lack the marker comes back from its stored prompt as the non-empty stripped input |

## Left out

- Streamlit UI is not modelled because it is display plumbing: page setup, CSS, sidebar, file uploader, `chat_message`, `write`, `write_stream` and `markdown`. A bubble is modelled as its role, avatar and displayed text.
- PDF loading and writing the upload to disk are file I/O, so they are not modelled.
- Chunking by `RecursiveCharacterTextSplitter` is a library call whose algorithm is not part of this model.
- Embedding and FAISS (build, save, load, similarity search) are library calls over float vectors. The retrieved chunk texts are a parameter (`contexts`), in the order the search returned them.
- Gemini (`GenerativeModel`, `start_chat`, `send_message`) is a network client. The stored history is the `history` field of `ChatSession`. Appending the prompt and the answer is done by the library and is not modelled.
- The list check in `get_embeddings_and_store_pdf` guards a library call that is not modelled.
- `time.sleep` in `stream` is timing only. The yielded fragments are modelled as the sequence `Stream` returns.
- Chat.DisplayedText: requires a non-empty part list. For a message with role "model" or "user" and no parts, the source raises IndexError at `message.parts[0]`, and that crash is not modelled. A message with any other role is skipped before its parts are read, and the model accepts it without parts.
- Prompt.AssemblePrompt: Python's f-string is modelled as plain concatenation; strings are sequences of Unicode scalar values and no encoding is modelled.
