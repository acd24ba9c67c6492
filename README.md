# DeliteAI phoneme utilities and chat streaming, in Dafny

This project models two pieces of the DeliteAI repository and proves what they
promise.

- **UTF-8 and phoneme string utilities** of the NimbleNet runtime:
  - the continuation-byte test;
  - the lenient one-character decoder `get_next_utf8_char` and the encoder `append_utf8_char`;
  - the stress-marker test;
  - the two find-and-replace functions;
  - the 17-rule E2M phoneme rewrite table;
  - `process_phonemes`, which strips stress markers and then rewrites.

  Bytes are `bv8` and code points `bv32` (`char32_t`). A `std::string` or C
  string is a `seq<bv8>`. Every index at or past its end reads as the
  terminating NUL (`Utf8.ByteAt`). This gives the decoder's look-ahead and the
  `*src != '\0'` / `strData[strPos]` loops their C meaning.
- **The chat screen of the iOS example app** (`ChatViewController`):
  - the message list and the `isModelActive` flag;
  - `addMessage`, `updateLastBotMessage` and `stopLLM`;
  - the blank-prompt guard of `sendTapped`;
  - the streaming loop of `callModelStreaming`.

  The backend is a finite sequence of events, with two kinds:
  - `Poll(response)`: what the next `get_next_str` call returns;
  - `StopRequest`: a Stop tap whose `stopLLM` lands while the loop sleeps or a
    poll is pending.

  A used-up sequence answers every further poll with no payload.
  `Chat.Run` gives the chunks the loop consumes.
  `Chat.Feed`, `Chat.FeedAll` and `Chat.Finish` give the buffering and flush rule.
  `Chat.Session` is the whole call.

Files:
- `options.dfy`: the `Option` type;
- `utf8.dfy`: module `Utf8`;
- `replace.dfy`: module `Replace`;
- `phonemes.dfy`: module `Phonemes`;
- `chat.dfy`: module `Chat`.

Two behaviours of the code are easy to misread, and the model follows the code in both.
- The flush test `components(separatedBy: .whitespaces).count >= 3` fires as
  soon as the buffer holds two whitespace characters, not three words:
  `"a  "` flushes. `Chat.ComponentsCount` proves that the component count is
  the whitespace count plus one.
- A payload with the `"finished"` key ends the loop without reading its
  `"str"`, so only text that is already buffered is flushed.

## Model

| member | source | states |
|---|---|---|
| Utf8.IsUtf8Continuation | coreruntime/nimblenet/data_variable/include/nimble_net_data_variable.hpp:117-120 | A byte is a continuation byte exactly when it lies in 0x80..0xBF, that is, its top two bits are 10. |
| Utf8.WidthAt | coreruntime/nimblenet/data_variable/include/nimble_net_data_variable.hpp:135-171 | The advance is 1 to 4 bytes, never runs past the end of a string whose cursor is inside it, and every byte stepped over after the lead is a continuation byte. |
| Utf8.DecodeAt | coreruntime/nimblenet/data_variable/include/nimble_net_data_variable.hpp:123-172 | The decoder's advance is the length its lead byte announces when that lead is followed by enough continuation bytes, and one byte otherwise. |
| Utf8.DecodeAtFacts | coreruntime/nimblenet/data_variable/include/nimble_net_data_variable.hpp:123-172 | Every byte the decoder consumes after the lead is a continuation byte. A byte below 0x80 decodes to itself with advance 1. A non-ASCII byte consumed alone yields U+FFFD. A multi-byte read starts at a lead in 0xC0..0xF7. The result is below 0x200000. |
| Utf8.DecodeFallback | coreruntime/nimblenet/data_variable/include/nimble_net_data_variable.hpp:135-171 | A non-ASCII byte gives exactly U+FFFD with an advance of 1 when it is not a 2-, 3- or 4-byte lead followed by as many continuation bytes as it announces, and only then. |
| Utf8.EncodeUtf8 | coreruntime/nimblenet/data_variable/include/nimble_net_data_variable.hpp:175-203 | Writes 1, 2, 3 or 4 bytes for code points below 0x80, 0x800, 0x10000 and 0x110000, and nothing at or above 0x110000. The first byte is never a continuation byte and the rest always are. A nonzero code point writes no NUL. |
| Utf8.DecodeEncode | coreruntime/nimblenet/data_variable/include/nimble_net_data_variable.hpp:123-203 | Round trip: decoding the bytes written for any code point below 0x110000 returns that code point and advances over exactly those bytes, whatever follows them. |
| Utf8.EncodeDecode | coreruntime/nimblenet/data_variable/include/nimble_net_data_variable.hpp:123-203 | Reverse round trip: when re-encoding a decoded code point gives as many bytes as were consumed, it gives those very bytes. |
| Utf8.DecodeShift | coreruntime/nimblenet/data_variable/include/nimble_net_data_variable.hpp:123-172 | The decoder only looks at the bytes from the cursor on: a prefix before the cursor does not change the result. |
| Utf8.AppendUtf8Char | coreruntime/nimblenet/data_variable/include/nimble_net_data_variable.hpp:175-203 | Writes the encoding of the code point at the cursor, moves the cursor past it, and leaves every other byte of the buffer unchanged. |
| Replace.Find | coreruntime/nimblenet/data_variable/include/nimble_net_data_variable.hpp:228 | `std::string::find`: the result is the first occurrence at or after the start, and no occurrence means none at any index from the start on. |
| Replace.ReplaceAllUnchanged | coreruntime/nimblenet/data_variable/include/nimble_net_data_variable.hpp:218-219 | Left-to-right non-overlapping replacement leaves the string unchanged when `from` is empty or never occurs. |
| Replace.ReplaceAllBytes | coreruntime/nimblenet/data_variable/include/nimble_net_data_variable.hpp:216-256 | Every byte of the replacement's output comes from the input or from `to`. |
| Replace.ReplaceAllRemovesByte | coreruntime/nimblenet/data_variable/include/nimble_net_data_variable.hpp:216-256 | Replacing a one-byte pattern by a string without that byte leaves no such byte in the output. |
| Replace.BoundaryReplaceIsReplaceAll | coreruntime/nimblenet/data_variable/include/nimble_net_data_variable.hpp:228-250 | When `from` does not start with a continuation byte, no match is rejected. The boundary-respecting replacement is then plain left-to-right non-overlapping replacement. |
| Replace.BoundaryReplaceUnchanged | coreruntime/nimblenet/data_variable/include/nimble_net_data_variable.hpp:216-256 | `replace_substring` returns its input when `from` is empty or never occurs. |
| Replace.AsWrittenTurn | coreruntime/nimblenet/data_variable/include/nimble_net_data_variable.hpp:228-250 | One turn of the loop as written. An accepted match strictly advances `lastPos`. A rejected match leaves `lastPos`, the loop's only state, unchanged. |
| Replace.AsWrittenLoopStalls | coreruntime/nimblenet/data_variable/include/nimble_net_data_variable.hpp:228-250 | On `"A\x80"` with `from = "\x80"`, a turn of the loop as written rejects the match and returns to the same state, so the loop never ends. |
| Replace.AsWrittenStallsOnlyOnContinuation | coreruntime/nimblenet/data_variable/include/nimble_net_data_variable.hpp:228-250 | With a `from` that does not start with a continuation byte, no turn of the loop as written rejects a match. Every found match is accepted, as in the corrected loop. |
| Replace.ReplaceSubstring | coreruntime/nimblenet/data_variable/include/nimble_net_data_variable.hpp:216-256 | The corrected `replace_substring` returns the boundary-respecting replacement: each occurrence found left to right is replaced unless it starts on a continuation byte after the first position, and the search resumes after a replaced occurrence or one byte past a rejected one. `BoundaryReplaceIsReplaceAll` relates it to plain replacement. |
| Replace.HasMultibyteChars | coreruntime/nimblenet/data_variable/include/nimble_net_data_variable.hpp:268-276 | The scan finds a byte at or above 0x80 exactly when the pattern is not ASCII. |
| Replace.ReplaceSubstringRobust | coreruntime/nimblenet/data_variable/include/nimble_net_data_variable.hpp:259-309 | Returns the input for an empty `from`. An ASCII `from` takes the `replace_substring` path, which is plain replacement. Otherwise the output is the character-by-character walk, which stops at the first NUL. |
| Replace.RobustReplaceIsReplaceAll | coreruntime/nimblenet/data_variable/include/nimble_net_data_variable.hpp:259-309 | Take a NUL-free string and a `from` that does not start with a continuation byte. On both paths, `replace_substring_robust` is then plain left-to-right non-overlapping replacement. |
| Replace.RobustReplaceUnchanged | coreruntime/nimblenet/data_variable/include/nimble_net_data_variable.hpp:259-309 | On a NUL-free string, `replace_substring_robust` returns the input when `from` is empty or never occurs. |
| Replace.RobustReplaceBytes | coreruntime/nimblenet/data_variable/include/nimble_net_data_variable.hpp:259-309 | Every output byte of `replace_substring_robust` comes from the input or from `to`. |
| Phonemes.IsStressMarker | coreruntime/nimblenet/data_variable/include/nimble_net_data_variable.hpp:206-213 | A code point is a stress marker exactly when it is U+02C8 (primary stress), U+02CC (secondary stress) or '_'. It carries no contract of its own; `StressMarkerSpellings` states what it means for the bytes. |
| Phonemes.StressMarkerSpellings | coreruntime/nimblenet/data_variable/include/nimble_net_data_variable.hpp:206-213 | A code point is a stress marker (U+02C8, U+02CC or '_') exactly when its UTF-8 bytes are CB 88, CB 8C or 5F. |
| Phonemes.StripStress | coreruntime/nimblenet/data_variable/include/nimble_net_data_variable.hpp:353-364 | The stripping loop on the C string from the cursor: it stops at the first NUL, decodes one character at a time, and keeps that character's original bytes unless it is a stress marker. The output is never longer than the input. |
| Phonemes.StripStressEncoded | coreruntime/nimblenet/data_variable/include/nimble_net_data_variable.hpp:353-364 | On well-formed text without NUL, the stripping loop keeps exactly the UTF-8 bytes of the code points that are not stress markers, in order. |
| Phonemes.StripStressDropsUnderscore | coreruntime/nimblenet/data_variable/include/nimble_net_data_variable.hpp:353-364 | No '_' byte survives the stripping loop, on any input. |
| Phonemes.StripStressNulFree | coreruntime/nimblenet/data_variable/include/nimble_net_data_variable.hpp:353-364 | The stripping loop ends at the terminating NUL, and the bytes it keeps after a lead are continuation bytes, so no NUL byte reaches its output. |
| Phonemes.Rules | coreruntime/nimblenet/data_variable/include/nimble_net_data_variable.hpp:315-333 | The E2M table: the 17 (pattern, replacement) pairs in the order they are applied, as the UTF-8 bytes of the source's string literals. It is a constant and carries no contract; `RulesRemoveCaretAndColon`, `RulesKeepOutUnderscore` and `ApplyRulesBytes` state its properties. |
| Phonemes.AsciiRuleIsReplaceAll | coreruntime/nimblenet/data_variable/include/nimble_net_data_variable.hpp:278-282 | A non-empty ASCII rule is applied by plain left-to-right non-overlapping replacement. |
| Phonemes.RulesRemoveCaretAndColon | coreruntime/nimblenet/data_variable/include/nimble_net_data_variable.hpp:315-341 | The "^" and ":" rules come after every rule that could write those bytes, so the table's output has no '^' and no ':'. |
| Phonemes.ApplyRulesBytes | coreruntime/nimblenet/data_variable/include/nimble_net_data_variable.hpp:336-341 | Every byte the table outputs comes from its input or from the replacement of some rule. |
| Phonemes.RulesKeepOutUnderscore | coreruntime/nimblenet/data_variable/include/nimble_net_data_variable.hpp:315-341 | No rule writes '_', so input without '_' gives output without '_'. |
| Phonemes.TransformPhonemes | coreruntime/nimblenet/data_variable/include/nimble_net_data_variable.hpp:312-342 | Applies the 17 rules in table order, each through `replace_substring_robust`. The output holds no '^' and no ':'. |
| Phonemes.ProcessPhonemes | coreruntime/nimblenet/data_variable/include/nimble_net_data_variable.hpp:345-368 | A null pointer gives the empty string. Otherwise the output is the rule table applied to the input with its stress markers removed, and it holds no '^', ':' or '_'. |
| Chat.ComponentsCount | sdks/ios/example/DeliteAIExample/ChatViewController.swift:358 | Splitting on `.whitespaces` gives one more piece than there are whitespace characters. The flush test `count >= 3` therefore means "at least two whitespace characters". |
| Chat.ComponentsPieces | sdks/ios/example/DeliteAIExample/ChatViewController.swift:358 | No piece holds a separator, and the pieces joined together are the string with its separators removed. |
| Chat.TrimStart | sdks/ios/example/DeliteAIExample/ChatViewController.swift:200 | Trimming the front removes exactly the longest prefix of whitespace and newlines. The rest is a suffix of the input that does not start with one. |
| Chat.TrimEnd | sdks/ios/example/DeliteAIExample/ChatViewController.swift:200 | Trimming the back removes exactly the longest suffix of whitespace and newlines. The rest is a prefix of the input that does not end with one. |
| Chat.TrimBlank | sdks/ios/example/DeliteAIExample/ChatViewController.swift:200 | A string trims to the empty string exactly when every character is whitespace or a newline. |
| Chat.Prompt | sdks/ios/example/DeliteAIExample/ChatViewController.swift:200 | The guard rejects the prompt exactly when the field is nil or all whitespace and newlines. An accepted prompt is the non-empty trimmed text. |
| Chat.UpdateLastBot | sdks/ios/example/DeliteAIExample/ChatViewController.swift:224-236 | When the last row is a bot row, its text is replaced and the count stays. Otherwise one bot row is appended. Either way the last row is the bot text and every earlier row is unchanged. |
| Chat.UpdateLastBotTwice | sdks/ios/example/DeliteAIExample/ChatViewController.swift:224-236 | Two updates in a row act as the second one alone. |
| Chat.ApplyUpdatesLast | sdks/ios/example/DeliteAIExample/ChatViewController.swift:361 | All the updates one streaming call queues act as its last update alone, or as nothing when there were none. |
| Chat.Run | sdks/ios/example/DeliteAIExample/ChatViewController.swift:338-368 | The chunks the loop consumes from the events. A stop tap clears the flag. A response with no payload or with the "finished" key ends the loop. Any other poll contributes its chunk, and the loop goes on only while the flag is set. It never consumes more chunks than there are events, and at most one once the flag is clear. |
| Chat.StoppedRunIsOnePoll | sdks/ios/example/DeliteAIExample/ChatViewController.swift:338-368 | With the flag clear, the loop consumes at most one chunk and reads nothing past the next poll. |
| Chat.StopEndsAfterOnePoll | sdks/ios/example/DeliteAIExample/ChatViewController.swift:316-319 | After `stopLLM` clears the flag, the loop exits at the next flag check: events after the first poll that follows the stop never matter. |
| Chat.EndingResponseEndsRun | sdks/ios/example/DeliteAIExample/ChatViewController.swift:340-354 | A response without payload, or with the "finished" key, adds no text and ends the loop. Nothing after it is read. |
| Chat.Feed | sdks/ios/example/DeliteAIExample/ChatViewController.swift:356-363 | A chunk keeps output plus buffer equal to what came before plus the chunk. At two or more whitespace characters the buffer moves to the output, is emptied, and the new output is published. Otherwise output and published list stay. The buffer never keeps two whitespace characters. |
| Chat.FeedAllKeepsText | sdks/ios/example/DeliteAIExample/ChatViewController.swift:356-363 | The loop invariant: output plus buffer always equals the concatenation of all chunks consumed so far. |
| Chat.FeedAllGrowing | sdks/ios/example/DeliteAIExample/ChatViewController.swift:356-363 | Each published string is a strict prefix of the next. The last one is the current output, and nothing is published while the output is empty. |
| Chat.Finish | sdks/ios/example/DeliteAIExample/ChatViewController.swift:370-375 | The flush after the loop. A non-empty buffer is appended to the output, and the new output is published once more. An empty buffer changes nothing, so no update is published. |
| Chat.SessionOutput | sdks/ios/example/DeliteAIExample/ChatViewController.swift:328-376 | The returned string is the concatenation of every consumed chunk, because the remainder is flushed after the loop. No buffered text is left out of the final state, and the published strings form a growing chain ending in the output. |
| Chat.SessionMessages | sdks/ios/example/DeliteAIExample/ChatViewController.swift:361-373 | After a streaming call, the message list is unchanged if nothing was produced. Otherwise its last bot row holds the whole output. |
| Chat.ChatController.constructor | sdks/ios/example/DeliteAIExample/ChatViewController.swift:13-14 | A new screen has no messages and no running call, as the declarations of `messages` and `isModelActive` give. The prompt field starts empty; that comes from the default text of the `UITextField`, not from these lines. |
| Chat.ChatController.AddMessage | sdks/ios/example/DeliteAIExample/ChatViewController.swift:216-222 | Appends exactly one `(text, isUser)` row at the end and changes nothing else. |
| Chat.ChatController.UpdateLastBotMessage | sdks/ios/example/DeliteAIExample/ChatViewController.swift:224-236 | Edits the list as `UpdateLastBot` says and changes nothing else. |
| Chat.ChatController.StopLLM | sdks/ios/example/DeliteAIExample/ChatViewController.swift:316-319 | Clears `isModelActive` and changes nothing else. |
| Chat.ChatController.GetNextStr | sdks/ios/example/DeliteAIExample/ChatViewController.swift:339 | One poll: every stop tap pending before the answering poll runs `stopLLM`, so the flag stays set only when no tap came first. The answer is that poll's response, or no payload once the events are used up, and the run from the new position is the run from the old one. |
| Chat.ChatController.CallModelStreaming | sdks/ios/example/DeliteAIExample/ChatViewController.swift:328-376 | Returns the output of `Session` and leaves the flag clear. The message list receives every published update in order. |
| Chat.ChatController.SendTapped | sdks/ios/example/DeliteAIExample/ChatViewController.swift:187-214 | While a call runs, the tap stops it and nothing else changes. A blank prompt changes nothing: no row and no call. Any other prompt clears the field, adds one user row with the trimmed text, and runs a streaming call whose updates follow that row. |

## Left out

- `Replace.ReplaceSubstring` models the corrected loop, which resumes the search one byte past a rejected match. The loop as written does not terminate on such a match (see Findings). Its single turns are modelled by `Replace.AsWrittenTurn`.
- `Utf8.AppendUtf8Char` requires the buffer to have room for the bytes it writes. The C function writes through a raw pointer and leaves this to its caller.
- `Utf8.DecodeAt` is a function from a string and a cursor to the code point and the advance. It is not a method updating a `const char *&`. There is no loop to model, and the new cursor is the old one plus the advance.
- The E2M table appears as the UTF-8 bytes of its string literals, with each rule's characters in a comment. The compiler's encoding of the source literals is not modelled.
- `std::string::reserve` and other capacity handling do not change any result and are left out.
- `convertTextToPhonemes`, `initializeEspeak` and the other members declared in the header are not part of this model. They call espeak or code whose bodies are not shown, or they work on floats.
- `Chat.ChatController.CallModelStreaming` leaves out:
  - the runtime calls `prompt_llm`, `get_next_str` and `stop_running`: the prompt is not passed anywhere, and responses come from the event sequence;
  - the copy of the payload into `NimbleNetTensor` values: a payload is reduced to its "finished" key and its "str" value, when that value is a string;
  - the `print` of "No payload".
- Concurrency is reduced to one order of events:
  - the `DispatchQueue` hops and the `Thread.sleep` are not modelled;
  - a Stop tap takes effect between two polls;
  - main-queue blocks run in the order they are queued, as if immediately;
  - races on `isModelActive` between the main queue and the background loop are not modelled. One example: a second Send tap before the background call has set the flag.
- Button titles, table reloads, scrolling, `checkScrollPosition`, `isTableViewAtBottom` (floating-point geometry), layout and `MessageCell` are UI and not part of this model. So is the readiness poll in `initializeNimbleNet`.
- Swift strings are modelled as sequences of Unicode scalars. `components(separatedBy:)` and `trimmingCharacters(in:)` work on UTF-16 units. Every separator character is a single BMP scalar, so counts and trims agree on these inputs.

## Findings

| source | as written | input that shows it | evidently intended | confidence | as-written member | corrected member |
|---|---|---|---|---|---|---|
| coreruntime/nimblenet/data_variable/include/nimble_net_data_variable.hpp:228-250 | On a match rejected at a continuation byte, `pos++; continue;` goes back to `str.find(from, lastPos)` with `lastPos` unchanged, so the same match is found and rejected forever | `str = "A\x80"`, `from = "\x80"` | skip the rejected match and search again from `pos + 1` | not executed | Replace.AsWrittenLoopStalls | Replace.ReplaceSubstring |
