# NPC conversation model

A Dafny model of the one piece of logic in a small top-down pygame adventure:
the `NPC` class in `code/npc.py`. In the game, an NPC shows a static greeting
while the player stands within 150 pixels. Pressing E opens a conversation. The
player types a line, Return sends it to a locally hosted language model, and the
model's streamed reply is shown word-wrapped in a dialogue box.

The model has three modules, one per part of the class:

- `TextLayout` (`text_layout.dfy`) models `wrap_text`. It covers Python's
  `str.split(' ')` and `' '.join`, the greedy placement as a fold (`Wrap`), and
  the loop itself (`WrapText`), which is proved equal to the fold. The font is
  an arbitrary measure `width: string -> int`.
- `InferenceClient` (`inference_client.dfy`) models `get_llama_response`. It
  covers the framing of the prompt, the request (URL and model name), the fold
  over the streamed records up to the first `done`, Python's `str.strip()`, and
  how exceptions become an `"Error: "` answer. The HTTP service is a function
  `service: Request -> Reply`. A reply is either a connection error or a stream
  of lines that are blank, decoded records, or lines that fail to decode.
- `NpcInteraction` (`npc.dfy`) models the state the NPC keeps. `Handle` is the
  value-level transition of `handle_event`, and `Run` applies it to a sequence
  of events. `Proximity` is the rule of `npc_update`, with integer centres and
  squared distance (`dx² + dy² < 150²`). `Advance` is the frame counter of
  `animate`, in hundredths of a frame (add 15, wrap at `100 * length`). The class
  `Npc` has the fields the source updates in place: `conversationActive`,
  `ePressed`, `inputText`, `outputText`, `status`, `frameIndex` and `image`.
  Each of its methods is proved to perform the value-level step on them.

The code is followed where the prose description of the game differs from it.
Neither Escape (code/npc.py:169-170) nor leaving the radius (code/npc.py:202-204)
clears the typed input, so the model does not clear it either.
`EscapeEndsConversation` and `Proximity` state that the input is kept.

## Model

| member | source | states |
|---|---|---|
| `TextLayout.Split` | code/npc.py:66 | `split(' ')` always gives at least one word, even for the empty text |
| `TextLayout.SplitWordsHaveNoSpace` | code/npc.py:66 | no word of a split contains a space |
| `TextLayout.JoinSplit` | code/npc.py:66 | joining the words of a split with single spaces gives back the text |
| `TextLayout.SplitJoin` | code/npc.py:66 | splitting the space-join of one or more space-free words gives back those words |
| `TextLayout.PlaceAllSound` | code/npc.py:69-76 | after any number of loop iterations, every finished line and the non-empty current line is non-empty and either fits the width or is one of the words |
| `TextLayout.WrapNoEmptyLine` | code/npc.py:74-78 | `wrap_text` never emits an empty line |
| `TextLayout.WrapLineFitsOrIsWord` | code/npc.py:70-76 | every emitted line passed the width check, or is exactly one input word set alone because it did not fit |
| `TextLayout.WrapEmptyText` | code/npc.py:66-79 | the empty text gives no lines, for any measure and width |
| `TextLayout.PlaceAllJoin` | code/npc.py:69-76 | with no empty words, the finished lines plus the current line join back to the words placed so far, and the current line is non-empty |
| `TextLayout.WrapRoundTrip` | code/npc.py:66-79 | if the text has no empty word, joining the emitted lines with single spaces gives back the text exactly, in order |
| `TextLayout.SplitExtend` | code/npc.py:66 | a space followed by a space-free word adds exactly that word to the end of the split |
| `TextLayout.PlaceAllGreedy` | code/npc.py:69-76 | with non-empty, space-free words, every line closed so far was closed only because the next line's first word did not fit on it |
| `TextLayout.WrapGreedy` | code/npc.py:66-79 | if the text has no empty word, each emitted line but the last would exceed the width if the next line's first word were added to it, so no line is broken early |
| `TextLayout.WrapText` | code/npc.py:64-79 | the loop with its accumulators `lines` and `current_line` returns exactly the greedy layout `Wrap` |
| `InferenceClient.FullPrompt` | code/npc.py:86 | the prompt is the persona, then `"\nUser: "`, then the player's input, then `"\nNPC:"`, at those exact positions |
| `InferenceClient.FullPromptInjective` | code/npc.py:86 | two different inputs never give the same prompt |
| `InferenceClient.TrimStart` | code/npc.py:99 | removes exactly the leading whitespace: the result is a suffix, everything cut is whitespace, and the result does not start with whitespace |
| `InferenceClient.TrimEnd` | code/npc.py:99 | removes exactly the trailing whitespace: the result is a prefix, everything cut is whitespace, and the result does not end with whitespace |
| `InferenceClient.StripCutsWhitespace` | code/npc.py:99 | the stripped text is a contiguous middle part of the input, and everything cut on both sides is whitespace |
| `InferenceClient.StripTrimmed` | code/npc.py:99 | the stripped text neither starts nor ends with whitespace |
| `InferenceClient.StripKeepsTrimmed` | code/npc.py:99 | a text that neither starts nor ends with whitespace is its own strip |
| `InferenceClient.StripIdempotent` | code/npc.py:99 | stripping twice is the same as stripping once |
| `InferenceClient.CollectPlain` | code/npc.py:92-98 | a stream with no `done` record and no failure collects the concatenation of all `response` fragments, in order, skipping blank lines |
| `InferenceClient.CollectUpToDone` | code/npc.py:92-98 | the collected text is the concatenation of the fragments up to and including the first record whose `done` is true |
| `InferenceClient.CollectIgnoresAfterDone` | code/npc.py:97-98 | the lines after a `done` record never affect the result |
| `InferenceClient.CollectRaisesIff` | code/npc.py:89-100 | the loop raises exactly when some line fails to read or decode before any record says `done` |
| `InferenceClient.FailureIsErrorText` | code/npc.py:89-101 | a connection failure or a failure in the stream gives an answer that starts with `"Error: "`, never an exception |
| `InferenceClient.AnswerOfCompletedStream` | code/npc.py:89-99 | a stream that reaches a `done` record without failing answers with the stripped fragments up to that record |
| `InferenceClient.HelloExample` | code/npc.py:92-99 | the records `"Hel"`, `"lo"` and `done` give the answer `"Hello"` |
| `InferenceClient.ReadStream` | code/npc.py:91-98 | the loop over the streamed lines, with its `break` at the first `done` record and its exit on a failing line, computes exactly the fold `Collect` |
| `InferenceClient.GetLlamaResponse` | code/npc.py:81-101 | posts the framed prompt to the generate URL with model `llama3.1`; it answers with the stripped collected text, or with `"Error: "` and the message when the post or the stream fails |
| `NpcInteraction.DropLast` | code/npc.py:165 | `s[:-1]` leaves the empty text empty and otherwise removes exactly the last character |
| `NpcInteraction.Handle` | code/npc.py:155-182 | no event changes the animation status |
| `NpcInteraction.BackspaceDeletesLast` | code/npc.py:164-165 | in a conversation, Backspace removes the last input character, changes nothing else, and does nothing on an empty input |
| `NpcInteraction.ReturnSubmitsInput` | code/npc.py:166-168 | in a conversation, Return sets the output to the service's answer for the input and clears the input; nothing else changes |
| `NpcInteraction.EscapeEndsConversation` | code/npc.py:169-170 | in a conversation, Escape only ends it; both texts and the E latch are unchanged |
| `NpcInteraction.OtherKeyAppends` | code/npc.py:171-173 | in a conversation, any other key, E included, appends the text it types; the E latch is unchanged |
| `NpcInteraction.InactiveKeyDown` | code/npc.py:174-179 | outside a conversation, a key press changes the state exactly when it is E and E is not latched; it then sets both the conversation and the latch |
| `NpcInteraction.KeyUpAndOther` | code/npc.py:180-182 | releasing E clears the latch in either mode; other releases and other event types change nothing |
| `NpcInteraction.HeldKeyCannotRestart` | code/npc.py:174-182 | outside a conversation with E latched, no sequence of events that does not release E changes anything |
| `NpcInteraction.EscapeThenHeldKey` | code/npc.py:169-182 | after Escape with E still held, the conversation stays off until E is released |
| `NpcInteraction.InRangeOnAxis` | code/npc.py:191-195 | the squared-distance test means being less than 150 pixels away along an axis |
| `NpcInteraction.Proximity` | code/npc.py:195-204 | out of range the conversation ends and the status is idle; in range the status is talk exactly when a conversation is active; the texts and the E latch never change |
| `NpcInteraction.ProximityIdempotent` | code/npc.py:195-204 | applying the proximity rule twice gives the same state as applying it once |
| `NpcInteraction.Advance` | code/npc.py:56-61 | after one tick on a non-empty animation, the counter is below `100 * length`, so the frame used is in `[0, length)`; it either wraps to 0 or advances by 0.15 frames |
| `NpcInteraction.AdvanceByInRange` | code/npc.py:55-61 | from a counter in range, the frame used stays in `[0, length)` after any number of ticks |
| `NpcInteraction.CycleTicks` | code/npc.py:58-59 | the number of ticks of 0.15 frames after which the counter first reaches the number of frames: one tick fewer stays below it |
| `NpcInteraction.AdvanceFromZero` | code/npc.py:58-61 | started at frame 0, the counter grows by exactly 0.15 frames per tick until it would reach the number of frames |
| `NpcInteraction.AnimationCycle` | code/npc.py:55-61 | started at frame 0, the animation is back at frame 0 after exactly `CycleTicks` ticks and not before |
| `NpcInteraction.Npc.constructor` | code/npc.py:13-39 | initial state: no conversation, empty texts, E not latched, status idle, counter 0, first idle frame or the placeholder |
| `NpcInteraction.Npc.HandleEvent` | code/npc.py:155-182 | updates the conversation fields exactly as `Handle` says; the counter and the image are untouched |
| `NpcInteraction.Npc.UpdateProximity` | code/npc.py:191-204 | updates the conversation fields exactly as `Proximity` says for the squared-distance test of the two centres |
| `NpcInteraction.Npc.Animate` | code/npc.py:55-62 | on a non-empty animation, advances the counter as `Advance` says and shows the frame it selects, which exists; on an empty animation, changes nothing |
| `NpcInteraction.Npc.NpcUpdate` | code/npc.py:184-206 | applies the proximity rule, then one animation tick of the new status |

## Left out

- Drawing: `display_dialogue_box` and `display_conversation_box` (code/npc.py:103-153) only place pixels on the screen. `UpdateProximity` does not model which box is drawn.
- The HTTP request and JSON decoding (`requests.post`, `iter_lines`, `json.loads`). The service is a function from the request to an already decoded stream. Any exception they raise is a `ConnectionError` reply or a `Broken` line, with its message as an opaque string.
- The type of decoded fields: `response` is taken to be a string and `done` a boolean. A non-string `response`, which would raise inside the loop, is not modelled, and neither are truthy non-boolean `done` values.
- The blocking nature and missing timeout of the call. The service always answers.
- Font measurement (`font.size`): kept as the uninterpreted `width` function.
- Asset loading (`import_graphics`, `import_folder`) and the warning printed for a missing animation. The loaded animations are given to the constructor as frame counts, and an image is a `Picture` naming its animation and frame.
- Rectangle geometry: `rect`, `hitbox` and re-centring the rect on the hitbox. The NPC never moves, so its centre is a constant, and the player's centre is a parameter of `UpdateProximity`.
- `Vector2.magnitude`: replaced by the exact integer test `dx² + dy² < 22500` on integer centres.
- `Advance`: the 0.15 float step is modelled as exactly 15 hundredths. Float rounding near the wrap boundary is not modelled.
- The other attributes of `__init__` (`sprite_type`, `obstacle_sprites`, `interact_callback`, `speed`, `font`). The NPC logic never reads them. `dialogue_text` and `initial_prompt` are module constants.
- `code/main.py`: the event pump, the menu toggle, dispatch by `hasattr`, audio and frame pacing. `Level`, `Entity` and `settings` are not part of this model.
