# What-If Simulator: text shaping and decision layer

The What-If Simulator takes a "what if?" scenario and asks a language model for two things: an explanation and an image prompt. It then fetches an illustration for the prompt from an image service and has a speech service read the explanation aloud. This project models the pure layer inside that program that shapes text and decides outcomes. The layer has these parts:

- **Word splitting and joining** (`words.dfy`, module `WordSplit`). This covers Python's argument-less `str.split()` and `' '.join(...)`. Whitespace is Python's own table: the characters whose Unicode bidirectional class is WS, B or S, or whose category is Zs.
- **The two 100-word limits** (`truncation.dfy`, module `Truncation`).
  - The narration text adds the suffix `"... You can read further by yourself."`. The model writes this suffix as `"..."`, a space, and the six words of the closing notice joined by single spaces.
  - The image prompt glues `"..."` onto its 100th word. The word count shown next to it is the count before truncation.
- **The image prompt's URL form** (`encoding.dfy`, module `UrlEncoding`).
  - Only the space character is percent-encoded, as `%20`, which is one case of section 2.1 of RFC 3986.
  - The fallback prompt is the first five words, or all of them when there are fewer, joined by `%20`.
  - `Decode` reads `%20` back as a space. The program itself never decodes. `Decode` only states what the encoding preserves.
- **The image fetch with its one retry** (`image.dfy`, module `ImageFetch`). HTTP status codes are inputs. The second status code is consulted only when the first request was not answered with 200.
- **The HTTP status codes** the program distinguishes, 200 and 401 (`http.dfy`, module `HttpStatus`), shared by the image fetch and the narration call.
- **The narration call** (`speech.dfy`, module `Speech`). It covers the key check, the narration text, the request body and the classification of the answer into audio, a rejected key (401) or another error.

The narration text is computed, but the JSON body of the speech request carries the original explanation (what_if_simulator.py:95). The model reproduces this. The comment at what_if_simulator.py:78 announces that the text is limited to 100 words with a closing message, yet line 95 sends the untruncated text. The finding below records the behaviour that was evidently intended.

## Model

| member | source | states |
|---|---|---|
| WordSplit.IsSpace | what_if_simulator.py:79 | the whitespace set of Python's `str.split()`: the characters whose bidirectional class is WS, B or S, or whose category is Zs |
| WordSplit.Split | what_if_simulator.py:79 | every word `str.split()` yields is non-empty and contains no whitespace |
| WordSplit.SplitKeepsContent | what_if_simulator.py:79 | the words, concatenated, are exactly the non-whitespace characters of the input in order: splitting drops whitespace and nothing else |
| WordSplit.SplitEmptyIffBlank | what_if_simulator.py:193 | a text yields no words if and only if every character of it is whitespace |
| WordSplit.SplitJoin | what_if_simulator.py:81 | splitting a list of words joined by single spaces gives back exactly that list |
| WordSplit.SplitJoinSplit | what_if_simulator.py:81 | split, join with single spaces, split again: the same words as the first split |
| WordSplit.SplitAppend | what_if_simulator.py:79 | when whitespace sits at the seam, the words of a concatenation are the words of the left part followed by those of the right part |
| WordSplit.SplitJoinGlued | what_if_simulator.py:195 | gluing whitespace-free text onto a joined word list extends its last word and adds no word |
| WordSplit.SplitGluedThenJoined | what_if_simulator.py:81-82 | words joined by spaces, a whitespace-free tail glued on, then a space and a second joined word list: the words come back with the tail on the last one, followed by the second list |
| WordSplit.Take | what_if_simulator.py:141 | Python's `xs[:n]`: all of `xs` when it has at most `n` elements, otherwise its first `n` |
| WordSplit.JoinWith | what_if_simulator.py:141 | Python's `sep.join(ws)`: the words in order with one separator between neighbours; `EncodeJoin` ties the `%20` join to encoding the space join, and `JoinWithNoSpace` shows a whitespace-free separator adds no whitespace |
| WordSplit.Join | what_if_simulator.py:81 | Python's `' '.join(ws)`; `SplitJoin` shows splitting gives the joined words back, so the join loses nothing |
| WordSplit.JoinWithNoSpace | what_if_simulator.py:141 | joining words with a whitespace-free separator produces no whitespace |
| Truncation.Narration | what_if_simulator.py:78-84 | at most 100 words: the narration is the explanation unchanged, whitespace included; more than 100: the narration is exactly the first 100 words joined by single spaces followed by `... You can read further by yourself.`, so its words are the first 100 words, the 100th with `...` glued on, then the six words of the closing notice |
| Truncation.NarrationWords | what_if_simulator.py:81-82 | the words of "first words joined, then the suffix" are those words, the last one carrying `...`, followed by `You can read further by yourself.` |
| Truncation.NarrationLength | what_if_simulator.py:80-84 | a narration cut at the limit has exactly 100 words plus the six words of the closing notice |
| Truncation.TruncatePrompt | what_if_simulator.py:192-200 | the reported count is the word count of the original prompt; a prompt of at most 100 words is unchanged; a longer one is exactly its first 100 words joined by single spaces with `...` glued on, so its words are the first 100 with `...` glued to the 100th; the result never has more than 100 words |
| Truncation.ReportedCountMatchesIffUntruncated | what_if_simulator.py:193-200 | the reported word count equals the word count of the displayed prompt if and only if the original had at most 100 words |
| Truncation.TruncatePromptIdempotent | what_if_simulator.py:192-195 | truncating an already truncated prompt changes nothing |
| UrlEncoding.Encode | what_if_simulator.py:126 | the encoded prompt contains no space character and is never shorter than the prompt |
| UrlEncoding.EncodeWithoutSpace | what_if_simulator.py:126 | a prompt without a space character, even one holding other whitespace, is left unchanged |
| UrlEncoding.DecodeEncode | what_if_simulator.py:126 | reading every `%20` back as a space restores the original prompt, provided the prompt did not already contain the text `%20` |
| UrlEncoding.EncodeDecode | what_if_simulator.py:126 | every space-free URL text is the encoding of its decoded form |
| UrlEncoding.EncodeNotInjective | what_if_simulator.py:126 | `a b` and `a%20b` encode to the same URL text, so the condition on the round trip cannot be dropped |
| UrlEncoding.EncodeAppend | what_if_simulator.py:126 | encoding is character by character: the encoding of a concatenation is the concatenation of the encodings |
| UrlEncoding.Fallback | what_if_simulator.py:141 | the fallback prompt contains no whitespace character and equals the space-encoding of the first at most five words joined by single spaces |
| UrlEncoding.EncodeJoin | what_if_simulator.py:141 | for whitespace-free words, joining with `%20` equals joining with a space and then encoding |
| UrlEncoding.FallbackDecodes | what_if_simulator.py:141 | decoding the fallback prompt and splitting it gives back the first at most five words of the prompt, unless one of those words contains the text `%20` |
| ImageFetch.ImageUrl | what_if_simulator.py:129 | the request URL is the service endpoint followed by the already encoded prompt, for the first request and, at line 142, for the fallback; `GenerateImage` and `UrlsHaveNoSpace` state what each URL carries |
| ImageFetch.GenerateImage | what_if_simulator.py:123-152 | the first request carries the space-encoded prompt; a second request, carrying the fallback prompt, is made if and only if the first status is not 200; an image is returned if and only if the first status is 200, or it is not and the second is 200 |
| ImageFetch.SavedIffSomeRequestOk | what_if_simulator.py:134-152 | an image is returned exactly when some request actually made was answered with 200, and then the last request made was answered with 200 |
| ImageFetch.SecondStatusIgnoredAfterSuccess | what_if_simulator.py:134-138 | after a first answer of 200, the second status has no effect on the run |
| ImageFetch.UrlsHaveNoSpace | what_if_simulator.py:126-142 | no request URL contains a space character |
| ImageFetch.FallbackOfTruncated | what_if_simulator.py:193-205 | the fallback prompt built from the truncated prompt is the one the untruncated prompt would give |
| Speech.KeyMissing | what_if_simulator.py:75 | Python's `not key` for the speech key: unset or empty |
| Speech.TextToSpeech | what_if_simulator.py:72-116 | a missing or empty key means no narration is computed, no request is formed and the outcome is the missing-key error; otherwise the request text is the untruncated explanation; 200 gives the audio file, 401 an error carrying only the body, any other status an error carrying the status and the body |
| Speech.Classify | what_if_simulator.py:106-116 | 200 gives the audio file, 401 an error with only the body, any other status an error with the status and the body; `TextToSpeech`'s outcome clauses state each case as an if-and-only-if |
| Speech.Returned | what_if_simulator.py:75-116 | the value `text_to_speech` returns: the audio file name, or `None`; `ReturnsAudioIffOk` states when it is a name |
| Speech.ReturnsAudioIffOk | what_if_simulator.py:106-116 | the call returns a file name if and only if the key is present and the status is 200, and the name is `narration.mp3` |
| Speech.NarrationNeverSent | what_if_simulator.py:79-95 | for an explanation over 100 words, the text sent is the explanation and differs from the computed narration |
| Speech.NarrationSentWithinLimit | what_if_simulator.py:83-95 | within 100 words, the text sent equals the narration |
| Speech.EmptyKeyIsMissing | what_if_simulator.py:75-77 | an empty key is treated like an unset key |
| Speech.TextToSpeechIntended | what_if_simulator.py:78-95 | with the narration sent as intended, the narration is the truncated explanation, the request carries the same endpoint, key and model identifier as the call as written with the narration as its text, that text has at most 106 words, and the outcome is the same as in the call as written |

## Findings

| source | as written | input that shows it | evidently intended | confidence | as-written member | corrected member |
|---|---|---|---|---|---|---|
| what_if_simulator.py:95 | the request body's `"text"` is the untruncated `text`; the `narration_text` computed at lines 79-84 is never used | any explanation of more than 100 words, with the key present: the whole explanation is sent | send `narration_text`, so that the narration is limited to 100 words plus the closing notice | high; not executed | Speech.NarrationNeverSent | Speech.TextToSpeechIntended |

`Speech.TextToSpeech` keeps the behaviour as written, because that is what the program does.

## Left out

- The Streamlit interface is left out: page setup, styling, the input field, the button, spinners and every `st.*` display call. They only present results. The messages shown for errors are also left out, because the outcome datatypes carry the status and body those messages show.
- Reading the two keys from the environment and configuring the Gemini client are left out. The speech key is a parameter instead.
- The language-model calls are left out. The explanation and the image prompt are arbitrary input strings.
- The HTTP requests, their timeouts and the `except` handlers (a timeout, or any other exception, ending in `None` with an error message) are left out. They are network I/O. Each response is reduced to its status code and, for the speech call, its body.
- Writing `narration.mp3` and `generated_image.png` is left out. It is file I/O. The model returns the file name the program returns.
- The `Accept` and `Content-Type` headers are left out. So are the voice settings (`stability` and `similarity_boost`, both 0.75): they are constants passed through unchanged.
- Python strings can hold lone surrogate code points, but Dafny's `char` cannot. The model treats strings as sequences of Unicode scalar values.
