# AT-command response engine of rhizo-dialer, in Dafny

This project models the part of rhizo-dialer that talks to a cellular modem in
`at.c`:

- `is_final_result` — decides whether one line received from the modem ends the
  reply to an AT command. It dispatches on the first character and then compares
  exactly and case-sensitively with a fixed text. The whole lines `OK`, `ERROR`,
  `BUSY`, `NO ANSWER`, `NO CARRIER` and `NO DIALTONE` are final only when followed
  by CR LF. These are the final result codes of ITU-T V.250, section 5.7. A line
  beginning `+CME ERROR:` (3GPP TS 27.007, section 9.2) or `+CMS ERROR:`
  (3GPP TS 27.005, section 3.2.5) is final whatever follows the colon.
- `strip_cr` — deletes every carriage return from a NUL-terminated string, in place.
- `get_response` — reads chunks with `fgets` and appends each one to a 4096-byte
  buffer with `strcat`. It stops after the first chunk that `is_final_result`
  accepts and returns that buffer with carriage returns removed. It returns false
  if the stream ends first.

Modules:

- `CStrings` (`cstrings.dfy`) — how C reads a buffer: only the characters before
  the first NUL (`CView`). `fgets` may deliver a NUL byte. `strcmp`, `strncmp`
  and `strcat` then see only the text before it, and the model keeps that.
- `ResultClassifier` (`classifier.dfy`) — `IsFinalResult`. It is checked against
  an independent definition: membership in the set of six whole lines, or a
  `+CME ERROR:` / `+CMS ERROR:` prefix.
- `CarriageReturn` (`strip_cr.dfy`) — `StripCr` as a pure filter. `StripCrInPlace`
  is the C two-pointer loop on a buffer with a terminating NUL, and it is proved
  equal to `StripCr`.
- `ResponseFramer` (`framer.dfy`) — the modem stream is a `seq<string>`, one
  element per `fgets` chunk, and running out of elements is end of stream.
  `GetResponse` is the framer as a function returning `Option<string>`.
  `ReadResponse` is the `do … while` loop itself: it returns the success flag, the
  response (the caller's one unchanged on failure) and the number of chunks read.
- `Wrappers` (`wrappers.dfy`) — `Option`.

Behaviour of the code worth noting:

- `RING` is not final.
- The classifier returns a boolean, not a result code.
- Lines are classified with their CR LF still present. Carriage returns are
  removed only from the finished response.
- An over-long line is split by `fgets` into chunks. It is not reported as an error.

## Model

| member | source | states |
|---|---|---|
| ResultClassifier.FinalIffCodeOrErrorReport | at.c:86-127 | a line is final exactly when its text is one of the six whole result lines or begins with `+CME ERROR:` or `+CMS ERROR:`; every other line, the empty one included, is not final |
| ResultClassifier.WholeLineCodes | at.c:98-123 | for a NUL-free line not starting with `+`, final holds exactly for `OK`, `ERROR`, `BUSY`, `NO ANSWER`, `NO CARRIER`, `NO DIALTONE`, each with CR LF |
| ResultClassifier.WholeFinalLinesAreFinal | at.c:98-123 | each of the six whole result lines is classified final |
| ResultClassifier.PlusLineFinalIffErrorTag | at.c:88-97 | a line starting with `+` is final exactly when it is an error report (`+CME ERROR:` or `+CMS ERROR:` prefix), so every other `+` information line is not final |
| ResultClassifier.ErrorDetailIgnored | at.c:88-96 | `+CME ERROR:` and `+CMS ERROR:` followed by any text at all are final |
| ResultClassifier.LowerCaseNeverFinal | at.c:89-127 | matching is case-sensitive: a line whose first character is a lower-case letter is never final |
| ResultClassifier.LowerCasedCodeNotFinal | at.c:98-123 | lowering any one letter of any of the six whole result lines gives a line that is not final |
| ResultClassifier.OtherTextNotFinal | at.c:120-127 | a NUL-free line that is neither a whole result line nor an error report is not final (the default branch, reached also by the `O` fall-through) |
| ResultClassifier.NearMissesNotFinal | at.c:89-127 | `OK\n`, `OK`, `ok\r\n`, `OK \r\n`, ` OK\r\n`, the empty line, `RING\r\n`, `+CSQ: 15,99\r\n` and `+CME ERROR 3\r\n` are not final |
| CStrings.CView | at.c:62 | what C reads from a buffer: the longest NUL-free prefix, ending just before the first NUL if there is one |
| CarriageReturn.StripCr | at.c:72-84 | the result contains no carriage return and is no longer than the input |
| CarriageReturn.StripCrCounts | at.c:76-83 | the output length is the input length minus the number of CRs, and every other character occurs as often as in the input |
| CarriageReturn.StripCrDistributes | at.c:76-83 | order is kept: stripping a concatenation is concatenating the stripped parts |
| CarriageReturn.StripCrOfCrFree | at.c:76-83 | a CR-free string is left unchanged |
| CarriageReturn.StripCrIdempotent | at.c:72-84 | stripping twice equals stripping once |
| CarriageReturn.StripCrKeepsCString | at.c:83 | stripping introduces no NUL, so the whole result is one C string |
| CarriageReturn.StripCrInPlace | at.c:72-84 | the in-place loop, with its write index never past its read index, leaves the CR-free filter of the string before the first NUL |
| ResponseFramer.ChunksRead | at.c:41-64 | the number of chunks read either ends at the first final chunk, with no earlier chunk final, or covers the whole stream when no chunk is final |
| ResponseFramer.Accumulate | at.c:41-68 | each step appends a chunk within the buffer bound; a returned response has no CR and fits in 4096 bytes |
| ResponseFramer.AccumulateSpec | at.c:41-68 | the loop from any buffer contents fails exactly when no remaining chunk is final, and otherwise yields those contents plus every chunk read, stripped of CRs |
| ResponseFramer.GetResponse | at.c:32-69 | fails exactly when no chunk in the stream is final; a response has no CR and fits in 4096 bytes |
| ResponseFramer.ResponseUpToFirstFinal | at.c:41-68 | with the first final chunk at `k`, the response is the stripped concatenation of chunks `0..k` |
| ResponseFramer.EndOfStreamFails | at.c:56-61 | when no chunk is final, every chunk is read and the result is failure |
| ResponseFramer.UnreadChunksIgnored | at.c:64 | chunks after the first final one are never read: appending more chunks to the stream changes neither the chunks read nor the response |
| ResponseFramer.BufferBound | at.c:62 | every prefix of the chunks read, joined, stays under 4096 characters, so each `strcat` stays inside the buffer |
| ResponseFramer.ReadResponse | at.c:32-69 | the loop reads exactly the chunks `ChunksRead` counts, agrees with `GetResponse`, and leaves the caller's response unchanged on end of stream |
| ResponseFramer.InformationThenFinal | at.c:41-68 | an information line followed by a final result line gives both lines, each ending in LF only |
| ResponseFramer.SignalQualityExample | at.c:41-68 | `["+CSQ: 15,99\r\n", "OK\r\n"]` gives `"+CSQ: 15,99\nOK\n"` |

## Left out

- GetResponse: at.c never checks the length of what it appends to its 4096-byte buffer. Overflowing it is undefined behaviour and is not modelled. `FitsBuffer` requires instead that the chunks read, with the terminating NUL, fit in 4096 bytes. Only the chunks actually read are constrained.
- ReadResponse: the same buffer precondition as `GetResponse`. The size of the caller's `response` buffer is not known, so `strcpy` into it is modelled as a plain assignment. The model does show that the response is shorter than 4096 characters.
- How `fgets` splits the byte stream into chunks (at most 4095 characters, ending at a newline) is not modelled. The stream is given already split, one element per chunk.
- The `FILE *` stream, `clearerr`, and the debug `fprintf` calls (at.c:39, at.c:58) are I/O with no effect on the result.
- The disabled `FIONREAD` check (at.c:42-55) is compiled out and is not modelled.
- `open_serial_port`, `set_fixed_baudrate` and `run_at_backend` are declared in at.h:42-46, but their bodies are not part of this model. The baud-rate table, serial configuration, unsolicited `RING` detection and the sanitising of control characters therefore cannot be modelled, and are not.
- A single-reader, timeout or resynchronisation scheme for command and notification traffic does not exist in this code. It is about concurrency, so it is not modelled.
- The dial pad and window setup (dialer.c), the Telepathy callbacks (tp.c, tp.h), ALSA mixer control (audio_setup.c), tone synthesis (ring-audio.c), daemonisation (daemonize.c) and the widget globals (ui.h) are GUI, foreign-library, device and OS plumbing. None of them is modelled.
