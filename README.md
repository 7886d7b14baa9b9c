# mangooleh download manager: a Dafny model of `DownloadManager`

This project models the download logic of the `DownloadManager` class in
`main.py` of the mangooleh download manager, and proves properties of it:

- **Range planning** (`RangePlan`). `download_file` reads the size from
  `content-length` and computes `chunk_size` as the ceiling of
  `total_size / default_num_chunks`. It then walks `default_num_chunks`
  rounds. Round `i` asks for `[start_byte, min(start_byte + chunk_size - 1, total_size - 1)]`,
  and the next round starts one byte past that end. The walk is the
  recursive function `PlanFrom`, and `Plan` is the walk from byte 0. The
  lemmas give its closed form, its chaining, the partition of
  `[0, total_size)`, the shape of the empty tail rounds, and the unknown-size
  case.
- **The `Range` header text** (`RangeHeader`). The f-string
  `bytes={start}-{end}` is modelled with Python's decimal rendering of
  integers. A reader for the `int-range` form of section 14.1.2 of RFC 9110
  says what a server makes of each planned header, using the validity and
  satisfiability rules of section 14.1.1.
- **The output file** (`FileModel`). Files are byte sequences. A file opened
  with `'wb'` is appended to. A file opened with `'r+b'` takes `seek` plus
  `write`, modelled by `WriteAt`, which overwrites, grows the file and fills
  any gap with zero bytes.
- **A server that ignores invalid ranges** (`IgnoringServer`). Section 14.2
  of RFC 9110 lets a server answer a `Range` header that is not valid with the
  whole resource. Against such a server every empty tail round of
  `download_file` appends the resource once more.
- **The stop and pause events** (`ControlFlags`). The two `threading.Event`
  flags and the three commands that set and clear them.
- **The manager** (`Downloader`). `DownloadManager` is a class with the two
  event flags as fields.
  - `PauseDownload`, `ResumeDownload` and `StopDownload` update those fields.
  - `DownloadFile` is the sequential loop of `download_file`, with the
    append loop of one response body in `AppendBody`.
  - `DownloadChunk` is the positioned-write loop of `download_chunk`. It is
    proved against the step function `Receive` and its fold `ReceiveFirst`.

Network responses are inputs: each request's body is a sequence of chunks, in
the order `iter_content` yields them. `iter_content(chunk_size=1024)` yields
chunks of at most 1024 bytes. The model allows chunks of any length, so every
contract holds for every way of splitting a body. The content length is an
`Option<nat>`, with `None` for an absent header. What `stop_event.is_set()`
returns after each chunk of `download_chunk` is an input too (`stopSeen`),
because another thread may set the flag while the loop runs.

Behaviour of the code that is easy to misread:

- A missing `content-length` counts as zero bytes. The chunk size is then 0
  and every planned range is `[0, -1]`, sent as the header `bytes=0--1`.
  The rounds go on until a body yields a byte. That first non-empty chunk is
  written, then the progress update divides by `total_size` (zero). The
  download ends with the error dialog, and no later round is requested.
- The number of rounds is always `default_num_chunks`, and no round is
  skipped. With chunk size `c`, the round `(total_size - 1) // c` ends at the
  last byte. Every round after it is the empty range
  `[total_size, total_size - 1]`, and its header is still sent
  (`bytes=5-4` for five bytes, `bytes=6-5` for six bytes).
- `download_file` fetches the rounds one after another and appends each body
  to a file opened with `'wb'`.
- `download_chunk` writes a body into an existing file, starting at
  `start_byte`. Nothing in the source calls it.
- `download_chunk` checks the stop flag after writing a chunk.
  `download_file` never checks it.
- Neither loop ever reads the pause flag.
- In `download_chunk`, the progress ratio divides by `end_byte`. For an
  `end_byte` of 0 the first non-empty chunk is written and then the division
  raises, which ends the function.

## Model

| member | source | states |
|---|---|---|
| RangePlan.ChunkSize | main.py:89 | the chunk size is the ceiling of total/n: `(c-1)*n < total <= c*n` |
| RangePlan.EndByte | main.py:94 | a round ends no later than the last byte of its chunk and no later than the last byte of the resource |
| RangePlan.Plan | main.py:92-102 | the walk makes exactly n rounds, whatever the size |
| RangePlan.PlanAt | main.py:89-102 | round i is `[min(i*c, total), min((i+1)*c, total) - 1]` for chunk size c |
| RangePlan.PlanChained | main.py:92-102 | the first round starts at 0; each round starts one past the previous end; no round ends past `total-1`; the last round ends at `total-1` |
| RangePlan.PlanWithinResource | main.py:94 | every byte of every round lies in `[0, total)` |
| RangePlan.PlanCovers | main.py:92-102 | every byte of `[0, total)` lies in some round |
| RangePlan.PlanDisjoint | main.py:92-102 | no byte lies in two rounds |
| RangePlan.LastRound | main.py:89-94 | with a known size, the last byte falls in round `(total-1)/c`, which is below n |
| RangePlan.PlanEmptyTail | main.py:89-102 | with a known size, round `j = (total-1)/c` ends at the last byte; rounds up to j are non-empty; rounds before j hold exactly c bytes; every later round is the empty `[total, total-1]` |
| RangePlan.PlanOfUnknownSize | main.py:88-94 | with no content length the chunk size is 0 and every round is `[0, -1]` |
| RangePlan.PlanExampleEven | main.py:89-102 | 1000 bytes in 4 rounds give `[0,249] [250,499] [500,749] [750,999]` |
| RangePlan.PlanExampleEmptyTail | main.py:89-102 | 5 bytes in 4 rounds give `[0,1] [2,3] [4,4] [5,4]` |
| RangeHeader.NatText | main.py:95 | `str` of a natural number is digits only, with no leading zero except in `"0"` |
| RangeHeader.DecimalRoundTrip | main.py:95 | the decimal text of a number reads back as that number |
| RangeHeader.RangeValueRoundTrip | main.py:64 | `bytes=<first>-<last>` with `first >= 0` reads back as the int-range `(first, last)` when `last >= 0`, and is no int-range when `last < 0` |
| RangeHeader.RangeValueValidIff | main.py:64 | the header of a range is a valid RFC 9110 int-range if and only if the range holds at least one byte |
| RangeHeader.PlanRangeValue | main.py:93-95 | with an unknown size every planned header is unreadable; a non-empty round's header denotes exactly that round and is satisfiable; an empty round's header parses but is invalid |
| FileModel.WriteAt | main.py:70-75 | `seek(pos)` then `write(data)`: a non-empty write leaves a file as long as the longer of the old file and `pos + len(data)`; an empty write leaves it unchanged |
| FileModel.WriteAtByte | main.py:69-75 | after `seek(pos)` and `write(data)`, byte k is data's byte inside the written span, the old byte outside it, and zero in a gap past the old end |
| FileModel.WriteAtContiguous | main.py:73-76 | writing a then writing b where a ended is the same as writing `a + b` |
| FileModel.FlattenEmpty | main.py:97-99 | a body adds no byte exactly when all its chunks are empty |
| FileModel.ConcatEmpty | main.py:93-99 | the bodies add no byte exactly when each body adds none |
| FileModel.FirstNonEmpty | main.py:97-99 | the first non-empty chunk is empty only when the whole body is |
| ControlFlags.Step | main.py:116-123 | pause sets the pause flag and resume clears it; stop sets the stop flag; nothing clears the stop flag; each command leaves the other flag alone |
| ControlFlags.Idempotent | main.py:116-123 | issuing any command twice in a row, anywhere in a history, acts as issuing it once |
| ControlFlags.StopIsPermanent | main.py:122-123 | after a history the stop flag is set exactly when it was set before or the history holds a stop |
| ControlFlags.PauseFollowsLastToggle | main.py:116-120 | after a history the pause flag is decided by the last pause or resume in it; stops have no effect on it |
| Downloader.TotalSize | main.py:88 | the size is the given content length, or 0 when the header is absent |
| Downloader.Receive | main.py:74-81 | one pass of the write loop: once the loop is left nothing changes; otherwise one more chunk is taken, the counter moves by the chunk's length, and the loop is left exactly when the chunk is non-empty and then the ratio divides by zero or the stop flag is found set |
| Downloader.ReceivedCount | main.py:71-76 | after the chunks taken so far, `bytes_downloaded` is `start_byte` plus their total length |
| Downloader.ReceivedBytes | main.py:69-76 | after the chunks taken so far, the file is the original with their bytes written from `start_byte` on |
| Downloader.ReceivedFailure | main.py:76-77 | the progress ratio has divided by zero exactly when `end_byte` is 0 and some byte was written |
| Downloader.ReceivedLeave | main.py:73-81 | no chunk taken before the last one ended the loop; the loop ended exactly when the last chunk taken was non-empty and then the ratio divided by zero or the stop flag was found set |
| Downloader.DownloadManager.constructor | main.py:25-30 | both events start clear |
| Downloader.DownloadManager.GetDefaultNumChunks | main.py:147-148 | the default number of rounds is 4 |
| Downloader.DownloadManager.PauseDownload | main.py:116-117 | sets the pause flag and leaves the stop flag as it was |
| Downloader.DownloadManager.ResumeDownload | main.py:119-120 | clears the pause flag and leaves the stop flag as it was |
| Downloader.DownloadManager.StopDownload | main.py:122-125 | sets the stop flag and leaves the pause flag as it was |
| Downloader.DownloadManager.DownloadChunk | main.py:60-83 | sends `bytes=<start>-<end>`; stops only right after a non-empty chunk whose write was followed by a zero division or a set stop flag, and otherwise takes the whole body; the counter is `start_byte` plus the bytes taken; the file is the original with those bytes written contiguously from `start_byte`; it fails exactly when `end_byte` is 0 and a byte was written; if the manager's stop flag was already set, the bytes written are just the body's first non-empty chunk |
| Downloader.DownloadManager.AppendBody | main.py:97-101 | with a known size the whole body is appended; with size 0 it stops after appending the first non-empty chunk, and it stops exactly when the body has a byte |
| Downloader.DownloadManager.DownloadFile | main.py:85-106 | header i is the `Range` text of planned round i; a known size always completes with all n headers sent and the file equal to the bodies joined in order; with size 0 it completes exactly when no body has a byte, and otherwise fails with a division by zero in the round of the first non-empty body, the file holding only that body's first non-empty chunk |
| Downloader.SequentialDownloadRebuilds | main.py:91-102 | when every response is the slice of the resource that its round names, appending the responses in order rebuilds the resource exactly |
| IgnoringServer.AnswerFollowsHeader | main.py:93-96 | for every planned round, the server's answer is the bytes the round names when its header is a valid int-range, and the whole resource when it is not |
| IgnoringServer.IgnoredInvalidRangesRepeatResource | main.py:89-101 | for any known size and any number of rounds, with `j = (total-1)/c` the round ending at the last byte, appending an ignoring server's answers leaves the file holding the resource exactly `n - j` times |
| Downloader.IgnoredInvalidRangeDuplicatesResource | main.py:93-101 | for five bytes in four rounds the last header is the invalid `bytes=5-4`; a server that ignores it and sends the whole resource leaves the file holding the resource twice |

## Left out

- The tkinter window, its widgets, the progress bar, `update_idletasks` and the message boxes are user interface. Only which dialog ends `download_file` is modelled, as the outcome.
- `requests.head` and `requests.get` are network I/O. Their results are inputs: the content length and one body per request, as a sequence of chunks. Status codes and response headers are not modelled.
- `print` logging in `download_chunk` is not modelled.
- `start_download` starts a `threading.Thread` and disables a button, which is concurrency and user interface. `DownloadFile` models what that thread runs.
- Thread scheduling is not modelled. What `stop_event.is_set()` returns at each check of `download_chunk` is the input `stopSeen`.
- `stop_download` joins the threads of `download_threads`. Nothing ever adds to that list, so the join loop does nothing and the model has no threads.
- The progress values are floating point and are not modelled. Only the zero divisions they raise are kept, since those end the loops.
- The catch-all `except` handlers are modelled only for the division by zero. Failures of `open`, of the network and of `int()` on a malformed `content-length` are not modelled: the length is given as an already-parsed `Option<nat>`.
- `get_default_download_folder` depends on the operating system and the environment. `set_output_file`, `set_num_chunks_entry` and `create_widgets` edit widgets. The output path comes from a widget and is not modelled.
- The pause flag is set and cleared but never read by either loop, so it affects no download. `ControlFlags` models the flag itself.
- `download_file` never checks the stop flag, and `DownloadFile` has no stop input.
- Downloader.TotalSize: the content length is an already-parsed `Option<nat>`. `int()` also accepts a negative text such as `"-1"` (main.py:88). The code then plans negative ranges, and its progress division never raises. That case is not modelled.
- Downloader.DownloadManager.DownloadChunk: `startByte` is a natural number. On a negative `start_byte`, `f.seek` raises `OSError` (EINVAL) before anything is written (main.py:70), and the catch-all handler swallows it (main.py:82-83). That case is not modelled.
- Downloader.DownloadManager.DownloadChunk: the answers of `stop_event.is_set()` are required to stay true once true, since nothing clears the stop flag. Once the manager's flag is set they are all true.
- RangePlan.EndByte: its contract states the two upper bounds only. That it equals the smaller one is its body, and `PlanAt` gives the end of every round in closed form.
- Downloader.Receive: its contract does not state the new file or the failure flag of one pass. `ReceivedBytes` and `ReceivedFailure` state them for the whole loop.
- RangeHeader.RangeValue: carries no contract of its own. `RangeValueRoundTrip` and `RangeValueValidIff` state what a reader gets from its text.
