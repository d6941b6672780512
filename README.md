# simple-ping-alert in Dafny

A model of the logic in `ping-to-us.py`. The script pings one host every
second. When the host stays unreachable for `LOSS_THRESHOLD` (3) seconds,
it starts a background thread. The thread traces the path, resolves the
monitor's own public address and sends a Telegram message. When the host
answers again, the script sends a recovery message. Everything around that
logic is input and output and is not modelled.

The model has these modules:

- `Monitor` (monitor.dfy) holds the loss-detection loop of `monitor_ip`.
  - `Next` is one pass of the loop body as a function over
    `MonitorState(lossStart, lossDetected)`, which stands for the locals
    `loss_start_time` and `loss_detected`.
  - `Final` and `Trace` give the state and the events after a finite list of
    ticks.
  - `LossMonitor` is a class with the same two fields. Its `Step` method
    updates them in place and is proved equal to `Next`.
  - `MonitorIp` runs `Step` in a loop over a finite prefix of the endless
    `while True` and is proved equal to `Trace` and `Final`.
  - The lemmas describe one loss episode: when the diagnostic thread starts, that it
    starts at most once, when the recovery message is sent, and that an
    episode which heals in time stays silent.
- `Traceroute` (traceroute.dfy) holds the post-processing of `traceroute`.
  `ProcessTraceroute` is the imperative loop. `HopLines` and `HopText` are
  its functional specification.
- `Probe` (probe.dfy) holds the success test of `ping`.
- `Logging` (logging.dfy) holds the guard of `log_message`.
- `Text` (text.dfy) gives the Python string operations used above:
  `str.isspace`, `strip()`, `split('\n')`, `split()`, `'\n'.join`, the
  substring test `in` and `lower()`. `str.isspace` and `lower()` are given
  by definition: the list of whitespace code points, and the mapping of
  'A'..'Z' to 'a'..'z'. The others come with lemmas that tie them to an
  independent description (split/join round trips, `split()` cuts at every
  whitespace character and keeps every other character, search equals
  occurrence at some index).
- `Command` (command.dfy) gives the two outcomes of
  `subprocess.check_output` that the script handles: a completed run, or a
  `CalledProcessError`.
- `Wrappers` (wrappers.dfy) gives `Option`.

Each tick of the loop carries three inputs:

- the probe outcome;
- the clock value read when a failed probe opens an episode (line 95);
- the clock value read for the threshold test (line 99).

A failed probe in the source reads the clock up to three times: at line 95
when it opens an episode, at line 97 for its log line, and at line 99 for
the threshold test. The line-97 reading only feeds the log message, which is
not modelled, so a tick carries the other two. The lemmas need no
relation between the clock readings, not even that time never decreases, so
they also hold for a wall clock that jumps backwards.

Line 99 tests `loss_start_time` by Python truthiness. The model keeps that:
`StartRecorded` requires the start to be present AND different from 0. A
start time of exactly 0 therefore never triggers a notification. The
episode lemmas say so: the diagnostic thread starts only if `ticks[a].startClock != 0`.

## Model

| member | source | states |
|---|---|---|
| `Monitor.Next` | ping-to-us.py:85-102 | A successful probe sends the recovery message exactly when the episode was reported. It never starts the diagnostic thread and resets both variables. A failed probe never sends a recovery message. It records the start time only when none is recorded and never overwrites one. The diagnostic thread starts exactly when a failed probe finds an unreported episode whose start is truthy and at least LOSS_THRESHOLD seconds old. The reported flag is set after the tick exactly when the probe failed and the episode was reported before or is reported now. The invariant is kept. |
| `Monitor.StartRecorded` | ping-to-us.py:99 | Python truthiness of `loss_start_time` in the threshold test: a start is recorded and is not 0. |
| `Monitor.Final` | ping-to-us.py:84-104 | The state after a run: the ticks applied one after another by `Next`, in order. A run that starts in the invariant ends in it, so before every tick a reported episode has a recorded, truthy start time. |
| `Monitor.Trace` | ping-to-us.py:84-104 | A run yields exactly one event pair per tick. |
| `Monitor.StepAt` | ping-to-us.py:84-104 | Tick `j` of a run starts in the state left by the first `j` ticks. Its events are event `j` of the trace. |
| `Monitor.StaysDetected` | ping-to-us.py:93-102 | Once reported, an episode stays reported for as long as probes fail. |
| `Monitor.SpawnAtMostOncePerEpisode` | ping-to-us.py:86-102 | Between any two ticks that start the diagnostic thread there is a successful probe. So the diagnostic thread starts at most once per loss episode. |
| `Monitor.DetectedIff` | ping-to-us.py:86-102 | Before tick `j` the episode is reported iff both hold: some earlier tick started the diagnostic thread, and every probe since then failed. A run that starts reported also counts while all its probes fail. |
| `Monitor.RecoveryIff` | ping-to-us.py:85-92 | In a run that starts unreported, tick `j` sends the recovery message iff both hold: its probe succeeds, and an earlier tick started the diagnostic thread with only failed probes in between. |
| `Monitor.RecoveryAtMostOncePerEpisode` | ping-to-us.py:85-102 | Take two recovery messages in a run that starts unreported. Some tick strictly between them started the diagnostic thread, and every probe from that tick up to the second message failed. So each recovery message closes its own episode. |
| `Monitor.EpisodeState` | ping-to-us.py:93-102 | Take an episode that opens at tick `a` and has only failed probes. Its start time is the clock value of its first failed tick and is never overwritten. It is reported iff its start is truthy and some tick of the episode found the threshold reached. |
| `Monitor.SpawnWhenThresholdFirstReached` | ping-to-us.py:99-102 | Within such an episode, tick `j` starts the diagnostic thread iff three things hold: the start is truthy, tick `j` finds at least LOSS_THRESHOLD seconds elapsed, and no earlier tick of the episode did. |
| `Monitor.SelfHealingEpisodeIsSilent` | ping-to-us.py:85-102 | Take an episode that ends in a successful probe before any tick sees the threshold reached. No tick of it starts the diagnostic thread or sends a recovery message, and the monitor returns to its initial state. |
| `Monitor.LossMonitor.constructor` | ping-to-us.py:81-82 | The monitor starts with no start time and unreported. |
| `Monitor.LossMonitor.Step` | ping-to-us.py:85-102 | The in-place loop body leaves the fields and returns the events exactly as `Next` gives them. It keeps the invariant. |
| `Monitor.MonitorIp` | ping-to-us.py:80-104 | Over a finite list of ticks, the loop emits exactly `Trace` from the initial state and ends in `Final`. The final state satisfies the invariant. |
| `Probe.Ping` | ping-to-us.py:28-33 | A run that ended in an error status is a failed probe. A completed run is a success iff its output contains "1 packets transmitted, 1 received" at some index. |
| `Probe.PingAcceptsSummaryAnywhere` | ping-to-us.py:31 | Any completed output that carries the summary text, with anything before or after it, is a success. |
| `Logging.ShouldLog` | ping-to-us.py:51-52 | Nothing is logged when logging is off. Everything is logged when logging is on and not restricted. When restricted, a message is logged iff its lower-cased text contains "loss". |
| `Logging.ScriptLogsEverything` | ping-to-us.py:13-14 | With the script's settings, ENABLE_LOGGING true and LOG_ONLY_ON_LOSS false, every message is logged. |
| `Logging.LossFilterIgnoresCase` | ping-to-us.py:52 | The loss-only filter keeps a message iff some four consecutive characters spell "loss" in any mix of cases. |
| `Logging.LoggingIsCaseInsensitive` | ping-to-us.py:52 | Lower-casing a message first never changes whether it is logged. |
| `Traceroute.OutputLines` | ping-to-us.py:39 | `output.strip().split('\n')`: the stripped output cut at every '\n', and at no other line break. There is always at least one line. |
| `Traceroute.HopEntry` | ping-to-us.py:42-46 | For a line with at least two tokens, its first token, one space and its second token. |
| `Traceroute.HopText` | ping-to-us.py:39-47 | What a completed run returns: the entries of every line after the first, joined by '\n'. |
| `Traceroute.ProcessTraceroute` | ping-to-us.py:35-49 | A failed run returns its raw output. A completed run returns, joined by '\n', the first two tokens of every line after the header that has at least two tokens. |
| `Traceroute.HopLines` | ping-to-us.py:41-46 | There are never more entries than input lines. |
| `Traceroute.HopLinesAppend` | ping-to-us.py:41-46 | The entries of a list of lines are the entries of its first part followed by those of its second part. So entries keep the order of their lines. |
| `Traceroute.HopLinesExtend` | ping-to-us.py:41-46 | One more line adds that line's entry to the end if it has at least two tokens, and nothing otherwise. |
| `Traceroute.HopLinesEntries` | ping-to-us.py:42-46 | Every entry comes from an input line with at least two tokens. It is that line's first two tokens joined by one space, splits back into exactly those two tokens, and holds no line break. |
| `Traceroute.HopTextSplitsIntoEntries` | ping-to-us.py:47 | When there is at least one entry, splitting the returned text on '\n' gives exactly the entries. |
| `Traceroute.HeaderIsDropped` | ping-to-us.py:39-41 | There are at most as many entries as lines after the header. If the stripped output is a single line, the result is the empty string. |
| `Text.IsSpace` | ping-to-us.py:39-42 | Exactly the 29 code points for which Python 3's `str.isspace` is true. `strip()` and `split()` treat these as whitespace. |
| `Text.LStrip` | ping-to-us.py:39 | The result is a suffix of the input. It drops only whitespace and does not start with whitespace. |
| `Text.RStrip` | ping-to-us.py:39 | The result is a prefix of the input. It drops only whitespace and does not end with whitespace. |
| `Text.Strip` | ping-to-us.py:39 | The result is a contiguous slice of the input, with only whitespace removed on either side, and it neither starts nor ends with whitespace. |
| `Text.Split` | ping-to-us.py:39 | Splitting always yields at least one piece, and no piece contains the separator. |
| `Text.Join` | ping-to-us.py:47 | `sep.join(parts)`: the parts in order, with one separator between neighbours. The empty list gives "". |
| `Text.JoinSplit` | ping-to-us.py:39 | Joining the pieces of a split with the separator gives back the original text. |
| `Text.SplitJoin` | ping-to-us.py:47 | Splitting a joined, non-empty list of separator-free pieces gives the list back. |
| `Text.WordEnd` | ping-to-us.py:42 | The result is the length of the longest whitespace-free prefix. |
| `Text.Words` | ping-to-us.py:42 | Every token is non-empty and holds no whitespace. |
| `Text.WordsOfWord` | ping-to-us.py:42 | A single whitespace-free, non-empty text is one token. |
| `Text.WordsCutAtSpace` | ping-to-us.py:42 | Every whitespace character is a token boundary: the tokens of a text are those before it followed by those after it. With `WordsOfWord` this fixes the tokens as exactly the maximal whitespace-free runs, whatever whitespace separates them. |
| `Text.WordsOfJoin` | ping-to-us.py:42-46 | Splitting words joined by single spaces gives back exactly those words. |
| `Text.WordsKeepEveryNonSpace` | ping-to-us.py:42 | The tokens, concatenated, are the input's non-whitespace characters in order. |
| `Text.Contains` | ping-to-us.py:31 | `sub in s`: `sub` is a prefix of `s`, or `sub` is found in `s` without its first character. |
| `Text.ContainsIff` | ping-to-us.py:31 | The left-to-right search finds a substring iff it occurs at some index. |
| `Text.ContainsInContext` | ping-to-us.py:31 | A substring is found whatever surrounds it. |
| `Text.Lower` | ping-to-us.py:52 | `s.lower()` character by character: 'A'..'Z' become 'a'..'z' and every other character stays. |
| `Text.LowerSlice` | ping-to-us.py:52 | Lower-casing commutes with taking a slice. |
| `Text.LowerIdempotent` | ping-to-us.py:52 | Lower-casing twice equals lower-casing once. |

## Left out

- Running `ping` and `traceroute` as subprocesses (lines 30 and 37) is not
  modelled. Their captured output and exit status are inputs, given as
  `Command.CommandResult`.
- The Telegram post (59-65), the ipify lookup and the bgp.he.net scraping
  (106-130) are network calls and are not modelled.
- Reading the credentials file (19-26) is file input and is not modelled.
- The JSON identity cache and `os.makedirs` (106-120) are file I/O and are
  not modelled.
- Appending to the log file (53-54) is not modelled. Only the decision
  whether to write a line is.
- Timestamp formatting with `datetime` (54, 71, 87) and the text of the
  messages are not modelled.
- Which log messages each tick produces (lines 89, 92, 96, 97) is not
  modelled. `log_loss` (56-57) is not modelled either.
- The background thread and the body of `async_traceroute_and_notify`
  (67-78, 101) run concurrently with the loop. Starting the thread is the
  `spawned` event of a tick. What the thread does is not modelled.
- `time.time()` returns a float. The model uses whole seconds given per
  tick. `time.sleep(1)` (104) only sets the pace and is not modelled.
- The `while True` loop (84) never ends. `MonitorIp` runs a finite prefix of
  it.
- The `__main__` entry point (132-136) is not modelled.
- The loop body assumes that `ping` (line 85), `send_telegram_message`
  (line 88) and `log_message` (lines 89, 92, 96 and 97) return normally. In
  the source nothing in `monitor_ip` catches exceptions. An `OSError` from
  starting `ping` (line 30), a connection error from `requests.post`
  (line 65) or an `OSError` from opening the log file (line 53) ends
  `monitor_ip` and the script. A send that fails at line 88 ends it before
  `loss_detected = False` (line 90) runs. The `recovered` event therefore
  means that the recovery message was handed to `send_telegram_message`,
  not that it was delivered.
- Text.Lower: maps only 'A'..'Z' to 'a'..'z'. Python's `lower()` also maps
  other letters. None of them lowers to 'l', 'o' or 's', so the "loss" test
  of line 52 gives the same answer either way. The model does not state
  Unicode case mapping itself.
- `Traceroute.HopTextSplitsIntoEntries` needs at least one entry. With none,
  the result is "", which splits into `[""]`, not `[]`.
