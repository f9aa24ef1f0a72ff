# mscchelper: a verified model of the Comic Chat proxy core

`mscchelper-0.02Z.py` sits between Microsoft Comic Chat 2.5 and an IRC server. Whatever
Comic Chat sends goes to the server unchanged. Text from the server is decoded, collected
in a pending buffer (`str_ircBuf`) and cut into blocks of whole lines at the last CR LF.
Each block passes through `sanitizeMscc` before it goes on to Comic Chat. That function
applies three rewrites, in this order:

1. Every `JOIN #` becomes `JOIN :#`, left to right.
2. While the first names reply (`353<user> @ #chan`) starts after index 0, it is rewritten.
   The block from its ` @ #` on becomes ` = ##chan :` and then `rest`. Here `rest` is
   everything in the block after the whitespace that follows the channel word, not just
   the rest of that line. A reply with nothing but whitespace after the channel word raises
   `IndexError`.
3. While the first `ISIRCX :No such channel` starts after index 0, the line that holds it
   is removed.

Both loops stop as soon as their key is gone or first occurs at index 0. Later
occurrences are then left as they are (see "Key at index 0" below).

At the start of every session, the proxy puts a CR LF after whatever text the last session
left in the buffer.

The model has five modules:

- `Irc`: CR LF framing predicates.
- `PyStr`: the Python 3 `str` builtins the code relies on. These are `find`, `rfind`, `in`,
  `replace`, `rsplit(sep, 1)` and `split(None, 1)`.
- `Sanitizer`: every pass has a specification function. `SanitizeMscc` is the imperative
  original, with its two `while` loops, and is proved equal to the specification.
- `Framer`: the buffer cut of lines 198-217 as functions. It also defines a reference
  definition of the pending buffer that does not depend on how the text was cut into reads.
- `Forwarder`: the class `Proxy`. It holds the module-level buffer, the session phase and
  what was written to each socket. Each socket read is an event.

`Proxy.Valid` holds in every state. It says that text is neither lost nor reordered:
everything received equals the blocks already sent, followed by the buffer and the
cut-off part. It also says that each block is whole lines and that what went to Comic
Chat for it is exactly its sanitized form. The method contracts tie this history to the
reads:
- A non-empty server read appends its chunk to what was received.
- A sent block is appended to the blocks; no other read adds one.
- A client read and an empty read change neither the received text nor the blocks.
- The sentinel adds its CR LF to both the buffer and the received text.

### What the code does, as opposed to what its description suggests

- **Key at index 0.** Both loops run `while idx > 0`. A key found at index 0 ends the loop,
  and every later occurrence in the same block is left alone. So the passes promise only
  that the key occurs nowhere, or first at index 0 (`SettledAtZero`). They do not promise
  that the key is absent. `NamesPassStopsAtIndexZero` shows a later reply surviving.
- **No space after `353`.** The names key is `'353' + user + ' @ #'`. A reply written with a
  space between the numeric and the name, as servers send it, is never rewritten
  (`SpacedNamesReplyKept`).
- **`##` and `::`.** The rewrite keeps the `#` of the channel word and adds its own `#`.
  It also keeps the names list's own `:`. The output therefore reads
  `= ##chan ::names` (`NamesReplyRewritten`, `NamesStepRewrites`).
- **Nothing after the channel.** `li[1]` raises `IndexError` when only whitespace follows
  the channel word. Nothing catches it, so the proxy dies. The model returns
  `Outcome.IndexError`, and the proxy's phase becomes `Crashed`
  (`NamesReplyEndingBlockRaises`).
- **No session isolation.** The buffer is never cleared between sessions. The text a session
  left behind is delivered to the next Comic Chat connection, terminated by the CR LF of line
  177 (`SentinelFlushesLeftover`, `Proxy.StartSession`).
- **Whitespace.** `split(None, 1)` splits at Python 3 `str.isspace` characters. That set
  includes Unicode spaces, not only ASCII ones (`PyStr.IsSpace`).
- **Undefined cut-off.** `str_ircBufCutOff` is first assigned at line 205. Line 216 reads it
  only after that assignment, so the model starts it as the empty string. Line 217 clears it
  again.
- **Termination.**
  - Each names rewrite leaves fewer `@` characters in the block (`AtSigns`).
  - Each ISIRCX removal shortens the block.
  - Both loops therefore end on every terminated block.

## Model

| member | source | states |
|---|---|---|
| PyStr.Find | mscchelper-0.02Z.py:96-98 | the result is -1 or the least index at or after `start` where the pattern occurs; no occurrence lies between `start` and it |
| PyStr.RFind | mscchelper-0.02Z.py:109 | the result is -1 or the greatest occurrence that ends by `hi`; no later occurrence in the window exists |
| PyStr.Contains | mscchelper-0.02Z.py:201 | true exactly when the pattern occurs at some index |
| PyStr.Replace | mscchelper-0.02Z.py:81 | a text with no occurrence of the pattern comes back unchanged |
| PyStr.ReplaceSkips | mscchelper-0.02Z.py:81 | a prefix that starts no occurrence is copied unchanged ahead of the replaced rest |
| PyStr.ReplaceFirst | mscchelper-0.02Z.py:81 | with no occurrence the text is unchanged; otherwise the text before the first occurrence is kept, the occurrence becomes the replacement, and replacing resumes after the whole occurrence (left to right, no overlap) |
| PyStr.RSplit1 | mscchelper-0.02Z.py:202 | one part (the whole text) exactly when the separator is absent; otherwise before + separator + after is the text, the cut is at the last occurrence (none starts after the before part), and the after part holds no separator |
| PyStr.Split1 | mscchelper-0.02Z.py:100 | at most two parts |
| PyStr.Split1Parts | mscchelper-0.02Z.py:100 | no part for an all-whitespace text; otherwise the text is leading whitespace, a word and trailing whitespace, or leading whitespace, a word, a non-empty whitespace gap and a rest that starts with a non-space |
| Sanitizer.JoinPassLeavesNoBareJoin | mscchelper-0.02Z.py:81 | after the JOIN pass no `JOIN #` occurs anywhere in the block |
| Sanitizer.JoinPassIdentityIff | mscchelper-0.02Z.py:81 | the JOIN pass leaves a block unchanged exactly when the block holds no `JOIN #` |
| Sanitizer.JoinPassHead | mscchelper-0.02Z.py:81 | a block that starts with `JOIN #` and has no other `J` comes back with `JOIN :#` in its place and the rest copied |
| Sanitizer.JoinPassExample | mscchelper-0.02Z.py:81 | `JOIN #general` followed by CR LF becomes `JOIN :#general` followed by CR LF |
| Sanitizer.JoinPassKeepsTerminator | mscchelper-0.02Z.py:76-81 | a terminated block stays terminated after the JOIN pass |
| Sanitizer.ReplacePreservesJoinlessPrefix | mscchelper-0.02Z.py:81 | the replaced text starts with a `J`-free piece only if the original did |
| Sanitizer.MarkerInsideKey | mscchelper-0.02Z.py:96-98 | the marker search from a key position finds the marker within the key |
| Sanitizer.NamesStep | mscchelper-0.02Z.py:98-101 | a rewrite leaves fewer `@` characters than the block had, and keeps a terminated block terminated |
| Sanitizer.SplitAfterMarker | mscchelper-0.02Z.py:99-100 | splitting the text after the marker gives the channel word that starts with `#`, and a second part exactly when something other than whitespace follows it |
| Sanitizer.NamesStepRewrites | mscchelper-0.02Z.py:98-101 | one rewrite on positions of the block: it uses the first marker after the match and keeps the text before it; the channel word and the rest after the whitespace are rebuilt as ` = #word :rest`, giving ` = ##`; `IndexError` exactly when only whitespace follows the word |
| Sanitizer.DoubleHash | mscchelper-0.02Z.py:101 | the rebuilt text reads ` = ##` at the marker position |
| Sanitizer.NamesPass | mscchelper-0.02Z.py:96-102 | on success the names key does not occur, or first occurs at index 0; the terminator is kept |
| Sanitizer.NamesPassStopsAtIndexZero | mscchelper-0.02Z.py:96-97 | a key at index 0 leaves the block unchanged, including a later names reply |
| Sanitizer.NamesReplyRewritten | mscchelper-0.02Z.py:96-101 | `x353u @ #c :u` becomes `x353u = ##c ::u` |
| Sanitizer.NamesReplyEndingBlockRaises | mscchelper-0.02Z.py:99-101 | a names reply with nothing after the channel raises `IndexError` |
| Sanitizer.SpacedNamesReplyKept | mscchelper-0.02Z.py:96 | a reply with a space after `353` is not rewritten |
| Sanitizer.IsircxStep | mscchelper-0.02Z.py:107-113 | one removal shortens a terminated block and keeps it terminated |
| Sanitizer.CutKeepsTerminator | mscchelper-0.02Z.py:110-113 | both cut shapes keep a terminated block terminated |
| Sanitizer.IsircxStepRemovesLine | mscchelper-0.02Z.py:108-113 | one removal cuts exactly the line holding the match: from after the last CR LF before it (or from 0) through the first CR LF at or after it, keeping everything else |
| Sanitizer.IsircxPass | mscchelper-0.02Z.py:105-114 | the result is terminated, and the ISIRCX key does not occur, or first occurs at index 0 |
| Sanitizer.Sanitize | mscchelper-0.02Z.py:79-116 | on success the result is terminated, and the ISIRCX key does not occur, or first occurs at index 0 |
| Sanitizer.SanitizeMscc | mscchelper-0.02Z.py:79-116 | the imperative original computes `Sanitize` |
| Sanitizer.NamesLoop | mscchelper-0.02Z.py:96-102 | the names loop computes `NamesPass`, including the `IndexError` exit |
| Sanitizer.NamesTurn | mscchelper-0.02Z.py:97-102 | at each turn a short split means the pass raises; otherwise the `@` count falls and the pass result is unchanged |
| Sanitizer.IsircxLoop | mscchelper-0.02Z.py:105-114 | the ISIRCX loop computes `IsircxPass` |
| Sanitizer.IsircxTurn | mscchelper-0.02Z.py:106-114 | each turn's positions are in range; the loop's cut is exactly one `IsircxStep` (so shorter and terminated); the pass result after it is unchanged |
| Framer.Frame | mscchelper-0.02Z.py:201-208 | no frame exactly when the buffer holds no CR LF; otherwise block + rest is the buffer, the block ends with CR LF, and the rest holds none |
| Framer.Remainder | mscchelper-0.02Z.py:202-205 | the remainder is a CR LF-free suffix, and what precedes it ends with CR LF |
| Framer.RemainderUnique | mscchelper-0.02Z.py:202-205 | a CR LF-free suffix that follows a CR LF, or is the whole text, is the remainder |
| Framer.RemainderAppend | mscchelper-0.02Z.py:198-217 | taking the remainder before more text arrives gives the same remainder as taking it after |
| Framer.Feed | mscchelper-0.02Z.py:198-217 | one non-empty read (an empty one ends the session first, line 197) conserves text, leaves the remainder of buffer + chunk pending, and cuts at most one block; it cuts one exactly when a CR LF is present, and that block is whole lines |
| Framer.FeedAll | mscchelper-0.02Z.py:181-217 | a run of non-empty reads conserves text, and every block cut is whole lines |
| Framer.FeedAllBuffer | mscchelper-0.02Z.py:195-217 | after reads, the pending buffer is the remainder of everything read |
| Framer.FeedAllSplitIndependent | mscchelper-0.02Z.py:195-217 | the same decoded text read in different chunks leaves the same buffer and the same text in blocks |
| Framer.SentinelFlushesLeftover | mscchelper-0.02Z.py:177 | after the sentinel, the first read always cuts a block, and that block starts with the previous session's leftover and the CR LF |
| Forwarder.Proxy.constructor | mscchelper-0.02Z.py:65-66 | the buffer starts empty and no session is open |
| Forwarder.Proxy.StartSession | mscchelper-0.02Z.py:177 | CR LF is appended to the kept buffer, which is not cleared |
| Forwarder.Proxy.Step | mscchelper-0.02Z.py:181-217 | a client read forwards its bytes unchanged; an empty read on either side ends the session and keeps the buffer; neither changes the received text or the blocks; a server read does what `ServerReadSpec` says |
| Forwarder.Proxy.ClientRead | mscchelper-0.02Z.py:185-191 | non-empty bytes are sent to the server unchanged; a zero-length read ends the session; the buffer, the client output, the received text and the blocks are unchanged |
| Forwarder.Proxy.ServerRead | mscchelper-0.02Z.py:194-217 | nothing goes to the server; a zero-length read ends the session and changes no history; otherwise the chunk is appended to the received text, and the buffer, the client output and the blocks (one more exactly when a block was sent) are the ones `ServerReadSpec` gives |
| Forwarder.Proxy.CutAndSend | mscchelper-0.02Z.py:201-217 | with a CR LF in the buffer, the state after the cut, sanitize and send is the one `ServerReadSpec` gives |
| Forwarder.Proxy.Crash | mscchelper-0.02Z.py:210-211 | on a raise, the block stays in the buffer, the partial line stays cut off, nothing is sent and the proxy is dead |
| Forwarder.Proxy.Deliver | mscchelper-0.02Z.py:210-217 | on success, the sanitized block goes to Comic Chat and the cut-off text becomes the buffer |
| Forwarder.ServerReadSpec | mscchelper-0.02Z.py:195-217 | text waits exactly when there is no CR LF; otherwise the buffer is cut into a terminated block and a CR LF-free rest, and the outcome is the sanitized block or the raise |
| Forwarder.ServerReadFeeds | mscchelper-0.02Z.py:198-208 | a server read cuts the buffer as `Framer.Feed` does: the waiting text is `Feed`'s buffer, and the block sent or raising is `Feed`'s one block |
| Forwarder.InvStart | mscchelper-0.02Z.py:177 | the sentinel keeps the proxy invariant |
| Forwarder.InvClose | mscchelper-0.02Z.py:234-240 | closing the session keeps the proxy invariant with the buffer intact |
| Forwarder.InvNoBlock | mscchelper-0.02Z.py:206-208 | a read without a CR LF keeps the invariant, and all text waits |
| Forwarder.InvSend | mscchelper-0.02Z.py:201-217 | a sent block keeps the invariant: text is conserved, and the output is that block's sanitized form |
| Forwarder.InvCrash | mscchelper-0.02Z.py:201-211 | a raise keeps the invariant, with the failing block and the cut-off text still accounted for |

## Left out

- Sockets are left out: a socket read is an event, and a socket write is appended to an
  output sequence. This covers `socket`, `bind`, `listen`, `accept`, `connect` and
  `gethostbyname` (lines 127-162). It also covers the outer restart loop and the rebinding
  of the listening socket.
- `select` (line 182) is left out. A wake-up with both sockets ready is the client event
  followed by the server event, the same order as the code.
- The `NICK`/`PASS` sends (lines 164-172) and credential input (lines 119-125) are left out.
  They write fixed text to the server, and the model does not follow that text.
- UTF-8 decoding with `errors='replace'` (line 198) and encoding (line 212) are left out.
  Server chunks arrive as decoded text, and Comic Chat receives the sanitized text.
- Framer.FeedAllSplitIndependent holds for decoded text only. Line 198 decodes each read
  on its own, so a UTF-8 character split across two reads becomes replacement characters.
  At the byte level, where the stream is cut into reads does change the text.
- The TLS and errno branches (lines 218-232 and 241-251) are left out. This includes the
  comparison of the exception object with `errno.EAGAIN` at line 225. The model has no
  non-blocking or TLS socket that could raise them.
- `ConnectionResetError` is left out, because only a zero-length read ends a session in
  the model.
- Console output (`print`, lines 136-172, 190, 213, 238-247) and `sys.exit` are left out,
  because they do not change the forwarded traffic.
- The disabled MODE removal (lines 83-92) is left out, because it is commented out in the
  code.
- Forwarder.Proxy.Crash ends the model's run, because an uncaught `IndexError` ends the
  process. What the operating system does with the open sockets afterwards is not modelled.
- Sanitizer.NamesPass promises only `SettledAtZero`, not that the names key is absent
  beyond index 0. With a key at index 0, `while idx > 0` ends the loop before any later
  reply is rewritten (`NamesPassStopsAtIndexZero`).
- Sanitizer.IsircxPass promises only `SettledAtZero` for the ISIRCX key, for the same
  reason: a match at index 0 ends the loop at line 106.
