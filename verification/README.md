# lldbmi2: a verified model of its line editor and MI input path

lldbmi2 puts a GDB/MI front on LLDB. Next to the calls into LLDB it holds several self-contained
pieces of imperative C and C++: the line editor of the console, the buffers and parsers of the MI
pipeline, the search for variables by path, the thread table and the environment arena. This project
models those pieces in Dafny, in their own form (classes with fields, arrays changed in place, loops),
and proves what they are for.

`dafny verify dfyconfig.toml` checks everything.

## How it is built

- **Line editor** (`src/linenoise.c`). `LineEditor.dfy` is the editor: a character array with cursor
  and length, overlapping memmoves, the history in focus, completion, both renderers and the key
  switch. Every method is proved to do what a function on an abstract session (`Editor.dfy`, over the
  zipper of `Zipper.dfy`) says. What the session means is proved on those functions:
  `Session.dfy` for the screen over whole runs, on the terminal of `Terminal.dfy` with the row
  arithmetic of `Wrap.dfy`, by way of `MultiLine.dfy` and `SingleLine.dfy`; `Keys.dfy` for what every
  key does to text, cursor and history and how a session ends; `Recall.dfy` for history navigation and
  completion; `History.dfy` for the bounded history.
- **MI pipeline** (`src/stringb.cpp`, `src/strlxxx.cpp`, `src/engine.cpp`, `src/lldbmi2.cpp`).
  `Strl.dfy` and `StringB.dfy` are the bounded copies and the growable buffer; `Framing.dfy`,
  `ScanArgs.dfy` and `StreamRecord.dfy` are the line framer with its driver loop, the in-place
  argument scanner and the record printer, each with its independent reading (lines of a stream,
  tokens of a line, a decoder of records).
- **Variables** (`src/variables.cpp`). `PathLookup.dfy` is the search on the character buffer,
  `Paths.dfy` shows it to be a search on structured paths; `PathCleanup.dfy` is the rewriting loop.
- **Tables.** `Threads.dfy` (`src/events.cpp`) and `Environment.dfy` (`src/engine.cpp`).

Some promises hold of the code only under a condition. There the condition is proved to be exact, and
an input that breaks the promise is given:

- Multi-line editing keeps screen and cursor right exactly if the prompt is narrower than the terminal.
  Single-line editing does so exactly if, besides, the prompt is not empty (or the terminal is one
  column wide): `ESC[0C` moves the cursor by one column, and a prompt that is not narrower leaves no
  window for the cursor, so that the trimming loops wrap around (`Session.ScreenRightIff`,
  `Session.WidePromptFails`, `Session.EmptyPromptFails`, `SingleLine.WideTrimFails`).
- Moving through the history keeps all lines exactly if every line moved to is shorter than `buflen`,
  although `buflen` characters can be typed (`Recall.MoveIsMove`, `Recall.MovesAreMoves`,
  `Recall.FullLineIsCut`).
- A key accepts the completion previewed and then does its work exactly if it is ASCII: any other byte is
  taken for a read error (`Recall.KeyAcceptsPreview`, `Recall.ByteAfterTabFails`).
- Accepting a completion keeps the buffer well formed exactly if the candidate is shorter than `buflen`
  (`LineEditors.LineEditor.TakeCandidate`, `LineEditors.LongCandidateFails`).
- A session without moves through the history, ended by ENTER or end of file, leaves the history as it
  was exactly if there was room for one more line and the newest line was not empty
  (`Recall.SessionHistory`, `Recall.EnterForgets`): the entry that stands for the line pushes the oldest
  line out, or is not added behind an empty line, which is then dropped in its place.
- Stream records read back exactly if the text has no backslash and its last line is finished: an
  unfinished line gets its line break before the closing quote (`StreamRecord.ReadBack`,
  `StreamRecord.NotReadable`).
- A quoted argument scans back exactly if it has no quote but perhaps one at its end and no backslash
  before that or before the closing quote (`ScanArgs.QuotedLast`, `ScanArgs.NotQuotable`).
- The thread table holds all live threads exactly if they fit together with the old ones: new threads
  are placed before ended ones are freed (`Threads.TableIsLive`, `Threads.NewThreadMissed`).
- Looking a path up by its text finds what its structure says, whatever the debugger knows, exactly if
  no index or member followed by a dot has a minus sign, and no member behind a dot has one before its last
  two characters: a search for dots stops at a minus sign (`Paths.LookupIsLookup`, `Paths.MinusFails`).
- The path clean-up overwrites a final dot without adjusting the size, so the buffer object stays in
  order exactly if the text put together does not end in a dot (`PathCleanup.FormatExpressionPath`,
  `PathCleanup.FinalDotFails`).
- Growing makes room for a copied string exactly if the result is shorter than `BIG_LIMIT`, and for one
  more character exactly if, besides, the buffer has a capacity (`StringBs.StringB.Reserve`,
  `StringBs.StringB.ReserveOne`, `StringBs.LongCopyFails`, `StringBs.FirstCharFails`).

## Model

| member | source | states |
|---|---|---|
| Session.ScreenRightIff | src/linenoise.c:540-688 | for every prompt, width and mode: there is a window for every cursor, and after every key of every run, Ctrl-L included, the screen shows the line (or the completion previewed) and the cursor its character, if and only if the prompt leaves room as described above; no other row changes unless Ctrl-L cleared the screen |
| Session.RunDraws | src/linenoise.c:927-1086 | from any state in which the line is drawn and tied to `oldrows` and `oldpos`, any run of keys ends in such a state: in the same row with nothing else changed, or in row 0 if a Ctrl-L was among the keys fed |
| Session.HideAndShow | src/linenoise.c:704-719 | hiding blanks the rows of the line and returns to its start, whatever is printed then; showing draws line or preview from wherever the cursor starts a blank area |
| Session.WidePromptFails | src/linenoise.c:887-903 | with a multi-line prompt that just fills the row, a character typed and deleted again leaves the cursor on the prompt; with a wider one the first character typed is drawn in the wrong rows |
| Session.EmptyPromptFails | src/linenoise.c:579-583 | with an empty single-line prompt one key is enough to misplace the cursor |
| MultiLine.RefreshShows | src/linenoise.c:596-688 | a full refresh leaves exactly the wrapped prompt and buffer, blanks every row used before and not needed now, ties the terminal to the new `oldrows` and `oldpos`, and places the cursor right unless an empty line follows a prompt that fills its last row |
| MultiLine.CleanErases | src/linenoise.c:611-636 | going down, clearing and going up blanks everything from the prompt row on, whatever the screen showed, if `oldrows` and `oldpos` are tied to the terminal |
| MultiLine.WriteShows | src/linenoise.c:638-681 | writing on a blank area shows the text wrapped at the width, with the extra row at exact multiples of it |
| MultiLine.GoUpReaches | src/linenoise.c:647-672 | from the last row written, going up the counted number of rows reaches the cursor's row |
| MultiLine.StartLinks | src/linenoise.c:887-903 | the prompt written at the start is tied to `oldrows` 0 and `oldpos` 0 exactly if it is no wider than the terminal |
| MultiLine.RefreshAfterClear | src/linenoise.c:1077-1080 | after the screen was cleared a full refresh draws the line at the top, although `oldrows` and `oldpos` no longer match |
| MultiLine.HideClears | src/linenoise.c:705-710 | the cleaning refresh blanks the line whatever the buffer is by then |
| MultiLine.ShowDraws | src/linenoise.c:713-719 | the writing refresh draws the line on a blank area whatever was remembered |
| SingleLine.TrimWindow | src/linenoise.c:548-555 | in `size_t` arithmetic, for every prompt: the trimming loops leave a part of the line with the cursor in it if and only if the prompt is narrower than the row; that window starts at max(0, plen+pos+1-cols) and is as long as line and row allow |
| SingleLine.WideTrimFails | src/linenoise.c:548-555 | a prompt of four characters in four columns: the empty line is trimmed to 2^64 - 1 characters |
| SingleLine.WindowIff | src/linenoise.c:548-552 | leaving out characters can bring the cursor into the row if and only if the prompt is narrower than the row |
| SingleLine.RefreshShowsRow | src/linenoise.c:540-587 | a single-line refresh shows prompt and window and nothing else in its row, touches no other row, and places the cursor right exactly if its column is not 0 or the row has one column |
| SingleLine.FastPath | src/linenoise.c:731-735 | the one character written by the fast path leaves the screen and cursor of a full refresh |
| LineEditors.LineEditor.RefreshMultiLine | src/linenoise.c:596-688 | writes the items the screen lemmas are about, and remembers rows and cursor |
| LineEditors.LineEditor.RefreshSingleLine | src/linenoise.c:540-587 | writes prompt, window, erasure and cursor movement of the single-line refresh |
| LineEditors.MemMove | src/linenoise.c:740-741 | overlapping ranges: the destination holds what the source held, the rest is unchanged |
| LineEditors.LineEditor.EditStart | src/linenoise.c:871-905 | an empty line, the first history entry in focus, the newest entry standing for the line, the prompt written |
| LineEditors.LineEditor.EditInsert | src/linenoise.c:724-749 | the buffer's zipper gets the character left of the cursor if there is room; fast path or refresh |
| LineEditors.LineEditor.EditDelete | src/linenoise.c:811-818 | the zipper loses the character right of the cursor, and the line is redrawn if there was one |
| LineEditors.LineEditor.EditBackspace | src/linenoise.c:821-829 | the zipper loses the character left of the cursor, and the line is redrawn if there was one |
| LineEditors.LineEditor.EditTranspose | src/linenoise.c:982-990 | the zipper's characters around the cursor change places |
| LineEditors.LineEditor.EditDeletePrevWord | src/linenoise.c:833-845 | the zipper loses the word left of the cursor; what is right of it moves up, terminator included |
| LineEditors.LineEditor.EditHistoryNext | src/linenoise.c:787-807 | the line is stored in its slot, the focus moves or stays at either end, and the entry in focus is loaded, cut to `buflen - 1` |
| LineEditors.LineEditor.TakeCandidate | src/linenoise.c:419-424 | the candidate becomes the line with its full length; the buffer stays well formed if and only if the candidate is shorter than `buflen` |
| LineEditors.LongCandidateFails | src/linenoise.c:419-424 | a candidate of `buflen` characters leaves a line whose length is not that of its text |
| LineEditors.LineEditor.CompleteLine | src/linenoise.c:391-439 | TAB, ESC and other keys in completion mode change state, line and screen as the abstract session says |
| LineEditors.LineEditor.EscapeSequence | src/linenoise.c:1003-1057 | the escape sequences do what the abstract session says, and read two or three bytes |
| LineEditors.LineEditor.Feed | src/linenoise.c:927-1086 | one call of the key handler, completion included, is one step of the abstract session, with the same outcome |
| LineEditors.LineEditor.BlockingEdit | src/linenoise.c:1107-1113 | the blocking loop is a run of the abstract session, with its state and outcome, so the theorems about runs hold of the editor |
| LineEditors.LineEditor.BlockingSession | src/linenoise.c:1102-1118 | start and loop together: state and outcome are those of the abstract session, and on any terminal that earlier output left ready the line is on the screen after the keys, if the prompt has room |
| Editor.FeedKeepsGood | src/linenoise.c:927-1086 | while the session goes on the line fits its buffer, the focus is in the history, and a preview shows an existing candidate or the line |
| Keys.CursorKeys | src/linenoise.c:991-1085 | Ctrl-B and Ctrl-F move the cursor by one, Ctrl-A and Ctrl-E to the ends, Ctrl-L not at all; text, history and focus stay |
| Keys.EditKeys | src/linenoise.c:962-990 | which characters Backspace, Ctrl-H, Ctrl-D, Ctrl-U and Ctrl-K take out of the text, which two Ctrl-T exchanges, and where the cursor is then |
| Keys.PrevWordKey | src/linenoise.c:1081-1083 | Ctrl-W leaves what stands before the last word left of the cursor and its gap, and what is right of the cursor |
| Keys.TextKey | src/linenoise.c:724-749 | any other key is put into the text at the cursor, which goes behind it; a full line stays as it is |
| Keys.TabWithoutCandidates | src/linenoise.c:395-399 | with nothing to complete, TAB is put into the line |
| Keys.HistoryKeys | src/linenoise.c:997-1002 | Ctrl-P shows the line before the one in focus, Ctrl-N the one behind it, cut to `buflen - 1`, with the cursor at its end; the line left is stored; at either end text and cursor stay |
| Keys.EscapeKeys | src/linenoise.c:1003-1057 | arrows, Home, End and Delete do exactly what their control keys do; every other sequence does nothing; three bytes are read, four if the second is a digit |
| Keys.Outcomes | src/linenoise.c:939-981 | ENTER, and nothing else, returns a line: the one on the screen; Ctrl-C interrupts, Ctrl-D ends the session on an empty line, and a byte outside ASCII fails during completion |
| Keys.RunEnds | src/linenoise.c:927-1086 | whole runs end with the last key fed, and an accepted line is the one on the screen when ENTER was fed |
| Keys.TypeAndEnter | src/linenoise.c:927-1086 | typing a printable text and ENTER returns the line with that text |
| Keys.UpsFromStart | src/linenoise.c:871-905 | a session starts with an empty line behind the history, and k times up shows the k-th line from its end |
| Keys.CompletionKeys | src/linenoise.c:391-439 | k TABs, fed as keys, show the candidates in turn and then the line, which stays what it is; ESC goes back to it |
| Zippers.PrevWordDeleted | src/linenoise.c:833-845 | deleting the previous word keeps the one and only rest that is followed by a word and a gap |
| Zippers.TransposeSwaps | src/linenoise.c:982-990 | transposing exchanges the two characters around the cursor and nothing else; the cursor moves on unless it stood before the last one |
| Zippers.EditsUndone | src/linenoise.c:752-829 | inserting is undone by backspace and by left-delete, moves are undone by their opposites, and no move changes the text |
| Recall.MoveIsMove | src/linenoise.c:787-807 | one key up or down moves the focus over the vector of lines and keeps every line, if and only if it does not move or the line it goes to is shorter than `buflen`; the cursor goes behind the line moved to, or stays where it is |
| Recall.FullLineIsCut | src/linenoise.c:803-805 | a line that fills the buffer comes back without its last character |
| Recall.EditStaysInFocus | src/linenoise.c:724-845 | every other action changes the line in focus and no other line |
| Recall.MovesAreMoves | src/linenoise.c:787-807 | any sequence of ups and downs moves the focus over the vector of lines and shows the line in focus, with the cursor behind it unless the focus never changed; it keeps all lines if and only if each move stays where it is or goes to a line shorter than `buflen` |
| Recall.UpsThenDowns | src/linenoise.c:787-807 | k ups and k downs, for every k, end in the line they started in, or in line min(k, newest) if the top of the history was passed; they bring everything back if and only if it was not passed or the line is the newest, and no line on the way was cut |
| Recall.SessionHistory | src/linenoise.c:871-985 | a session of any keys ended by ENTER or end of file leaves as many lines as before if and only if the history had room and its newest line was not empty, and one less otherwise; ended in any other way it leaves the entry that stood for the line as well; without moves through the history the lines are the old ones, less the oldest of a full history or the newest if it was empty |
| Recall.EnterForgets | src/linenoise.c:898-958 | ENTER at once forgets the oldest line of a full history, or a newest empty line |
| Recall.TabsPreview | src/linenoise.c:399-409 | any number of TABs leaves line, cursor and history untouched; the k-th shows element (k-1) mod (n+1) of the candidates and the original |
| Recall.EscapeRestores | src/linenoise.c:410-415 | ESC ends the preview with the line as it was |
| Recall.KeyAcceptsPreview | src/linenoise.c:416-439 | a key after k TABs does what it would do had the line first been replaced by the element shown, if and only if the key is ASCII |
| Recall.ByteAfterTabFails | src/linenoise.c:939-948 | TAB and then a byte of 195 end the session, where the byte alone goes on |
| Histories.History.Add | src/linenoise.c:1249-1276 | a line is added unless it repeats the newest one; a full history loses its oldest line |
| Histories.History.SetMaxLen | src/linenoise.c:1282-1308 | a maximum below 1 changes nothing; any other keeps the newest lines |
| Histories.HistoryIsLatest | src/linenoise.c:1249-1308 | after any run of additions and new maxima the history is the end of the list of lines added without immediate repetitions, at most the current maximum long, and at least as long as the smallest maximum had room for |
| Histories.OldestGoFirst | src/linenoise.c:1267-1306 | what is lost is always at the old end of the lines added |
| Histories.FixedMaximum | src/linenoise.c:1249-1276 | with a fixed maximum m it is exactly the last m lines |
| Histories.NoRepetitions | src/linenoise.c:1261-1262 | no line of that list repeats the one before |
| StringBs.StringB.Grow | src/stringb.cpp:31-37 | the capacity at least doubles up to the limit, and the contents stay |
| StringBs.Grown | src/stringb.cpp:31-37 | the new capacity is the limit, or at least twice the old one and room for what was asked |
| StringBs.StringB.Clear | src/stringb.cpp:59-74 | exactly the characters from `start` on are removed, as many as there are, and the rest stays terminated |
| StringBs.StringB.Reserve | src/stringb.cpp:110-112 | there is room for n characters at the offset, and their NUL, if and only if they end below `BIG_LIMIT` |
| StringBs.StringB.ReserveOne | src/stringb.cpp:95-97 | there is room for one more character, and the NUL, if and only if the buffer had a capacity and the result is shorter than `BIG_LIMIT` |
| StringBs.LongCopyFails | src/stringb.cpp:106-119 | a buffer of 16 bytes grown for a string of `BIG_LIMIT` characters has no room for it |
| StringBs.FirstCharFails | src/stringb.cpp:94-101 | a buffer never written to, grown for its first character, has no room for it and its NUL |
| StringBs.StringB.CopyAt | src/stringb.cpp:106-119 | the contents are what was before the offset, then the string cut to `maxBytes`; the buffer grows just when it has to, and every write fits |
| StringBs.StringB.AppendChar | src/stringb.cpp:94-101 | one character more, terminated |
| Strl.StrLCpy | src/strlxxx.cpp:46-68 | copies the first `dsize - 1` characters and a NUL, touches nothing else, and returns the length of the source |
| Strl.StrLCat | src/strlxxx.cpp:79-104 | appends up to `siz - 1` characters in all and a NUL, touches nothing else; a full destination is left alone; returns the sum of both lengths |
| Strl.TakeAppend | src/engine.cpp:877-878 | truncating at every step is truncating once at the end |
| Strl.Rejoin | src/engine.cpp:871-880 | the arguments of -var-create are put together to the first `NAME_MAX - 1` characters of their join by single spaces |
| Framing.Engine.FromCDT | src/engine.cpp:58-78 | the first complete line of what is buffered is dispatched, trimmed; the rest stays; more data is announced exactly if something is left |
| Framing.Drive | src/lldbmi2.cpp:306-307 | the driver loop ends, and has dispatched all complete lines and kept the unfinished rest |
| Framing.Receive | src/lldbmi2.cpp:298-337 | chunk by chunk the commands of the whole stream are dispatched, and its unfinished rest is kept |
| Framing.ChunksIrrelevant | src/engine.cpp:58-78 | the outcome depends on the stream alone, not on where it is cut |
| Framing.CommandsCut | src/engine.cpp:58-78 | a stream cut anywhere gives the commands of its first part, then those of the rest and the second part |
| Framing.LinesJoin | src/engine.cpp:60-79 | lines and rest put together are the stream, and contain no newline |
| Framing.LinesUnique | src/engine.cpp:60-79 | there is no other way to take a stream apart into such lines and rest |
| Framing.CommandsAreLines | src/engine.cpp:70-74 | the commands are the lines, each without the carriage returns at its end |
| ScanArgs.Scan | src/engine.cpp:1916-1953 | for every line: `argv` points at its tokens, in order, apart, terminated, inside the buffer; at most `MAX_ARGS - 2` of them, and NULL behind them |
| ScanArgs.CompactQuoted | src/engine.cpp:1929-1941 | the quoted text is compacted where it stands, the writer never ahead of the reader |
| ScanArgs.WordsRoundTrip | src/engine.cpp:1916-1953 | words joined by single spaces scan back to those words, as far as there is room |
| ScanArgs.QuotedRoundTrip | src/engine.cpp:1916-1953 | words and a quoted text behind them scan back to these arguments if and only if the text is quotable |
| ScanArgs.QuotedLast | src/engine.cpp:1929-1941 | a quoted text scans back to itself if and only if it is quotable |
| ScanArgs.NotQuotable | src/engine.cpp:1929-1941 | two texts that do not scan back |
| ScanArgs.SpacedRoundTrip | src/engine.cpp:1916-1953 | words with any white space before and between them scan back to those words; more than one character of white space at the end gives one more, empty, argument |
| ScanArgs.RejoinedRoundTrip | src/engine.cpp:871-880 | words put together again scan back to the same words |
| ScanArgs.EscapedQuotesDropped | src/engine.cpp:1934-1937 | a quoted text with escaped quotes, no two of them side by side, scans to the text without them: they are dropped, not unescaped |
| StreamRecord.StrRecPrintf | src/lldbmi2.cpp:393-423 | for every text whose records are each shorter than `BIG_LIMIT`: writes one record per line, and an unfinished last line with its line break before the closing quote |
| StreamRecord.ReadBack | src/lldbmi2.cpp:393-423 | the records read back as the text if and only if it has no backslash and its last line is finished |
| StreamRecord.ReadBackOpen | src/lldbmi2.cpp:393-423 | a reader that takes the closing quote in a line of its own for the end of an unfinished line gets every text back, finished or not, if and only if it has no backslash |
| StreamRecord.OneRecordPerLine | src/lldbmi2.cpp:407-418 | a finished text is sent as exactly one physical record per line |
| StreamRecord.NotReadable | src/lldbmi2.cpp:408-422 | two texts that do not read back |
| PathLookup.StrFind | src/variables.cpp:107-127 | finds what the scan in the given direction finds, or gives up at the exception |
| PathLookup.FindIs | src/variables.cpp:107-127 | the first hit of the scan is found unless a stop comes first |
| PathLookup.FindRoot | src/variables.cpp:152-164 | the in-place search leaves root and start of the children where the search on strings has them, for any oracle |
| PathLookup.SplitFirst | src/variables.cpp:170-176 | after the in-place split the buffer holds the first part, and `next` exactly the text behind the separator |
| PathLookup.GetDirectPathVariable | src/variables.cpp:145-212 | ends, and finds what the search on strings finds |
| PathLookup.FirstChildIs | src/variables.cpp:193-206 | the child taken is the first valid one, among the first `children_max`, of exactly that name, "(anonymous)" if it has none; nothing is taken only if there is no such child |
| Paths.LookupIsLookup | src/variables.cpp:145-212 | for every path of components joined by "." and "->" with array indices: whatever the debugger knows, the lookup on strings takes the longest prefix that resolves, before a member or else before an index, then the first valid child of each name among the first `children_max`, for at most `depth - 2` members, if and only if no minus sign stands where the code takes it for an arrow |
| Paths.MinusFails | src/variables.cpp:107-127 | `a.v[n-1].b`: the variable is there, the lookup does not find it |
| Paths.DotMissed | src/variables.cpp:152-164 | a minus sign before the last two characters of a member behind a dot: where the prefix in front of that dot is the one to be found, and its members are there, the lookup finds nothing |
| Paths.SplitMissed | src/variables.cpp:170-176 | a minus sign in a component that a dot follows: below a value that has all the members, the walk down finds nothing |
| Paths.FollowText | src/variables.cpp:170-211 | without minus signs in front of dots, walking the text member by member is walking the names, cut off by the depth |
| Paths.RootBeforePart | src/variables.cpp:152-168 | where the members behind dots have minus signs among their last two characters only, the root search on text finds the root of the search on structure, and leaves exactly the text of the remaining members |
| PathCleanup.FormatExpressionPath | src/variables.cpp:376-407 | the loop ends with the cleaned path; the buffer object stays in order if and only if the text put together does not end in a dot |
| PathCleanup.FinalDotFails | src/variables.cpp:403-405 | `a..b.` comes out as `a.b`, the buffer object out of order |
| PathCleanup.NormalKeepsLast | src/variables.cpp:389-402 | the rewriting keeps the last character |
| PathCleanup.AnyOrder | src/variables.cpp:389-402 | whatever rewriting steps are chosen, in whatever order, a chain that cannot go on ends in the result of the one right-to-left pass, and no chain is longer than the string |
| PathCleanup.NormalIsIrreducible | src/variables.cpp:389-402 | that pass leaves nothing to rewrite |
| PathCleanup.CleanupIsClean | src/variables.cpp:376-407 | the result is irreducible, does not end in a dot, is not changed by cleaning it again, and only dots and arrow characters were left out; it is the normal form, less its dot if the string ends in one |
| StrSearch.StrStr | src/variables.cpp:394-398 | the first occurrence of the pattern, or that there is none |
| Threads.ThreadTable.CheckThreadsLife | src/events.cpp:301-346 | slots and notifications after a check, for every list of threads; an invalid process changes nothing |
| Threads.TableIsLive | src/events.cpp:301-346 | the table holds live ids only, and all of them if and only if old and live ids together fit |
| Threads.SlotsStay | src/events.cpp:318-345 | a live thread keeps its slot, and the slot of an ended one is freed |
| Threads.LiveIdsAre | src/events.cpp:313-317 | the ids looked at are those of the valid threads, in the order of the process |
| Threads.NewThreadMissed | src/events.cpp:326-345 | a full table whose threads all ended does not take the new thread in |
| Threads.PlaceAllIds | src/events.cpp:313-338 | placing keeps the old ids, adds live ones only, and never an id twice |
| Threads.EveryRun | src/events.cpp:301-346 | over any run of checks the ids created and not yet exited are exactly the table, and the notifications of every thread alternate, starting with its creation |
| Threads.CheckInStep | src/events.cpp:301-346 | every check reports exactly the difference it makes to the table |
| Threads.CreationsInOrder | src/events.cpp:326-334 | of the new threads as many are announced as there are free slots, once each, in the order of the process |
| Threads.ExitsInOrder | src/events.cpp:339-344 | exactly the ended threads are announced as such, in the order of their slots |
| Threads.Alternates | src/events.cpp:330-343 | in a legal log the events of a thread alternate, and it is open after an odd number of them |
| Environment.Env.AddEnvironment | src/engine.cpp:1819-1838 | an entry is taken exactly if vector and arena have room; it then reads back behind the earlier ones, which stay; a rejected one changes nothing |
| Environment.Env.Get | src/engine.cpp:1832-1836 | `envp[i]` points at the i-th accepted entry |
| Environment.Env.UnsetEnv | src/engine.cpp:106-112 | no entries are left |
| Environment.OffsetsApart | src/engine.cpp:1832-1835 | each entry ends, terminator included, before the next one starts |
| Environment.PackedFills | src/engine.cpp:1832-1836 | the arena starts with exactly the entries, one behind the other with their terminators, and nothing between them |
| Environment.AllAccepted | src/engine.cpp:1819-1838 | a list is taken over completely if and only if it has at most `ENV_ENTRIES - 2` entries and, put one behind the other with their terminators, leaves a byte of the arena free |
| Environment.AlwaysFits | src/engine.cpp:1819-1838 | after any run of additions and resets the entries fit vector and arena |

## Left out

- The terminal has rows without end, does not scroll, and shows every character written as text in one
  cell; tabs, other control characters, wide characters and combining characters in the line are not
  modelled. An erasure while a wrap is pending erases nothing.
- Escape sequences are items, not bytes: the decimal numbers in them are not spelled out.
- Hints, mask mode, terminals that are not ttys, a change of the width during a session, and read or
  write errors.
- LineEditors.LineEditor.Feed: keys are not NUL, completion is a deterministic function of the line
  with NUL-free candidates shorter than `buflen` (TakeCandidate says what longer ones do), and the
  bytes of an escape sequence are there when they are read.
- LineEditors.LineEditor.BlockingEdit: keys and candidates are as for Feed.
- LineEditors.LineEditor.BlockingSession: keys and candidates are as for Feed.
- LineEditors.LineEditor.CompleteLine: candidates are as for Feed.
- Session.ScreenRightIff: the completion candidates are as for Feed.
- Recall.KeyAcceptsPreview: keys are not NUL; TAB and ESC have their own lemmas.
- SingleLine.RefreshShowsRow: the prompt is narrower than the row, without which there is no window
  (SingleLine.WindowIff).
- LineEditors.LineEditor.EditStart: the width and the file descriptors are given; raw mode is not
  modelled, and the buffer has at least two bytes.
- PathLookup.GetDirectPathVariable: LLDB values are finite trees and what LLDB resolves is an arbitrary
  function; a path longer than `NAME_MAX - 1` is cut, as in the code.
- Paths.LookupIsLookup: components are not empty and contain no ".", "->" or NUL, indices start with
  their only "[", base names have none, and the whole path fits the name buffer.
- StringBs.StringB.CopyAt: results stay below `BIG_LIMIT`, as Reserve says they have to; what a write
  behind the array does is not modelled. The `extraBytes` parameter, which no caller uses, and
  printf-style formatting are not modelled.
- StringBs.StringB.AppendChar: needs a capacity of at least 1 and a result below `BIG_LIMIT`, as
  ReserveOne says.
- Framing.Engine.FromCDT: what is buffered stays below `BIG_LIMIT`, as Reserve says it has to.
- Framing.Drive: the same.
- Framing.Receive: the same after every chunk.
- PathCleanup.FormatExpressionPath: the text put together stays below `BIG_LIMIT`, for the same reason.
- StreamRecord.StrRecPrintf: the formatted text is given, and each of its records is shorter than
  `BIG_LIMIT`, as the buffer needs (StringBs.StringB.Reserve).
- LineEditors.LineEditor.RefreshSingleLine: with a prompt not narrower than the terminal the trimmed
  length is no length of the line (SingleLine.TrimWindow); what reading there does is not modelled.
- ScanArgs.Scan: `isspace` is that of the C locale; the sequence number in front of a command and the
  options behind it are not parsed.
- Histories.History.Add: allocation does not fail; loading and saving history files is left out.
- Threads.ThreadTable.CheckThreadsLife: ids are positive, as LLDB's are; the thread group in the
  notifications is left out.
- The dispatch of MI commands, everything behind LLDB's API, the formatting of values and frames,
  signals, ptys and the log: calls into code that is not part of this model, or printing.
- Races between the listener thread and the main thread: they depend on LLDB's event delivery.
