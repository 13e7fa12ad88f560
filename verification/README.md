# Mail server: a Dafny model

The repository is a small mail server in C: SMTP in and out, IMAP over maildir directories, and an HTTP
endpoint. This project models its five hard parts and proves what they promise.

* **Buffers** (`BufferedIO.dfy`, `Relay.dfy`). The class `BufIO` has the source's two byte buffers and its
  `consumed`, `filled` and `written` fields over a `Transport` that hands out the stream in arbitrary pieces.
  The contracts speak only of `Pending()`, all bytes the reader can still hand out, and `Room()`, how many of
  them fit; how the transport cuts the stream never shows in an outcome. On top of it, the message between DATA
  and the lone dot is followed through relays.
* **Mailboxes** (`Maildir.dfy`, `ImapFlags.dfy`, `SeqSets.dfy`, `Directory.dfy`, `Listings.dfy`, `Expunges.dfy`,
  `Mailboxes.dfy`, `Runs.dfy`, `Appending.dfy`, `Meanings.dfy`). A directory is a map from file names to bytes; UIDs and flags live
  in the names. `View` reads the directory as a table from UIDs to messages, the class `Mailbox` runs the commands on
  the directory, and `Runs` states laws over every sequence of commands on any number of mailboxes. `Appending` adds
  the APPEND argument line and its literal, read from a buffer, and `Meanings` says what the commands do in terms of
  the numbers, names and flags a client writes.
* **Codecs and containers** (`Views.dfy`, `Decimals.dfy`, `JsonCodec.dfy`, `Base64.dfy`, `HashTables.dfy`,
  `HttpHeaders.dfy`, `TempAlloc.dfy`).
* **SMTP sessions** (`SmtpSession.dfy`, `SmtpServer.dfy`, `SmtpCounters.dfy`, `Deliveries.dfy`,
  `Envelopes.dfy`). A session is a
  fold of turns, each cut from the bytes of its connection; the class `Server` is the command loop over the buffers
  and two connections, proved to be that fold, and the laws are about every run. The shared counters are a state
  machine over atomic increments, and the local mail of a run is carried into the recipient's mailbox and out again
  by FETCH.
* **Header filtering** (`HeaderFilter.dfy`).

Loops of the source are methods with loops; what each computes is a function, and the laws are lemmas about that
function.

## Assumptions

* Bytes are characters; base64 output is numbers below 256. The C locale is assumed for `tolower` and `isspace`.
* A transport is a finite script of events (bytes, retry, failure) with a sticky end. All scripts are covered, so
  all ways of cutting a stream are; a peer that answers EAGAIN for ever is not.
* One mailbox command is one atomic step. The code locks no directory, so two threads may both pick
  `next_uid` before either writes; UID distinctness holds for atomic steps only.
* UIDs are unbounded; `next_uid` is the largest live UID plus one, so a UID may be reused after the largest one was
  expunged, and nothing here claims otherwise.
* The commands of a run use unique parts free of `;` and `/`. `Mailboxes.Mailbox.Deliver` and `Deliveries.DeliverAll`
  say what the others do: names stay well formed exactly without a `;`, also over a whole session, and
  `Maildir.UidReadBack` and `Maildir.FlagsReadBack` what is read back from every other name; `smtp.c` puts the EHLO
  argument there unchecked.
* JSON numbers are whole numbers that are exact as a `double` and as a `long` with either sign. The reader stops with
  `Beyond` where `strtod` would take more than such a number: no claim is made about the program there.
* `log10` announces the right number of digits where JSON is printed; `Decimals.PushedExactly` says what happens
  otherwise. A NUL follows the JSON text.
* The hash table is used without `hash_table_remove`, as in `http.c`.

Where the code differs from what a reader would expect, the code is followed. Strings that need an escape do not
survive JSON, at any depth (`JsonCodec.RoundTripExactly`; one backslash comes back as two,
`JsonCodec.BackslashDoubles`), and the reader takes a JSON text with commas missing (`JsonCodec.ValueDecodes`). A number in a message set goes through `int` (`SeqSets.SeqSetMeaning`,
`SeqSets.LoneNumberExactly`; 4294967297 is message 1, `SeqSets.WrappedNumber`). The announced UIDNEXT is the message
count plus one, not the next UID (`Listings.AnnouncedUidNext`). An open last header line of a field gains a CRLF each
time it is filtered (`HeaderFilter.FiltersComposeExactly`, `HeaderFilter.OpenLineGrows`). A body that ends in CRLF
loses it on every relay (`Relay.HopsLoseOnlyCrLfs`). The twenty-first distinct header name is dropped without notice
(`HttpHeaders.AgreesExactly`), and a header
without a value hides every later one (`HttpHeaders.SentFieldsAreRead`). A host name in EHLO can forge the UID and flags of a file name
(`Maildir.ForgedUidWins`, `Maildir.ForgedDeletion`). Formatting an empty or overlong text aborts, as an APPEND without
arguments does (`Appending.AppendCommand`).

## Model

| member | source | states |
|---|---|---|
| Views.SvFind | basic.c:235-248 | the substring loop returns the first occurrence, or none |
| Views.FindSpec | basic.c:235-248 | the result is an occurrence with none before it; no result means no occurrence anywhere |
| Views.FindPrefix | basic.c:235-248 | what is found in a prefix is found at the same place however the text goes on |
| Views.SvSplitDelim | basic.c:215-233 | the loop computes the split at the first delimiter |
| Views.SplitAt | basic.c:215-233 | splitting a joined text gives back both parts when the first holds no delimiter |
| Views.SvTrim | basic.c:197-213 | the two loops compute the trimmed view |
| Views.TrimSpec | basic.c:197-213 | trimming takes a run of blanks off each end, nothing else, and leaves none there |
| Views.TrimAround | basic.c:197-213 | blanks written around a text are exactly what trimming takes off |
| Views.WordThenRest | basic.c:197-233 | a word, any blanks and the rest are cut apart as they were written |
| Views.EqualIgnoreCaseIsLower | basic.c:185-195 | case-insensitive equality is equality after lower-casing, so it is an equivalence |
| BufferedIO.BufIO.constructor | bufio.c:22-33 | a new buffer has nothing read ahead and nothing written |
| BufferedIO.BufIO.ResetRead | bufio.c:43-46 | what was read ahead is dropped and only the transport is left |
| BufferedIO.BufIO.Compact | bufio.c:48-57 | restarting or moving the window keeps its bytes; it moves only when empty or in the upper half |
| BufferedIO.BufIO.Fill | bufio.c:48-69 | one more piece without losing or inventing a byte; "too large" exactly when the window is full |
| BufferedIO.BufIO.ReadUntil | bufio.c:71-87 | the shortest pending prefix ending in the terminator if it fits the room, else nothing is consumed |
| BufferedIO.BufIO.ReadN | bufio.c:89-97 | the next n pending bytes if they fit, else nothing is consumed |
| BufferedIO.BufIO.ReadUntilInto | bufio.c:99-128 | for every transport and every terminator of at most half the buffer, exactly the record is appended and the rest stays pending; with no record the whole stream is accounted for |
| BufferedIO.BufIO.DrainUntil | bufio.c:106-127 | the drain loop never misses a terminator across a cut and ends, because the unread stream shrinks |
| BufferedIO.BufIO.DrainOnce | bufio.c:109-126 | one round keeps the last bytes a terminator could straddle |
| BufferedIO.RecordAfterDrain | bufio.c:112-119 | setting aside bytes no record ends in shifts the first record and changes nothing else |
| BufferedIO.DrainStep | bufio.c:112-119 | all but the last terminator-length-minus-one bytes of a full window without a record can go |
| BufferedIO.RecordInWindow | bufio.c:74-84 | a terminator found in the window is the first one of the whole stream |
| BufferedIO.BufIO.ReadNInto | bufio.c:130-143 | the next n bytes for every n; fails only when the stream is shorter, never as too large |
| BufferedIO.BufIO.WbAppend | bufio.c:145-159 | bytes are accepted in order across any number of flushes; if not all were, the buffer is full and what went out is a prefix of what was accepted |
| BufferedIO.BufIO.Flush | bufio.c:170-184 | sends the buffer in any pieces; on failure a prefix went out and the buffer stays |
| BufferedIO.BufIO.WriteLine | bufio.c:165-168 | the line and CRLF are accepted |
| BufferedIO.BufIO.SendLine | bufio.c:186-189 | everything accepted so far, the line and CRLF are out |
| BufferedIO.HalfBufferIsEnough | bufio.c:48-97 | for every capacity and from every state, a record or count of up to capacity minus half of it is handed out; 2048 bytes for the capacity in use |
| BufferedIO.LongestRecordIsTight | bufio.c:48-87 | for every capacity some reachable state rejects a record one byte longer than capacity minus half of it |
| Relay.CutIsBodylike | smtp.c:332-341 | a body cut out of DATA has no dot line in it or across its end |
| Relay.ArrivedIsBodylike | smtp.c:145-151 | the frame is a dot line after the body less one final CRLF, and dropping that CRLF creates no earlier terminator |
| Relay.RelayFidelity | smtp.c:145-151 | whatever body was received and whatever follows, the next hop cuts exactly it, or it without one final CRLF |
| Relay.HopsLoseOnlyCrLfs | smtp.c:145-151 | over any number of hops a body loses one final CRLF a hop while it has one, and nothing else |
| Relay.SendBody | smtp.c:145-151 | exactly the frame of the body is sent |
| Relay.RelayData | smtp.c:332-381 | for every way both transports cut their streams, the next hop can cut the received body |
| Decimals.SvToLong | basic.c:348-386 | the loop computes the value and where endptr is left, with the sign, overflow and stray-character cases |
| Decimals.LongReadsAll | basic.c:348-386 | endptr is at the end if and only if the text is digits after an optional sign whose value fits, and then that is the value |
| Decimals.LeadingValueOfDecimal | maildir.c:26-35 | reading back a printed number, whatever follows it |
| Decimals.LongOfDecimal | basic.c:348-386 | every printed number is read back, LONG_MAX standing for larger ones |
| Decimals.IntOfDecimal | basic.c:388 | as an int it is read back exactly when it fits, else the low 32 bits of that are |
| Decimals.PushLong | basic.c:120-144 | for every number of places log10 announces with room for the digits: the digits end where the places end, and the sign is written where they start |
| Decimals.PushedExactly | basic.c:120-144 | that is the old contents and the decimal text if and only if the announced number of places is right |
| Maildir.FindKv | maildir.c:10-24 | the scan returns the first value of the key after the first semicolon |
| Maildir.ReadUid | maildir.c:26-35 | the digit loop reads the UID |
| Maildir.ReadFlags | maildir.c:37-51 | the letter loop reads the flags |
| Maildir.WriteFilename | maildir.c:65-75 | the letter buffer and the printed name are those of the codec |
| Maildir.CodecRoundTrip | maildir.c:10-75 | UID, flags and unique part are read back from every printed name whose unique part has no semicolon |
| Maildir.BasenameInvertsExactly | maildir.c:53-75 | the unique part comes back if and only if it has no semicolon |
| Maildir.PlainName | maildir.c:53-63 | a name without a semicolon has itself, less a final .eml, as its unique part |
| Maildir.BasenameAbortsExactly | maildir.c:53-63 | flags_basename prints an empty text, and so aborts, exactly on `.eml` and on names that begin with a semicolon |
| Maildir.UidReadBack | maildir.c:10-75 | for every unique part: the UID read back is the one carried in it if it has a U= section, else the one printed |
| Maildir.UidReadsBackExactly | maildir.c:10-75 | every UID is read back if and only if the unique part carries no U= section at or after its first semicolon |
| Maildir.FlagsReadBack | maildir.c:10-75 | the same for the flags and F= |
| Maildir.FlagsReadBackExactly | maildir.c:10-75 | every flag set is read back if and only if the unique part carries no F= section |
| Maildir.ForgedUidWins | smtp.c:354-359 | an instance: a host name ending in ;U=n makes every message delivered under it read as UID n |
| Maildir.ForgedDeletion | smtp.c:354-359 | an instance: a host name ending in ;F=T makes every message delivered under it read as deleted |
| Maildir.SetFlagSpec | maildir.c:77-88 | for every name on which flags_basename does not abort: UID and unique part stay and exactly the one flag is turned on |
| Maildir.SetFlagIdempotent | maildir.c:77-88 | setting a flag twice is setting it once, as strings |
| Maildir.SetFlagCommutes | maildir.c:77-88 | setting two flags commutes, as strings |
| Maildir.WellFormedNameIsUnique | maildir.c:65-75 | UID, unique part and flags determine the name |
| Maildir.PrintedIsWellFormed | maildir.c:65-75 | printed names are well formed and pass the server's .eml test |
| ImapFlags.ParseFlagList | imap.c:695-710 | the token loop of STORE and APPEND computes the list function |
| ImapFlags.ApplyListJoin | imap.c:695-710 | the loop folds one switch over the tokens of every flag list |
| ImapFlags.ApplyTokensSet | imap.c:695-710 | a list adds or removes exactly the flags it names |
| ImapFlags.ListByName | imap.c:56-63 | every list switches exactly the flags whose names are in it, in any case of letters, and no others |
| ImapFlags.WriteFlags | imap.c:41-54 | the printed list is the flags' names in the fixed order, separated by single blanks |
| ImapFlags.EchoRoundTrip | imap.c:41-63 | the printed list, read as a replacement, gives the same flags |
| SeqSets.ParseSet | imap.c:355-386 | the loop computes the ranges |
| SeqSets.SeqInRanges | imap.c:388-393 | the loop decides membership in the ranges |
| SeqSets.SeqSetMeaning | imap.c:355-393 | for every set, membership is 1..max and the meaning of the set with its numbers cut down to int, star being max and ends in either order; that is the set as written when its numbers are ints |
| SeqSets.StarRangeHasLast | imap.c:355-393 | n:* always includes the last message, also for n beyond it |
| SeqSets.LoneNumber | imap.c:355-393 | a lone number of any size selects the message its narrowed value names |
| SeqSets.LoneNumberExactly | imap.c:355-393 | it is honoured in every mailbox if and only if it is an int or narrows below 1 |
| SeqSets.WrappedNumber | imap.c:355-393 | an instance: 4294967297 selects message 1 in every mailbox that has one |
| Directory.WriteMessage | maildir.c:65-75 | writing under a fresh UID lands on no file that is there and adds exactly one row |
| Directory.WriteKeepsInvExactly | smtp.c:354-360 | after such a write all names are well formed with distinct UIDs if and only if the unique part is non-empty and free of semicolons |
| Directory.RenameMessage | imap.c:712-719 | renaming to other flags lands on no other live file and changes the flags of one row |
| Directory.RemoveMessages | imap.c:766-785 | removing files removes exactly their rows and keeps the invariant |
| Directory.ViewName | maildir.c:53-75 | the table determines every message's file name and bytes |
| Listings.ListMessages | imap.c:408-432 | for every order readdir may use, gathering and sorting gives the one ascending listing |
| Listings.SortByUid | maildir.c:104-108 | a permutation in which no pair is out of order |
| Listings.AscendingUnique | imap.c:421-432 | an ascending list is determined by its members, so every enumeration order sorts alike |
| Listings.NextUid | maildir.c:90-102 | for every directory, broken ones too: one above every UID some file name reads as, and no higher; in a well-formed one that is one above every live UID, in use by no message |
| Listings.UidAtLeastPosition | imap.c:421-432 | the UID at position k is at least k |
| Listings.AnnouncedUidNext | imap.c:206-211 | the announced count plus one never exceeds the UID next assigned, with equality if and only if the live UIDs are 1..count |
| Listings.MessageIffWellFormed | imap.c:194-199 | in every reachable directory the .eml test picks exactly the messages |
| Expunges.ReplayStep | imap.c:766-785 | one more EXPUNGE line removes the first message not yet kept from the client's list |
| Expunges.SurvivorsListing | imap.c:740-791 | the surviving UIDs are the listing of the table less the removed rows |
| Expunges.ProgressStep | imap.c:766-785 | a removed message announces the current number and does not advance it; a kept one only advances it |
| Expunges.ProgressEnd | imap.c:740-791 | a client replaying the numbers on its old list, and failing on a number it does not have, gets through and ends with the server's new list |
| Expunges.ReplayCounts | imap.c:766-785 | a replay that gets through shortens the list by one for each number |
| Expunges.UidExpungeMeaning | imap.c:740-791 | UID EXPUNGE removes exactly the deleted messages in the meaning of the set written, EXPUNGE all deleted ones |
| Mailboxes.Mailbox.Deliver | smtp.c:348-360 | for every directory and unique part: nothing is stored if the part holds a slash; else one file is written under the next UID; over no file that was there, with one row added and nothing else changed, if the mailbox and the part are well formed; names are well formed with distinct UIDs afterwards if and only if they were before and the part holds a slash, or no semicolon and something |
| Mailboxes.Mailbox.Append | imap.c:844-900 | BAD exactly for an unterminated flag list; else one message with the listed flags (`Meanings.AppendFlagsByName`) under the next UID |
| Appending.ReadRequest | imap.c:801-851 | the argument line is parsed, refused or found to abort in the source's order of tests, for every argument line |
| Appending.ParsesWhatWasWritten | imap.c:801-851 | a mailbox name, quoted or as one word, what stands behind it and a literal size are read as they were written, with blanks anywhere between, if the line fits the temporary buffer, and abort if not |
| Appending.LineReads | imap.c:801-868 | every line so written is read as its name, its size and the flags named in its list |
| Appending.RefusesNoLiteral | imap.c:806-814 | a line without both braces is refused |
| Appending.RefusesNegative | imap.c:815-820 | a negative size is refused |
| Appending.RefusesNames | imap.c:821-851 | an unclosed quote, an empty name and an unclosed flag list are refused, each with its own answer |
| Appending.AppendCommand | imap.c:801-910 | exactly the announced number of bytes after the line becomes one message under the next UID, for every way the transport cuts them, and for a line as a client writes it with exactly the flags named in it; a refused, aborted or broken APPEND stores nothing; it aborts exactly when the argument line is empty or too long |
| Mailboxes.Mailbox.Store | imap.c:635-732 | exactly the row found for the number or UID (`Meanings.StoreByNumber`) gets the new flags, under the same UID and position, and the reply holds the stored flags |
| Mailboxes.StoreMeaning | imap.c:645-710 | replace, add and remove are the set operations, for every list of flags |
| Mailboxes.StoreEcho | imap.c:645-732 | feeding the reply back as a replacement keeps the flags |
| Meanings.StoreByNumber | imap.c:635-732 | for every number, item and list of flags: the message with that number, or that UID, gets the flags added, removed or replaced by name, every other row stays, and the reply has its position; without such a message nothing happens; numbers are cut down to int |
| Meanings.NumbersOne | imap.c:676-691 | a number names one message at most, and exactly the live UIDs and the positions 1..count name one |
| Meanings.AppendFlagsByName | imap.c:844-868 | the flags of an APPEND are exactly those named in its list |
| Mailboxes.Mailbox.Fetch | imap.c:395-533 | replies for exactly the addressed messages in order, each with the BODY data of its section; BODY without PEEK marks exactly those seen; it stops exactly at the first addressed empty file, if files are read |
| Meanings.AddressedIsNamed | imap.c:429-433 | a set addresses exactly the messages it names, by number counted from 1 or by UID, with star the last one |
| Meanings.NamedAsWritten | imap.c:355-393 | for sets of ints those are the messages in the set as written |
| Meanings.FetchMeaning | imap.c:395-533 | for every set: one reply for each message named, in order, with its position, UID, stored flags, bytes and section, and exactly those are marked; it stops at the first one named whose file is empty |
| Mailboxes.CutSection | imap.c:488-506 | the section's data is the header block, the text, the filtered fields or the whole file |
| Meanings.FieldsSection | imap.c:488-506 | HEADER.FIELDS with a list of names sends exactly the fields so named of a message with well-formed headers, whole and in order, and a blank line; HEADER.FIELDS.NOT is taken for the same |
| Meanings.HeaderAndTextSections | imap.c:488-506 | HEADER and TEXT of a message with CRLF line ends are cut right behind the blank line |
| Mailboxes.PartsRejoin | imap.c:488-506 | BODY[HEADER] and BODY[TEXT] together are BODY[] |
| Mailboxes.FetchNext | imap.c:434-460 | one reply shows the row as stored now, and later rows are still as they were |
| Mailboxes.Mailbox.Relabel | imap.c:439-448 | a flag change renames one file, lands on no other and touches no other |
| Mailboxes.Mailbox.Copy | imap.c:1033-1139 | the loop's lists and the destination are those of the addressed messages, also into the same mailbox, up to the first addressed empty file |
| Mailboxes.CopyMeaning | imap.c:1074-1139 | on success two lists of equal length, new UIDs consecutive from the next one, same flags and bytes, nothing else changed |
| Meanings.CopySelects | imap.c:1033-1139 | for every set: the messages named, in order, each copied under its own new UID with its flags and bytes, up to the first one whose file is empty |
| Mailboxes.AddCopiesSpec | imap.c:1097-1127 | appended messages sit under consecutive UIDs and every other row stays |
| Mailboxes.Mailbox.Select | imap.c:182-214 | EXISTS and the unseen count are those of the table and UIDNEXT is announced as count plus one |
| Mailboxes.Mailbox.GetUidValidity | maildir.c:110-132 | the stored value if one can be scanned and is positive, else the clock's, which is then stored; a positive answer is given from then on; no message is touched |
| Mailboxes.ValidityAsWritten | maildir.c:110-132 | a stored number is usable exactly when it is positive, with blanks before it and any text behind it |
| Mailboxes.OthersKeepValidity | maildir.c:110-132 | a command that leaves the other files alone leaves the validity alone |
| Mailboxes.Mailbox.Expunge | imap.c:740-791 | exactly the deleted and addressed messages go; every number announced is one the client has then, there are as many as messages removed, and replaying them on the old listing gives the new one |
| Meanings.ExpungeSelects | imap.c:740-791 | EXPUNGE removes the messages flagged deleted, UID EXPUNGE those of them whose UIDs its set names |
| Mailboxes.Mailbox.Close | imap.c:541-560 | removes the same messages as EXPUNGE |
| Runs.StepKeeps | imap.c:740-791 | an operation keeps every message under its UID with its bytes unless it expunges one flagged deleted |
| Runs.OnlyExpungedDisappear | imap.c:740-791 | over every run a message is still there, or some expunge of its mailbox removed that same message while it was flagged deleted |
| Runs.UidsStayPositive | maildir.c:90-102 | over every run all UIDs are at least 1 |
| Runs.MeansRemove | imap.c:740-799 | only EXPUNGE, UID EXPUNGE and CLOSE remove, from their own mailbox, and UID EXPUNGE within the set it wrote |
| Runs.ReachedOnce | imap.c:395-533 | there is one place a FETCH or COPY gets to: the first addressed empty file or the end |
| Runs.MeansOnce | imap.c:1145-1262 | a command on a given table means one operation and no other |
| Runs.CommandsLoseOnlyDeleted | imap.c:541-560 | over every run of commands a message is still under its UID with its bytes, or some EXPUNGE, UID EXPUNGE or CLOSE of its mailbox met that same message flagged deleted and, for UID EXPUNGE, in the set written |
| Runs.Perform | imap.c:1145-1262 | every command is the one operation it means on its mailbox's table, keeps names well formed with distinct UIDs, and keeps a UIDVALIDITY |
| Runs.Serve | imap.c:1145-1262 | every run of commands on directories is the run of the operations they mean, each on the tables before it; every message that was there is accounted for; a UIDVALIDITY once stored never changes |
| HeaderFilter.HeadersAndText | imap.c:234-248 | headers and text are the whole message cut at one place |
| HeaderFilter.CrLfBlockIsCut | imap.c:234-248 | with CRLF line ends the message is cut exactly behind the first blank line |
| HeaderFilter.LfBlockIsCut | imap.c:234-248 | with LF line ends too, unless a CRLF CRLF comes later |
| HeaderFilter.NameInList | imap.c:250-260 | the token loop decides membership up to case |
| HeaderFilter.WordsSeparate | imap.c:250-260 | any run of blanks and tabs separates the names of a list |
| HeaderFilter.ListedAsWritten | imap.c:250-268 | a list of names, with or without parentheses, asks for exactly those names, in any case of letters |
| HeaderFilter.FilterFields | imap.c:264-301 | the line scanner with its continuation state computes the filter, and says exactly whether the result fits the temporary buffer it is formatted in |
| HeaderFilter.FilterFormatsExactly | imap.c:264-301 | for a NUL-free message the filtered block is formatted if and only if fewer than 4094 bytes are kept, so always when the header block is shorter than that |
| HeaderFilter.FieldsKeptWhole | imap.c:264-301 | of a block of header fields exactly those asked for are kept, each with all its continuation lines, in order |
| HeaderFilter.FieldsAsAsked | imap.c:264-301 | of a message whose fields are written as name, blanks, colon, value and folded lines, exactly the fields whose names are in the list written are sent |
| HeaderFilter.KeptOpenEnd | imap.c:264-301 | the kept lines end without a newline exactly when the header block ends in an open line of a field asked for |
| HeaderFilter.FilterTwice | imap.c:264-301 | filtering twice is filtering by both, up to one CRLF after such a line of a field in both |
| HeaderFilter.FilterComposesExactly | imap.c:264-301 | for two given filters, filtering composes if and only if the message does not end in an open header line of a field named in both |
| HeaderFilter.OpenLineGrows | imap.c:264-301 | an instance: a message that is one open line of a field asked for gains another CRLF when it is filtered a second time |
| HeaderFilter.FiltersComposeExactly | imap.c:264-301 | for all filters, if and only if the header block does not end in an open line of any field |
| HeaderFilter.FieldListsComposeExactly | imap.c:250-301 | the same for two field lists on every NUL-free message |
| HeaderFilter.BlankLineClosesHeaders | imap.c:234-248 | a message with a blank line after its headers does not end in one |
| HeaderFilter.FieldListsCompose | imap.c:250-301 | for NUL-free messages with a closed header block, two field lists act as their intersection, commute, and one twice is once |
| JsonCodec.SvEscape | basic.c:390-419 | the loop computes the escaped text |
| JsonCodec.EscapeLength | basic.c:390-419 | escaping changes a string exactly when it holds a quote, backslash or control character |
| JsonCodec.EscapeMeansSame | basic.c:390-419 | the escaped text, read as section 7 of RFC 8259 says, is the string, and holds no control character and no bare quote |
| JsonCodec.Print | basic.c:943-1004 | the recursive printer appends exactly the encoding |
| JsonCodec.ReadValue | basic.c:786-820 | the recursive reader on a moving cursor computes the decoder, every success leaves less text, and a number strtod would take further is marked as beyond the model |
| JsonCodec.ReadItems | basic.c:684-717 | the array loop computes the decoded items |
| JsonCodec.ReadEntries | basic.c:719-784 | the object loop computes the decoded entries |
| JsonCodec.ReadJson | basic.c:822-830 | reading a text is decoding it |
| JsonCodec.ValueDecodes | basic.c:660-820 | every text of a value without quotes in its strings is decoded to it with the strings escaped, with blanks anywhere between its parts, and with commas missing or one too many |
| JsonCodec.TextDecodes | basic.c:822-830 | so is a whole text with blanks around it; anything else behind it is an error |
| JsonCodec.DecodedIsReadable | basic.c:660-682 | nothing that was read holds a quote in a string or key |
| JsonCodec.RoundTripExactly | basic.c:598-1008 | for every nested value and pretty-print width, decoding its printed form gives it back if and only if no string in it needs an escape and no key holds a quote (its numbers being ones a double and a long hold) |
| JsonCodec.BackslashDoubles | basic.c:598-1008 | an instance: a string of one backslash is read back as two |
| JsonCodec.StringRoundTripsExactly | basic.c:660-682 | a string survives if and only if it needs no escape |
| Base64.Base64Decode | basic.c:1272-1297 | the loop over the unmasked 32-bit accumulator computes the decoder |
| Base64.OnlyWaitingBits | basic.c:1278-1294 | what the accumulator holds above the waiting bits never reaches the output |
| Base64.OutputFits | basic.c:1273-1276 | for every input the output fits the (len/4)*3+3 bytes set aside |
| Base64.EncodedDecodes | basic.c:1272-1297 | from any leftover accumulator the encoding of any bytes decodes to them |
| Base64.RoundTrip | basic.c:1272-1297 | decoding the section 4 encoding of RFC 4648, with blanks inserted anywhere, gives the bytes back |
| Base64.SplitCredentials | smtp.c:283-293 | the index loops compute name and password |
| Base64.AuthPlainRoundTrip | smtp.c:281-293 | name and password are recovered for every NUL-free authorization id and name |
| HashTables.HeaderKeyHash | http.c:25-32 | the accumulator loop computes the home slot |
| HashTables.HomeIgnoresCase | http.c:18-32 | keys equal up to case have the same home |
| HashTables.CycIsMod | basic.c:450-451 | the modular probe index goes once around the table |
| HashTables.StoreSpec | basic.c:447-467 | storing in the first free or matching slot keeps the probe invariant and is one map update |
| HashTables.FullMeansCapacity | basic.c:441-468 | as many keys as slots exactly when no slot is free |
| HashTables.HashTable.Set | basic.c:441-468 | a map update up to case; refused exactly for a new key on a full table, and length counts the successes |
| HashTables.HashTable.Get | basic.c:470-495 | the map's value up to case, or none |
| HttpHeaders.Headers.Set | http.c:38-51 | the multimap step: a known name gains a value, a new one gets its own list if a slot is free |
| HttpHeaders.Headers.Get | http.c:53-62 | the list of the name, as it is now |
| HttpHeaders.Headers.ReadFields | http.c:221-242 | the header loop sets exactly the fields of the text up to the first empty name or value, and yields the announced length or a parse error |
| HttpHeaders.SentFieldsAreRead | http.c:221-242 | header lines written as name, colon and value, with blanks before both, are read as those fields, up to the first line that is empty, has no colon or has nothing on one side of it; a field without a value hides all after it |
| HttpHeaders.SentLengthIsRead | http.c:221-242 | the length is the value of the last Content-Length, 0 without one, and the request is refused if and only if one of them is not digits after an optional sign that fit a long |
| HttpHeaders.SetAllSpec | http.c:38-51 | a run keeps, for the first names up to the capacity, every value in arrival order, and nothing else |
| HttpHeaders.AgreesExactly | http.c:38-62 | the table answers like the multimap of section 5.3 of RFC 9110 if and only if no more names than slots were used |
| TempAlloc.TempBuffer.Talloc | basic.c:31-42 | the block starts where the placement says and lies inside the buffer |
| TempAlloc.Tprintf | basic.c:315-331 | the formatted copy is the text up to a NUL; it aborts exactly when that is empty or does not fit |
| TempAlloc.FormatsExactly | basic.c:315-331 | a NUL-free text is formatted if and only if it is non-empty and shorter than the buffer |
| TempAlloc.UpToNulCut | basic.c:315-331 | nothing from the first NUL on is printed |
| TempAlloc.OneWrap | basic.c:31-42 | a window whose total plus any later size fits the buffer wraps at most once |
| TempAlloc.WindowIsSafe | basic.c:31-42 | its blocks are pairwise disjoint, also across the wrap |
| TempAlloc.HalfIsSafe | basic.c:31-42 | so a window of at most half the buffer is safe |
| TempAlloc.BoundIsTight | basic.c:31-42 | eight bytes more, for any later size up to half the buffer, and two blocks overlap |
| SmtpSession.EveryRunIsJustified | smtp.c:193-395 | in every run a relay follows a login, which follows TLS; stores are for local recipients; TLS starts once; authenticated implies TLS and a non-local recipient implies authenticated |
| SmtpSession.RespondIsSound | smtp.c:207-392 | one turn keeps that invariant and acts only when it may |
| SmtpSession.PlaintextIsForgotten | smtp.c:229-260 | after STARTTLS the run is that of a client that started on TLS, whatever was said in the clear |
| SmtpSession.LoginExactly | smtp.c:281-304 | a response a client encoded is accepted if and only if it has the configured name and password, neither empty |
| SmtpSession.BodyWasSent | smtp.c:332-341 | a body handed on is what the client sent up to the first dot line |
| SmtpSession.AllReceivedIsHeard | smtp.c:193-395 | turns read off the two connections, each right behind the one before, are turns as the laws need them |
| SmtpSession.HeardIsFront | smtp.c:193-395 | what such a run has heard is always the front of the connection it is on, also when a turn ended it |
| Envelopes.MailGoesWhereAsked | smtp.c:193-395 | for every run and turn, from the lines of the client and the effects before it alone: which effect the turn has; the recipient of a body is the last RCPT that could be accepted since TLS came up, the sender the last MAIL, the host the last EHLO or HELO; and what the client is told |
| Envelopes.ReadsWhatIsAsked | smtp.c:262-341 | what is read beyond command lines is bodies up to the first dot line and the lines after AUTH prompts on TLS |
| Envelopes.VerbIsWord | smtp.c:208-388 | a command is known exactly by its word, in any case of letters |
| Envelopes.LineAsWritten | smtp.c:203-206 | a command line is read as its word and its argument, with blanks anywhere around them |
| Envelopes.AddressAsWritten | smtp.c:307-315 | the address of MAIL and RCPT is what stands between the first brackets |
| Envelopes.DomainAsWritten | smtp.c:316-318 | the domain is what follows the first @, and an address is local exactly when that is the local domain or localhost, in any case of letters |
| Envelopes.RecipientAsWritten | smtp.c:313-330 | RCPT TO with an address in brackets names that address |
| Envelopes.AuthAsWritten | smtp.c:268-271 | the mechanism and the initial response of AUTH are read as written |
| SmtpSession.RelayedBodiesArrive | smtp.c:332-381 | in every run the next server cuts each relayed body, or it without one final CRLF |
| SmtpServer.Server.HandleEhlo | smtp.c:207-221 | the state and the four lines of EHLO |
| SmtpServer.Server.HandleStartTls | smtp.c:229-260 | refused on TLS; else what was read ahead is dropped, the state reset and only the TLS stream is left |
| SmtpServer.Server.HandleAuth | smtp.c:262-305 | every branch of AUTH, with the prompted line read as one record; it gives up exactly at a prompt, and only if no short complete line is pending |
| SmtpServer.Server.HandleRcpt | smtp.c:313-330 | denied exactly for a non-local recipient without a login; else the recipient is replaced |
| SmtpServer.Server.HandleData | smtp.c:332-384 | the body is the shortest record up to the dot line, of any length, and where it goes depends on the recipient; it gives up only if no dot line is ever sent |
| SmtpServer.Server.Handle | smtp.c:207-392 | one pass of the loop is one turn: state, answers, effect and bytes taken; a turn that ends the session is QUIT, a failed handshake, or one whose further line or body is not in what is pending |
| SmtpServer.Server.Pass | smtp.c:193-395 | the line read is the first of the pending bytes, what it asks for stands right behind it, and handling it advances the run by one turn; what is left to read shrinks |
| SmtpServer.Server.Serve | smtp.c:193-395 | the whole loop is a run of turns, each cut from the bytes of its connection right behind the one before, in the clear and on TLS, also when a turn ends it; it stops early only without a short complete line; everything said is what the turns say; every such run is justified |
| Deliveries.DeliverAll | smtp.c:348-360 | for every directory and all hosts: names are well formed with distinct UIDs after the stores of a run if and only if they were before and no stored host holds a semicolon; then the stores add one message each to the recipient's mailbox, under the next UIDs in order, and change nothing else |
| Deliveries.MailIsStores | smtp.c:348-360 | the successful stores for a recipient, in order, are one for one the messages left |
| Deliveries.MailWasSent | smtp.c:332-360 | the i-th of those messages was stored by the turn of the i-th successful store; the recipient is the one its client named last, and the message what the client sent in that turn up to the first dot line |
| Deliveries.FetchOne | imap.c:395-533 | UID FETCH of a live non-empty message goes through with one reply, which shows its bytes, flags and section |
| Deliveries.DeliverAndFetch | smtp.c:348-360 | a delivered non-empty message is what UID FETCH BODY[] of its UID sends, seen exactly without PEEK |
| SmtpCounters.ProgramAlternates | smtp.c:342-381 | a session's increments alternate between received and one outcome |
| SmtpCounters.AlwaysBalanced | smtp.c:342-381 | at every moment of every interleaving received equals delivered plus sent plus both failures plus messages in flight |
| SmtpCounters.CountsAreExact | smtp.c:342-381 | every counter is the number of its increments made so far |
| SmtpCounters.OrderDoesNotMatter | smtp.c:342-381 | with the same work done, the counters do not depend on the interleaving |

## Left out

- Sockets, TLS records, DNS, `accept` loops, signals and real threads: transports, handshake results, store and relay results are inputs.
- Real directories, clocks and random ids: a directory is a map, unique parts are inputs, path prefixes and failing writes or renames are not modelled.
- Interleaving inside one mailbox command: each is one step, as said above.
- LIST, LSUB and `fnmatch`, CREATE, DELETE, RENAME, SEARCH, LOGIN, STATUS parsing and the IMAP command loop: no property of their own beyond the listing.
- STORE with a set of several messages, a COPY that stopped half-way beyond its state, DATA without RCPT beyond its refusal: the code makes no usable promise there.
- `parse_fetch_items`, INTERNALDATE and the texts of IMAP replies: only the sets, flags, numbers, sections and bytes they carry.
- `tprintf` aborts on an empty text and on one too long for its buffer: modelled for APPEND arguments (`Appending.ParsesWhatWasWritten`), file names (`Maildir.BasenameAbortsExactly`) and filtered headers (`HeaderFilter.FilterFormatsExactly`), but commands on mailboxes go on as if nothing aborted.
- Views into the read buffer: strings are values, so a view that outlives the next read is not captured.
- Growth of `StringBuilder` and `ARRAY`, memory leaks and `free` order.
- `hash_table_remove`, which leaves no tombstone and has no caller; the priority-queue macros, also unused.
- `strtod`, `log10`, fractions and floating-point printing.
- JsonCodec.ReadValue: a number with a fraction, an exponent, a hexadecimal prefix or too many digits is marked, not read.
- JsonCodec.ReadJson: the same.
- Re-flushing after a flush that failed half-way: `Flush` keeps the buffer, so sent bytes may go out again.
- The dialogue of `smtp_deliver` before its message and dot-stuffing, which the code does on neither side.
- BufferedIO.BufIO.SendLine: what is sent is stated for peers that take what is written; after a failed write only that nothing sent is taken back.
- BufferedIO.BufIO.WriteLine: the same, because its second append may flush again what a failed flush had sent in part.
- Deliveries.DeliverAll: a store whose host holds a `/` is one that failed, as `Mailboxes.Mailbox.Deliver` says; what a mailbox holds after a host with a `;` is stated for single deliveries only.
- Mailboxes.Mailbox.Append: starts at the flag list; the line before it and the literal are `Appending.AppendCommand`.
- SmtpServer.Server.HandleData: how the mailbox write or the delivery went is an input; what the writes do to the mailbox is `Deliveries.DeliverAll`.
- Decimals.PushLong: not for LONG_MIN, and not where the digits would start before the buffer.
- Base64.OutputFits: the byte bound only; allocation itself is not modelled.
