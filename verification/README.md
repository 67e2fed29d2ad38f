# Penguin Mail, modelled and proved

Penguin Mail is a mail application. This project models the parts of it that
need no window and no network, and proves for all inputs, all runs and all
schedules what their comments and documentation say of them:

- **The composer's body** (`Signature`, `SignatureScan`, `SignatureLimits`,
  `InnerSeparators`, `SignatureChange`, `SignatureReading`, `RichSignature`, `Folding`,
  `SavedDraft`, `ForwardedBlock`, `Markup`, `LinePrefixes`, `Replies`):
  a signature is put above the quoted original and swapped while it is
  untouched, in text, in the editor's lines as far as the editor reads them,
  and in styled blocks; a reply's
  quote is folded into a saved draft and found again; a forwarded message's
  HTML is cut off whole by a hand-written scanner.
- **Protocols** (`Notifications`, `Announcing`, `SharedMailbox`, `Shedding`,
  `McpServer`): new-mail notifications against changes to the store; removing
  accounts against attaching and starting shared mailboxes and keeping tokens
  under one turn lock; giving memory back against windows opening and closing;
  a JSON-RPC server that answers out of order.
- **Objects with a history** (`Sse`, `SseWriting`, `ChatHistory`): an
  incremental parser of server-sent events and a bounded chat.
- **A graph closure** (`Relocation`): copying what a program is linked to.
- **Fast forms** (`Splice`, `Contacts`, `Promises`, `AddAccount`,
  `Autostart`): each against the plain definition of what it computes.

`Text` holds the string operations they share.

Where the program changes things in place the model does too: its classes
(`Sse.SseReader`, `Notifications.Issued`, `Announcing.App`,
`SharedMailbox.Core`, `Relocation.Bundler`, `Shedding.App`,
`ChatHistory.History`) have the fields of the originals, and each method is
proved equal to a function of the state before it. The laws are then proved
about those functions over whole runs. Its loops are methods proved against
recursive definitions.

Conventions of the model. Strings are sequences of characters and offsets
count characters. Whitespace is the Unicode White_Space property, written
out. Letter case is ASCII where the program compares addresses or looks for a
fixed ASCII phrase, and a parameter where it lowers arbitrary text.
Translated words (`tail`, the end of the attribution line), HTML attribute
parsing (`marked`), Markdown parsing (`fromMarkdown`) and HTML rendering
(`htmlToText`) are function parameters, so every law holds for any of them,
but for a tail that is empty or nothing but one or two dashes.

Properties that turned out to hold only under a condition, and where the
condition is proved exact:

- A reminder's notification (app/src/app/sending.rs:441-466) is announced
  without the second look that new mail gets, so it can outlive its mail:
  `Announcing.ReminderOutlivesItsMail` is such a run, and
  `Announcing.RemindExact` says exactly when a reminder is safe. Without late
  reminders no notification outlives its mail.
- An untouched signature under the writer's words is swapped when the scan for the
  original finds no quote in those words and the signature holds no line `--` of
  its own. One with such a line is left where it stands, and when a quote is found
  in the words only they are looked at, so that the signature stays too
  (`SignatureLimits.SwapTyped`, for all words, signatures and originals). In a
  message as it was signed no quote is found in the words, so that swapping is
  inserting exactly when the signature holds no line `--` of its own or both are put
  in alike (`SignatureLimits.SwapExact`). `Ann`, `--`, `Bob` is a signature that
  stays (`SignatureLimits.OwnSeparatorStays`), and `Ann` stays once the writer puts
  `> q` above it (`SignatureLimits.QuotedWordsKeep`).
- The editor swaps a signature from the lines down to the first quoted one, and
  expects a signature to end as many lines under a `--` as it has
  (app/src/ui/composer/editor.rs:1264-1300). Its comment says that it reads the
  expected signature's lines before it stops at a quote within it, and the one on
  `signature_change` that the first quoted line is far enough. With a line `--`
  among the writer's words it can stop inside a signature that holds a quote line,
  and then leaves a signature in place that would be swapped in the whole text:
  `SignatureReading.StrayDashes` is such a buffer. `SignatureReading.ReadExact`
  says exactly when what it reads is enough: `SignatureReading.ReadThrough` asks
  that no quote line of the signature, its last line aside, stands at or below
  where the `--` lines above it make the editor expect the signature's end.
  `SignatureReading.TypedReadExact` says the same for any words in which neither the
  scan nor the reader meets a quote. When no line of the words is a `--` what is
  read is always enough, whatever quotes they hold
  (`SignatureReading.WordsRead`). The model follows the code.
- A styled signature under words that do not stop the scan is swapped exactly when
  nothing of the writer's own stands below it; when a quote among the words stops
  the scan the signature stays (`RichSignature.SwapExact`,
  `RichSignature.PostscriptKeeps`, `RichSignature.QuotedWordsKeep`). This is for a
  signature the scan can tell apart: its first block is not in the history, nor both
  among the words and again in the signature. A first signature is put right under
  the words exactly when the last of them does not read as the attribution of the
  quote below (`RichSignature.InsertExact`, `RichSignature.AttributionTaken`).
- A saved draft comes back exactly when its original is visible, the line
  over it reads as an attribution (so it does not start with `>`), and the
  text holds no carriage return before a line feed and nowhere, be it inside a
  line or in the quoted original, `---------- Forwarded message ----------`
  (`SavedDraft.DraftComesBack`; `SavedDraft.QuotedForwardLost` is one that loses
  its quote). A draft that forwards a message comes back with its words and the
  message exactly when neither holds a carriage return before a line feed and the
  words do not hold that line (`SavedDraft.ForwardComesBack`). The comment on
  `take_body` promises the return without these conditions; the model follows the
  code.
- Server-sent events survive writing and reading exactly when no name holds a
  line feed and no name or line of data ends in a carriage return
  (`SseWriting.RoundTripExact`); `SseWriting.ReturnLost` is an event that does
  not.
- The phrase matcher is complete exactly for phrases without an article after
  their first word, as all of the program's are (`Promises.GreedyExact`,
  `Promises.PromisesFound`).
- Marking lines twice gives the text back exactly when the mark is a quote's
  or no line had a list mark (`LinePrefixes.ToggledTwice`).

The event-stream parser ends lines at line feeds alone and gives what the
stream ends on as an event, where sections 9.2.5 and 9.2.6 of the WHATWG HTML
Standard also end lines at a lone carriage return and drop an unfinished
event; the model follows the code.

The MCP server gives no answer to a request whose id is null, to a list of
requests, or to a message with an id and no method. Section 6 of the JSON-RPC
2.0 Specification asks for an answer to a list, and its section 5.1 names an
error for an invalid request; the model follows the code.

## Model

| member | source | states |
|---|---|---|
| Signature.QuoteAfterSignature | app/src/compose.rs:1255-1288 | the loop finds where the definition by single steps says the quoted original starts, the signature's own `>` lines passed over |
| Signature.SignatureStartsAt | app/src/compose.rs:1290-1318 | the loop finds the last separator line and answers it only while what follows is still the signature, as the recursive definition does |
| Signature.CutParts | app/src/compose.rs:1206-1220 | the two halves a message is cut in are the message but for blank text between them: words with no quoted line and either nothing or an original, an attribution line if any, blank lines and a quote line |
| Signature.CutAgain | app/src/compose.rs:1206-1220 | words put over an original with its attribution line are cut into just these |
| Signature.WithKeeps | app/src/compose.rs:1203-1219 | putting a signature in replaces only the blank text between words and original by the separator, the signature and blank lines |
| Signature.SignedOver | app/src/compose.rs:1203-1219 | words over an original with its attribution line get the signature between them, all words and all of the original kept |
| Signature.SignedReply | app/src/compose.rs:1203-1219 | one reply, signed |
| Signature.QuoteOfSigned | app/src/compose.rs:1255-1288 | in a signed message the scan finds the original exactly where it was put, whatever quotes the signature holds |
| Signature.SignatureOfHead | app/src/compose.rs:1290-1318 | above the original the signature is found exactly where it was put |
| Signature.RestyleSigned | app/src/compose.rs:1319-1345 | under any words in which no quote is found an unseparated untouched signature is swapped, also for none: what stays is the words without the line feeds that end them, the new signature and the original |
| Signature.ReadToTheQuote | app/src/compose.rs:1356-1366 | once a text holds the quote the scan finds, whatever lines follow make no difference and stay as they are |
| Signature.SwapSigned | app/src/compose.rs:1206-1345 | swapping an untouched signature, also for none, leaves the words, the new signature if any and the original, and nothing else |
| Signature.SwapIsInsert | app/src/compose.rs:1206-1345 | swapping an untouched signature is having put the new one in, for every body and every two signatures, the old one without a separator line |
| Signature.SwapThereAndBack | app/src/compose.rs:1319-1345 | swapping to another signature and back leaves the message as it was |
| SignatureScan.QuoteOfOpening | app/src/compose.rs:1255-1288 | for a signature whose only separator line opens it, under any words in which no quote is found, the scan takes the quote to start inside the signature or exactly where the original starts |
| SignatureLimits.NotFound | app/src/compose.rs:1290-1318 | under the words it was put under a signature is not found when the quote is taken to start inside it, nor at its end or past blanks under it when it holds a separator line of its own |
| SignatureLimits.NeverFound | app/src/compose.rs:1290-1318 | a signature with a separator line under anything visible of its own is found in no text whatever |
| SignatureLimits.LeftInPlace | app/src/compose.rs:1319-1345 | under any words in which no quote is found a signature with a separator line of its own is left where it stands, whatever is to replace it, none included, and whatever the message quotes |
| SignatureLimits.SwapTyped | app/src/compose.rs:1319-1345 | what swapping an untouched signature gives under any words, for any two signatures and any original: with a quote found in the words they alone are restyled and the signature stays; else it is replaced, unless it has a separator line of its own, and then nothing changes |
| SignatureLimits.QuotedWordsKeep | app/src/compose.rs:1319-1345 | the signature `Ann` under the words `> q` stays |
| SignatureLimits.SwapExact | app/src/compose.rs:1206-1345 | for every message, swapping an untouched signature is having put the new one in if and only if the old one has no separator line of its own or both are put in alike; one with such a line is left where it stands |
| SignatureLimits.OwnSeparatorStays | app/src/compose.rs:1319-1345 | the signature `Ann`, `--`, `Bob` under `Hi` stays when another is to take its place |
| SignatureChange.ChangeExact | app/src/compose.rs:1347-1393 | the line change applied to the buffer gives exactly the lines of the restyled text, is absent exactly when nothing changes, and removes and adds the fewest lines any single change can |
| SignatureChange.ChangeIsInsert | app/src/compose.rs:1347-1393 | applied to a signed buffer it gives the lines of the message signed with the other signature |
| SignatureReading.LinesToQuote | app/src/ui/composer/editor.rs:1264-1300 | the loop with its running end of the signature reads the lines the recursive definition says |
| SignatureReading.TypedReadExact | app/src/ui/composer/editor.rs:1204-1300 | in the buffer of a message under whose words an untouched signature stands, where neither scan nor reader meets a quote in the words, the swap worked out from the lines read gives the lines of the restyled text if and only if the signature has a separator line of its own, or reading passes its quote lines but for its last line, or restyling changes nothing |
| SignatureReading.ReadExact | app/src/ui/composer/editor.rs:1204-1300 | in the buffer of any signed message the swap worked out from the lines read gives the lines of the restyled text if and only if the old signature has a separator line of its own, or reading passes its quote lines but for its last line, or both are put in alike; where reading stops short nothing changes |
| SignatureReading.EditorSwapExact | app/src/ui/composer/editor.rs:1204-1300 | it gives the lines of the message signed with the other signature if and only if the old one has no separator line of its own and reading passes its quote lines but for its last line, or both are put in alike; else the buffer stays as it is |
| SignatureReading.ReadHolds | app/src/ui/composer/editor.rs:1204-1300 | in every buffer lines read that hold the quote the scan finds give what restyling the whole text gives |
| SignatureReading.ReadUnseparated | app/src/ui/composer/editor.rs:1204-1300 | in every buffer, with no old signature or no separator among the lines read, these give what restyling the whole text gives |
| SignatureReading.WordsUnseparated | app/src/ui/composer/editor.rs:1264-1300 | under words without a separator line reading passes every signature |
| SignatureReading.WordsRead | app/src/ui/composer/editor.rs:1204-1300 | with no separator line among the words, quotes or none, the lines read give what restyling the whole text gives for every untouched signature and original |
| SignatureReading.StrayDashes | app/src/ui/composer/editor.rs:1264-1300 | a buffer of a signed message the editor leaves as it is, though in its whole text the signature would be swapped |
| SignatureChange.SplitJoin | app/src/compose.rs:1363-1393 | the editor's lines joined and split at line feeds are the same lines |
| RichSignature.BlockTextAppend | app/src/richtext.rs:82-85 | the text of a line is that of its spans, one after the other |
| RichSignature.ScanBlocks | app/src/compose.rs:1137-1201 | the loop over styled blocks, with its one match candidate and early end, ends in the state the step function gives |
| RichSignature.SwapExact | app/src/compose.rs:1137-1201 | for an untouched signature told apart by its first block, and any history, the change is exactly the splice to words, new signature and history, if and only if nothing of the writer's own stands below the signature; when the words stop the scan the change is that of the words alone |
| RichSignature.PostscriptKeeps | app/src/compose.rs:1137-1201 | a paragraph `PS` under the signature keeps it from being swapped |
| RichSignature.PostscriptOverQuote | app/src/compose.rs:1137-1201 | so does one over a quote, which does not read as an attribution |
| RichSignature.QuotedWordsKeep | app/src/compose.rs:1137-1201 | a quote above the signature keeps it from being swapped |
| RichSignature.ReadToTheHistory | app/src/compose.rs:1137-1201 | blocks below the one the scan stops at make no difference |
| RichSignature.StopsAtHistory | app/src/compose.rs:1137-1201 | the scan stops at the first quote after the signature |
| RichSignature.InsertExact | app/src/compose.rs:1137-1201 | a message without a signature gets one right under its words, with the blank lines above it that its surroundings ask for, if and only if the last of the words does not read as the attribution of the quote under it |
| RichSignature.AttributionTaken | app/src/compose.rs:1137-1201 | under `Hi` and `She wrote:` over a quote a first signature is put above the second line |
| RichSignature.InsertThenSwap | app/src/compose.rs:1137-1201 | putting one signature in and swapping it gives the blocks that putting the other in gives |
| Folding.TrailingQuoteAt | app/src/compose.rs:836-860 | the backward loop finds where the recursive definition says the trailing quote starts |
| Folding.QuoteLines | app/src/compose.rs:1059-1071 | every line of a quoted text is a quote line, and there is one unless the text is blank |
| Folding.TrailingQuoteExact | app/src/compose.rs:811-860 | for any words, quotes of their own included, the quote of an unfolded draft is found exactly where its attribution starts if and only if the original is visible and the line reads as an attribution |
| SavedDraft.DraftComesBack | app/src/compose.rs:690-750 | a draft saved with its quote folded reopens with the words, cut at the end, and the same quote, if and only if its text keeps them |
| SavedDraft.QuotedForwardLost | app/src/compose.rs:690-750 | a draft whose original is the line of a forwarded message reopens as one that forwards |
| SavedDraft.ForwardComesBack | app/src/compose.rs:690-750 | a draft of plain words saved with a message it forwards reopens with the words, cut at the end, and the message byte for byte, if and only if neither text holds a carriage return before a line feed and the words do not hold what opens a forwarded message |
| ForwardedBlock.MeasureTag | app/src/compose.rs:440-454 | the loop measures a tag up to its closing `>` outside quotes |
| ForwardedBlock.ForwardStartsAt | app/src/compose.rs:395-437 | the scanner, comments, raw text and quotes skipped, ends and finds what the definition by tokens finds |
| ForwardedBlock.ForwardMore | app/src/compose.rs:395-437 | in complete HTML without a marked tag the scan comes to whatever tag follows, and a marked tag inside is found whatever follows |
| ForwardedBlock.SplitExact | app/src/compose.rs:389-454 | complete HTML with no marked tag followed by a marked tag is split exactly between them, byte for byte |
| ForwardedBlock.FirstMarked | app/src/compose.rs:404-437 | the tokens put together are the HTML, the tag found is the first marked start tag among them, and none is found only when none is marked |
| Markup.PassComment | app/src/compose.rs:404-413 | a comment, whose text is any that lacks the closing mark, is stepped over whole |
| Markup.PassTag | app/src/compose.rs:414-428 | so is a tag without the mark, its quoted values any that lack their quote |
| Markup.PassRaw | app/src/compose.rs:426-434 | and a script or style with its text, any that lacks the closing tag, and that tag |
| Markup.MarkupPassed | app/src/compose.rs:404-437 | in markup written out of text, comments, tags, scripts and styles none of whose tags carries the mark the scanner comes to whatever follows |
| Markup.MarkupComplete | app/src/compose.rs:404-454 | and it is complete HTML, whatever its tags carry |
| Markup.WrittenSplit | app/src/compose.rs:389-437 | such markup over a block that carries the mark is cut just where the block starts, and alone it is not cut |
| LinePrefixes.StripMark | app/src/compose.rs:232-279 | a mark put on a line, any number included, is what is taken off, and the line is not blank |
| LinePrefixes.StripExact | app/src/compose.rs:232-247 | a line has a bullet, a number or a quote mark if and only if it is one written out and the rest, a quote mark taking a space with it where there is one |
| LinePrefixes.ToggledExact | app/src/compose.rs:249-279 | every line after toggling: blank ones as they were, the mark off when all the others have it, else on, in place of a list mark but for a quote, numbered from one |
| LinePrefixes.MarkedTwice | app/src/compose.rs:249-279 | marking lines that do not all have the mark and toggling again gives the lines without list marks, which are the lines themselves if and only if the mark is a quote's or none had a list mark |
| LinePrefixes.ToggledTwice | app/src/compose.rs:249-279 | the same for a whole text |
| Replies.Dedupe | app/src/compose.rs:1031-1048 | the loop keeps the first occurrence of each address that has an email and is not excluded |
| Replies.FirstsHold | app/src/compose.rs:1031-1048 | an address is kept, in any case, exactly when the list holds it, its email is not empty and it is not excluded |
| Replies.FirstsExact | app/src/compose.rs:1031-1048 | an address is kept as written where it stands first, in any case |
| Replies.FirstsOrder | app/src/compose.rs:1031-1048 | the addresses kept stand in the order of the list |
| Replies.Respond | app/src/compose.rs:974-990 | the recipients of a reply or a reply to all |
| Replies.ReachesOnce | app/src/compose.rs:947-990 | a reply to all reaches exactly everyone the original was from, to or copied to but oneself; a reply exactly those it is addressed to; nobody twice across To and Cc |
| Splice.SpliceRebuilds | app/src/diff.rs:9-34 | there is a splice exactly when the lists differ, and it turns the old list into the new one; the ends kept never overlap |
| Splice.SpliceLeast | app/src/diff.rs:9-34 | no other single replacement that gives the new list removes or adds fewer items |
| Sse.FieldExact | ai/src/sse.rs:66-72 | a line is a field up to its first colon and what follows but for one space, or a field without a value |
| Sse.SseReader.Dispatch | ai/src/sse.rs:80-95 | completes the event the block under way spells, if it holds data, and starts a new block |
| Sse.SseReader.TakeLine | ai/src/sse.rs:61-80 | one line's effect on the event under way |
| Sse.SseReader.Next | ai/src/sse.rs:29-58 | gives the next of the events still to come, none only at the end, and ends; a failure loses no event |
| Sse.SseReader.ReadAll | ai/src/sse.rs:29-95 | the events read, followed by those still to come, are all those there were |
| Sse.ReadStream | ai/src/sse.rs:1-95 | the events of a stream are those of the whole-stream definition on the bytes put together, however they arrive |
| SseWriting.ReadBackReceived | ai/src/sse.rs:61-95 | events written as fields come back but for carriage returns at the ends of lines |
| SseWriting.RoundTripExact | ai/src/sse.rs:33-95 | events written and read back are the same if and only if the format can carry each of them |
| SseWriting.ReturnLost | ai/src/sse.rs:61-95 | an event whose data is `a` and a carriage return is read back as `a` |
| Notifications.KeepExact | app/src/notify.rs:246-290 | posting waits on exactly the counted messages and pushes out the oldest token exactly when two hundred are kept |
| Notifications.InThreadsFinds | app/src/notify.rs:286-318 | a change to a thread finds every notification that waits on a message of it |
| Notifications.SettleExact | app/src/notify.rs:319-349 | settling stops waiting on exactly the settled messages, and forgets a notification exactly when none is left |
| Notifications.Issued.Keep | app/src/notify.rs:273-290 | the new record and the token pushed out |
| Notifications.Issued.Issue | app/src/notify.rs:246-257 | the record after posting for one message |
| Notifications.Issued.IssueSummary | app/src/notify.rs:259-271 | the record after posting a summary, unchanged for one that counts nothing |
| Notifications.Issued.WaitingIn | app/src/notify.rs:286-318 | who waits in the threads of an account |
| Notifications.Issued.Settle | app/src/notify.rs:319-335 | the record after settling and whether the notification goes |
| Notifications.Issued.Forget | app/src/notify.rs:343-348 | the record without the token |
| Announcing.App.AnnounceMail | app/src/app.rs:1514-1544 | posts every notice of the messages under a token of its own and withdraws what is pushed out |
| Announcing.App.SettleNotifications | app/src/app.rs:1546-1561 | the first half of settling, with what it will ask the store |
| Announcing.App.WithdrawSettled | app/src/app.rs:1574-1581 | the second half, with the store's answer |
| Announcing.App.AnnounceFound | app/src/app.rs:1787-1829 | announces what deserves it and takes the second look |
| Announcing.NoticesAnnounce | app/src/notify.rs:138-207 | every notice counts messages of one account, at least one, and the one it acts on is the one it counts |
| Announcing.NoticesExact | app/src/notify.rs:138-207 | the notices count every message once, in order; they are three at most, one without previews, and each acts on the one message it counts or counts several and has no buttons |
| Announcing.DeservingExact | app/src/app.rs:1787-1829 | a message is announced if and only if a row of it is unread in the Inbox, from a VIP if only those are wanted, and not in view |
| Announcing.PostExact | app/src/app.rs:1514-1544 | posting keeps what is on screen in step with what is answered for, and only announced messages join those waited on |
| Announcing.AnnouncedShows | app/src/app.rs:1514-1544 | with notifications on every deserving message is waited on by a notification put on screen just now |
| Announcing.WithdrawExact | app/src/app.rs:1574-1581 | withdrawing stops waiting on exactly what the store's answer left out |
| Announcing.NothingLost | app/src/app.rs:1468-1491 | no change of the store, no mail found and no reminder due is lost before the step that takes it up |
| Announcing.StepKeeps | app/src/app.rs:1468-1491 | every step of the protocol, in any order, keeps each waited-on message watched over, a late reminder being the only one that does not |
| Announcing.RemindExact | app/src/app/sending.rs:441-466 | a reminder's notification is watched over if and only if its mail is still news or its change is yet to be heard |
| Announcing.NoneOutlivesItsMail | app/src/app.rs:1787-1829 | in every run without late reminders, once the system is quiet every notification waits on mail and all of it is unread in the Inbox |
| Announcing.NoneGoesUnseen | app/src/app.rs:1546-1581 | in every run a notification that is gone was pushed out, or the store was read after it was posted and held none of its messages unread in the Inbox |
| Announcing.FewOnScreen | app/src/notify.rs:242-290 | in every run exactly the notifications the app answers for are on screen, at most two hundred |
| Announcing.ReminderOutlivesItsMail | app/src/app/sending.rs:441-466 | a run after which a reminder's notification waits for ever on mail already read |
| SharedMailbox.StepKeeps | app/src/core.rs:1676-1768 | every step of every job, and of those that take no turn, keeps the lock, the owner links, what runs, the tokens and what each job counts on |
| SharedMailbox.PreparedRunsForItsRow | app/src/core.rs:1742-1768 | in every run prepared services run only for a row with the id, address and owner link they were prepared for, ids reused or not, and its owner is there |
| SharedMailbox.OwnerKept | app/src/core.rs:1676-1735 | while a shared mailbox links to it, no step of a removal or a sign-in stops an owner or deletes its row, and only the mailbox's own removal unlinks it |
| SharedMailbox.RemovalAllOrNothing | app/src/core.rs:1684-1735 | a removal is refused exactly when, with the turn in hand, its row has changed or owns a shared mailbox; until then it has changed nothing, and from then on nothing refuses it |
| SharedMailbox.TokensStayHome | sync/src/sign_in.rs:641-650 | in every run each Microsoft token is kept under the account that signed in with its address, or about to be forgotten by the removal that holds the turn |
| SharedMailbox.AttachKeeps | sync/src/shared_mailbox.rs:81-101 | attaching under the turn, the owner's row checked again, keeps every link whole |
| SharedMailbox.SignInKeeps | sync/src/sign_in.rs:1258-1335 | signing in, its token kept before or after the row, or the row taken back, keeps all of it |
| SharedMailbox.RotateKeeps | sync/src/connect.rs:460-485 | keeping a renewed token only for the session it belongs to keeps every token home |
| SharedMailbox.RemovedExact | store/src/accounts.rs:373-377 | a removal takes exactly the account's row, its own link and what ran for it, and deleting is never what refuses it |
| SharedMailbox.StartedExact | app/src/core.rs:1742-1768 | a prepared mailbox starts if and only if its row is there with its address, Microsoft's and linked to its owner; then it is ready, its services run and nothing else is different |
| SharedMailbox.AttachBegins | sync/src/shared_mailbox.rs:42-60 | attaching begins only with a Microsoft 365 account that signs in itself |
| SharedMailbox.SignsInAgain | sync/src/sign_in.rs:1258-1335 | signing in again keeps the account's address and links, names it anew, ends its needing to sign in and keeps the token under it |
| SharedMailbox.SignsInFirst | sync/src/sign_in.rs:1258-1335 | signing in to an address without an account adds its row and keeps the token under it |
| SharedMailbox.RemovalWhole | app/src/core.rs:1684-1735 | a removal's steps with none between them come to what the whole removal does |
| SharedMailbox.Core.RemoveAccount | app/src/core.rs:1676-1735 | removes the account or leaves everything as it was |
| SharedMailbox.Core.StartSharedMailbox | app/src/core.rs:1742-1768 | starts the prepared services exactly when the row matches, and else changes nothing |
| Shedding.App.Opened | app/src/app.rs:539-542 | counts a window and outdates every timer |
| Shedding.App.Closed | app/src/app.rs:544-581 | counts a window down and, with the last, arms a timer, ends or stays |
| Shedding.App.Fires | app/src/app.rs:583-603 | what a timer does: nothing, wait again or replace the process |
| Shedding.OneTimer | app/src/app.rs:539-603 | in every run the count is the number of windows, at most one timer is of the current generation, and while one is no window is open |
| Shedding.ShedsLate | app/src/app.rs:544-603 | the process is replaced only when nothing is busy or to be sent and no window was open at any moment of the full delay before |
| Shedding.LastCloseExact | app/src/app.rs:544-581 | closing the last window ends a process known to have no account, does nothing on macOS and in the demo, and else arms one timer for the delay |
| Shedding.StaysArmed | app/src/app.rs:544-603 | the last window to close leaves a timer, which stays until a window opens or it fires with nothing in its way |
| Shedding.FireExact | app/src/app.rs:583-603 | a timer that is due does nothing when outdated, waits ten seconds more while something is busy or to be sent, and else replaces the process if the program is found and takes its place |
| Shedding.ShedsOnce | app/src/app.rs:544-603 | a run in which the process is replaced |
| McpServer.Serve | ai/src/bridge.rs:170-197 | in every schedule what is written answers accepted lines, one reply each; unless reading or writing is faulty serving ends only with all of them answered, each id as often as it was asked; it ends |
| McpServer.AcceptedExact | ai/src/bridge.rs:211-241 | a line is answered if and only if it is no JSON or a request with a non-null id and a method |
| McpServer.ReplyResponds | ai/src/bridge.rs:211-294 | every reply is a response in version 2.0 with the id of what it answers, and either a result or an error |
| McpServer.CallRelayed | ai/src/bridge.rs:114-164 | whatever the tool call, the server is told exactly the outcome the app's tool gave for its name and arguments |
| McpServer.CallAnswered | ai/src/bridge.rs:269-285 | a call is answered with the text of the tool's outcome, its JSON or its error, and marked as an error exactly when the tool failed |
| McpServer.RepliesExact | ai/src/bridge.rs:211-294 | what the other methods are answered, with the codes of section 5.1 of JSON-RPC 2.0 for failures and unknown methods |
| McpServer.UnreadExact | ai/src/bridge.rs:211-224 | a line that is no JSON is answered with a parse error for a null id |
| McpServer.ListedAs | ai/src/bridge.rs:252-266 | a tool is listed with its name, description and input schema and nothing else |
| McpServer.ToolsListed | ai/src/bridge.rs:225-268 | the server lists exactly the app's tools, each with its name, words and schema |
| ChatHistory.TrimLongest | ai/src/history.rs:133-140 | trimming keeps the longest run of last turns that fits beside the open one, whole |
| ChatHistory.RunKeepsLast | ai/src/history.rs:58-140 | in every run the chat holds the last committed turns, whole and in order and each mapped one as its image, and the open one; it fits the budget or holds one turn at most |
| ChatHistory.NoOrphans | ai/src/history.rs:1-9 | when each turn asks for its own results no message sent is a result nobody asked for, and between turns no call lacks its result |
| ChatHistory.CachePointExact | ai/src/history.rs:112-120 | the cache point is the last message of the user's side |
| ChatHistory.RoundKeepsCache | ai/src/history.rs:112-120 | a round that drops no turn sends again everything sent before, and moves the cache point only for a message of the user's side |
| ChatHistory.SentExact | ai/src/history.rs:58-127 | what each step makes of the messages sent: a question and the rounds come last in their order, committing changes nothing, taking back leaves the committed ones and mapping their images |
| ChatHistory.SentWithin | ai/src/history.rs:58-140 | each step sends the last of what it would send without a budget, and all of it when that fits or a turn ends or is taken back |
| ChatHistory.SentGrows | ai/src/history.rs:107-110 | in every run while turns only grow and none is dropped what was sent is sent again first |
| ChatHistory.SizeIsSent | ai/src/history.rs:122-140 | in every run the size held against the budget is the length of exactly the messages sent |
| ChatHistory.History.Sent | ai/src/history.rs:107-110 | every message to send, of the committed turns and the open one, oldest first |
| ChatHistory.History.Begin | ai/src/history.rs:58-65 | the chat after a question |
| ChatHistory.History.Push | ai/src/history.rs:67-78 | the chat after a round, unchanged with no turn open |
| ChatHistory.History.Commit | ai/src/history.rs:80-85 | the chat with the open turn kept |
| ChatHistory.History.Rollback | ai/src/history.rs:87-92 | the chat without the open turn |
| ChatHistory.History.MapMessages | ai/src/history.rs:94-105 | every committed turn's messages rewritten or dropped in place |
| Relocation.Bundler.Copy | scripts/bundle-macos.py:53-65 | copies a file and all it needs, each once, or finds the app flawed; ends on circular links |
| Relocation.Bundler.CopyLinks | scripts/bundle-macos.py:76-84 | copies what an image links to and gives the edits that lead each link to its copy |
| Relocation.Bundler.Rewrite | scripts/bundle-macos.py:69-91 | rewrites an image once what it links to is copied |
| Relocation.Bundler.RaiseMinimum | scripts/bundle-macos.py:70-75 | raises the minimum to the largest version the image asks for |
| Relocation.Relocate | scripts/bundle-macos.py:47-96 | makes the app whole, and fails if and only if a link that counts leads nowhere or two libraries reached have one name |
| Relocation.WholeIsLeast | scripts/bundle-macos.py:47-96 | what a whole app holds is the least set with every module and every followed link |
| Relocation.WholeNotFlawed | scripts/bundle-macos.py:47-96 | an app made whole has no dangling link and no name twice among all that is reached |
| Relocation.ChangesExact | scripts/bundle-macos.py:76-91 | an image's links are changed exactly from each followed link to its copy |
| Relocation.OwnEditsExact | scripts/bundle-macos.py:76-91 | a library's own name is set in its copy and nowhere else, and exactly the folders an image searched are taken out |
| Relocation.SystemExact | scripts/bundle-macos.py:17-18 | what comes with the system is what lies under its two folders |
| Relocation.NameOfExact | scripts/bundle-macos.py:57-60 | a copy is named as its file is, whatever folder that lies in |
| Relocation.FlawedExact | scripts/bundle-macos.py:34-60 | an app is flawed if and only if an image visited has a link, not the system's, that resolves to nothing, or two files reached have one name |
| Relocation.MinimumExact | scripts/bundle-macos.py:67-75 | the minimum of a whole app is at least 14.0 and every version its images ask for, and is one of these |
| Relocation.AtMostOrder | scripts/bundle-macos.py:74-75 | versions are ordered totally, the first difference deciding |
| Relocation.AtMostExact | scripts/bundle-macos.py:74-75 | a version is at most another if and only if it begins it or is smaller in the first number they differ in |
| AddAccount.ReadTwice | app/src/add_account.rs:33-58 | an address read from what was typed reads as itself again |
| AddAccount.ParseExact | app/src/add_account.rs:33-58 | what was typed is an address if and only if, trimmed, it is a local part without blanks and after the last at sign a domain of two parts or more |
| AddAccount.OneSlipExact | app/src/add_account.rs:81-107 | the quick test holds if and only if one insertion, deletion, substitution or swap of neighbours turns one text into a different other |
| AddAccount.OneSlipBack | app/src/add_account.rs:81-107 | it is symmetric |
| AddAccount.SuggestionExact | app/src/add_account.rs:60-79 | a suggestion is the first listed domain one edit away for the same local part, made exactly when there is one and the typed domain is not listed, and nothing is suggested for it |
| AddAccount.OneSuggestionAtMost | app/src/add_account.rs:128-144 | Continue on a valid address looks it up or suggests one, after which Continue looks up the suggestion taken or the address kept |
| Promises.OpensWithLoop | app/src/attachcheck.rs:203-223 | the greedy loop matches as its recursive definition does |
| Promises.SaysExact | app/src/attachcheck.rs:198-223 | a phrase with no article after its first word is said if and only if some window of the words becomes it by deleting articles strictly between its words |
| Promises.GreedyExact | app/src/attachcheck.rs:198-223 | the loop finds every window of a phrase if and only if the phrase has no article after its first word |
| Promises.PromisesFound | app/src/attachcheck.rs:25-52 | each of the program's phrases is found exactly where it is said |
| Promises.ArticlesSkipped | app/src/attachcheck.rs:25-52 | the one more word a phrase may have between its words is one of ten articles |
| Promises.SentencesLoop | app/src/attachcheck.rs:134-159 | the loop over characters cuts the sentences of the recursive definition |
| Promises.SentencesExact | app/src/attachcheck.rs:134-159 | the sentences in order hold every visible character of the text once, and no end of a sentence is inside one |
| Promises.SentencesCut | app/src/attachcheck.rs:134-159 | a text is cut into sentences after each end of one and nowhere else |
| Promises.Typed | app/src/attachcheck.rs:102-132 | what the writer typed is the lines above the first quote and its attribution, signature or forwarded message |
| Promises.StopsExact | app/src/attachcheck.rs:102-132 | the writer's own lines end at a quote line, a line `--`, or one of three hyphens that names a forwarded message in any case |
| Promises.TypedBlind | app/src/attachcheck.rs:102-132 | nothing below the first of those lines makes a difference |
| Contacts.Gather | app/src/contacts.rs:30-50 | the one pass with its bounded list and early end gives the first of the From account's people and then the others |
| Contacts.Suggest | app/src/contacts.rs:14-51 | exactly the first `limit` of all the From account's matching contacts in order followed by all the others, for every list and limit |
| Contacts.AnswersExact | app/src/contacts.rs:53-63 | a contact matches if and only if the query stands at the front of its address or name, or right after a separator of the address or a blank of the name and holds none |
| Contacts.FoundExact | app/src/contacts.rs:14-51 | everyone who matches and was not entered is among those the limit is taken of, as often as listed, and nobody else is |
| Contacts.OwnFirst | app/src/contacts.rs:14-51 | the From account's people come before the others, and within each group everyone stands as listed |
| Contacts.LeadFirst | app/src/contacts.rs:87-108 | the From account comes first when it is one of them, and the others stay as they stood |
| Autostart.ExecArgument | app/src/autostart.rs:108-135 | the loop prints every character as its escape |
| Autostart.ReadsBack | app/src/autostart.rs:102-134 | every path printed is read back as itself by the string rule, then the quoting, then `%%`, its only quotes that are not escaped the outer pair |
| Autostart.PrintedApart | app/src/autostart.rs:102-134 | no two paths are printed alike |
| Autostart.OneLinePrinted | app/src/autostart.rs:108-135 | what is printed is one line without tabs |

## Left out

- Signature.SwapIsInsert: says nothing of an old signature with a separator line or of words typed since, which `SignatureLimits.SwapExact` and `SignatureLimits.SwapTyped` decide.
- Signature.SwapThereAndBack: a tail of the attribution line that is empty, `-` or `--` is excluded, as the separator line itself would then read as an attribution; no translation has one.
- SignatureLimits.SwapTyped: the original is one as signing leaves it, an attribution line if any, blank lines and a quote line; text put between signature and original makes the signature a touched one.
- SignatureReading.ReadExact: replacing lines in the buffer is replacing items of a list; cursor and undo are not modelled, nor the branch of the reader for styled text, where the swap takes `rich_signature_change` instead.
- SignatureReading.TypedReadExact: words in which the scan passes a quote as part of a copy of the signature but the reader stops at one are not covered, nor those in which the scan finds one the reader does not come to.
- RichSignature.SwapExact: a signature whose first block is in the history, or both among the words and again in the signature, is not covered.
- SavedDraft.DraftComesBack: covers drafts of plain words; one of styled words is saved through the HTML writer and the plain renderer, which are not part of this model, and one that both folds a quote and forwards is not covered.
- SavedDraft.ForwardComesBack: covers the first saving of a forward, which puts an empty line above it; saving the reopened draft again, and the headers read out of the message, are not covered.
- ForwardedBlock.SplitExact: whether a tag carries the marker class is a parameter, as attribute parsing is another crate's.
- Sse.SseReader.Next: lines are the characters their bytes encode; replacing invalid UTF-8 is not part of this model.
- Announcing.NoneOutlivesItsMail: reads of the store succeed, each change of the store sends its event, tokens are fresh and a message stays in its thread; a read that fails drops its settle.
- Announcing.App.AnnounceMail: titles and bodies of notifications are words only and are left out; the tokens are given.
- Notifications.Issued.Issue: a target without a message id, which announced mail never has, is not modelled, nor is routing a click back by its token.
- SharedMailbox.StepKeeps: sign-ins of other providers add their row in one step and switching an account to JMAP is not modelled; the keyring deletes what it is asked to.
- SharedMailbox.PreparedRunsForItsRow: what an ordinary sign-in starts for an id outside the turn is any service for any id.
- Shedding.ShedsLate: a timer never fires before it is due; the 64-bit generation does not wrap.
- McpServer.Serve: a pending reply finishes at some time; connecting to the socket is not modelled, so neither is its failure.
- McpServer.CallRelayed: printing and parsing JSON are parameters that keep values, print no line break and read no blank line; numbers are integers.
- ChatHistory.RunKeepsLast: how long a message is as JSON is a parameter; sums do not overflow.
- Relocation.Relocate: which file a link name leads to is a parameter; a library that links back to the executable reads it as it was before it was rewritten; letter case in file names is told apart.
- AddAccount.ParseExact: a dot is no letter or digit, which the parameter that tells these could otherwise say.
- AddAccount.OneSuggestionAtMost: lowering letters and telling letters and digits are parameters that behave as Unicode does on domains, and the listed domains read as themselves.
- Splice.SpliceRebuilds: positions that do not fit in 32 bits are cut, as in the program, and the law is for lists that fit.
- Promises.PromisesFound: splitting a sentence into words, folding accents and dropping links are not part of this model.
- Autostart.ReadsBack: a path that is not UTF-8 is replaced in part before it is printed.
- Styled text to and from HTML, MIME building, address parsing, discovery, provider clients, the keyring, encryption, the user interface and packaging are not part of this model.
- The tickets of the Add Account dialog, its next candidate after a failure, subjects and references of replies, and wording would only add easy members.
