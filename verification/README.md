# Dispatch, modelled and verified in Dafny

Dispatch is a web IRC client: a Go server that speaks IRC on behalf of its users and keeps their networks,
channels and message logs in an embedded key/value store, and a browser front end that shows the messages.
This project models the parts of it that are hardest to get right and proves, for all inputs and all runs, what
those parts promise. `dafny verify dfyconfig.toml` checks everything.

| files | what they model |
|---|---|
| `Wire`, `Records`, `Schema`, `Marshal`, `Unmarshal`, `Truncation`, `Codec` | the generated binary codec: the wire format, size accounting, in-place writing with nested records, reading over reused targets, reading what is cut short |
| `Bolt`, `Store` | ordered buckets with cursors, and the per-user relations encoded as prefixes of byte-string keys |
| `MessageLog` | backwards paging through a channel's log and the paging token the server hands out |
| `Grouping`, `UserLog` | collapsing runs of join, part, quit and nick events, with the cache of last messages that drives it |
| `MessageList` | the browser's message lists: collapsing, date separators, prepended pages |
| `WrapHeight` | break opportunities and the word-wrap height of a message |
| `Text`, `IrcMessage`, `IrcLines`, `Ctcp` | the line parser, the printers, what arrives of a printed line, tag values and CTCP |
| `CaseMapping` | the two case-insensitive comparisons |
| `Negotiation`, `CapClient`, `CapLines` | capability negotiation and SASL, as a state machine and as the object that takes its steps, and what each line does |
| `ChannelUsers`, `Tracker`, `TrackerLines`, `ModeLines` | who is in which channel with which modes, what each line does to the lists, and what a MODE line means |
| `ChannelIndex`, `IndexManager` | prefix search over a network's channel list, and the timed permission to refresh it |
| `Sessions` | sessions, the users they keep alive, expiry and removal |
| `Wrappers` | values that may be missing |

Every module pairs the operations with something defined independently of them: an inverse, an invariant over
whole runs, a reference definition, or an abstract state that the concrete one refines. Objects that the program
updates in place are classes, loops are loops with invariants, and pure code is functions with lemmas.

## Where the code and its promise part

The model keeps the code as it is, and a lemma gives the exact condition under which it does what is promised.

- A record whose last field is an 8-byte integer (an event, a message with events, a session) is not rejected when
  one to seven of its last bytes are missing: memory behind the buffer is read, and the count points behind it
  (`Truncation.EventCut`, `Truncation.MessageCut`, `Truncation.SessionCut`).
- A user record that lacks bytes of its address is accepted, and shows what the target held before
  (`Truncation.UserCut`, `Unmarshal.OldAddressShows`).
- Removing a network also removes the tabs of every other network of the user whose address extends the removed
  one, as removing "irc.a" does to "irc.a.b" (`Store.RemoveNetworkIsExact`, `Store.RemoveNetworkIsExactForDMs`,
  `Store.RemovesAnother`).
- A tab shares its key with another one exactly if its network or its name has a NUL byte, and a direct message tab
  with a NUL byte is listed under other names (`Store.KeyIsOwn`, `Store.PartsRestored`).
- A channel shares its message bucket with another one exactly if its host or its name has a colon
  (`UserLog.BucketIsOwn`).
- A string that decodes to the replacement character, as invalid UTF-8 does, is equal for `EqualFold` to a string
  with another case folding; any other string is not (`CaseMapping.AgreementIsExact`).
- Tag values with a stray backslash keep it, where the IRCv3 Message Tags specification drops it
  (`IrcMessage.UnescapeIsStandard`).
- A line of tags followed only by blanks makes the parser read past the end; trimming the line, as the receiving
  loop does, rules it out (`IrcMessage.PanicsExactly`, `IrcLines.ReceivedIsSafe`).
- A command or parameter with a tab, a no-break space or other white space than a blank in it is taken apart, where
  section 2.3.1 of RFC 2812 allows such parameters (`IrcLines.ParseInvertsPrint`, `IrcLines.TakenApart`).
- Printed targets and text are not escaped, so they arrive as sent only if the target is one word without a colon at
  its start and the text one line without a blank at its end (`IrcLines.TextArrives`, `IrcLines.PrivmsgReceived`).
- A CTCP reply survives only with such a target, without line breaks, and without blanks and delimiters in certain
  places (`Ctcp.DecodeInvertsEncode`, `Ctcp.ReplyArrives`).
- A SASL response of more than 400 bytes is not sent in pieces of 400, as the IRCv3 SASL specification asks, but each
  time with all that is left (`CapLines.ChunksAreStandard`).
- A MODE line that names several users, has letters that are no user modes, or gives back a letter it has taken
  away is not tracked as it is meant (`ModeLines.ModeIsAsMeant`).
- A nick can be listed twice after a prefixed JOIN name, a rename to a taken nick, or a NAMES reply that repeats a
  nick (`Tracker.Client.Handle`, `Tracker.RenameKeepsDistinct`).
- A user whose timer fires after the user has left the store is removed a second time (`Sessions.RemovedOnce`).
- A live message with several events loses all but the first when it is collapsed (`MessageList.AppendConserves`).
- Asked for zero messages, `hasMore` is wrong exactly for the whole of a log with one entry
  (`MessageLog.Messages`).

## Model

| member | source | states |
|---|---|---|
| Wire.UvarintRoundTrip | storage/storage.schema.gen.go:1079-1088 | the seven-bits-a-byte reader, with its shifts and bitwise ors in 64 bits, undoes the writer for every 64-bit value and leaves the trailing bytes |
| Wire.Int64RoundTrip | storage/storage.schema.gen.go:1231-1385 | the eight-byte fields restore every signed 64-bit value |
| Wire.ListRoundTrip | storage/storage.schema.gen.go:1071-1174 | a length-prefixed list of records restores itself whenever each record does, for any record type |
| Records.EventRoundTrip | storage/storage.schema.gen.go:1176-1385 | reading an event's bytes followed by anything gives the event and exactly what followed |
| Records.MessageRoundTrip | storage/storage.schema.gen.go:894-1174 | the same for a message with any number of events with any number of parameters |
| Records.SettingsRoundTrip | storage/storage.schema.gen.go:94-109 | the optional client settings come back present or absent as they were |
| Records.NetworkRoundTrip | storage/storage.schema.gen.go:241-760 | the same for a network with all its fields and lists |
| Records.ChannelRoundTrip | storage/storage.schema.gen.go:762-892 | the same for a channel |
| Records.SessionRoundTrip | pkg/session/session.schema.gen.go:15-112 | the same for a session |
| Records.FlagsRead | storage/storage.schema.gen.go:159-240 | whatever the byte of a flag is, exactly 1 is true, and announces settings |
| Schema.UvarintMeans | storage/storage.schema.gen.go:983-992 | the bytes of a length are its base-128 digits, lowest first, with the top bit on all but the last and no more digits than it takes |
| Schema.LittleEndianMeans | storage/storage.schema.gen.go:1301-1305 | byte by byte, the lowest comes first |
| Schema.EventIsFields | storage/storage.schema:38-42 | the bytes of an event are those of the fields of its schema, in its order; signed numbers are in two's complement |
| Schema.MessageIsFields | storage/storage.schema:30-36 | the same for a message, with its events |
| Schema.UserIsFields | storage/storage.schema:1-10 | the same for a user, with the flag for its settings |
| Schema.NetworkIsFields | storage/storage.schema:12-23 | the same for a network |
| Schema.ChannelIsFields | storage/storage.schema:25-28 | the same for a channel |
| Schema.SessionIsFields | pkg/session/session.schema:1-5 | the same for a session |
| Truncation.EventCut | storage/storage.schema.gen.go:1309-1385 | an event cut short at any place: with one to seven bytes missing the time is read past the end, with more the reading panics |
| Truncation.MessageCut | storage/storage.schema.gen.go:1071-1174 | a message cut short at any place panics, unless it has events and lacks at most seven bytes: then the last event is read past the end |
| Truncation.SessionCut | pkg/session/session.schema.gen.go:78-112 | a session cut short at any place: with one to seven bytes missing the creation time is read past the end, with more the reading panics |
| Truncation.UserCut | storage/storage.schema.gen.go:132-204 | a user cut short at any place panics, unless only bytes of the address are missing: then it reads with what is there of the address |
| Truncation.NetworkCut | storage/storage.schema.gen.go:573-760 | a network cut short at any place panics |
| Truncation.ChannelCut | storage/storage.schema.gen.go:848-892 | a channel cut short at any place panics |
| Marshal.SizeUvarint | storage/storage.schema.gen.go:901-906 | the counting loop gives the length of the varint that is written |
| Marshal.SizeEvent | storage/storage.schema.gen.go:1176-1229 | `Size` is exactly the number of bytes of the encoding |
| Marshal.SizeMessage | storage/storage.schema.gen.go:894-965 | the same for a message, events included |
| Marshal.SizeUser | storage/storage.schema.gen.go:15-57 | the same for a user with or without settings |
| Marshal.SizeNetwork | storage/storage.schema.gen.go:241-379 | the same for a network |
| Marshal.SizeChannel | storage/storage.schema.gen.go:762-794 | the same for a channel |
| Marshal.SizeSession | pkg/session/session.schema.gen.go:15-33 | the same for a session |
| Marshal.PutUvarint | storage/storage.schema.gen.go:983-992 | the varint loop writes exactly the varint's bytes at its place and nothing else |
| Marshal.Room | storage/storage.schema.gen.go:967-975 | the given buffer is used exactly when it has room from the offset on, else a new one of the right size |
| Marshal.MarshalEvent | storage/storage.schema.gen.go:1231-1307 | the encoding is written at the returned place of the returned buffer, all other bytes stay, and the buffer passed in is the one used when it has room |
| Marshal.MarshalEvents | storage/storage.schema.gen.go:1056-1066 | every nested event gets a tail with room for it, so all of them are written into the outer buffer, one after the other |
| Marshal.MarshalMessage | storage/storage.schema.gen.go:967-1069 | as for an event; no index leaves the buffer |
| Marshal.MarshalUser | storage/storage.schema.gen.go:59-130 | as for an event, with the optional settings nested in place |
| Marshal.MarshalNetwork | storage/storage.schema.gen.go:381-571 | as for an event |
| Marshal.MarshalChannel | storage/storage.schema.gen.go:796-846 | as for an event |
| Marshal.MarshalSession | pkg/session/session.schema.gen.go:35-76 | as for an event |
| Unmarshal.GetUvarint | storage/storage.schema.gen.go:1079-1088 | the reading loop panics exactly if no complete varint is there, and otherwise gives its value and stops right behind it |
| Unmarshal.UnmarshalEvent | storage/storage.schema.gen.go:1309-1385 | panics, reads past the end or gives the encoded event, each exactly when the specified reader does; what is read does not depend on what the target and its reused slices held |
| Unmarshal.GetEvents | storage/storage.schema.gen.go:1156-1172 | the same for the list of events, whose slots are reused when the old slice is long enough; only the last event can be read past the end |
| Unmarshal.MessageTarget.Unmarshal | storage/storage.schema.gen.go:1071-1174 | the same for a message: the view of the target is the encoded message whatever it held before, and the count is what was consumed, or lies behind the buffer after a read past the end |
| Unmarshal.UserTarget.Unmarshal | storage/storage.schema.gen.go:132-204 | never reads past the end and, with room for the address, panics exactly if a field before the address is incomplete or its length is no length; a truncated address keeps old bytes behind the ones that were copied |
| Unmarshal.OldAddressShows | storage/storage.schema.gen.go:180-203 | the address that is read is the same over any two old slices exactly if none of its bytes is missing |
| Unmarshal.UserRoundTrip | storage/storage.schema.gen.go:15-204 | reading back a written user gives it, consuming its size, over any old address slice |
| Unmarshal.UnmarshalNetwork | storage/storage.schema.gen.go:573-760 | panics exactly on incomplete input, else gives the encoded network and the bytes consumed |
| Unmarshal.UnmarshalChannel | storage/storage.schema.gen.go:848-892 | the same for a channel |
| Unmarshal.UnmarshalSession | pkg/session/session.schema.gen.go:78-112 | panics, reads past the end or gives the encoded session, each exactly when the specified reader does |
| Codec.MessageSurvives | storage/boltdb/boltdb.go:298-342 | a message that is marshalled, followed by any bytes and unmarshalled into any target is the target's content, and exactly its size is consumed |
| Codec.UserSurvives | storage/storage.schema.gen.go:15-204 | the same for a user, over any old address |
| Codec.NetworkSurvives | storage/storage.schema.gen.go:241-760 | the same for a network |
| Codec.ChannelSurvives | storage/storage.schema.gen.go:762-892 | the same for a channel |
| Codec.SessionSurvives | pkg/session/session.schema.gen.go:15-112 | the same for a session |
| Bolt.LessMeans | storage/boltdb/boltdb.go:129-145 | keys are in the order of dictionaries: a proper prefix comes first, else the first difference decides |
| Bolt.PrefixIsInterval | storage/boltdb/boltdb.go:421-434 | between two keys with a prefix every key has it |
| Bolt.PrefixBlock | storage/boltdb/boltdb.go:129-145 | in a sorted bucket the keys with a prefix are one block that starts where `Seek` lands and ends at the first key without it |
| Bolt.PutSorted | storage/boltdb/boltdb.go:147-154 | `Put` keeps the order, sets the one key and leaves the others |
| Bolt.DeleteSorted | storage/boltdb/boltdb.go:236-243 | `Delete` keeps the order, removes the one key and leaves the others |
| Bolt.Scan | storage/boltdb/boltdb.go:134-143 | the seek-and-next loop finds exactly the entries with the prefix, in order |
| Bolt.DeletePrefix | storage/boltdb/boltdb.go:421-434 | the deletion loop leaves exactly the entries without the prefix, in order |
| Store.IdBytesInjective | storage/boltdb/boltdb.go:451-455 | different user ids have different key prefixes |
| Store.BigEndianMeans | storage/boltdb/boltdb.go:451-455 | the highest byte of an id comes first |
| Store.TabLayout | storage/boltdb/boltdb.go:436-449 | the key of a tab is the eight bytes of the id, the network, a NUL and the name |
| Store.UserOwnsKey | storage/boltdb/boltdb.go:436-449 | a key has a user's prefix exactly if it belongs to that user |
| Store.KeyPrefix | storage/boltdb/boltdb.go:436-449 | a key is a prefix of another exactly if the users are the same and the tail is a prefix of the tail |
| Store.PathPrefix | storage/boltdb/boltdb.go:443-449 | a path starts with an address exactly if its network does, or the address has a NUL and runs on into the name |
| Store.PathInjective | storage/boltdb/boltdb.go:443-449 | tabs on networks without a NUL never share a key |
| Store.PathCollides | storage/boltdb/boltdb.go:443-449 | a tab with a NUL in its network or name shares its key with a tab on another network |
| Store.KeyIsOwn | storage/boltdb/boltdb.go:443-449 | no other tab of the user has the key if and only if neither network nor name has a NUL |
| Store.PartsRestored | storage/boltdb/boltdb.go:262-267 | splitting a key at its NULs gives back network and name exactly if neither has a NUL |
| Store.NetworksListed | storage/boltdb/boltdb.go:129-145 | the scan for a user gives each of the user's networks once, in order of their hosts, and nobody else's |
| Store.RemoveNetworkIsExact | storage/boltdb/boltdb.go:156-169 | exactly the channels on the removed network go, if and only if the user has none on a network whose name properly extends the address (nor, for an address with a NUL, one whose path it runs into) |
| Store.RemoveNetworkIsExactForDMs | storage/boltdb/boltdb.go:156-169 | the same for the open direct messages, by the network each is listed under |
| Store.RemovesAnother | storage/boltdb/boltdb.go:156-169 | removing "irc.a" removes any channel on "irc.a.b" |
| Store.BoltStore.SaveUser | storage/boltdb/boltdb.go:75-92 | a user without an id gets the next of the sequence, whose key nobody has; the name is the id in decimal, the record is saved under the id, and nothing else changes |
| Store.DecimalMeans | storage/boltdb/boltdb.go:75-92 | reading the digits of a user's name back gives the id, and there are no leading zeros |
| Store.BoltStore.SaveNetwork | storage/boltdb/boltdb.go:147-154 | the network is saved under user and host, the other records and tables stay |
| Store.BoltStore.SaveChannel | storage/boltdb/boltdb.go:227-234 | the channel is saved, everything else stays |
| Store.BoltStore.RemoveChannel | storage/boltdb/boltdb.go:236-243 | exactly this channel goes |
| Store.BoltStore.HasChannel | storage/boltdb/boltdb.go:245-254 | answers whether the channel is saved and not removed |
| Store.BoltStore.AddOpenDM | storage/boltdb/boltdb.go:276-282 | the direct message tab is open, everything else stays |
| Store.BoltStore.RemoveOpenDM | storage/boltdb/boltdb.go:284-290 | exactly this tab is closed |
| Store.BoltStore.RemoveNetwork | storage/boltdb/boltdb.go:156-169 | the network goes, and of channels and direct messages exactly those of the user whose path starts with its address |
| Store.BoltStore.DeleteUser | storage/boltdb/boltdb.go:94-107 | the user's records go from all four tables and nobody else's do |
| Store.BoltStore.Networks | storage/boltdb/boltdb.go:129-145 | exactly the saved and not removed networks of the user, decoded, in order of their hosts |
| Store.BoltStore.Channels | storage/boltdb/boltdb.go:209-225 | exactly the saved and not removed channels of the user, as they were saved, none twice |
| Store.BoltStore.OpenDMs | storage/boltdb/boltdb.go:256-274 | one tab for each open direct message of the user and for nothing else: the first two parts of its key, which always has two |
| Store.TabsAreOpen | storage/boltdb/boltdb.go:256-274 | where names have no NUL the listed tabs are exactly the open ones, each once |
| MessageLog.FillBackwards | storage/boltdb/boltdb.go:337-349 | walking the cursor back fills the array from its end with the entries before the start, in ascending order |
| MessageLog.Messages | storage/boltdb/boltdb.go:325-365 | for a positive count, the messages of the log below `fromID` in ascending order, at most `count` of them and exactly so many if some are left out, which are all older, and `hasMore` exactly if some are; and when the answer to a count of zero is right |
| MessageLog.PageIsStretch | storage/boltdb/boltdb.go:325-365 | there is only one page of which that is true: the stretch of the log that the cursor walks over |
| MessageLog.MessagesOf | storage/boltdb/boltdb.go:329-333 | a channel without a bucket has no messages; any other gets such a page, which without `fromID` is the end of the log |
| MessageLog.Send | server/state.go:136-169 | such a page is sent, with the ID of its first message as the token exactly if older messages are left; nothing is sent for an empty one |
| MessageLog.TokenContinues | server/state.go:146-166 | the page fetched with a token ends exactly where the page it came with starts |
| MessageLog.GatherIsWholeLog | server/state.go:136-169 | following tokens until there is none stops and yields the whole log once and in order, for any page sizes |
| Grouping.GroupIsMaximal | storage/user.go:325-340 | grouping item by item gives a partition of the stream into runs in which no two neighbours could be merged |
| Grouping.MaximalIsUnique | storage/user.go:325-340 | there is only one such partition, so the incremental grouping is the maximal one |
| UserLog.CollapsibleTypes | storage/user.go:325 | the types of event that collapse are join, part, quit and nick |
| UserLog.ShouldCollapse | storage/user.go:327-340 | the match-counting loop holds exactly if the last message starts with a collapsible event and the new one is collapsible |
| UserLog.NameText | storage/boltdb/boltdb.go:292-296 | a bucket is named by host, colon and channel |
| UserLog.NameInjective | storage/boltdb/boltdb.go:292-296 | channels of hosts without a colon never share a bucket |
| UserLog.NameCollides | storage/boltdb/boltdb.go:292-296 | with a colon in its host or name a channel shares its bucket with another one |
| UserLog.BucketIsOwn | storage/boltdb/boltdb.go:292-296 | no other channel has the bucket if and only if neither host nor name has a colon |
| UserLog.LoggingUser.LogMessage | storage/user.go:258-278 | the message is stored in its bucket and cached, its channel's input grows by it, and cache, stored log and input stay coherent for every channel that shares no bucket and was given only texts and single events |
| UserLog.LoggingUser.LogOne | storage/user.go:293-317 | the event is appended to the cached message if both collapse, else a new message with the given ID, the time of the event and neither sender nor text has it; that message is stored and cached, keeping coherence |
| UserLog.LoggingUser.LogEvent | storage/user.go:286-323 | afterwards the cached message of every listed channel ends in the event, stamped with the time of the call, and has that time itself if it was made for it; the inputs of exactly these channels grow, other cached messages and buckets stay, and coherence is kept |
| UserLog.ColonFreeInScope | storage/boltdb/boltdb.go:292-296 | coherence covers every channel without a colon in host and name whatever else was logged, and every channel if no host has a colon |
| UserLog.LogIsMaximalGrouping | storage/user.go:258-367 | after any run, the stored log of a channel that shares no bucket is the maximal-run grouping of its input and the cached message is its last entry |
| UserLog.EntriesAreStamped | storage/user.go:286-317 | after any run, every stored entry with events of such a channel has the time of its first event, and neither sender nor text |
| UserLog.PagesRegroup | server/state.go:136-169 | after any run, following the paging tokens through such a channel gives the maximal-run grouping of everything logged to it |
| MessageList.WellSeparatedIsShown | client/js/state/messages.js:258-336 | a list starts and ends with a message, has one separator with the following day between neighbours of different days and none elsewhere, exactly if it is the list built from its messages |
| MessageList.ShownConcat | client/js/state/messages.js:309-322 | two lists put together need a separator at the seam exactly if the days differ there |
| MessageList.AddTo | client/js/state/messages.js:175-336 | appending to a well-separated list shows the messages with the new one appended or merged |
| MessageList.PrependTo | client/js/state/messages.js:279-323 | prepending shows the page followed by the old messages, and fails exactly for an empty page before a non-empty list |
| MessageList.AppendMeans | client/js/state/messages.js:175-206 | a message is merged exactly if its first event and that of the last message are joins, parts, quits or nick changes; then its first event is put behind the last message's, which keeps all else |
| MessageList.AppendConserves | client/js/state/messages.js:57-64 | all events are kept if and only if no message with several events is merged |
| MessageList.ClientGroupsAsServer | client/js/state/messages.js:175-206 | for any live stream the client's groups are those of the server's log, and no event is lost |
| MessageList.ServerPageIsKept | client/js/state/messages.js:376-400 | any stretch of a server log appended to an empty list is shown as sent |
| MessageList.Messages.AddMessage | client/js/state/messages.js:341-359 | the tab's messages become those with the new one appended, other tabs and all separators stay right |
| MessageList.Messages.PrependMessages | client/js/state/messages.js:361-375 | the page is put before the tab's messages; a failing reducer changes nothing |
| MessageList.Messages.AddMessages | client/js/state/messages.js:376-400 | every message goes to the tab it names or the given one, in turn; a failing reducer changes nothing |
| MessageList.EachToItsTab | client/js/state/messages.js:376-400 | every tab has exactly the messages that name it, or name none while it is the given one, appended in order, and other tabs are as they were |
| MessageList.ForHas | client/js/state/messages.js:376-400 | the messages for a tab are exactly those sent that name it, or name none while it is the given one |
| MessageList.FailsExactly | client/js/state/messages.js:376-400 | adding fails exactly on a message that names no tab while the given one is neither there nor named before |
| WrapHeight.FindBreakpoints | client/js/utils/messageHeight.js:5-26 | the break opportunities are exactly the blanks of the whole text and the places behind its dashes and question marks that do not end a block, in order and each once |
| WrapHeight.MessageHeight | client/js/utils/messageHeight.js:28-65 | the loop with its early return computes 32 and 24 for every line break of the greedy layout, behind six characters and the sender, for the width that remains |
| WrapHeight.FitsOnOneLine | client/js/utils/messageHeight.js:41-43 | where the early return applies the full loop would add no line either |
| WrapHeight.HeightIsMonotone | client/js/utils/messageHeight.js:28-65 | a larger wrap width never needs more height |
| WrapHeight.GreedyIsOptimal | client/js/utils/messageHeight.js:45-64 | no choice of breaks whose lines fit has fewer lines |
| WrapHeight.GreedyAttains | client/js/utils/messageHeight.js:45-64 | if any choice of breaks fits, one with as many breaks as the loop counts does |
| WrapHeight.HeightIsLeast | client/js/utils/messageHeight.js:45-64 | where the message fits at all, the loop counts the fewest breaks with which it does |
| WrapHeight.FitsMeans | client/js/utils/messageHeight.js:45-64 | a line fits if its padding and characters stay below the width |
| WrapHeight.HeightIsLeastAlways | client/js/utils/messageHeight.js:45-64 | of every message, whether it fits or not, the loop counts the fewest line breaks with which each line fits or is a single piece on a line of its own |
| IrcMessage.UnescapeEscape | pkg/irc/message.go:124-134 | unescaping undoes the IRCv3 escaping of every tag value |
| IrcMessage.UnescapeIsStandard | pkg/irc/message.go:124-134 | it agrees with the standard's decoding exactly on values without a stray backslash |
| IrcMessage.ParseTags | pkg/irc/message.go:41-58 | the tag loop fills the map with the last value of each key, unescaped |
| IrcMessage.TagMeans | pkg/irc/message.go:41-58 | a tag without an equals sign has the empty value, one with it the unescaped rest, and one without a key is ignored |
| IrcMessage.TagsTakenOff | pkg/irc/message.go:35-64 | tags are taken off with all blanks behind them; without a blank the line means nothing |
| IrcMessage.NilExactly | pkg/irc/message.go:66-114 | an untagged line means nothing exactly if it is a source without a blank, or has no word before its trailing parameter |
| IrcMessage.SourceWithHost | pkg/irc/message.go:73-79 | a source with an exclamation mark and an at sign is sender, ident and host |
| IrcMessage.SourceWithIdent | pkg/irc/message.go:80-82 | without an at sign, or with nothing before it, what follows the exclamation mark is the ident |
| IrcMessage.SourceWithoutIdent | pkg/irc/message.go:83-85 | without an exclamation mark, or with nothing before it, an at sign separates sender and host |
| IrcMessage.SourceAlone | pkg/irc/message.go:86-88 | any other source is the sender |
| IrcMessage.ParseMessage | pkg/irc/message.go:33-114 | the parsing steps compute the specified result, failures and out-of-range reads included |
| IrcMessage.PanicsExactly | pkg/irc/message.go:33-114 | reading past the end happens exactly on tags followed by nothing but blanks |
| IrcMessage.TrimmedIsSafe | pkg/irc/conn.go:193-198 | it never happens on a line without a blank at its end |
| IrcLines.ReceivedIsSafe | pkg/irc/conn.go:193-198 | no line the receiving loop hands over makes the parser read past the end |
| IrcLines.RecvInOrder | pkg/irc/conn.go:177-208 | lines that are blank or have a meaning are received one after the other, and nothing from the first other one on |
| IrcLines.ParseInvertsPrint | pkg/irc/message.go:33-114 | tags, source, command and parameters of a well-formed line are recovered from its text if and only if command and middle parameters have no white space in them |
| IrcLines.TakenApart | pkg/irc/message.go:94-105 | a well-formed line whose parameter has white space other than a blank in it is not parsed back |
| IrcLines.PrivmsgParses | pkg/irc/client.go:276-278 | the printed PRIVMSG is parsed back with the same target and text if and only if the target is a word without a colon at its start |
| IrcLines.NoticeParses | pkg/irc/client.go:280-282 | the same for NOTICE |
| IrcLines.TopicParses | pkg/irc/client.go:260-266 | the same for TOPIC and its channel, with and without a topic |
| IrcLines.FirstLineArrives | pkg/irc/conn.go:177-208 | of a text printed for such a target the other end first sees the first line without trailing blanks |
| IrcLines.TextArrives | pkg/irc/conn.go:177-208 | the other end receives exactly one message with this target and text if and only if the target is a word without a colon at its start and the text is one line that does not end in a blank |
| IrcLines.PrivmsgReceived | pkg/irc/client.go:276-278 | a PRIVMSG written to the stream is received as exactly this message under the same condition |
| Ctcp.EncodedText | pkg/irc/ctcp.go:38-43 | what is sent is command, blank and parameters between two bytes 1 |
| Ctcp.BareRequest | pkg/irc/ctcp.go:17-36 | a request without parameters decodes with and without its closing delimiter |
| Ctcp.DecodeInvertsEncode | pkg/irc/ctcp.go:17-43 | decoding gives back command and parameters if and only if the command is a word without a leading delimiter and the parameters do not end in one |
| Ctcp.ReplyArrives | pkg/irc/client.go:284-289 | a CTCP reply written to the stream is received as one NOTICE that decodes to the same command and parameters if and only if the target is a word without a colon at its start, there is no line break, the command is a word without a leading delimiter and the parameters do not end in one |
| CaseMapping.ToLower | pkg/irc/case.go:58-91 | the byte-filling loop computes the folding |
| CaseMapping.LowerRunes | pkg/irc/case.go:58-91 | folding the bytes is folding the decoded runes, for any byte string |
| CaseMapping.EqualFoldLoop | pkg/irc/case.go:93-125 | the two-string loop compares the folded runes |
| CaseMapping.Casefold | pkg/irc/case.go:32-43 | each mapping name folds up to its own last letter, and an unknown one leaves the string as it is |
| CaseMapping.LettersFolded | pkg/irc/case.go:32-43 | the letters A to Z fold under every known name, the brackets and the backslash under both RFC 1459 names, the caret only under the one that is not strict, and nothing else does |
| CaseMapping.EqualFold | pkg/irc/case.go:45-56 | each mapping name compares the runes folded up to its last letter, and an unknown one the bytes |
| CaseMapping.EqualFoldAgrees | pkg/irc/case.go:32-56 | for valid UTF-8 and every mapping name, the comparison holds exactly if the foldings are equal |
| CaseMapping.AgreementIsExact | pkg/irc/case.go:32-125 | the two agree against every other string if and only if the string decodes without the replacement character |
| CaseMapping.CasefoldIdempotent | pkg/irc/case.go:32-43 | folding twice is folding once, and keeps the length |
| Negotiation.ParseCaps | pkg/irc/cap.go:139-155 | the loop over the words gives each capability its last values |
| CapLines.CapabilityMeans | pkg/irc/cap.go:139-155 | a printed capability stands for its name and its comma-separated values |
| CapLines.ListMeans | pkg/irc/cap.go:139-155 | parsing a printed list gives each capability on it the values of its last entry, and no other |
| Negotiation.ParsedCapsConcat | pkg/irc/cap.go:139-155 | parsing a joined list is merging what its halves give |
| Negotiation.RunKeepsWanted | pkg/irc/cap.go:58-137 | over every run only wanted capabilities are requested or enabled |
| CapLines.EnabledExactly | pkg/irc/cap.go:92-137 | after any run a capability is enabled if and only if a line acknowledged it while it was requested and no later one deleted it, with the values that were requested |
| CapLines.RequestedExactly | pkg/irc/cap.go:66-128 | after any run a capability is requested if and only if a line offered it while it was wanted and no later one answered, with the values that were offered |
| CapLines.RunEndsHistory | pkg/irc/cap.go:58-137 | the states of such a history are those of the run |
| CapLines.NakEnablesNothing | pkg/irc/cap.go:106-113 | a NAK changes nothing in what is enabled |
| CapLines.RequestNamesWanted | pkg/irc/cap.go:66-90 | however the list is cut into lines, the last one is answered by a request for exactly the wanted names on them, or by CAP END if there are none |
| CapLines.NewNamesWanted | pkg/irc/cap.go:115-128 | a NEW line is answered by a request for exactly its wanted names that are not enabled |
| CapLines.AnswerSettles | pkg/irc/cap.go:92-113 | after an ACK or NAK the client waits while something is requested, else it attempts the first usable mechanism if SASL is enabled, else it ends the negotiation |
| CapLines.OtherLines | pkg/irc/cap.go:58-62 | a line with too few parameters is answered by CAP END, a DEL line by nothing |
| Negotiation.SplitDoesNotMatter | pkg/irc/cap.go:66-90 | however a capability list is split over LS lines, nothing is requested before the last one and the result is that of one unsplit line |
| Negotiation.FilterIsSubsequence | pkg/irc/sasl.go:124-137 | restricting the mechanisms to the supported ones keeps their order |
| Negotiation.FilterKeepsSupported | pkg/irc/sasl.go:124-137 | every supported mechanism is kept as often as it was there, and no other |
| CapLines.FailuresTryInOrder | pkg/irc/sasl.go:115-122 | once SASL starts, each failure moves on to exactly the next usable mechanism, and that of the last one ends the negotiation |
| CapLines.SASLLines | pkg/irc/sasl.go:139-179 | what a challenge, a list of mechanisms and a success do |
| CapLines.ChunksAreStandard | pkg/irc/sasl.go:153-161 | a response is sent in the pieces of the IRCv3 SASL specification if and only if it has at most 400 bytes |
| Negotiation.AttemptsFollowConfiguration | pkg/irc/sasl.go:115-137 | over every run the mechanisms attempted are a subsequence of the configured ones |
| Negotiation.RunCloses | pkg/irc/sasl.go:139-179 | every failure uses up a mechanism, and at most one CAP END is sent for a negotiation |
| Negotiation.SASLCloses | pkg/irc/cap.go:38-56 | once SASL starts, one success or as many failures as there are usable mechanisms end the negotiation with exactly one CAP END |
| CapClient.Accept | pkg/irc/cap.go:92-100 | in any order, the acknowledged requests move to the enabled capabilities with their remembered values |
| CapClient.ChooseMechanisms | pkg/irc/client.go:126-145 | the loop keeps exactly the mechanisms that certificate and credentials allow, as a subsequence of the configured ones |
| CapClient.Client.constructor | pkg/irc/client.go:123-155 | the configured mechanisms that certificate and credentials allow are offered, in order, and SASL is wanted exactly if there is one |
| CapClient.Client.FilterSASLMechanisms | pkg/irc/sasl.go:124-137 | the nested loop keeps the supported mechanisms in order, each once |
| CapClient.Client.HandleCAP | pkg/irc/cap.go:58-137 | the handler takes the state machine's step for every subcommand, in any map order, so that all that is said of runs and lines holds of it |
| CapClient.Client.Handle | pkg/irc/sasl.go:139-179 | every message of the negotiation takes the state machine's step |
| ChannelUsers.PrefixIsHighest | pkg/irc/state.go:64-72 | the prefix stands for the highest mode held, and is empty exactly without any |
| ChannelUsers.AddModes | pkg/irc/state.go:47-55 | the letters are added as a set, none twice, with the prefix kept right |
| ChannelUsers.RemoveModes | pkg/irc/state.go:57-62 | the letters are removed as a set, with the prefix kept right |
| ChannelUsers.NewUser | pkg/irc/state.go:30-41 | a prefixed name gives the nick, the mode of its prefix and that prefix |
| ChannelUsers.ParseMode | pkg/irc/internal.go:156-173 | the loop collects the letters standing under a plus and those under a minus |
| ModeLines.ModeIsAsMeant | pkg/irc/internal.go:67-80 | giving all letters to the first parameter, additions first, is what the line means letter by letter with each its own parameter, for all modes of the people in the channel, if and only if nobody there but the first parameter is named, and, if that one is there, all letters are for that one and none is given back |
| ModeLines.OneModeIsAsMeant | pkg/irc/internal.go:67-80 | a single user mode with its parameter is always tracked as meant |
| ModeLines.TwoUsersAreNot | pkg/irc/internal.go:67-80 | a line with modes for two users is not, if the second is in the channel |
| Tracker.RenameKeepsDistinct | pkg/irc/state.go:205-213 | a rename keeps nicks distinct exactly if nobody else has the new one |
| Tracker.RenameAndBack | pkg/irc/internal.go:53-58 | a rename handled and then the opposite one leave every channel as it was, where nobody had the new nick |
| Tracker.JoinAndPart | pkg/irc/internal.go:16-36 | a join handled and then a part leave the others of the channel, with their modes |
| Tracker.AddUser | pkg/irc/state.go:123-140 | the list shows the joined roster, unless the name comes with a prefix and its nick is listed already |
| Tracker.RemoveUserAll | pkg/irc/state.go:148-160 | in any order, the user goes from every channel, and exactly the channels that held it are reported, once each |
| Tracker.RenameAll | pkg/irc/state.go:215-225 | the same for a rename, with the lists in order exactly if no channel has both nicks |
| Tracker.SetMode | pkg/irc/state.go:169-183 | only this user of this channel changes, by the letters added and removed |
| Tracker.SetUsers | pkg/irc/state.go:112-121 | the list shows the names collected, unless a nick is named twice |
| Tracker.Client.Handle | pkg/irc/internal.go:16-135 | every message takes the step of the abstract map from channels to nicks to mode sets and of the own nick, keeps prefixes and modes right, and leaves nicks listed once exactly if it does not bring one in twice; QUIT and NICK report the channels that held the user |
| TrackerLines.OnKick | pkg/irc/internal.go:41-51 | after `KICK channel nick` exactly this nick is gone from exactly this channel, or the channel itself if it was the client; everybody else keeps their modes |
| TrackerLines.OnPart | pkg/irc/internal.go:27-36 | the same for the sender of a PART |
| TrackerLines.OnQuit | pkg/irc/internal.go:38-39 | after a QUIT the sender is gone from every channel and nobody else is, and exactly the channels that listed the sender are reported, once each |
| TrackerLines.OnJoin | pkg/irc/internal.go:16-25 | after a JOIN the sender is listed there too, without modes unless listed before, and nobody else changes |
| TrackerLines.OnNick | pkg/irc/internal.go:53-58 | after a NICK the user has the new nick with the same modes in every channel, and the client its own; nicks are still listed once exactly if no channel lists both |
| TrackerLines.OnMode | pkg/irc/internal.go:67-80 | after `MODE channel letters nick` this user has the modes it had and those under a plus, without those under a minus, and nobody else changes; outside channels nothing does |
| TrackerLines.OnNames | pkg/irc/internal.go:118-135 | after a NAMES reply of any number of lines and its end the channel lists exactly the names sent, with the modes of their prefixes, and no other channel changes; nicks are listed once exactly if none was sent twice |
| TrackerLines.OnWelcome | pkg/irc/internal.go:98-101 | after 001 the client has the nick it was told, and no list changes |
| TrackerLines.PrefixMeans | pkg/irc/state.go:30-41 | the prefixes ~ & @ % + of a name are cut off and stand for the modes q a o h v |
| TrackerLines.NoPrefixMeans | pkg/irc/state.go:30-41 | any other name is the nick, without modes |
| ChannelIndex.BeforeIsStrictWeakOrder | storage/channel_index.go:95-99 | the order the list is sorted by is a strict weak order |
| ChannelIndex.OrderedMeans | storage/channel_index.go:95-99 | along a sorted list user counts do not increase, and names with equal counts do not decrease |
| ChannelIndex.TrimHashesMeans | storage/channel_index.go:43 | all hashes at the front of a name are taken off, and nothing else |
| ChannelIndex.Enter | storage/channel_index.go:44-53 | a channel is appended to the entry of every non-empty prefix of its name and to no other |
| ChannelIndex.MapChannelListIndex.Finish | storage/channel_index.go:39-54 | afterwards searching for any non-empty prefix gives the sorted list filtered by it, in its order |
| ChannelIndex.MapChannelListIndex.SearchN | storage/channel_index.go:63-76 | a page is the stretch of the full result it asks for, cut off at the end |
| ChannelIndex.PagesCoverSearch | storage/channel_index.go:63-76 | successive pages of any positive sizes give the full result |
| IndexManager.ChannelIndexManager.Get | storage/channel_index.go:127-147 | an update is granted exactly if none is running and there is no index or it is a day old, and is then running |
| IndexManager.ChannelIndexManager.Set | storage/channel_index.go:149-158 | a non-empty index is kept with its time and ends the update, an empty one is ignored |
| IndexManager.ChannelIndexManager.TimeoutUpdate | storage/channel_index.go:160-168 | the timer ends a running update and changes nothing else |
| IndexManager.RunKeepsInv | storage/channel_index.go:127-168 | over every timed run timers, running updates and grants fit together |
| IndexManager.GrantedExactly | storage/channel_index.go:127-168 | over every timed run a caller is told to fetch if and only if no timer sleeps for the network and no list was set for it in the last 24 hours |
| IndexManager.GrantsAreSpaced | storage/channel_index.go:127-168 | any two grants for a network are at least five minutes apart |
| IndexManager.NoStaleTimerClears | storage/channel_index.go:160-168 | a timer that fires belongs to the network's latest grant |
| IndexManager.GetReturnsLatest | storage/channel_index.go:127-158 | `Get` returns the latest non-empty index that was set |
| Sessions.Session.Refresh | pkg/session/session.go:67-86 | a new key and time exactly if an hour has passed and a key could be made |
| Sessions.CountSessions | server/state.go:349-354 | the counting loop counts the user's sessions |
| Sessions.StateStore.DeleteSession | server/state.go:345-371 | the user ends and is scheduled for clean-up exactly if this was the last session |
| Sessions.DeleteMeans | server/state.go:345-371 | exactly this session goes, and its user exactly if it was the only one |
| Sessions.StateStore.DeleteState | server/state.go:313-323 | the user and exactly its sessions go |
| Sessions.DeletedMeans | server/state.go:313-323 | exactly the user's sessions go, the others are as they were |
| Sessions.StateStore.ExpireUser | server/state.go:198-201 | the user goes from the store and is removed, again if it was already |
| Sessions.StateStore.PruneSessions | server/state.go:284-298 | in any order, exactly the expired sessions go, and exactly the users left without one are scheduled, once each |
| Sessions.StateStore.HandleAuth | server/auth.go:12-59 | with the cookie of a session at most seven days old the request is served for the owner of that session, else for a new user, if it may create one and can, or nobody; every key leads to the session that has it, whose user is live |
| Sessions.ServedForOwner | server/auth.go:12-59 | the same of the specified step |
| Sessions.SessionsAfter | server/auth.go:20-59 | which sessions a request leaves, whose they are and when they were made: one more than an hour old is exchanged if asked for, an expired one deleted, a new user gets one |
| Sessions.UsersAfter | server/auth.go:12-59 | exactly the user whose only session was found expired goes and is scheduled, and exactly a new user is added |
| Sessions.RefreshKeepsUser | server/auth.go:31-42 | a refresh keeps the user, and schedules nobody, if and only if the new key differs from the old one or the user has another session |
| Sessions.AuthKeeps | server/auth.go:12-59 | a request is served for a live user and ends only a user whose last session it found expired |
| Sessions.PrunedKeeps | server/state.go:284-298 | pruning keeps the store consistent |
| Sessions.PrunedMeans | server/state.go:284-298 | exactly the sessions more than seven days old go, and exactly the users that had a session and have none left are scheduled |
| Sessions.RunKeepsConsistent | server/state.go:284-371 | over every run of requests, prunes and expiries each session has a live user, the end of sessions schedules nobody twice, and nobody scheduled or removed is ever live again |
| Sessions.KeysAreGivenOut | server/auth.go:12-59 | over every run a key in the store belongs to the user it had at the start, or to one it was given out to with a request served for that user |
| Sessions.RemovedOnce | server/state.go:198-201 | over every run each user is removed at most once if and only if no timer fires for a user that has left the store |

## Left out

- Sockets, dialling, TLS, HTTP, websockets, the ident server, configuration and commands are not modelled.
- The JSON wrappers, the full-text search, SCRAM, base64 and the user interface are not modelled.
- The pages and trees inside the key/value store: a bucket is a sorted sequence, a cursor is a place in the bucket as it was when the scan began, and deletions go to the bucket. In the store itself that holds of a scan only while its page was not written earlier in the same transaction, and calls may be batched into one. Errors of the store are not modelled.
- Goroutine interleavings: log calls, requests, prunes and timer firings are atomic steps.
- The timer that expires idle users: what it does when it fires is a step, at any time and for any user that is or was live; when it is started and stopped is not modelled.
- Writing sessions to and reading them from disk, and the start of the server from a loaded store.
- DCC transfers, colour codes, message rendering, input history and settings would only add easy members.
- Memory exhaustion, and buffers with capacity beyond their length; the host is little-endian, as the generated code assumes.
- Unmarshal.MessageTarget.Unmarshal: after a read past the end nothing is said about the value, which depends on the memory behind the buffer.
- Unmarshal.UserTarget.Unmarshal: an address length below 2^63 for which there is no memory panics in the code, at the allocator's limit, and is accepted here.
- Store.RemoveNetworkIsExactForDMs: names and the address have no NUL; with one the network of a tab cannot be told from its key.
- Wire.ListRoundTrip: lists and strings have fewer than 2^63 elements, as Go's lengths do.
- Store.BoltStore.SaveUser: an id that a user already has came from the sequence, which is not exhausted.
- Store.BoltStore.SaveNetwork: fields are shorter than 2^63 bytes.
- Store.BoltStore.SaveChannel: network and channel names are shorter than 2^63 bytes.
- MessageLog.Messages: the bucket holds encoded messages under their ids, as the log writes them; a negative count, which makes the code fail, is not a value of the parameter.
- Sessions.UsersAfter: a fresh random key is not the one that it replaces; Sessions.RefreshKeepsUser says what happens then.
- UserLog.LoggingUser.LogMessage: strings are shorter than 2^63 bytes and ids ascend from call to call; no caller passes a message with events, and of a channel that gets one nothing is said but what is stored and cached.
- UserLog.LoggingUser.LogEvent: strings are shorter than 2^63 bytes, and ids ascend from call to call; loading users from disk, which loses the routing of cached messages, is not a start of a run.
- MessageList.AddTo: the day of a message is given, in place of the browser's clock and time zone; ids, colours and heights of entries are not modelled, and an empty list of events stands for none.
- WrapHeight.MessageHeight: widths are real numbers without rounding, the character width is not negative, and lengths are counted in characters.
- IrcLines.TextArrives: lines are not longer than the receive buffer.
- IrcMessage.ParseMessage: text is a sequence of Unicode characters; invalid UTF-8 is not modelled there.
- CapClient.Client.constructor: the values of certificate and credentials do not matter, only whether they are there; a reconnecting client that keeps its old mechanisms is not modelled.
- Negotiation.SASLCloses: the bodies of the mechanisms are abstract; a step of one either gives a payload or fails.
- ChannelUsers.AddModes: users are values, since every list owns its user objects.
- ModeLines.ModeIsAsMeant: a letter before any sign is read as the code reads it, as a removal.
- TrackerLines.OnJoin: the sender comes without a prefix, as servers send it; what a prefixed one does is said by Tracker.AddUser.
- TrackerLines.OnNames: the reply starts with nothing collected for the channel, and names are separated by single blanks.
- CapLines.CapabilityMeans: names and values have no blank, comma or equals sign in them, which separate them.
- Tracker.Client.Handle: topics and the rejoin list are not modelled, and case-insensitive equality is a parameter.
- ChannelIndex.MapChannelListIndex.Finish: the sorted list is given, for the library's sort, and so is lower-casing.
- IndexManager.ChannelIndexManager.TimeoutUpdate: needs the network to be known, as it is when its timer was started.
- IndexManager.GrantsAreSpaced: a timer fires at least five minutes and less than a day after it was started.
- Sessions.StateStore.HandleAuth: the cookie, clock readings, random keys and the success of the user store come with the request; a random key is never empty.
