# Open WebUI: histories, streams and grants, modelled and proved

Dafny models of the parts of Open WebUI whose correctness depends on state kept across many calls,
with proofs about every input, every run or every reachable state.

- **Chat histories.** A chat is a dictionary of messages linked both ways, by `parentId` and by
  `childrenIds`, with a current id `currentId`. `Messages` defines the records and what a consistent
  history is (`Forest`); `HistoryDelete` and `HistoryLanding`, `HistoryMerge`, `HistoryPointer` and `HistoryUpsert` say
  what each edit computes and what that means, `MergeForest` and `MergeGrouping` what merges of two
  and of three copies come to; `ChatHistory` holds the object edited in place and
  `HistoryRuns` the runs of edits. `ParentForest` is the theory of parent relations shared with `PromptHistory`.
- **The second copy.** Every message is also a row with a composite id and a parent link only.
  `ChatRows` is the table and the rebuilding of children lists on read, `ChatStore` the operations
  that write both copies, `ChatSync` their agreement over runs, `ChatHealing` the reads that fill
  gaps.
- **Think tags.** `ThinkTags` is the incremental removal of `<think>` spans from chunked text,
  `ThinkPieces` what is left and when it forms a tag again, `ThinkStream` its use on a stream of completion events.
- **Browser extension.** `Pairing`, `Devices` with `DeviceTokens` and `DeviceRevocation`, `Workflows` and `Audit` are the stored rows as
  guarded transitions: pairing grants, refresh tokens, versioned workflows with schedules, and the
  bounded audit log.
- **Configuration and access.** `ConfigTree` and `ConfigRows` rebuild nested values from dotted
  rows; `AccessGrants` and `AccessNormalize` convert and normalise grants.

Each operation is written twice: as a method or class method with the loops and updates of the
source, and as a function of the old state that the method's `ensures` equates with the new one.
The theorems are about those functions, so they hold of the methods.

## What the code does not promise

The proofs made these visible. Each has a theorem saying exactly when it happens, and a lemma at a
concrete input.

- An upsert writes only the child-to-parent link. Deleting the parent afterwards, before a merge has
  rebuilt the lists, always leaves the child naming a missing parent (`UpsertThenDeleteDangles`,
  `OneSidedLinkDangles`); `DeleteDanglesIff` says when any deletion does this.
- Merging is associative on records, but not when entries are no records (`MergeAssociativeIff`). The
  groupings keep different messages exactly when a record of the first copy is shadowed by a
  non-record the other two leave (`GroupingLosesMessage`). When none is, they still list the messages
  in different orders exactly when a record that a non-record shadowed in the first two copies is
  revived by the third out of its place (`GroupingReorders`). The current id of a merge of records
  depends on the grouping too, and `CurrentIdGroupedIff` says when (`GroupingMovesCurrentId`).
- Deleting can even make a cycle, when a stale children list hands up a message from above the deleted
  one (`DeleteMakesCycle`). `DeleteSoundIff` says exactly when a deletion keeps parents resolved and
  acyclic on any history, `UpsertSoundIff` when an upsert does.
- A second repair of the current id can move it again (`RepairMovesTwice`), exactly when the first
  descends to an unusable message while another leaf is the latest (`RepairIdempotentIff`).
- The comment on saving says the rows are synchronised with the stored history. `StepAgreeIff` says
  exactly which inserts, saves, upserts and deletes keep the two copies in agreement. An entry for a
  stored message that is no record drops the message and leaves its row behind (`NonRecordStrandsRow`,
  `SaveStrandsRow`); a record that lacks the parent or content key leaves the old value in the row
  (`SaveKeepsOldContent`); a new message without a role gets no row; a role patched to null is not
  written; a message whose role was patched to the empty text keeps its old row when a deletion hands
  it to another parent (`DeleteKeepsOldParent`).
- Row ids of two chats can be equal when one chat id followed by `-` begins the other
  (`CompositeCollidesIff`, `CompositeCollision`); a message whose row id another chat has taken takes
  the copies apart (`InsertFindsRowTaken`), and chats whose ids are apart never meet
  (`ApartIdsAreFree`).
- Adding a message that names no parent raises when a stored children list is null
  (`UpsertRaisesIff`, `NullListRaises`).
- Stripped text can contain an opening tag, so stripping is not idempotent (`CleanCanContainTag`). No
  piece between the removed spans holds a tag; the result holds one exactly when a tag straddles a
  joint of the pieces (`CleanHoldsTagIff`, `CleanIdempotentIff`). A finish event whose content is no
  text raises while visible text is pending (`StreamRaisesIff`, `NullFinishRaises`).
- The device table alone does not keep a revoked family revoked: an insert into the family succeeds
  (`InsertReopensFamilyIff`, `RevokedFamilyReopened`). Pairing draws a new family for every device,
  and with new families a revoked one never returns (`RevokedFamilyNeverReturns`).
- An audit row can be trimmed by its own insert, which then raises after the commit
  (`InsertedRowSurvivesIff`, `LateInsertIsTrimmed`).
- An API configuration fragment is split at the last field name, so a nested key that starts with a
  field name moves the split (`FragmentSplitsBackIff`, `NestedFieldMovesSplit`). Empty nested
  dictionaries leave no row and are not rebuilt (`RebuildFromAnyOrder`, `EmptyDictionaryIsLost`).
- The comment on the dictionary conversion says write grants are preserved beside a public read;
  the dictionary returned does not hold them (`RoundTripKeeps`, `PublicReadDropsWriteGrant`).

## Model

| member | source | states |
|---|---|---|
| ParentForest.ContractionLineage | backend/open_webui/models/chats.py:916-956 | cutting nodes out of an acyclic parent relation and handing each survivor to its nearest surviving ancestor keeps it acyclic and turns each lineage into the old one without the nodes cut out |
| ParentForest.LineageWalks | backend/open_webui/utils/misc.py:194-212 | on every relation, cyclic ones included, a lineage holds no node twice, goes from each node to the one it names, and stops where that is missing or would come twice |
| HistoryDelete.DeleteKeepsForest | backend/open_webui/models/chats.py:916-956 | deleting from a consistent history removes exactly the message and the messages naming it, leaves a consistent history, keeps key order and every survivor's other fields, and turns each lineage into the old one with the deleted ids dropped |
| HistoryDelete.DeleteKeepsTwoSided | backend/open_webui/models/chats.py:932-942 | after the regraft parents and children lists are mutually inverse again, each list without duplicates |
| HistoryDelete.DeleteMovesPointer | backend/open_webui/models/chats.py:944-956 | after a deletion the current id is a leaf below the deleted message's parent if there is one, and is missing exactly when no message remains |
| HistoryLanding.DeleteFollowsLasts | backend/open_webui/models/chats.py:944-955 | on every well-formed dictionary, cyclic ones included, the current id lands at the end of a path that starts with the parent's list, or the roots in key order, and goes from list to last entry until a list is empty or an id comes up twice |
| HistoryLanding.DeleteLandsOnLastChild | backend/open_webui/models/chats.py:944-955 | on a consistent history, from the deleted message's parent down every id on the new current id's lineage is the last its parent lists; without a parent the lineage starts at the last root in key order |
| HistoryLanding.DeleteOrdersChildren | backend/open_webui/models/chats.py:932-935 | the parent lists its other children in their old order, then the grandchildren in the order of the deleted children and within each of its list; every other list stays |
| HistoryDelete.DeleteDanglesIff | backend/open_webui/models/chats.py:924-942 | on any well-formed dictionary without dangling parents, a deletion leaves none exactly when the children lists around the message cover the messages naming the deleted ids |
| ChatHistory.UpsertThenDeleteDangles | backend/open_webui/models/chats.py:992-1000 | on every consistent history, deleting the parent of a message just upserted leaves the message naming the deleted parent |
| ChatHistory.OneSidedLinkDangles | backend/open_webui/models/chats.py:992-1000 | the smallest such run: a chat of one message, a reply upserted, the message deleted |
| HistoryDelete.DeleteKeepsBodies | backend/open_webui/models/chats.py:916-942 | on every history, consistent or not, a deletion removes the message and its live children and changes only links of the others |
| HistoryDelete.DeletedIdsIff | backend/open_webui/models/chats.py:917-942 | on every dictionary a deletion takes the message and the messages it lists that exist, and nothing else |
| HistoryMerge.MergeHistory | backend/open_webui/models/chats.py:893-914 | the loops of the merge compute the merged history: overlay, records only, lists rebuilt, current id chosen |
| HistoryMerge.MergeRebuildsLinks | backend/open_webui/models/chats.py:893-914 | for any two inputs, with cyclic, dangling or stale links, each message is listed exactly once under its parent and nowhere else, in insertion order, and the current id names a merged message or nothing, the incoming one preferred |
| HistoryMerge.MergeCharacterised | backend/open_webui/models/chats.py:893-914 | a history is the merge exactly when it is a consistent listing of the records of both sides, incoming winning, in first-seen order, with the preferred current id |
| HistoryMerge.MergeIsIncomingBiased | backend/open_webui/models/chats.py:895-903 | the merged ids are the union of both sides less ids whose winning entry is no record; shared ids take the incoming content |
| HistoryMerge.MergeAgainIsIdentity | backend/open_webui/models/chats.py:694-733 | saving the same incoming copy a second time changes nothing, current id included |
| HistoryMerge.MergeIdempotent | backend/open_webui/models/chats.py:893-914 | merging a merged history with itself changes nothing |
| HistoryMerge.MergeAssociative | backend/open_webui/models/chats.py:893-914 | on records, merging three copies gives the same keys in the same order, messages and lists under either grouping |
| MergeGrouping.MergeAssociativeIff | backend/open_webui/models/chats.py:893-914 | for any three copies, the groupings agree on ids, messages and members of children lists exactly when no record of the first copy is shadowed by a non-record the other two leave, and agree on keys, order and lists altogether exactly when, besides, no revived record is out of place |
| MergeGrouping.OrderGroupedIff | backend/open_webui/models/chats.py:895-901 | when no message is lost the key orders agree exactly when each record revived by the third copy stands there before every kept id that the other grouping lists after it, all of these revived or new |
| MergeGrouping.GroupingLosesMessage | backend/open_webui/models/chats.py:895-901 | a record shadowed by a non-record is dropped by one grouping and kept by the other |
| MergeGrouping.GroupingReorders | backend/open_webui/models/chats.py:895-901 | three copies whose groupings keep the same messages in different orders |
| MergeGrouping.CurrentIdGroupedIff | backend/open_webui/models/chats.py:908-914 | merges of records end on the same current id under both groupings exactly when the copies holding each one's current id say so, which they do when every copy holds its own |
| MergeGrouping.GroupingMovesCurrentId | backend/open_webui/models/chats.py:908-914 | three copies whose groupings end on different current ids |
| HistoryMerge.StaleWritersCommute | backend/open_webui/models/chats.py:694-733 | two stale writers that agree on shared ids reach the same messages, parents and listed children in either order |
| HistoryPointer.FindLastDescendant | backend/open_webui/models/chats.py:445-457 | the while loop ends on every dictionary, cyclic ones included, where the walk along last live children ends |
| HistoryPointer.LastDescendantMeans | backend/open_webui/models/chats.py:445-457 | on every dictionary the walk goes from a message to its last existing child as long as there is a new one with a nonempty id, and ends there or where it would come round |
| HistoryPointer.LastDescendantSettles | backend/open_webui/models/chats.py:445-457 | on every dictionary, walking again from the end of the walk stays there |
| HistoryPointer.LatestLeafIsLatest | backend/open_webui/models/chats.py:499-510 | the scan finds a leaf with a role and greatest timestamp whenever there is one with a timestamp above -1 |
| HistoryPointer.LatestLeafIsFirst | backend/open_webui/models/chats.py:499-509 | of the latest leaves the scan finds the first in key order |
| HistoryPointer.EligibleIff | backend/open_webui/models/chats.py:501-507 | the current id can fall back exactly to messages with a nonempty role, no children and no negative timestamp |
| HistoryPointer.UsableIff | backend/open_webui/models/chats.py:473-491 | a message is usable exactly when it has an id and a role and is not, in a chat of several, an assistant output without parent and timestamp |
| HistoryPointer.RepairChooses | backend/open_webui/models/chats.py:459-515 | a usable current message stays, or gives way to its last descendant when compacted; else the first latest leaf becomes current, or nothing changes |
| HistoryPointer.RepairSettles | backend/open_webui/models/chats.py:459-515 | on a nonempty consistent history of complete messages a repair leaves the current id on an existing message and is idempotent |
| HistoryPointer.RepairIdempotentIff | backend/open_webui/models/chats.py:459-515 | on every well-formed history a second repair changes nothing exactly when the first does not descend from a compacted message to an unusable one while another leaf is the latest |
| HistoryPointer.RepairMovesTwice | backend/open_webui/models/chats.py:459-515 | a history of three messages on which the second repair moves the current id again |
| HistoryPointer.RepairMovesOnlyPointer | backend/open_webui/models/chats.py:459-515 | on every history a repair changes no message, leaves a usable current id on an uncompacted message alone, and moves only to an existing message |
| HistoryUpsert.ListerIsFirst | backend/open_webui/models/chats.py:968-976 | the search for a parent stops at the first children list that is null or names the id, and finds nobody exactly when there is none |
| HistoryUpsert.UpsertTouchesOneMessage | backend/open_webui/models/chats.py:958-1001 | an upsert touches one message: a known id is patched and the current id stays, a new one is appended with an id, a role and a timestamp and becomes current |
| HistoryUpsert.PatchSetsFields | backend/open_webui/models/chats.py:962-966 | after patching a known id each key the patch carries has the patch's value, null included, and every other key the stored one |
| HistoryUpsert.NewMessageFields | backend/open_webui/models/chats.py:967-1000 | the record of a new message key by key: id, parent named or listing it, children, role its own, else the output's, else the one answering its parent, timestamp its own unless zero, all else as given |
| HistoryUpsert.UpsertRaisesIff | backend/open_webui/models/chats.py:968-976 | an upsert raises exactly when the id is new, names no parent, and the list that stops the search is null |
| HistoryUpsert.NullListRaises | backend/open_webui/models/chats.py:971-974 | one stored message with a null list makes the upsert of a parentless message raise |
| HistoryUpsert.UpsertAddsOneSidedLink | backend/open_webui/models/chats.py:992-1000 | adding a message below an existing one keeps parents resolved and acyclic, and no message lists it |
| HistoryUpsert.MergeAfterUpsertIsForest | backend/open_webui/models/chats.py:893-914 | a merge after such an upsert gives a consistent history again in which the parent lists the new message |
| MergeForest.MergeIsForest | backend/open_webui/models/chats.py:893-914 | merging any copy with resolved, acyclic parents into such a history gives a consistent history with the ids of both, however stale the lists and whatever messages either side lacks |
| Messages.FirstRoleIsFirst | backend/open_webui/models/chats.py:978-981 | the role taken from the output is the first nonempty one, and none is taken exactly when no item has one |
| ChatHistory.History.RepairCurrentId | backend/open_webui/models/chats.py:459-515 | the repair in place makes the history the repaired one and reports whether the current id changed |
| ChatHistory.History.UpsertMessage | backend/open_webui/models/chats.py:958-1001 | the upsert in place makes the history the upserted one and returns the record stored, or changes nothing when it raises |
| ChatHistory.History.DeleteMessage | backend/open_webui/models/chats.py:916-956 | the loops in place make the history the one after the deletion and return exactly the ids removed |
| ChatHistory.History.GetMessageList | backend/open_webui/utils/misc.py:182-214 | the walk to the root, with its cycle check, returns the lineage the theorems speak of; a record without any key counts as missing |
| HistoryRuns.DeleteSoundIff | backend/open_webui/models/chats.py:916-942 | on every history with resolved, acyclic parents, whatever its children lists, a deletion keeps them so exactly when the lists around the message cover the messages naming the ids that go and hand up none from above the message's parent |
| HistoryRuns.DeleteMakesCycle | backend/open_webui/models/chats.py:924-942 | a chain of three whose stale last list names the first: deleting the middle one makes a message its own parent |
| HistoryRuns.UpsertSoundIff | backend/open_webui/models/chats.py:958-1001 | on every such history an upsert that does not raise keeps parents resolved and acyclic exactly when the parent it names is stored and, for a patch, not at or below the message |
| HistoryRuns.EditSoundIff | backend/open_webui/models/chats.py:893-1001 | every upsert, deletion and repair keeps parents sound exactly when admissible; every save of a sound copy gives a consistent history; deletions and repairs of consistent histories are always admissible and keep them consistent |
| HistoryRuns.RunsStaySound | backend/open_webui/models/chats.py:893-1001 | over every run of saves of stale copies, plain upserts, deletions and repairs parents stay sound, each save leaves a consistent history, and it stays consistent up to the next upsert |
| ParentForest.ReparentAcyclicIff | backend/open_webui/models/chats.py:935-938 | handing nodes of an acyclic relation to another parent keeps it acyclic exactly when none of them is in that parent's lineage |
| ChatRows.CompositeCollidesIff | backend/open_webui/models/chat_messages.py:281-282 | two chats can write the same row id exactly when one chat id with its separator begins the other |
| ChatRows.CompositeCollision | backend/open_webui/models/chat_messages.py:281-282 | two chats and two messages that share a row id |
| ChatRows.ChatMessageTable.UpsertMessage | backend/open_webui/models/chat_messages.py:210-292 | one row is built or patched, and a null role is refused without effect |
| ChatRows.WrittenColumns | backend/open_webui/models/chat_messages.py:210-292 | one message written, column by column: carried values stored, missing ones kept, defaults for a new row, a null role refused, no other row changed |
| ChatRows.ChatMessageTable.UpsertMessages | backend/open_webui/models/chat_messages.py:294-320 | looking the rows up once before the loop writes what writing the messages one by one would, and one null role refuses the whole batch |
| ChatRows.ChatMessageTable.GetMessagesMap | backend/open_webui/models/chat_messages.py:361-422 | the three loops read the rows back into the message map, or None without rows |
| ChatRows.AllWrittenEffect | backend/open_webui/models/chat_messages.py:294-320 | a batch touches exactly the rows of its messages, each as if written alone |
| ChatRows.ReadBackLists | backend/open_webui/models/chat_messages.py:405-420 | whatever the rows and their order, each rebuilt children list holds exactly the messages naming its owner, each once |
| ChatRows.ReadBackFaithful | backend/open_webui/models/chat_messages.py:361-422 | with the chat's prefix on its rows, the ids read are exactly those with rows, each with its row's role, parent and content |
| ChatRows.ReadBackOrder | backend/open_webui/models/chat_messages.py:361-422 | ids are read under their chat's prefix or whole, in the order their rows came, and children in the order of the ids |
| ChatRows.WritesKeepPrefixes | backend/open_webui/models/chat_messages.py:270-320 | writes and deletions keep every row under the prefix of its chat |
| ChatRows.RemovedRows | backend/open_webui/models/chat_messages.py:501-517 | removing ids takes exactly the chat's rows at them |
| ChatStore.Chats.InsertNewChat | backend/open_webui/models/chats.py:517-572 | inserting stores the history and writes a row for every message with a role; a taken id changes nothing |
| ChatStore.Chats.SaveHistory | backend/open_webui/models/chats.py:694-733 | saving merges into the stored history and writes the merged messages to the table |
| ChatStore.Chats.UpsertMessage | backend/open_webui/models/chats.py:1116-1170 | repairs the current id, upserts, and writes the record stored as a row; an exception changes nothing |
| ChatStore.Chats.DeleteMessage | backend/open_webui/models/chats.py:1172-1214 | repairs, deletes, writes the remaining messages back and removes the deleted rows |
| ChatStore.Chats.GetMessagesMapByChatId | backend/open_webui/models/chats.py:1028-1079 | returns the rows' messages with gaps filled from the history, or the history when there is no row, and writes what was missing |
| ChatSync.InsertAgreeIff | backend/open_webui/models/chats.py:517-572 | inserting a chat keeps both copies in agreement exactly when each of its messages has a role and a row id no other chat has taken |
| ChatSync.SaveAgreeIff | backend/open_webui/models/chats.py:1003-1026 | a save keeps both copies in agreement exactly when each entry for a stored id is a record that carries over the stored parent and content, or has no role and leaves its row as it was, and each other entry is no record or has a role and a free row id |
| ChatSync.UpsertAgreeIff | backend/open_webui/models/chats.py:1116-1170 | an upsert keeps both copies in agreement exactly when it patches no role to null and a new message finds its row id free |
| ChatSync.DeleteAgreeIff | backend/open_webui/models/chats.py:1172-1214 | a deletion keeps both copies in agreement exactly when every message it hands up has a role or keeps its parent |
| ChatSync.NonRecordStrandsRow | backend/open_webui/models/chats.py:897-901 | saving an entry that is no record for a stored message drops the message and leaves its row |
| ChatSync.SaveStrandsRow | backend/open_webui/models/chats.py:897-901 | a chat of one message that such a save takes apart |
| ChatSync.SaveKeepsOldContent | backend/open_webui/models/chat_messages.py:210-219 | a chat of one message that saving a record without content takes apart |
| ChatSync.InsertFindsRowTaken | backend/open_webui/models/chats.py:561-568 | a chat inserted beside one that has taken its message's row id |
| ChatSync.DeleteKeepsOldParent | backend/open_webui/models/chats.py:1172-1214 | three messages, a role patched to the empty text without harm, and a deletion that leaves that message's old parent in its row |
| ChatSync.ApartIdsAreFree | backend/open_webui/models/chat_messages.py:281-282 | a chat whose id is apart from all others' finds the row ids of its new messages free |
| ChatSync.StepAgreeIff | backend/open_webui/models/chats.py:517-572 | from any stores in agreement, every insert, save, upsert or delete leaves them in agreement exactly when it is harmless, a condition on roles, row ids and entries before it |
| ChatSync.StepHistories | backend/open_webui/models/chats.py:1116-1214 | the history each operation stores: the one given, the merge, or the repaired one upserted to or deleted from; nothing for an unknown chat, a taken id or an upsert that raises, and no other chat |
| ChatSync.RunsAgree | backend/open_webui/models/chats.py:517-572 | both copies agree at every point of every run of harmless operations from the empty store |
| ChatSync.RunsReadBackTheHistory | backend/open_webui/models/chat_messages.py:361-422 | at every point of every such run the rows read back with exactly the history's ids, roles, parents and contents, and each children list is the set of messages naming that parent |
| ChatHealing.GapIffMissing | backend/open_webui/models/chats.py:881-891 | a read writes a message back exactly when a row names it, it has no row, and the history holds it with a role |
| ChatHealing.ReadFillsGaps | backend/open_webui/models/chats.py:1003-1079 | a read adds the rows of exactly the resolvable gaps, each with its message's role, parent and content, and changes no other row |
| ChatHealing.FirstReadLeavesNoGap | backend/open_webui/models/chats.py:1067-1079 | the first read of a chat without rows adds the row of every message with a role, and so leaves no resolvable gap |
| ChatHealing.ReadsConverge | backend/open_webui/models/chats.py:1028-1079 | after as many reads as there were messages without a row, in any row order, no resolvable gap remains |
| ChatHealing.ReadReturns | backend/open_webui/models/chats.py:1028-1079 | a read returns each row's record and the stored messages that fill the gaps rows name, and nothing else; without rows the stored messages, and None exactly when the chat is unknown too |
| ThinkTags.ThinkState.StripThinkTags | backend/open_webui/main.py:1922-1955 | the loop over the buffer leaves what scanning the withheld text and the chunk gives |
| ThinkTags.ThinkState.FlushThinkTags | backend/open_webui/main.py:1958-1972 | releases the withheld text unless a span is open, and empties the buffer |
| ThinkTags.StripWhole | backend/open_webui/main.py:2019-2026 | stripping a complete text is the one-shot specification |
| ThinkTags.ScanPreserves | backend/open_webui/main.py:1922-1955 | a chunk keeps the meaning of everything that may follow |
| ThinkTags.ChunkingIrrelevant | backend/open_webui/main.py:1922-1972 | for every split into chunks the outputs and the flush are the text with each leftmost span removed and an unclosed one dropped |
| ThinkTags.EmittedIsPrefixWithBoundedLag | backend/open_webui/main.py:1922-1972 | what was emitted is a prefix of the result under every continuation, lags it by at most six characters, and by none inside a span |
| ThinkTags.CleanIsIdentityIff | backend/open_webui/main.py:1922-1927 | a text passes unchanged exactly when it has no opening tag |
| ThinkPieces.CleanEquations | backend/open_webui/main.py:1932-1972 | a text without opening tag stays, a span goes up to the leftmost closing tag after the leftmost opening one, and an unclosed span takes the rest; this leaves no choice for any text |
| ThinkTags.CleanCanContainTag | backend/open_webui/main.py:1932-1951 | a concrete text whose stripped form is an opening tag |
| ThinkPieces.VisibleIsPieces | backend/open_webui/main.py:1932-1951 | what is shown of a text is its pieces outside spans, put together |
| ThinkPieces.PiecesTagFree | backend/open_webui/main.py:1932-1941 | no piece holds an opening tag |
| ThinkPieces.CleanHoldsTagIff | backend/open_webui/main.py:1932-1951 | the stripped text holds an opening tag exactly when one straddles a joint of the pieces of the input |
| ThinkPieces.CleanIdempotentIff | backend/open_webui/main.py:1932-1951 | stripping again changes nothing exactly when no tag straddles a joint of the pieces of the input |
| ThinkStream.HandleEvent | backend/open_webui/main.py:1981-2010 | one line: strip its content, append the withheld text at a finish, emit it before the end marker |
| ThinkStream.StripStream | backend/open_webui/main.py:1975-2016 | the loop over the events and the final flush send what the specification of the stream says |
| ThinkStream.StreamRelays | backend/open_webui/main.py:1975-2016 | events are sent on one for one in order, raw lines and contents that are no text unchanged, finish flags and end markers kept, with at most one tail before each end marker and at the end; an exception comes at a finish event whose content is no text |
| ThinkStream.StreamMeansExpected | backend/open_webui/main.py:1975-2016 | the text sent is that of each stretch up to a finish stripped as a whole, whatever the chunking; up to an exception it is a prefix |
| ThinkStream.SingleFinishStream | backend/open_webui/main.py:1975-2016 | with no content after the finish the text sent is the whole text stripped: the tail is sent exactly once |
| ThinkStream.StreamRaisesIff | backend/open_webui/main.py:2003-2007 | a stream raises exactly when a finish event carries a content that is no text while visible text is pending |
| ThinkStream.NullFinishRaises | backend/open_webui/main.py:2003-2007 | a short text and then a finish with null content raise |
| Pairing.BrowserPairingGrantTable.Approve | backend/open_webui/models/browser_extension.py:281-304 | succeeds on a pending, userless, unexpired grant only, and sets user and status |
| Pairing.BrowserPairingGrantTable.Deny | backend/open_webui/models/browser_extension.py:306-327 | succeeds on a pending, unexpired grant only |
| Pairing.BrowserPairingGrantTable.Consume | backend/open_webui/models/browser_extension.py:329-353 | succeeds on an approved, unredeemed, unexpired grant with its own verifier only |
| Pairing.SucceedsIff | backend/open_webui/models/browser_extension.py:228-353 | over every run an operation on a grant succeeds exactly when what happened to the grant allows it: its creation, approval, own verifier and expiry |
| Pairing.RunsFollowLifecycle | backend/open_webui/models/browser_extension.py:228-353 | over every run each grant's successful operations are one of four histories, each before expiry, redemption after one approval and with its own verifier |
| Pairing.StatusCountsOperations | backend/open_webui/models/browser_extension.py:228-353 | the status counts the approvals, denials and redemptions that succeeded, so each happens at most once |
| Pairing.CreatedWithUserNeverRedeemed | backend/open_webui/models/browser_extension.py:287-299 | a grant created with a user is never redeemed and keeps that user |
| Pairing.FinalStatesStay | backend/open_webui/models/browser_extension.py:281-353 | denied and redeemed grants never change again, and an approving user never changes |
| Devices.BrowserPairedDeviceTable.RotateRefreshToken | backend/open_webui/models/browser_extension.py:448-483 | rotates the current hash of an active device of the family, keeping it as the previous one |
| Devices.BrowserPairedDeviceTable.RestoreRotatedRefreshToken | backend/open_webui/models/browser_extension.py:533-575 | takes the last rotation back when it is recent enough and clears the previous hash |
| Devices.BrowserPairedDeviceTable.RevokeTokenFamily | backend/open_webui/models/browser_extension.py:577-595 | revokes exactly the active devices of the family and counts them |
| Devices.BrowserPairedDeviceTable.RefreshDeviceToken | backend/open_webui/routers/browser_extension.py:696-760 | revokes the family when its origin or user no longer qualifies, refuses another origin, and otherwise rotates, takes back, or revokes the family |
| Devices.InsertStores | backend/open_webui/models/browser_extension.py:357-387 | exactly when id, hash and the user's label are free an insert adds the row with empty slots |
| Devices.RotationStores | backend/open_webui/models/browser_extension.py:448-483 | exactly which rotations select a row and which are refused, and the row they store |
| Devices.RollbackStores | backend/open_webui/models/browser_extension.py:533-575 | exactly which rollbacks select a row and which are refused, and the row they store |
| Devices.RenameStores | backend/open_webui/models/browser_extension.py:509-531 | exactly which renames select a row and which are refused; only the label changes |
| Devices.RevocationStores | backend/open_webui/models/browser_extension.py:485-507 | exactly on an active device of the user a revocation stores the time and changes nothing else |
| Devices.FamilyRevocationStores | backend/open_webui/models/browser_extension.py:577-595 | exactly the active devices of the family get the time, every other row stays |
| DeviceRevocation.RevokedForGood | backend/open_webui/models/browser_extension.py:485-507 | from any table and over every continuation no rotation, rollback, rename or revocation of a device succeeds after its successful revocation, and its row stays as revoked |
| DeviceTokens.RunsKeepSlotsApart | backend/open_webui/models/browser_extension.py:448-575 | over every run with fresh hashes, refused inserts retried included, all current and previous hashes are different and were stored |
| DeviceTokens.FreshHashesNeverClash | backend/open_webui/models/browser_extension.py:448-575 | with fresh hashes no rotation or rollback whose guard holds is refused by the unique column |
| DeviceTokens.RetiredHashNeverAccepted | backend/open_webui/models/browser_extension.py:448-575 | a hash that has left a device's two slots is never accepted again and never comes back |
| DeviceTokens.EachRotationRolledBackAtMostOnce | backend/open_webui/models/browser_extension.py:533-575 | over every run each successful rollback directly follows the rotation it takes back and lies in its time bound |
| DeviceRevocation.RevokedDeviceIsFrozen | backend/open_webui/models/browser_extension.py:448-595 | a revoked device never changes again: no rotation, rollback, rename or revocation of it succeeds |
| DeviceRevocation.RevokedFamilyStaysRevoked | backend/open_webui/models/browser_extension.py:577-595 | a revoked family accepts no rotation or rollback in any continuation that inserts no device into it |
| DeviceRevocation.InsertReopensFamilyIff | backend/open_webui/models/browser_extension.py:357-387 | a family with devices, all revoked, stays so under any operation of the table except a successful insert into it |
| DeviceRevocation.RevokedFamilyReopened | backend/open_webui/models/browser_extension.py:357-387 | a family revoked after its only pairing and brought back by an insert |
| DeviceRevocation.RevokedFamilyNeverReturns | backend/open_webui/routers/browser_extension.py:491-501 | over every run in which each insert brings a new family, a revoked family stays revoked and no rotation, rollback, rename or revocation in it succeeds |
| DeviceRevocation.RefreshAcceptsOrRevokes | backend/open_webui/routers/browser_extension.py:700-760 | a refresh is accepted exactly when its checks pass and it presents the current hash or the previous one within the grace period; otherwise the family is revoked, except that another origin changes nothing |
| DeviceRevocation.RefreshLeaves | backend/open_webui/routers/browser_extension.py:696-760 | the whole table a refresh leaves, case by case |
| DeviceRevocation.ReplayRevokesFamily | backend/open_webui/routers/browser_extension.py:723-741 | replaying a retired hash is rejected and revokes the whole family |
| Workflows.BrowserAutomation.UpdateWorkflow | backend/open_webui/models/browser_extension.py:657-689 | succeeds for the owner at the expected version only and raises the version by one |
| Workflows.BrowserAutomation.DeleteWorkflow | backend/open_webui/models/browser_extension.py:691-711 | deletes the user's schedules of the workflow, then the workflow |
| Workflows.BrowserAutomation.InsertSchedule | backend/open_webui/models/browser_extension.py:715-765 | refused unless the user owns the workflow and an active device |
| Workflows.BrowserAutomation.MarkRun | backend/open_webui/models/browser_extension.py:874-903 | marks a run of an active schedule later than the last one only |
| Workflows.BrowserAutomation.UpdateSchedule | backend/open_webui/models/browser_extension.py:820-872 | raises unless the user owns the workflow and an active device, and finds only the user's schedules |
| Workflows.WorkflowStores | backend/open_webui/models/browser_extension.py:599-689 | exactly when an insert or update of a workflow succeeds, and the record it stores |
| Workflows.WorkflowDeletionStores | backend/open_webui/models/browser_extension.py:691-711 | exactly when a deletion succeeds, and which workflows and schedules stay, unchanged |
| Workflows.ScheduleStores | backend/open_webui/models/browser_extension.py:715-872 | exactly when an insert or update of a schedule succeeds, and the record it stores |
| Workflows.ScheduleRunStores | backend/open_webui/models/browser_extension.py:874-919 | exactly when a run is marked or a schedule deleted, and what is stored |
| Workflows.RunsKeepReferences | backend/open_webui/models/browser_extension.py:657-872 | after every step of every run each schedule refers to an existing workflow and device of its own owner |
| Workflows.DeleteTakesItsSchedules | backend/open_webui/models/browser_extension.py:691-711 | deleting a workflow takes exactly the schedules referring to it, and a refused deletion none |
| Workflows.VersionsCountUpdates | backend/open_webui/models/browser_extension.py:657-689 | within a lifetime the version grows by one per successful update and the n-th one expected the n-th version |
| Workflows.AtMostOneUpdatePerVersion | backend/open_webui/models/browser_extension.py:657-689 | no expected version succeeds twice in a lifetime |
| Workflows.RunsMarkedOnce | backend/open_webui/models/browser_extension.py:874-903 | within a lifetime marked run times strictly increase and the row holds the latest |
| Audit.BrowserActionAuditTable.Insert | backend/open_webui/models/browser_extension.py:923-971 | adds the row, removes its user's rows past the retention limit, and returns the row, or none, an exception, when the trimming took it |
| Audit.OffsetGivesStaleRows | backend/open_webui/models/browser_extension.py:953-968 | the rows removed are those an ordered query with that offset returns |
| Audit.TrimmingStepwiseIsTrimmingOnce | backend/open_webui/models/browser_extension.py:923-971 | after any inserts the rows are exactly the newest of each user of all ever inserted |
| Audit.LeftIff | backend/open_webui/models/browser_extension.py:923-971 | after any inserts a row is left exactly when it was inserted and fewer rows of its user than the limit, at least one, were created later or at the same time under a later id |
| Audit.KeptCount | backend/open_webui/models/browser_extension.py:953-968 | with distinct ids exactly the smaller of the limit and the user's count is kept |
| Audit.InsertedRowSurvivesIff | backend/open_webui/models/browser_extension.py:953-968 | a row is trimmed by its own insert exactly when the limit's worth of its user's rows are newer |
| Audit.LateInsertIsTrimmed | backend/open_webui/models/browser_extension.py:953-971 | a stored row, a limit of one, and an earlier row that is trimmed by its own insert |
| PromptHistory.PromptHistoryTable.DeleteHistoryEntry | backend/open_webui/models/prompt_history.py:207-231 | the loop over the children hands them to the entry's parent and deletes it; an id of another prompt changes nothing |
| PromptHistory.DeleteLeaves | backend/open_webui/models/prompt_history.py:207-231 | the table after a deletion entry by entry; an unknown id or one of another prompt changes nothing |
| PromptHistory.DeleteKeepsLineages | backend/open_webui/models/prompt_history.py:207-231 | a deletion keeps the relation acyclic, every other entry's content, and turns each ancestor sequence into the old one without the entry |
| PromptHistory.RunsStayAcyclic | backend/open_webui/models/prompt_history.py:207-231 | no run of creations with fresh ids and deletions makes the history cyclic |
| ConfigTree.AssignExtendsPart | backend/open_webui/models/config.py:83-91 | assigning a row to the part of a value that other rows carry gives the part that all of them carry |
| ConfigTree.AssignReads | backend/open_webui/models/config.py:83-91 | on any dictionary an assigned value is read at its path and nothing changes at paths neither above nor below it, also where something that is no dictionary gives way |
| ConfigTree.RebuildFromAnyOrder | backend/open_webui/models/config.py:314-353 | assigning all rows of a flattened value, in any order, gives the value without its empty dictionaries, the same value exactly when it has none |
| ConfigTree.RebuildResumes | backend/open_webui/models/config.py:323-324 | a repair cut short and continued from the stored value reaches the same result |
| ConfigTree.PrunedIsIdentityIff | backend/open_webui/migrations/versions/3ff2c63645b8_reshape_config_to_per_key_rows.py:443-459 | what flattening loses is nothing exactly when no nested dictionary is empty |
| ConfigTree.EmptyDictionaryIsLost | backend/open_webui/migrations/versions/3ff2c63645b8_reshape_config_to_per_key_rows.py:451-456 | a dictionary holding an empty one leaves no row and is rebuilt without it |
| ConfigRows.SplitApiConfigFragment | backend/open_webui/models/config.py:58-80 | the loop over the field names splits at a leading index or else at the last field marker |
| ConfigRows.SplitFragmentMeans | backend/open_webui/models/config.py:58-80 | every fragment splits without loss, at its first dot behind an index, else at the last marker, and not at all when there is neither or only one at its start |
| ConfigRows.FragmentSplitsBackIff | backend/open_webui/models/config.py:58-80 | `key.field.rest` splits back to key and path exactly when the key is all digits, or its first component is not and no later component starts with a field name |
| ConfigRows.NestedFieldMovesSplit | backend/open_webui/models/config.py:67-78 | a header named like a field makes the fragment split elsewhere |
| ConfigRows.RepairConfigRows | backend/open_webui/models/config.py:323-353 | the loop over the rows assembles the value and lists the rows used up |
| ConfigRows.RowTaken | backend/open_webui/models/config.py:337-353 | what one row does: left alone when it stands for no path or its connection key holds no dictionary, else assigned and used up |
| ConfigRows.SplitJoin | backend/open_webui/models/config.py:343 | splitting at dots undoes joining dot-free components |
| ConfigRows.RepairUndoesFlattening | backend/open_webui/models/config.py:314-353 | flattening a dictionary with dot-free keys, or one of connection dictionaries, into dotted rows and repairing them, in any order and on top of whatever part is already stored, gives it back without its empty dictionaries, so the same exactly when it has none, and uses up every row |
| ConfigRows.DottedSplitBack | backend/open_webui/models/config.py:337-343 | flattened rows split back to their paths: plain ones when no key holds a dot, connection ones although connection keys may hold dots |
| AccessGrants.AccessControlToGrants | backend/open_webui/models/access_grants.py:83-147 | the loops turn a dictionary into its grants, read before write, groups before users |
| AccessGrants.ToGrantsLists | backend/open_webui/models/access_grants.py:83-147 | one grant for each list entry, reading before writing, groups before users, in list order; a public read or nothing for None |
| AccessGrants.GrantsToAccessControl | backend/open_webui/models/access_grants.py:276-318 | the loop files each grant in its list once, and a public read makes the result None |
| AccessGrants.ToAccessControlLists | backend/open_webui/models/access_grants.py:276-318 | empty exactly without grants, None exactly with a public read, else lists of exactly the groups and users granted each permission, once each |
| AccessGrants.RoundTripIff | backend/open_webui/models/access_grants.py:83-147 | grants survive the way to the dictionary and back, as a set, exactly when all are for users or groups to read or write and a public read stands alone on a resource that is no file |
| AccessGrants.RoundTripKeeps | backend/open_webui/models/access_grants.py:276-318 | which grants the way there and back keeps, for every list |
| AccessGrants.PublicReadDropsWriteGrant | backend/open_webui/models/access_grants.py:305-316 | a write grant beside a public read is gone after the round trip |
| AccessGrants.DictionaryRoundTripIff | backend/open_webui/models/access_grants.py:276-318 | a dictionary survives the way to grants and back, lists in order, exactly when it has no duplicate, no wildcard reader and some nonempty list |
| AccessNormalize.NormalizeAccessGrants | backend/open_webui/models/access_grants.py:150-188 | the loop over the payload collects its acceptable grants under the ids given or drawn |
| AccessNormalize.NormalizedMeans | backend/open_webui/models/access_grants.py:150-188 | each acceptable grant asked for is listed once and nothing else, in the order first asked for, under the id of the last element asking |
| AccessNormalize.KeyOfIff | backend/open_webui/models/access_grants.py:166-180 | an element asks for a grant exactly when it is a record naming a somebody to read or write, or anyone by the wildcard to read |
| AccessNormalize.NormalizeIdempotent | backend/open_webui/models/access_grants.py:150-188 | normalising a normalised list changes nothing, whatever ids are drawn |
| AccessNormalize.NormalizedRoundTripIff | backend/open_webui/models/access_grants.py:150-188 | a normalised list survives the way to the dictionary and back exactly when it does not grant anyone and grants nothing else beside a public read |

## Left out

- HistoryUpsert.UpsertRaisesIff: stored entries that are no records, on which the search for a parent also raises, are not part of a stored history here, nor in deletions; merges, which drop them, do model them.
- HistoryRuns.EditSoundIff: for a save only sound incoming copies are considered; whether an unsound copy happens to merge into a sound history is not stated.
- Sessions, locking, SQL dialects and change detection: each operation is one atomic step on maps of rows, and a raised exception is a result that says so.
- Aliasing: messages and rows are values in maps held by the objects that are edited; that two references to one dictionary see each other's changes is not captured.
- Null-byte cleaning, content taken from output text, usage merging, titles, timestamps of chats and `touch`.
- Message columns that are copied like content (output, model, files, sources, embeds, meta, done, status history, error, context summary, creation time) and their snake_case names; `content` stands for them in a row, an opaque `extra` map in a record.
- Other top-level keys of a history, which a merge overlays; the legacy `messages` list of a new chat; imports; rows written when the stored history is missing its message dictionary.
- Failed second writes other than that of a null role, which the source refuses.
- JSON and SSE bytes around the stripper, the text of lines that are no events, and events with several choices, which share one state.
- Device and grant columns that no guard reads (origin, extension version, last seen), how the endpoint's origin and permission checks decide (their outcomes are parameters), rate limits, the label suffixes pairing tries, hashing, secrets and redaction: hashes are opaque and distinct.
- Row ids of the audit log are numbers standing for their order in the database; columns it does not order by are one opaque body.
- ConfigTree.AssignExtendsPart: the assignment along a path is modelled on values, so the in-place update of nested dictionaries and their sharing is not captured.
- ConfigRows.RepairConfigRows: aliases and prefixes of configuration keys, the repair of default model lists, and storing the value and deleting the used-up rows are not modelled; digits are the ASCII ones.
- The known keys at which the flattening stops: the paths proved about go down to every value that is no dictionary.
- The public-read and user-grant queries on grant lists, the two filters that strip grants, and the database side of access grants.
- Listing and due-schedule queries, recurrence rules and time zones, chat search, analytics, tags, folders, OAuth, task cancellation, the event catalogue and the frontend.
