# ChatApp backend rules in Dafny

This project models the Convex backend of ChatApp, a chat application with
friend requests, direct and group conversations, read markers, typing
indicators, presence and audio/video calls. It also models the two pure helpers
the backend and its client share: the message-preview summary and the
"last seen" bucketing.

The document store is the class `Db.Store`. It has one sequence field per table of
`convex/schema.ts`: users, requests, friends, conversations,
conversationMembers, messages, groupLeaves, typingStatus, calls and
callParticipants. It also has a `clock` that allocates document ids. A document
is `Doc(id, creationTime, val)`. The store gives a new document the current clock
value as both its id and its `_creationTime`, so creation times increase strictly
(`Db.Tables.Valid`). `Db.Tables` is a snapshot of the store as a value.

Each Convex handler is modelled as follows:

- A **query** is a function over a snapshot.
- A **mutation** is written twice:
  - a function `XStep(t, args)` gives the result and the snapshot afterwards;
  - a `method X(db, args)` performs the same guards and writes on the store, in the handler's order. Its `ensures` ties the method's result and new state to `XStep` of the old state.
- The lemmas beside each operation state what the handler promises about `XStep`:
  - when it succeeds (both directions);
  - which rows exist afterwards;
  - what stays unchanged;
  - that a refusal writes nothing;
  - that the store stays well-formed.

Modelling conventions:

- `Date.now()` is a parameter `now: int`. A handler that reads the clock twice sees one instant.
- The signed-in identity is `identity: Option<string>`, the Clerk subject.
- `Result` separates the failures a handler can raise:
  - `ConvexError(message)`;
  - a plain `Error(message)`, modelled as `PlainError`;
  - `.unique()` meeting two documents, modelled as `NotUnique`;
  - a field read on `undefined`, modelled as `NullAccess`;
  - a `patch` of a missing document, modelled as `MissingDocument`.
- `Promise.all` over a list is a left-to-right pass in which the first failure wins.

Modules: `Schema` (records), `Docs` (tables, scans, `get`/`patch`/`delete`),
`Db` (store and shared scans), `Strings` (decimal rendering), `Utils`,
`LastSeen`, `CallsApi`, `RequestApi`, `RequestsApi`, `ConversationApi`,
`ConversationsApi`, `MessageApi`, `MessagesApi`, `GroupApi`, `FriendsApi`,
`OnlineApi`, `Migrations`.

Where the code and its written description differ, the model follows the
code:

- `endCall` ends a call in any status, terminal ones included.
- `deleteSentRequest` does not check who sent the request.
- `deleteGroup` checks neither that the caller is a member nor that the conversation is a group. It also requires a friendship row attached to the conversation, and it keeps that row.
- `getGroupInfo` does not check membership.
- `markRead` and `leaveGroup` share the message "You are not part of this group therefor you can't leave it ".

## Model

| member | source | states |
|---|---|---|
| Utils.UserByClerkId | convex/_utils.ts:4-15 | the single user whose clerkId is the subject; none when there is none; `.unique()` fails on two |
| Utils.AuthenticatedUser | convex/_utils.ts:26-42 | "Unauthorized" without identity; "User not found" when no user has the subject; on success the user is in the table, has that clerkId, and is the only one with it |
| Utils.MessagesContent | convex/_utils.ts:17-24 | "text" keeps the content unchanged; any other type gives the label "[Non-text]" |
| LastSeen.FormatLastSeen | utils/formatLastSeen.ts:1-22 | the label is one of "just now", "recently", "today", "yesterday", "a while ago", or a digit from 2 to 6 followed by " days ago" |
| LastSeen.Buckets | utils/formatLastSeen.ts:1-22 | each bucket edge in milliseconds: just now, recently, today, yesterday, "<days> days ago" for 2 to 6 days, a while ago |
| LastSeen.FutureIsJustNow | utils/formatLastSeen.ts:3-10 | a timestamp at or after now reads "just now" |
| LastSeen.ShiftInvariant | utils/formatLastSeen.ts:2-8 | the label depends only on now - timestamp |
| LastSeen.FloorSteps | utils/formatLastSeen.ts:4-7 | the chained floor divisions equal one floor division by a minute, an hour or a day |
| Strings.NatToStringValue | convex/calls.ts:27 | the decimal digits rendered for a conversation id or day count read back as that number |
| Strings.IntToStringValue | convex/calls.ts:27 | the rendering of the instant in a room id reads back as the number, with a leading minus sign exactly for a negative one |
| CallsApi.InitiateCallStep | convex/calls.ts:6-59 | a refusal writes nothing; only the calls and callParticipants tables and the clock change, and the clock never goes back |
| CallsApi.InitiateCallGuard | convex/calls.ts:15-24 | initiateCall is refused exactly when the conversation has a call with status active (a ringing call does not block it); a refusal writes nothing |
| CallsApi.InitiateCallCreates | convex/calls.ts:27-57 | the new call rings, starts at now, has room id "call_<conversation>_<now>" and is returned with its id; one participant row per member in member order, each tagged initiator iff the member is the initiator |
| CallsApi.Roster | convex/calls.ts:48-55 | the participant rows of the loop: one per member, for this call, not joined or left, role initiator iff the member is the initiator |
| CallsApi.InitiateCall | convex/calls.ts:6-59 | the method's result and new store equal InitiateCallStep of the old store |
| CallsApi.StartCallInPlace | convex/calls.ts:30-55 | inserting the call and then the participants yields StartCall of the old store |
| CallsApi.InsertParticipants | convex/calls.ts:48-55 | the loop appends ParticipantDocs for the members, with consecutive ids, and advances the clock by the member count |
| CallsApi.InitiateCallKeepsValid | convex/calls.ts:30-55 | the inserts keep the store well-formed |
| CallsApi.AnswerCallStep | convex/calls.ts:62-99 | a refusal writes nothing; only the calls and callParticipants tables change |
| CallsApi.AnswerCallSpec | convex/calls.ts:69-97 | succeeds iff the call exists and rings; it then becomes active with answeredAt = now, and the room id is returned; every other call reads back unchanged, and only the calls and callParticipants tables change; a refusal writes nothing |
| CallsApi.AnswerCallJoins | convex/calls.ts:83-94 | when the user has a participant row for the call, the first such row reads back with joinedAt = now and every other participant row reads back unchanged; without such a row the participant table is untouched |
| CallsApi.AnswerCall | convex/calls.ts:62-99 | the method equals AnswerCallStep |
| CallsApi.AnswerCallKeepsValid | convex/calls.ts:77-94 | the patches keep the store well-formed |
| CallsApi.RejectCallStep | convex/calls.ts:102-119 | a refusal writes nothing; only the calls table changes |
| CallsApi.RejectCallSpec | convex/calls.ts:108-117 | succeeds iff the call exists and rings; it then becomes rejected with endedAt = now; every other call reads back unchanged and no other table changes; a refusal writes nothing |
| CallsApi.RejectCall | convex/calls.ts:102-119 | the method equals RejectCallStep |
| CallsApi.CancelCallStep | convex/calls.ts:199-221 | a refusal writes nothing; only the calls table changes |
| CallsApi.CancelCallSpec | convex/calls.ts:205-219 | succeeds iff the call exists, rings and the user is its initiator; a ringing call cancelled by someone else gives the plain error "Only the initiator can cancel the call"; on success it becomes cancelled with endedAt = now, every other call reads back unchanged and no other table changes; a refusal writes nothing |
| CallsApi.CancelCall | convex/calls.ts:199-221 | the method equals CancelCallStep |
| CallsApi.RejectCancelKeepValid | convex/calls.ts:114-117 | rejecting and cancelling keep the store well-formed |
| CallsApi.EndCallStep | convex/calls.ts:122-161 | a refusal writes nothing; only the calls and callParticipants tables change |
| CallsApi.EndCallSpec | convex/calls.ts:128-145 | succeeds iff the call exists, whatever its status; it then reads back as the old document with status ended, endedAt = now and duration = floor((now - answeredAt) / 1000) when answeredAt is truthy and 0 otherwise; every other call reads back unchanged, and only the calls and callParticipants tables change; a refusal writes nothing |
| CallsApi.EndCallLeaves | convex/calls.ts:148-159 | the user's first participant row for the call keeps a truthy leftAt and otherwise reads back with leftAt = now; every other participant row reads back unchanged; with no such row, or one whose leftAt is truthy, the participant table is untouched |
| CallsApi.EndCallFromAnyStatus | convex/calls.ts:128-131 | a call in any terminal status (ended, rejected, missed, cancelled) is ended again, although the call state machine has no transition from a terminal status to ended |
| CallsApi.EndCall | convex/calls.ts:122-161 | the method equals EndCallStep |
| CallsApi.EndCallKeepsValid | convex/calls.ts:141-159 | the patches keep the store well-formed |
| CallsApi.LiveCalls | convex/calls.ts:164-196 | no more entries than participations, each for a ringing or active call that is the participation's call, joined with the user document of the call's initiatorId and the conversation document of its conversationId, each unset when that row is gone (one entry per participation at most follows with LiveCallsOrdered) |
| CallsApi.GetUserActiveCalls | convex/calls.ts:164-196 | the loop's list equals LiveCalls over the user's participations |
| CallsApi.LiveCallsSound | convex/calls.ts:176-191 | every entry pairs one of the participations with its call, which is ringing or active |
| CallsApi.LiveCallsComplete | convex/calls.ts:176-191 | every participation whose call is ringing or active has an entry |
| CallsApi.LiveCallsOrdered | convex/calls.ts:176-191 | entries follow the participations' creation order |
| CallsApi.ActiveCallsOfUser | convex/calls.ts:168-194 | every entry is the user's own participation in a live call |
| RequestApi.CreateStep | convex/request.ts:5-71 | a refusal writes nothing; only the requests table and the clock change |
| RequestApi.CreateSpec | convex/request.ts:10-69 | a request is created iff the caller exists, the email is not the caller's, it names exactly one user, no request exists either way and no friendship links them; the new request goes from the caller to that user; a refusal writes nothing |
| RequestApi.CreateNeverSelf | convex/request.ts:12-23 | the created request never has the same sender and receiver |
| RequestApi.CreateKeepsPending | convex/request.ts:26-68 | create keeps the invariant: no self-request, no two requests with the same sender and receiver, and no pair of requests in opposite directions |
| RequestApi.CreateTwiceRefused | convex/request.ts:26-36 | the same request sent again is refused with "Friend Request Already Sent" |
| RequestApi.AlreadyFriendsIsLinked | convex/request.ts:49-63 | the friendship test holds iff a friends row links the two users in either column order, and it is symmetric |
| RequestApi.Create | convex/request.ts:5-71 | the method equals CreateStep |
| RequestApi.CreateKeepsValid | convex/request.ts:65-68 | the insert keeps the store well-formed |
| RequestApi.DenyStep | convex/request.ts:73-89 | a refusal writes nothing; only the requests table changes |
| RequestApi.DenySpec | convex/request.ts:78-87 | succeeds iff a request with that id exists and its receiver is the caller; it then removes that request only |
| RequestApi.Deny | convex/request.ts:73-89 | the method equals DenyStep |
| RequestApi.AcceptStep | convex/request.ts:91-128 | a refusal writes nothing; only conversations, friends, conversationMembers, requests and the clock change |
| RequestApi.AcceptSpec | convex/request.ts:96-126 | succeeds iff the request exists and its receiver is the caller; the new state is Befriend of the caller and the request |
| RequestApi.AcceptLinks | convex/request.ts:110-126 | afterwards a friends row links caller and sender, in both argument orders, and the requests table is the old one without that request |
| RequestApi.AcceptOpensConversation | convex/request.ts:105-107 | the new conversation is direct, unnamed and has no last message |
| RequestApi.AcceptMembers | convex/request.ts:116-124 | the new conversation's members are exactly the two users, with unset read markers |
| RequestApi.Accept | convex/request.ts:91-128 | the method equals AcceptStep |
| RequestApi.BefriendInPlace | convex/request.ts:105-126 | the four inserts and the delete yield Befriend of the old store |
| RequestApi.AcceptKeepsValid | convex/request.ts:105-126 | accept keeps the store well-formed |
| RequestApi.DeleteSentRequestStep | convex/request.ts:130-141 | a refusal writes nothing; only the requests table changes |
| RequestApi.DeleteSentRequestSpec | convex/request.ts:135-139 | succeeds for any signed-in caller on an existing request, sender or not; a missing request fails reading its id |
| RequestApi.DeleteSentRequest | convex/request.ts:130-141 | the method equals DeleteSentRequestStep |
| RequestApi.RemovalsDeleteOne | convex/request.ts:87 | deny, accept and withdraw leave the requests table either unchanged or without the request with that id |
| RequestApi.RemovalsKeepPending | convex/request.ts:87 | deny, accept and withdraw keep the pending-request invariant |
| RequestApi.RemovalsKeepValid | convex/request.ts:139 | deny and withdraw keep the store well-formed |
| RequestsApi.Received | convex/requests.ts:5-29 | only a signed-in caller gets a list, with one entry per request the caller received |
| RequestsApi.Sent | convex/requests.ts:31-53 | only a signed-in caller gets a list, with one entry per request the caller sent |
| RequestsApi.WithSenders | convex/requests.ts:19-27 | each request paired with its sender, in order; fails with "Request Sender not found" iff a sender is missing |
| RequestsApi.WithReceivers | convex/requests.ts:43-51 | each request paired with its receiver, in order; fails with "Request  not found" iff a receiver is missing |
| RequestsApi.WithSendersJoins | convex/requests.ts:19-27 | every entry joins a request with its sender's document; every request has an entry; failure iff some request's sender is absent |
| RequestsApi.WithReceiversJoins | convex/requests.ts:43-51 | every entry joins a request with its receiver's document; every request has an entry; failure iff some request's receiver is absent |
| RequestsApi.ReceivedExactly | convex/requests.ts:11-27 | get lists exactly the requests received by the caller, each with its sender; fails iff one sender is missing |
| RequestsApi.SentExactly | convex/requests.ts:36-51 | getSentRequests lists exactly the requests the caller sent, each with its receiver |
| RequestsApi.Count | convex/requests.ts:55-69 | count succeeds iff the caller is signed in; it is then the number of requests the caller received, also when a sender's row is gone, and equals the length of the received list whenever that list succeeds |
| RequestsApi.CreateRaisesCount | convex/requests.ts:61-67 | a new request adds one to the receiver's received requests and leaves the sender's unchanged |
| ConversationApi.GroupMembers | convex/conversation.ts:56-70 | each other membership joined with its user, in order; "member couldn't be found " iff one is missing |
| ConversationApi.GetConversation | convex/conversation.ts:5-74 | the conversation asked for, with the single other member set exactly for a direct conversation and the member list set exactly for a group |
| ConversationApi.GetConversationGuards | convex/conversation.ts:13-27 | "Conversation not found" for a missing conversation, "You are not a member of this conversation" for a non-member; otherwise the conversation asked for |
| ConversationApi.DirectShowsFirstOther | convex/conversation.ts:38-54 | a direct conversation shows the first non-caller membership with its read marker, and no group list |
| ConversationApi.GroupShowsOthers | convex/conversation.ts:56-71 | a group shows every non-caller membership in order, and no single other member |
| ConversationApi.SeenMarker | convex/conversation.ts:105-107 | the stored marker is the message id when the message exists, unset otherwise |
| ConversationApi.MarkReadStep | convex/conversation.ts:76-110 | a refusal writes nothing; only the conversationMembers table changes |
| ConversationApi.MarkReadSpec | convex/conversation.ts:82-108 | succeeds iff a signed-in caller has exactly one membership; only that row's marker changes |
| ConversationApi.MarkReadIdempotent | convex/conversation.ts:105-108 | marking the same message twice gives the state of marking it once |
| ConversationApi.MarkRead | convex/conversation.ts:76-110 | the method equals MarkReadStep |
| ConversationApi.GroupInfoOf | convex/conversation.ts:112-165 | succeeds iff signed in and the conversation exists; one detail per membership, in order, each with that membership's lastSeenMessage and its user's username and imgUrl (both unset when the user row is gone); isGroup is the conversation's flag; no departures for a direct conversation |
| ConversationApi.GroupInfoLeaves | convex/conversation.ts:117-163 | succeeds iff signed in and the conversation exists; recent leaves are exactly this conversation's with leftAt > now - 86400000 for a group, none otherwise |
| ConversationApi.GroupInfoIncludesCaller | convex/conversation.ts:128-144 | the member list includes the caller's own membership |
| ConversationApi.SetTypingStep | convex/conversation.ts:167-198 | a refusal writes nothing; only the typingStatus table and the clock change |
| ConversationApi.SetTypingUpserts | convex/conversation.ts:178-196 | the caller keeps one typing row per conversation (one if there was none); its first row holds the new flag and lastTypingAt = now; other rows are unchanged |
| ConversationApi.SetTypingStatus | convex/conversation.ts:167-198 | the method equals SetTypingStep |
| ConversationApi.TypingUsers | convex/conversation.ts:200-237 | succeeds iff signed in, with one entry per live typing row of another user, in order, each showing the user who wrote that row |
| ConversationApi.TypistCases | convex/conversation.ts:226-231 | an entry carries the writer's username and imgUrl, or neither when the writer's row is gone |
| ConversationApi.TypingOthersExactly | convex/conversation.ts:210-225 | the indicator's rows are exactly the conversation's rows with isTyping, lastTypingAt > now - 5000, not the caller's |
| ConversationApi.SetTypingShows | convex/conversation.ts:178-225 | right after setting the flag, another member's indicator shows the user iff the flag is true |
| ConversationsApi.LastMessageDetails | convex/conversations.ts:89-111 | a preview only for a set marker to an existing message |
| ConversationsApi.LastMessageCases | convex/conversations.ts:96-110 | null for an unset marker, a missing message or a missing sender; otherwise the message's summary, sender name and creation time |
| ConversationsApi.UnseenExactly | convex/conversations.ts:45-60 | the unseen messages are exactly the conversation's messages newer than the read marker and not sent by the caller |
| ConversationsApi.ConversationList | convex/conversations.ts:7-87 | only a signed-in caller gets a list, with one entry per membership of the caller |
| ConversationsApi.ConversationsOf | convex/conversations.ts:19-28 | each membership's conversation, in order; "conversation couldn't be found" iff one is missing |
| ConversationsApi.Entries | convex/conversations.ts:30-85 | one entry per membership, in order; fails iff one entry fails |
| ConversationsApi.ConversationListEntries | convex/conversations.ts:11-85 | one entry per membership of the caller, for its conversation, with unSeenCount the number of unseen messages |
| ConversationsApi.EntryCounterpart | convex/conversations.ts:63-82 | a group entry has no other member; a direct entry names the first non-caller membership's user |
| MessageApi.CreateStep | convex/message.ts:5-47 | a refusal writes nothing; only the messages and conversations tables and the clock change |
| MessageApi.CreateGuards | convex/message.ts:12-38 | "Unauthorized", "User not found in requests", "You aren't a member of this conversation"; a refusal writes nothing |
| MessageApi.CreateAppends | convex/message.ts:40-46 | one message appended, from the caller, with the given conversation, type and content; its id is returned and becomes the conversation's lastMessageId; every other conversation reads back unchanged |
| MessageApi.CreateIsLastMessage | convex/message.ts:40-45 | afterwards the conversation list's preview is the new message, from the caller, at its creation time |
| MessageApi.OwnMessageNotUnseen | convex/message.ts:40-43 | the caller's own message never adds to the caller's unseen count |
| MessageApi.CreateUnseenByOthers | convex/message.ts:40-43 | the message adds exactly itself to every other user's unseen messages when their marker is older |
| MessageApi.Create | convex/message.ts:5-47 | the method equals CreateStep |
| MessageApi.CreateKeepsValid | convex/message.ts:40-45 | the insert and patch keep the store well-formed |
| MessagesApi.Reversed | convex/messages.ts:18 | the list back to front |
| MessagesApi.MessageList | convex/messages.ts:5-50 | only a signed-in member of the conversation gets a list, with one entry per message of the conversation |
| MessagesApi.WithSenders | convex/messages.ts:34-47 | each message with its sender's image and name, isCurrentUser iff the sender is the caller; "Couldn't find sender of message" iff a sender is missing |
| MessagesApi.WithSendersJoins | convex/messages.ts:34-47 | entries keep the messages in order, cover every message, and fail iff some message's sender is absent |
| MessagesApi.MessageListGuard | convex/messages.ts:22-32 | a caller without a membership gets "You aren't a member of this conversation" |
| MessagesApi.NewestFirst | convex/messages.ts:13-19 | the conversation's messages, exactly, in descending creation order |
| MessagesApi.MessageListContents | convex/messages.ts:13-48 | exactly the conversation's messages, newest first, as many as it has; fails iff a sender is missing |
| MessagesApi.IsCurrentUserIffSender | convex/messages.ts:44 | isCurrentUser holds iff the sender is the caller |
| GroupApi.DeleteGroupStep | convex/group.ts:5-65 | a refusal writes nothing; only conversations, messages and conversationMembers change |
| GroupApi.DeleteGroupSpec | convex/group.ts:10-63 | succeeds iff signed in, the conversation exists, it has two or more memberships and one friends row; then the conversation, its messages and memberships go, the friends row and everything else stay |
| GroupApi.DeleteGroupGuards | convex/group.ts:10-42 | "unauthorized", "conversation not found", "Invalid conversation members", "friendship not found" |
| GroupApi.DeleteGroup | convex/group.ts:5-65 | the method equals DeleteGroupStep |
| GroupApi.DeleteGroupKeepsValid | convex/group.ts:59-63 | the deletions keep the store well-formed |
| GroupApi.LeaveGroupStep | convex/group.ts:67-101 | a refusal writes nothing; only the conversationMembers table changes |
| GroupApi.LeaveGroupSpec | convex/group.ts:72-99 | succeeds iff signed in, the conversation exists and the caller has one membership; only that row is removed and no other table changes |
| GroupApi.LeaveGroupTwice | convex/group.ts:86-97 | leaving again is refused as from a non-member |
| GroupApi.LeaveGroup | convex/group.ts:67-101 | the method equals LeaveGroupStep |
| GroupApi.LeaveGroupKeepsValid | convex/group.ts:99 | the deletion keeps the store well-formed |
| FriendsApi.DeleteFriendStep | convex/friends.ts:5-69 | a refusal writes nothing; only conversations, messages, conversationMembers and friends change |
| FriendsApi.DeleteFriendSpec | convex/friends.ts:10-67 | succeeds iff the caller exists, the conversation exists, it has exactly two memberships and one friends row; then the conversation, its friends row, messages and memberships go, and other conversations' rows stay |
| FriendsApi.DeleteFriendGuards | convex/friends.ts:10-45 | "unauthorized", "user not found", "conversation not found", "Invalid conversation members", "friendship not found" |
| FriendsApi.DeleteTheFriendship | convex/friends.ts:63 | deleting the one attached friends row removes exactly the rows attached to the conversation |
| FriendsApi.DeleteFriendUnlinks | convex/friends.ts:63 | unless another row links them, the two users are no longer friends |
| FriendsApi.DeleteFriend | convex/friends.ts:5-69 | the method equals DeleteFriendStep |
| FriendsApi.DeleteFriendKeepsValid | convex/friends.ts:62-67 | the deletions keep the store well-formed |
| OnlineApi.UpdateOnlineStep | convex/online.ts:6-21 | a refusal writes nothing; only the users table changes |
| OnlineApi.UpdateOnlineSpec | convex/online.ts:9-20 | succeeds iff signed in; only the caller's row changes: their status reads back as (flag, now) whichever the flag, and every other user row reads back unchanged |
| OnlineApi.UpdateShowsInList | convex/online.ts:14-40 | afterwards another user sees the caller in the online list iff the flag was true |
| OnlineApi.UpdateOnlineStatus | convex/online.ts:6-21 | the method equals UpdateOnlineStep |
| OnlineApi.UpdateOnlineKeepsValid | convex/online.ts:14-17 | the patch keeps the store well-formed |
| OnlineApi.OnlineUsers | convex/online.ts:24-42 | succeeds iff signed in; every listed user is in the table, flagged online and not the caller |
| OnlineApi.OnlineUsersExactly | convex/online.ts:30-40 | exactly the other users whose flag is true; unset flags are excluded |
| OnlineApi.UserStatus | convex/online.ts:45-60 | a failure is "User not found"; a status is the stored fields of the user with that id |
| OnlineApi.UserStatusSpec | convex/online.ts:50-58 | "User not found" iff no user has the id; otherwise that user's stored fields |
| Migrations.Backfilled | convex/migrations/updateOnlineStatus.ts:9-14 | an incomplete user becomes offline, seen now; a complete user is unchanged; identity and other fields are kept |
| Migrations.BackfillAll | convex/migrations/updateOnlineStatus.ts:6-15 | same users, same order, each backfilled |
| Migrations.UpdateExistingUsers | convex/migrations/updateOnlineStatus.ts:6-15 | the loop leaves the users table equal to BackfillAll of the old one |
| Migrations.BackfillComplete | convex/migrations/updateOnlineStatus.ts:6-15 | afterwards no user has an unset presence field |
| Migrations.BackfillIdempotent | convex/migrations/updateOnlineStatus.ts:8-15 | a second run, at any time, changes nothing |
| Migrations.BackfillKeepsValid | convex/migrations/updateOnlineStatus.ts:11-14 | the patches keep the store well-formed |
| Db.TheMembership | convex/messages.ts:22-32 | the caller's membership lookup: succeeds iff exactly one row matches, with the handler's message when none does, NotUnique when two do |
| Db.NoMembership | convex/message.ts:28-38 | the handler's not-a-member message comes back iff no row matches the caller and conversation |
| Db.DeleteTheMembership | convex/group.ts:99 | deleting the found membership removes exactly the caller's rows for that conversation |
| Db.OthersInExactly | convex/conversation.ts:39-41 | the other memberships are exactly the conversation's rows whose member is not the caller |
| Db.DropConversationLeaves | convex/group.ts:59-63 | after dropping a conversation, exactly the other conversations, their messages and memberships remain |
| Db.DropConversationKeepsValid | convex/friends.ts:62-67 | dropping a conversation keeps the store well-formed |
| Db.Store.DeleteMessages | convex/group.ts:62 | the loop of deletes removes exactly the documents with the given ids |
| Db.Store.DeleteMemberships | convex/group.ts:63 | the loop of deletes removes exactly the memberships with the given ids |
| Db.Store.DropConversationInPlace | convex/friends.ts:62-67 | the conversation, then its messages, then its memberships are deleted |

## Left out

- User interface, React hooks, providers, the Clerk webhook, routing middleware, the upload service, build configuration and generated types are not part of this model. The `users` query module is not part of this model either, because it only wraps `getUserByClerkId`.
- Convex platform effects are not modelled: transactions, concurrency, live subscriptions and index internals. Each mutation is one atomic sequential step. `Promise.all` is a left-to-right pass.
- The schema's validators are not modelled. The record datatypes follow `convex/schema.ts`.
- `console.log` output is not modelled.
- Behaviour the code does not implement is not modelled: message edit and delete, `replyTo` validation, adding group members, system messages, writing `groupLeaves` rows when someone leaves, and missed-call timeouts.
- MessageApi.Create: the handler does not pass `isEdited`, although the schema requires it (convex/message.ts:40-43 against convex/schema.ts:51). The model stores `isEdited` as unset rather than inventing a value. Convex validates inserts against the schema by default, so the deployed handler would fail at this insert. The model's success path describes the handler's code, not that rejection.
- MessageApi.Create: when the conversation document is missing, the final `patch` throws and the transaction is rolled back. The model checks for the conversation before inserting and returns `MissingDocument` with nothing written.
- Referential integrity between tables (a membership naming an existing user) is not an invariant of the store. The queries model the "not found" paths instead. `Db.Tables.Valid` covers ids, creation times and order.
- Date.now() is one `now` per handler call. `initiateCall` reads the clock twice, for the room id and for `startedAt`. The migration reads it once per patched user. The filters of `getGroupInfo` and `getTypingStatus` read it once per row they test. The model takes all readings within one call to agree.
- Migrations.UpdateExistingUsers requires user ids to be distinct, as the store guarantees, so that patching by id touches one row.
- CallsApi.InitiateCall takes the conversation and initiator as given. Like the handler, it does not check that they exist.
- The `!messages` guard of `deleteGroup` and `deleteFriend` can never fire, because `collect()` always returns a list, so it has no counterpart in the model.
- The `!currentUser` checks that follow `getAuthenticatedUser` (in `markRead`, `getGroupInfo`, the typing handlers and the group handlers) can never fire, because that helper already throws, so they have no counterpart in the model.
