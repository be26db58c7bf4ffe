# Message inbox: a verified model

This project models the core of a small message-inbox feature in Dafny.
It has four parts:

- **The inbox list controller**, in two versions: the refactored one
  (`shared.js_refactor.js`) and the earlier one (`shared.js_origineel.js`).
  - The page holds a sort-direction flag, a folder context (inbox or
    outbox selected) and the rendered list.
  - Each list item keeps its checkbox value (the message id), its class
    set, whether it is checked, and its link.
  - Fetching renders the list: the messages are sorted by timestamp and the
    list is rebuilt.
  - A link click marks the message read.
  - The bulk toggle marks the whole selection read or unread.
  - Delete archives the selection.
  - The sort control flips the flag and fetches again.
- **The create-message endpoint**, in its old single-method form and its
  new helper-based form. It maps the outcomes of the receiver lookup and of
  the save to a two-key response map.
- **The mutable message entity** (`Message_original.java`): its
  constructors, `equals`, the 32-bit `hashCode` fold and its setters.
- **The immutable message and its builder** (`Message_theoretisch.java`).

Modules and files:

| file | module | models |
|---|---|---|
| `java_types.dfy` | `JavaTypes` | nullable references, Java `int` and its wrap-around, `User`, `LocalDateTime` |
| `message_entity.dfy` | `MessageEntity` | `Message_original.java` |
| `immutable_message.dfy` | `ImmutableMessage` | `Message_theoretisch.java` |
| `create_message.dfy` | `CreateMessage` | `createMessage_refactor.java` |
| `inbox_model.dfy` | `InboxModel` | the list rules both controller versions share |
| `inbox_refactor.dfy` | `InboxRefactor` | `shared.js_refactor.js` |
| `inbox_original.dfy` | `InboxOriginal` | `shared.js_origineel.js` |

Code that changes state is modelled as classes with methods:
- the controller's page (`InboxPage`);
- the entity (`MessageEntity.Message`);
- the builder (`ImmutableMessage.Builder`).

Each of these methods is proved against a pure function of the
old state. The handlers are proved against `ToggleEffect` and
`DeleteEffect`. Rendering is proved against `Rendered` and `SortByDate`.
The hash is proved against `HashOf`. The properties themselves are lemmas
about those functions.

Both versions of the controller receive their inputs as parameters:
- each network answer (`Ok`, `NotOk`, `Rejected`, or `Pending` for a
  promise that has not settled);
- each dialog result.

The `k`-th answer belongs to the `k`-th request a handler sends, and the
answers are applied in that order. Every handler returns the requests it
sends, so a property such as "no request when nothing is checked" is
stated on that returned list.

Points where the two versions or the code's own declarations differ:
- The two controller versions differ on the bulk toggle. The earlier
  toggle sends the mark requests whatever the dialog answers
  (`InboxOriginal.ToggleEffect`); the refactored one sends them only on
  confirmation (`InboxRefactor.ToggleEffect`).
- `createMessage` (line 20) calls `successResponse` with the success text,
  but only a zero-argument `successResponse()` is declared (line 34), and
  it builds the same map. `CreateMessage.SuccessResponse` is that
  zero-argument form.
- The sort control always fetches `/api/messages/receiver_get`, whichever
  folder is shown. The model keeps this.

## Model

| member | source | states |
|---|---|---|
| `JavaTypes.Wrap` | Sigrid/Rule4/Message_original.java:75-83 | Java `int` arithmetic keeps the value modulo 2^32 and leaves in-range values alone |
| `MessageEntity.Message.constructor` | Sigrid/Rule4/Message_original.java:31-42 | the ten fields take the arguments and the four display-name fields start null |
| `MessageEntity.Message.Default` | Sigrid/Rule4/Message_original.java:44-46 | id 0, null sender and receiver, the clock's reading as date, subject "default", content "ignore", thread 0, all flags false |
| `MessageEntity.Message.Equals` | Sigrid/Rule4/Message_original.java:58-71 | true only for another message; true for the message itself and for any message with the same fields |
| `MessageEntity.HashOf` | Sigrid/Rule4/Message_original.java:74-84 | the hash is the chain of eight wrapping steps `r = 31*r + c` starting from the id, over the contributions in source order |
| `MessageEntity.EqualsReflexiveAndTyped` | Sigrid/Rule4/Message_original.java:59-60 | a message equals itself, and never equals null or an object of another class |
| `MessageEntity.EqualsIffSameFields` | Sigrid/Rule4/Message_original.java:64-70 | two messages are equal iff id, sender, receiver, thread and the three flags match; subject, date, content and display names are ignored |
| `MessageEntity.EqualsSymmetric` | Sigrid/Rule4/Message_original.java:62-70 | `a.equals(b) == b.equals(a)` |
| `MessageEntity.Contributions` | Sigrid/Rule4/Message_original.java:75-82 | the eight hash contributions in source order: the subject's is the fourth, and flags contribute 1, 2 and 3 |
| `MessageEntity.Message.HashCode` | Sigrid/Rule4/Message_original.java:74-84 | the step-by-step accumulation equals the wrapping fold `r = 31*r + c` over the contributions |
| `MessageEntity.FoldEight` | Sigrid/Rule4/Message_original.java:74-84 | the fold over eight contributions is the nested chain of eight steps starting from the id |
| `MessageEntity.StepInjectiveInResult` | Sigrid/Rule4/Message_original.java:76 | one hash step keeps different accumulators different (31 is invertible modulo 2^32) |
| `MessageEntity.StepInjectiveInContribution` | Sigrid/Rule4/Message_original.java:76 | one hash step keeps different contributions apart |
| `MessageEntity.FoldKeepsDifference` | Sigrid/Rule4/Message_original.java:74-84 | once two folds differ, the same remaining contributions keep them different |
| `MessageEntity.EqualMessagesWithDifferentHashes` | Sigrid/Rule4/Message_original.java:78 | a message and its copy with another subject are `equals`, yet their hash codes differ whenever the subjects' string hashes differ |
| `MessageEntity.EqualMessagesHashAlike` | Sigrid/Rule4/Message_original.java:74-84 | with the subject left out of the fold, equal messages have equal hash codes |
| `MessageEntity.Message.SetMessageId` | Sigrid/Rule4/Message_original.java:96-98 | only the id changes |
| `MessageEntity.Message.SetSender` | Sigrid/Rule4/Message_original.java:104-106 | only the sender changes |
| `MessageEntity.Message.SetReceiver` | Sigrid/Rule4/Message_original.java:112-114 | only the receiver changes |
| `MessageEntity.Message.SetDateTime` | Sigrid/Rule4/Message_original.java:120-122 | only the date changes |
| `MessageEntity.Message.SetSubject` | Sigrid/Rule4/Message_original.java:128-130 | only the subject changes |
| `MessageEntity.Message.SetMessageContent` | Sigrid/Rule4/Message_original.java:136-138 | only the content changes |
| `MessageEntity.Message.SetThreadId` | Sigrid/Rule4/Message_original.java:144-146 | only the thread id changes |
| `MessageEntity.Message.SetRead` | Sigrid/Rule4/Message_original.java:152-154 | only the read flag changes |
| `MessageEntity.Message.SetSenderFullName` | Sigrid/Rule4/Message_original.java:160-162 | only the sender's full name changes |
| `MessageEntity.Message.SetSenderCompanyName` | Sigrid/Rule4/Message_original.java:168-170 | only the sender's company name changes |
| `MessageEntity.Message.SetReceiverFullName` | Sigrid/Rule4/Message_original.java:176-178 | only the receiver's full name changes |
| `MessageEntity.Message.SetReceiverCompanyName` | Sigrid/Rule4/Message_original.java:184-186 | only the receiver's company name changes |
| `MessageEntity.Message.SetArchivedBySender` | Sigrid/Rule4/Message_original.java:192-194 | only the archived-by-sender flag changes |
| `MessageEntity.Message.SetArchivedByReceiver` | Sigrid/Rule4/Message_original.java:200-202 | only the archived-by-receiver flag changes |
| `ImmutableMessage.Builder.constructor` | Sigrid/Rule4/Message_theoretisch.java:28-37 | a fresh builder: id 0, no sender or receiver, the clock's reading, empty subject and content, thread 0, all flags false |
| `ImmutableMessage.Builder.MessageId` | Sigrid/Rule4/Message_theoretisch.java:39-42 | sets only the id and returns the same builder |
| `ImmutableMessage.Builder.Sender` | Sigrid/Rule4/Message_theoretisch.java:44-47 | sets only the sender and returns the same builder |
| `ImmutableMessage.Builder.Receiver` | Sigrid/Rule4/Message_theoretisch.java:49-52 | sets only the receiver and returns the same builder |
| `ImmutableMessage.Builder.DateTime` | Sigrid/Rule4/Message_theoretisch.java:54-57 | sets only the date and returns the same builder |
| `ImmutableMessage.Builder.Subject` | Sigrid/Rule4/Message_theoretisch.java:59-62 | sets only the subject and returns the same builder |
| `ImmutableMessage.Builder.MessageContent` | Sigrid/Rule4/Message_theoretisch.java:64-67 | sets only the content and returns the same builder |
| `ImmutableMessage.Builder.ThreadId` | Sigrid/Rule4/Message_theoretisch.java:69-72 | sets only the thread id and returns the same builder |
| `ImmutableMessage.Builder.IsRead` | Sigrid/Rule4/Message_theoretisch.java:74-77 | sets only the read flag and returns the same builder |
| `ImmutableMessage.Builder.ArchivedBySender` | Sigrid/Rule4/Message_theoretisch.java:79-82 | sets only the archived-by-sender flag and returns the same builder |
| `ImmutableMessage.Builder.ArchivedByReceiver` | Sigrid/Rule4/Message_theoretisch.java:84-87 | sets only the archived-by-receiver flag and returns the same builder |
| `ImmutableMessage.Builder.Build` | Sigrid/Rule4/Message_theoretisch.java:14-25 | every getter of the built message returns the builder's field; the builder is not modified |
| `ImmutableMessage.BuildTwice` | Sigrid/Rule4/Message_theoretisch.java:89-91 | building twice gives field-for-field identical messages |
| `ImmutableMessage.BuildWithSubject` | Sigrid/Rule4/Message_theoretisch.java:39-91 | a setter chain on a fresh builder sets the chosen fields and leaves every other field at its default |
| `CreateMessage.CreateResponseMap` | refactor/createMessage_refactor.java:42-47 | the map has exactly the keys `success` and `message`, holding the given values |
| `CreateMessage.CreateResponse` | refactor/createMessage_refactor.java:26-32 | the status is always OK; a returned map is passed through; an exception becomes `{success: false, message: "Er is een fout opgetreden " + detail}` |
| `CreateMessage.SuccessResponse` | refactor/createMessage_refactor.java:34-36 | exactly the keys `success` and `message`, with `true` and the sent text |
| `CreateMessage.ErrorResponse` | refactor/createMessage_refactor.java:38-40 | exactly the keys `success` and `message`, with `false` and the given text |
| `CreateMessage.Respond` | refactor/createMessage_refactor.java:14-21 | every outcome yields a map with exactly the two keys, and `success` is true iff the receiver was found and the save returned true |
| `CreateMessage.RespondMessages` | refactor/createMessage_refactor.java:14-31 | the message text for not found, not saved, saved, lookup exception and save exception |
| `CreateMessage.SaveSkippedWithoutReceiver` | refactor/createMessage_refactor.java:15-17 | without a receiver the save is never consulted |
| `CreateMessage.SupplyResponse` | refactor/createMessage_refactor.java:13-22 | the receiver is set exactly when found, and the supplied response is the decision table's |
| `CreateMessage.CreateMessage` | refactor/createMessage_refactor.java:3-23 | refused authorisation throws and leaves the message untouched; otherwise the sender is set first and the reply is OK with the decision table's map |
| `CreateMessage.CreateMessageOld` | refactor/createMessage_refactor.java:53-86 | the old single method has the same contract as the new one |
| `CreateMessage.OldAndNewAgree` | refactor/createMessage_refactor.java:53-86 | for two distinct message objects in the same state, with the same authorisation and collaborator outcomes, old and new give equal replies and leave the two messages in equal states |
| `InboxModel.Origin` | Sigrid/Rule1-3/shared.js_refactor.js:56 | `inbox` exactly when the inbox is selected, `outbox` exactly when it is not |
| `InboxModel.ArchiveEndpoint` | Sigrid/Rule1-3/shared.js_refactor.js:294-296 | `archiveReceiver/` exactly in the inbox, `archiveSender/` exactly in the outbox |
| `InboxModel.Href` | Sigrid/Rule1-3/shared.js_refactor.js:113-130 | the detail page, then the message id, then the origin parameter, with nothing else |
| `InboxModel.HrefIdentifiesMessage` | Sigrid/Rule1-3/shared.js_refactor.js:115 | equal links mean the same message id and the same folder |
| `InboxModel.SortMessages` | Sigrid/Rule1-3/shared.js_refactor.js:58-62 | the array is overwritten with the stable date sort of its old contents |
| `InboxModel.SortByDate` | Sigrid/Rule1-3/shared.js_refactor.js:58-62 | the result has the input's length, is ordered by date in the flag's direction, and is a permutation of the input |
| `InboxModel.SortByDateCorrect` | Sigrid/Rule1-3/shared.js_refactor.js:58-62 | the result is ordered in the flag's direction, is a permutation of the input, and keeps equal timestamps in input order |
| `InboxModel.SortedStableUnique` | Sigrid/Rule1-3/shared.js_refactor.js:58-62 | two sequences sorted the same way with the same order per timestamp are equal, so a stable sort has one result |
| `InboxModel.FlippingTheFlagReverses` | Sigrid/Rule1-3/shared.js_refactor.js:58-62 | with distinct timestamps, the ascending order is the descending order reversed |
| `InboxModel.CreateMessageListItem` | Sigrid/Rule1-3/shared.js_refactor.js:77-93 | checkbox value is the id, class `read` iff read and `unread` iff not, unchecked, the link carries id and origin |
| `InboxModel.Rendered` | Sigrid/Rule1-3/shared.js_refactor.js:64-68 | one item per message, the `i`-th built from the `i`-th message |
| `InboxModel.RenderedInDateOrder` | Sigrid/Rule1-3/shared.js_refactor.js:55-68 | after a render the items follow the messages sorted by date, one to one, with the right id, class and link |
| `InboxModel.RenderNewestFirstExample` | Sigrid/Rule1-3/shared.js_refactor.js:55-68 | January and February 2024 messages render February first; "2" is read and "1" unread |
| `InboxModel.UnreadIffNotRead` | Sigrid/Rule1-3/shared.js_refactor.js:226-229 | on a well-formed item, `isMessageUnread` holds iff the item does not have class `read` |
| `InboxModel.MarkedRead` | Sigrid/Rule1-3/shared.js_refactor.js:154-155 | `read` present and `unread` absent afterwards; other classes, value, checked state and link unchanged |
| `InboxModel.MarkedUnread` | Sigrid/Rule1-3/shared.js_refactor.js:175-176 | `unread` present and `read` absent afterwards; everything else unchanged |
| `InboxModel.MarksAreInverse` | Sigrid/Rule1-3/shared.js_refactor.js:149-184 | mark-as-unread undoes mark-as-read on an unread item, and the reverse on a read one |
| `InboxModel.MarkClassSets` | Sigrid/Rule1-3/shared.js_refactor.js:149-184 | `{messageItem, unread}` becomes `{messageItem, read}` and back |
| `InboxModel.Selected` | Sigrid/Rule1-3/shared.js_refactor.js:217-219 | exactly the positions of the checked items, in document order |
| `InboxModel.NothingChecked` | Sigrid/Rule1-3/shared.js_refactor.js:217-219 | with no checkbox checked, the selection is empty |
| `InboxModel.SelectionEmptyIff` | Sigrid/Rule1-3/shared.js_refactor.js:271-276 | the selection is empty iff no checkbox is checked |
| `InboxModel.SelectedIds` | Sigrid/Rule1-3/shared.js_refactor.js:271 | one id per selected item, and the id of every checked item is among them |
| `InboxModel.SelectedIdsAreValues` | Sigrid/Rule1-3/shared.js_refactor.js:271 | every id the delete handler sends is the checkbox value of a checked item |
| `InboxModel.MarkSelected` | Sigrid/Rule1-3/shared.js_refactor.js:253-263 | a bulk mark keeps the number of items (per-item behaviour in `MarkSelectedPointwise`) |
| `InboxModel.MarkSelectedPointwise` | Sigrid/Rule1-3/shared.js_refactor.js:253-263 | a selected item whose request succeeded is marked in the one direction; every other item is unchanged |
| `InboxModel.MarkSelectedWellFormed` | Sigrid/Rule1-3/shared.js_refactor.js:253-263 | a bulk mark keeps `read` and `unread` mutually exclusive on every item |
| `InboxModel.FindItem` | Sigrid/Rule1-3/shared.js_refactor.js:318 | the first position whose checkbox value is the id, or -1 when there is none |
| `InboxModel.RemoveFirst` | Sigrid/Rule1-3/shared.js_refactor.js:317-322 | a missing id leaves the list as it was (the null lookup throws and is caught); otherwise one item fewer |
| `InboxModel.RemoveFirstRemovesFirstMatch` | Sigrid/Rule1-3/shared.js_refactor.js:317-322 | it is the first matching item that goes, and the rest keeps its order |
| `InboxModel.RemoveFirstMultiset` | Sigrid/Rule1-3/shared.js_refactor.js:317-322 | only an item with the archived id is taken away |
| `InboxModel.RemoveFirstWellFormed` | Sigrid/Rule1-3/shared.js_refactor.js:317-322 | removal keeps every remaining item well formed |
| `InboxModel.ArchiveAll` | Sigrid/Rule1-3/shared.js_refactor.js:298-310 | archiving never adds items, and when no archive request succeeded the list is unchanged |
| `InboxModel.ArchiveKeepsOthers` | Sigrid/Rule1-3/shared.js_refactor.js:298-310 | items whose ids were not archived stay, as many times as before |
| `InboxModel.ArchiveSelectedLeavesUnchecked` | Sigrid/Rule1-3/shared.js_refactor.js:292-311 | with one item per message and every answer ok, deleting the selection leaves exactly the unchecked items in order |
| `InboxModel.DeleteEffect` | Sigrid/Rule1-3/shared.js_refactor.js:270-311 | a warning only when nothing is checked; warned or declined means no request and no change; confirmed means one request per selected item; the new list only loses items |
| `InboxModel.EmptyDeleteIsNoOp` | Sigrid/Rule1-3/shared.js_refactor.js:271-276 | nothing checked: warn, no request, no change |
| `InboxModel.DeclinedDeleteIsNoOp` | Sigrid/Rule1-3/shared.js_refactor.js:278-285 | a declined delete sends no request and changes nothing |
| `InboxModel.DeleteRequests` | Sigrid/Rule1-3/shared.js_refactor.js:292-299 | one archive request per checked item in document order, to `archiveReceiver/` in the inbox and `archiveSender/` otherwise |
| `InboxRefactor.ToggleEffect` | Sigrid/Rule1-3/shared.js_refactor.js:191-211 | a warning only when nothing is checked; warned or cancelled means no request and no change; confirmed means one request per selected item; the list keeps its length |
| `InboxRefactor.CancelledToggleIsNoOp` | Sigrid/Rule1-3/shared.js_refactor.js:203-210 | a cancelled toggle sends no mark request and changes no item |
| `InboxRefactor.EmptyToggleIsNoOp` | Sigrid/Rule1-3/shared.js_refactor.js:192-197 | nothing checked: warn, no request, no change |
| `InboxRefactor.ConfirmedToggle` | Sigrid/Rule1-3/shared.js_refactor.js:199-206 | all requests go in one direction, read iff some checked item is unread; succeeded items end in that state; unchecked items are untouched; classes stay exclusive |
| `InboxRefactor.ToggleMixedSelectionExample` | Sigrid/Rule1-3/shared.js_refactor.js:199-206 | with "1" unread and "2" read checked, both get mark-as-read |
| `InboxRefactor.InboxPage.constructor` | Sigrid/Rule1-3/shared.js_refactor.js:3 | descending by default, empty list |
| `InboxRefactor.InboxPage.FetchMessages` | Sigrid/Rule1-3/shared.js_refactor.js:28-49 | one fetch request; a received list is rendered sorted, and a failed fetch leaves the list unchanged |
| `InboxRefactor.InboxPage.RenderMessages` | Sigrid/Rule1-3/shared.js_refactor.js:55-69 | the array is sorted in place and the list is replaced by one item per sorted message |
| `InboxRefactor.InboxPage.MarkAsRead` | Sigrid/Rule1-3/shared.js_refactor.js:149-163 | one mark-as-read request; an ok answer marks that one item read, any other answer changes nothing |
| `InboxRefactor.InboxPage.MarkAsUnread` | Sigrid/Rule1-3/shared.js_refactor.js:170-184 | one mark-as-unread request; an ok answer marks that one item unread, any other answer changes nothing |
| `InboxRefactor.InboxPage.ClickLink` | Sigrid/Rule1-3/shared.js_refactor.js:90 | a link click marks its message read and opens its detail link |
| `InboxRefactor.InboxPage.SetChecked` | Sigrid/Rule1-3/shared.js_refactor.js:100-104 | ticking or clearing a checkbox changes only that item's checked state |
| `InboxRefactor.InboxPage.HandleToggleReadUnread` | Sigrid/Rule1-3/shared.js_refactor.js:191-211 | the warning, the requests and the new list are those of `InboxRefactor.ToggleEffect` |
| `InboxRefactor.InboxPage.ProcessToggleReadUnread` | Sigrid/Rule1-3/shared.js_refactor.js:253-263 | one request per selected item in the chosen direction, and the answers applied in order |
| `InboxRefactor.InboxPage.HandleDeleteMessages` | Sigrid/Rule1-3/shared.js_refactor.js:270-286 | the warning, the requests and the new list are those of `InboxModel.DeleteEffect` |
| `InboxRefactor.InboxPage.ProcessDeleteMessages` | Sigrid/Rule1-3/shared.js_refactor.js:292-311 | one archive request per id to the folder's endpoint, and each ok answer removes that id's item |
| `InboxRefactor.InboxPage.RemoveMessageFromList` | Sigrid/Rule1-3/shared.js_refactor.js:317-322 | the list becomes `RemoveFirst` of the old list, and the items stay well formed |
| `InboxRefactor.InboxPage.ToggleSort` | Sigrid/Rule1-3/shared.js_refactor.js:327-330 | the flag flips and `/api/messages/receiver_get` is fetched, whichever folder is selected |
| `InboxRefactor.ToggleSortTwice` | Sigrid/Rule1-3/shared.js_refactor.js:327-330 | two clicks restore the original direction |
| `InboxOriginal.ToggleEffect` | Sigrid/Rule1-3/shared.js_origineel.js:149-191 | a warning only when nothing is checked, and then no request and no change; otherwise one request per selected item, whatever the dialog answers; the list keeps its length |
| `InboxOriginal.DialogIgnored` | Sigrid/Rule1-3/shared.js_origineel.js:164-190 | the toggle's effect is the same whatever the dialog answers |
| `InboxOriginal.CancelledToggleStillMarks` | Sigrid/Rule1-3/shared.js_origineel.js:171-190 | one unread checked item and a cancelled dialog still give a mark-as-read request, and the item ends up read |
| `InboxOriginal.ConfirmedToggleAgrees` | Sigrid/Rule1-3/shared.js_origineel.js:158-190 | when confirmed, the original toggle has exactly the refactored toggle's effect |
| `InboxOriginal.EmptyToggleAgrees` | Sigrid/Rule1-3/shared.js_origineel.js:150-155 | nothing checked: both versions warn, send nothing and leave the list unchanged, whatever the dialog says |
| `InboxOriginal.InboxPage.constructor` | Sigrid/Rule1-3/shared.js_origineel.js:3 | descending by default, empty list |
| `InboxOriginal.InboxPage.FetchMessages` | Sigrid/Rule1-3/shared.js_origineel.js:28-49 | one fetch request; a received list is rendered sorted, and a failed fetch leaves the list unchanged |
| `InboxOriginal.InboxPage.RenderMessages` | Sigrid/Rule1-3/shared.js_origineel.js:55-102 | the items built inline equal the refactored `CreateMessageListItem`, one per sorted message |
| `InboxOriginal.InboxPage.MarkAsRead` | Sigrid/Rule1-3/shared.js_origineel.js:109-123 | one mark-as-read request; an ok answer marks that one item read |
| `InboxOriginal.InboxPage.MarkAsUnread` | Sigrid/Rule1-3/shared.js_origineel.js:130-144 | one mark-as-unread request; an ok answer marks that one item unread |
| `InboxOriginal.InboxPage.ClickLink` | Sigrid/Rule1-3/shared.js_origineel.js:98 | a link click marks its message read and opens its detail link |
| `InboxOriginal.InboxPage.SetChecked` | Sigrid/Rule1-3/shared.js_origineel.js:69-72 | ticking or clearing a checkbox changes only that item's checked state |
| `InboxOriginal.InboxPage.HandleToggleReadUnread` | Sigrid/Rule1-3/shared.js_origineel.js:149-191 | the warning, the requests and the new list are those of `InboxOriginal.ToggleEffect` |
| `InboxOriginal.InboxPage.MarkEach` | Sigrid/Rule1-3/shared.js_origineel.js:182-190 | one request per selected item in the chosen direction, and the answers applied in order |
| `InboxOriginal.InboxPage.HandleDeleteMessages` | Sigrid/Rule1-3/shared.js_origineel.js:197-227 | the warning, the requests and the new list are those of `InboxModel.DeleteEffect` |
| `InboxOriginal.InboxPage.ArchiveEach` | Sigrid/Rule1-3/shared.js_origineel.js:210-226 | one archive request per id to the folder's endpoint, and each ok answer removes that id's item |
| `InboxOriginal.InboxPage.ToggleSort` | Sigrid/Rule1-3/shared.js_origineel.js:229-232 | the flag flips and `/api/messages/receiver_get` is fetched |

## Left out

- DOM mechanics are not modelled: the subject heading, the `div`, the
  `target` and style of the link, and element identity. A list item is a
  value at a position in the list.
- Item positions: a response handler in the source holds a reference to
  its list item. The model holds the item's position. That is the same
  item as long as nothing else removes items while requests are pending.
- The date label: `Intl.DateTimeFormat` formatting is left out, because it
  only affects display.
- Date parsing: `new Date(...)` parsing is left out. Timestamps are
  integers, so the `NaN` comparator results of unparsable dates are not
  modelled.
- The network, `localStorage` and the access token are left out. Every
  answer is a parameter.
- `console.error`/`console.log` are left out, because they only log.
- Concurrency is left out. Answers are applied in the order the requests
  were sent. Other interleavings are not modelled, and neither are races
  between a stale fetch and a newer one.
- Dialogs: `Swal.fire` and `confirm` are a boolean. `alert` is the
  `warned` result.
- The folder selectors: the code that switches `selected` between them is
  not part of this model. `inboxSelected` is fixed when the page is made.
- `Array.prototype.sort`'s own algorithm is left out. `SortByDate`
  computes the only result a stable sort can give (see
  `InboxModel.SortedStableUnique`).
- InboxModel.MarkSelected: its own contract states only the length; which
  items are marked and how is stated by `InboxModel.MarkSelectedPointwise`,
  so that the handlers' proofs do not carry the quantified form.
- Message ids are strings, as checkbox values are.
- `User.java` is not part of this model. A user is a value. User equality
  is value equality, and `User.hashCode` is a function parameter.
- `String.hashCode` is a function parameter.
- `LocalDateTime.now()` is a parameter.
- `Message.toString` is left out, because it depends on the unmodelled
  `User.getUsername` and on date formatting.
- The getters of both message classes are field reads. In `ImmutableMessage`
  they are the datatype's field names.
- Spring annotations, `ResponseEntity` and the authorisation service are
  left out.
  - Authorisation is a parameter.
  - A refused token is the `Thrown` reply carrying the exception kind.
  - The response entity keeps only the status and the body.

## Findings

| source | as written | input that shows it | evidently intended | confidence | as-written member | corrected member |
|---|---|---|---|---|---|---|
| Sigrid/Rule4/Message_original.java:78 | `hashCode` folds in `subject` while `equals` ignores it | two messages equal in every field but `subject`, whose subjects have different string hashes | objects that are `equals` have the same hash code | not executed | `MessageEntity.EqualMessagesWithDifferentHashes` | `MessageEntity.EqualMessagesHashAlike` |
| Sigrid/Rule1-3/shared.js_origineel.js:182-190 | the mark loop runs straight after the dialog opens, outside its continuation | one unread item checked, dialog cancelled, request answered ok | cancelling the dialog changes nothing | not executed | `InboxOriginal.CancelledToggleStillMarks` | `InboxRefactor.CancelledToggleIsNoOp` |
