/**
 * The state and the rules shared by both versions of the inbox list
 * controller. The page's list is a sequence of items, each reduced to its
 * checkbox value (the message id), its class list, whether its checkbox is
 * checked, and the href of its link. Network and dialog results are inputs;
 * the requests a handler issues are returned in the order it issues them.
 */
module InboxModel {

  /** A message as the list endpoint returns it; `dateTime` is a timestamp. */
  datatype Message = Message(messageId: string, subject: string, dateTime: int, read: bool)

  /** A rendered list item. */
  datatype Item = Item(value: string, classes: set<string>, checked: bool, href: string)

  /**
   * The result of one mark or archive request: `response.ok` true or false,
   * a rejected promise, or no answer yet.
   */
  datatype Outcome = Ok | NotOk | Rejected | Pending

  /** The result of fetching the list. */
  datatype FetchResponse = Received(messages: seq<Message>) | NotOkStatus | FetchRejected

  /** A request the controller sends. */
  datatype Request =
    | Fetch(endpoint: string)
    | MarkRead(messageId: string)
    | MarkUnread(messageId: string)
    | Archive(endpoint: string, messageId: string)

  /** What a bulk handler does: warn about an empty selection, send requests, leave a list. */
  datatype Effect = Effect(warned: bool, requests: seq<Request>, items: seq<Item>)

  const MessageItemClass: string := "messageItem"
  const ReadClass: string := "read"
  const UnreadClass: string := "unread"
  const ReceiverEndpoint: string := "/api/messages/receiver_get"
  const ArchiveReceiverEndpoint: string := "/api/messages/archiveReceiver/"
  const ArchiveSenderEndpoint: string := "/api/messages/archiveSender/"
  const DetailsPage: string := "/messageDetails/messageDetails.html?messageId="
  const OriginParameter: string := "&origin="

  // ----- folder context -----

  /** The `origin` query parameter: `inbox` when the inbox selector is selected, else `outbox`. */
  function Origin(inboxSelected: bool): (r: string)
    ensures r == "inbox" <==> inboxSelected
    ensures r == "outbox" <==> !inboxSelected
  {
    if inboxSelected then "inbox" else "outbox"
  }

  /** The archive endpoint variant: receiver-side in the inbox, sender-side otherwise. */
  function ArchiveEndpoint(inboxSelected: bool): (r: string)
    ensures r == ArchiveReceiverEndpoint <==> inboxSelected
    ensures r == ArchiveSenderEndpoint <==> !inboxSelected
  {
    if inboxSelected then ArchiveReceiverEndpoint else ArchiveSenderEndpoint
  }

  /** The href of a message's link. */
  function Href(messageId: string, origin: string): (r: string)
    ensures |r| == |DetailsPage| + |messageId| + |OriginParameter| + |origin|
    ensures r[..|DetailsPage|] == DetailsPage
    ensures r[|DetailsPage|..|DetailsPage| + |messageId|] == messageId
    ensures r[|r| - |origin|..] == origin
  {
    DetailsPage + messageId + OriginParameter + origin
  }

  /** The link names the message and the folder unambiguously: equal links mean the same id and folder. */
  lemma HrefIdentifiesMessage(id1: string, inbox1: bool, id2: string, inbox2: bool)
    requires Href(id1, Origin(inbox1)) == Href(id2, Origin(inbox2))
    ensures id1 == id2 && inbox1 == inbox2
  {
    var h := Href(id1, Origin(inbox1));
    var n := |DetailsPage|;
    if inbox1 && !inbox2 {
      FoldersDiffer(id1, id2);
    } else if !inbox1 && inbox2 {
      FoldersDiffer(id2, id1);
    }
    assert |id1| == |id2|;
    assert h[n..n + |id1|] == id1;
    assert Href(id2, Origin(inbox2))[n..n + |id2|] == id2;
  }

  lemma FoldersDiffer(inboxId: string, outboxId: string)
    ensures Href(inboxId, "inbox") != Href(outboxId, "outbox")
  {
    var hi := Href(inboxId, "inbox");
    var ho := Href(outboxId, "outbox");
    assert hi[|hi| - 4] == 'n';
    assert ho[|ho| - 4] == 't';
  }

  // ----- sorting by date -----

  /** `a` may stand before `b`: the comparator does not put `b` strictly first. */
  predicate InOrder(a: Message, b: Message, descending: bool)
  {
    if descending then a.dateTime >= b.dateTime else a.dateTime <= b.dateTime
  }

  /**
   * `messages.sort` with the date comparator: the array is overwritten
   * with its contents sorted stably in the given direction.
   */
  method SortMessages(messages: array<Message>, descending: bool)
    modifies messages
    ensures messages[..] == SortByDate(old(messages[..]), descending)
  {
    var sorted := SortByDate(messages[..], descending);
    forall i | 0 <= i < messages.Length {
      messages[i] := sorted[i];
    }
  }

  /** Timestamps are non-increasing (descending) or non-decreasing (ascending) along the sequence. */
  predicate SortedByDate(ms: seq<Message>, descending: bool)
  {
    forall i, j :: 0 <= i < j < |ms| ==> InOrder(ms[i], ms[j], descending)
  }

  /** The messages with timestamp `t`, in their order in `ms`. */
  function WithDate(ms: seq<Message>, t: int): seq<Message>
  {
    if ms == [] then []
    else (if ms[0].dateTime == t then [ms[0]] else []) + WithDate(ms[1..], t)
  }

  /**
   * A sort is stable when, for every timestamp, the messages carrying it
   * keep their input order.
   */
  ghost predicate SameOrderPerDate(xs: seq<Message>, ys: seq<Message>)
  {
    forall t :: WithDate(xs, t) == WithDate(ys, t)
  }

  /** Insert `m` in front of the first message it may stand before. */
  function Insert(m: Message, ms: seq<Message>, descending: bool): (r: seq<Message>)
    ensures |r| == |ms| + 1
  {
    if ms == [] then [m]
    else if InOrder(m, ms[0], descending) then [m] + ms
    else [ms[0]] + Insert(m, ms[1..], descending)
  }

  /**
   * `messages.sort` with the date comparator of the flag's direction. The
   * engine's algorithm is not the source's; what the language guarantees
   * is the result of a stable sort, which this insertion sort computes.
   */
  function SortByDate(ms: seq<Message>, descending: bool): (r: seq<Message>)
    ensures |r| == |ms|
    ensures SortedByDate(r, descending)
    ensures multiset(r) == multiset(ms)
  {
    if ms == [] then []
    else
      var rest := SortByDate(ms[1..], descending);
      InsertSorted(ms[0], rest, descending);
      InsertPermutes(ms[0], rest, descending);
      assert ms == [ms[0]] + ms[1..];
      Insert(ms[0], rest, descending)
  }

  lemma {:induction false} InsertPermutes(m: Message, ms: seq<Message>, descending: bool)
    ensures multiset(Insert(m, ms, descending)) == multiset(ms) + multiset{m}
  {
    if ms != [] && !InOrder(m, ms[0], descending) {
      InsertPermutes(m, ms[1..], descending);
      assert ms == [ms[0]] + ms[1..];
    }
  }

  lemma {:induction false} InsertSorted(m: Message, ms: seq<Message>, descending: bool)
    requires SortedByDate(ms, descending)
    ensures SortedByDate(Insert(m, ms, descending), descending)
  {
    if ms != [] && !InOrder(m, ms[0], descending) {
      var rest := Insert(m, ms[1..], descending);
      InsertSorted(m, ms[1..], descending);
      InsertPermutes(m, ms[1..], descending);
      forall x | x in rest
        ensures InOrder(ms[0], x, descending)
      {
        assert x in multiset(rest);
        if x != m {
          assert x in multiset(ms[1..]);
          var j :| 0 <= j < |ms[1..]| && ms[1..][j] == x;
          assert ms[j + 1] == x;
        }
      }
      var r := [ms[0]] + rest;
      forall i, j | 0 <= i < j < |r|
        ensures InOrder(r[i], r[j], descending)
      {
        if i == 0 {
          assert r[j] == rest[j - 1];
          assert rest[j - 1] in rest;
        } else {
          assert r[i] == rest[i - 1] && r[j] == rest[j - 1];
        }
      }
    }
  }

  lemma {:induction false} InsertKeepsDateOrder(m: Message, ms: seq<Message>, descending: bool, t: int)
    ensures WithDate(Insert(m, ms, descending), t) == (if m.dateTime == t then [m] else []) + WithDate(ms, t)
  {
    if ms == [] {
      assert WithDate([m], t) == (if m.dateTime == t then [m] else []) + WithDate([], t);
    } else if InOrder(m, ms[0], descending) {
      assert ([m] + ms)[1..] == ms;
    } else {
      var rest := Insert(m, ms[1..], descending);
      InsertKeepsDateOrder(m, ms[1..], descending, t);
      var head := if ms[0].dateTime == t then [ms[0]] else [];
      var mine := if m.dateTime == t then [m] else [];
      assert ([ms[0]] + rest)[1..] == rest;
      assert WithDate([ms[0]] + rest, t) == head + WithDate(rest, t);
      assert WithDate(ms, t) == head + WithDate(ms[1..], t);
      // `m` goes after `ms[0]` only when their timestamps differ, so at most one of them has timestamp `t`
      assert ms[0].dateTime != m.dateTime;
      if head == [] {
        assert head + (mine + WithDate(ms[1..], t)) == mine + (head + WithDate(ms[1..], t));
      } else {
        assert mine == [];
      }
    }
  }

  /**
   * Sorting by date orders the timestamps in the flag's direction, keeps
   * every message (a permutation), and is stable.
   */
  lemma {:induction false} SortByDateCorrect(ms: seq<Message>, descending: bool)
    ensures SortedByDate(SortByDate(ms, descending), descending)
    ensures multiset(SortByDate(ms, descending)) == multiset(ms)
    ensures SameOrderPerDate(SortByDate(ms, descending), ms)
  {
    if ms != [] {
      var rest := SortByDate(ms[1..], descending);
      SortByDateCorrect(ms[1..], descending);
      forall t
        ensures WithDate(SortByDate(ms, descending), t) == WithDate(ms, t)
      {
        InsertKeepsDateOrder(ms[0], rest, descending, t);
      }
    }
  }

  /**
   * Sortedness and stability leave no choice: two sequences sorted in the
   * same direction with the same messages per timestamp are equal. So
   * SortByDate is the only result a stable sort may give.
   */
  lemma {:induction false} SortedStableUnique(xs: seq<Message>, ys: seq<Message>, descending: bool)
    requires SortedByDate(xs, descending) && SortedByDate(ys, descending)
    requires SameOrderPerDate(xs, ys)
    ensures xs == ys
  {
    if xs == [] || ys == [] {
      // a non-empty sequence holds a message with its own first timestamp
      assert xs != [] ==> WithDate(xs, xs[0].dateTime) != [];
      assert ys != [] ==> WithDate(ys, ys[0].dateTime) != [];
    } else {
      var t := xs[0].dateTime;
      var u := ys[0].dateTime;
      // the first timestamp of each is the extreme one, and both hold the same timestamps
      WithDateMember(ys, t);
      WithDateMember(xs, u);
      var i :| 0 <= i < |ys| && ys[i].dateTime == t;
      var j :| 0 <= j < |xs| && xs[j].dateTime == u;
      if i > 0 { assert InOrder(ys[0], ys[i], descending); }
      if j > 0 { assert InOrder(xs[0], xs[j], descending); }
      assert t == u;
      assert WithDate(xs, t)[0] == xs[0];
      assert WithDate(ys, t)[0] == ys[0];
      assert xs[0] == ys[0];
      forall s
        ensures WithDate(xs[1..], s) == WithDate(ys[1..], s)
      {
        var front := if xs[0].dateTime == s then [xs[0]] else [];
        assert WithDate(xs, s) == front + WithDate(xs[1..], s);
        assert WithDate(ys, s) == front + WithDate(ys[1..], s);
        assert WithDate(xs[1..], s) == (front + WithDate(xs[1..], s))[|front|..];
        assert WithDate(ys[1..], s) == (front + WithDate(ys[1..], s))[|front|..];
      }
      assert SortedByDate(xs[1..], descending) by {
        forall a, b | 0 <= a < b < |xs[1..]| ensures InOrder(xs[1..][a], xs[1..][b], descending) {
          assert xs[1..][a] == xs[a + 1] && xs[1..][b] == xs[b + 1];
        }
      }
      assert SortedByDate(ys[1..], descending) by {
        forall a, b | 0 <= a < b < |ys[1..]| ensures InOrder(ys[1..][a], ys[1..][b], descending) {
          assert ys[1..][a] == ys[a + 1] && ys[1..][b] == ys[b + 1];
        }
      }
      SortedStableUnique(xs[1..], ys[1..], descending);
      assert xs == [xs[0]] + xs[1..] && ys == [ys[0]] + ys[1..];
    }
  }

  /** Some message has timestamp `t` exactly when the messages with timestamp `t` are not none. */
  lemma {:induction false} WithDateMember(ms: seq<Message>, t: int)
    ensures WithDate(ms, t) != [] <==> exists i :: 0 <= i < |ms| && ms[i].dateTime == t
  {
    if ms != [] {
      WithDateMember(ms[1..], t);
      if ms[0].dateTime != t && exists i :: 0 <= i < |ms| && ms[i].dateTime == t {
        var i :| 0 <= i < |ms| && ms[i].dateTime == t;
        assert ms[1..][i - 1].dateTime == t;
      }
      if exists i :: 0 <= i < |ms[1..]| && ms[1..][i].dateTime == t {
        var i :| 0 <= i < |ms[1..]| && ms[1..][i].dateTime == t;
        assert ms[i + 1].dateTime == t;
      }
    }
  }

  /** The sequence read back to front. */
  function Reversed(ms: seq<Message>): (r: seq<Message>)
    ensures |r| == |ms|
    ensures forall i :: 0 <= i < |ms| ==> r[i] == ms[|ms| - 1 - i]
  {
    if ms == [] then [] else Reversed(ms[1..]) + [ms[0]]
  }

  /** No two messages share a timestamp. */
  predicate DistinctDates(ms: seq<Message>)
  {
    forall i, j :: 0 <= i < j < |ms| ==> ms[i].dateTime != ms[j].dateTime
  }

  lemma {:induction false} WithDateAppend(a: seq<Message>, b: seq<Message>, t: int)
    ensures WithDate(a + b, t) == WithDate(a, t) + WithDate(b, t)
  {
    if a != [] {
      WithDateAppend(a[1..], b, t);
      assert (a + b)[1..] == a[1..] + b;
      var front := if a[0].dateTime == t then [a[0]] else [];
      assert WithDate(a + b, t) == front + WithDate(a[1..] + b, t);
      assert WithDate(a, t) == front + WithDate(a[1..], t);
      assert front + (WithDate(a[1..], t) + WithDate(b, t)) == (front + WithDate(a[1..], t)) + WithDate(b, t);
    } else {
      assert a + b == b;
    }
  }

  lemma {:induction false} WithDateOfReversed(ms: seq<Message>, t: int)
    ensures WithDate(Reversed(ms), t) == Reversed(WithDate(ms, t))
  {
    if ms != [] {
      WithDateOfReversed(ms[1..], t);
      WithDateAppend(Reversed(ms[1..]), [ms[0]], t);
      var front := if ms[0].dateTime == t then [ms[0]] else [];
      var w := front + WithDate(ms[1..], t);
      if front != [] {
        assert w[1..] == WithDate(ms[1..], t);
      } else {
        assert w == WithDate(ms[1..], t);
      }
    }
  }

  lemma {:induction false} DistinctDatesAtMostOne(ms: seq<Message>, t: int)
    requires DistinctDates(ms)
    ensures |WithDate(ms, t)| <= 1
  {
    if ms != [] {
      assert DistinctDates(ms[1..]) by {
        forall i, j | 0 <= i < j < |ms[1..]| ensures ms[1..][i].dateTime != ms[1..][j].dateTime {
          assert ms[1..][i] == ms[i + 1] && ms[1..][j] == ms[j + 1];
        }
      }
      DistinctDatesAtMostOne(ms[1..], t);
      if ms[0].dateTime == t {
        WithDateMember(ms[1..], t);
      }
    }
  }

  /**
   * With pairwise distinct timestamps, flipping the direction reverses the
   * rendered order: the ascending sort is the descending sort read backwards.
   */
  lemma FlippingTheFlagReverses(ms: seq<Message>)
    requires DistinctDates(ms)
    ensures SortByDate(ms, false) == Reversed(SortByDate(ms, true))
  {
    var down := SortByDate(ms, true);
    var up := SortByDate(ms, false);
    SortByDateCorrect(ms, true);
    SortByDateCorrect(ms, false);
    var back := Reversed(down);
    assert SortedByDate(back, false) by {
      forall i, j | 0 <= i < j < |back| ensures InOrder(back[i], back[j], false) {
        assert InOrder(down[|down| - 1 - j], down[|down| - 1 - i], true);
      }
    }
    forall t
      ensures WithDate(back, t) == WithDate(up, t)
    {
      WithDateOfReversed(down, t);
      DistinctDatesAtMostOne(ms, t);
      var w := WithDate(down, t);
      assert w == WithDate(ms, t);
      if |w| == 1 {
        assert Reversed(w) == w;
      }
    }
    SortedStableUnique(back, up, false);
  }

  // ----- list items -----

  /** The list item's read/unread classes are mutually exclusive and one of them is present. */
  predicate WellFormed(it: Item)
  {
    (ReadClass in it.classes) != (UnreadClass in it.classes)
  }

  /** `isMessageUnread`: the item carries the `unread` class. */
  predicate IsUnread(it: Item)
  {
    UnreadClass in it.classes
  }

  /** On a well-formed item, unread means exactly not read. */
  lemma UnreadIffNotRead(it: Item)
    requires WellFormed(it)
    ensures IsUnread(it) <==> ReadClass !in it.classes
  {
  }

  /**
   * `createMessageListItem`: the checkbox value is the message id, the class
   * is `read` exactly when the message is read and `unread` otherwise, the
   * checkbox starts unchecked, and the link opens the message's detail page.
   */
  function CreateMessageListItem(m: Message, origin: string): (it: Item)
    ensures it.value == m.messageId && !it.checked
    ensures MessageItemClass in it.classes
    ensures ReadClass in it.classes <==> m.read
    ensures UnreadClass in it.classes <==> !m.read
    ensures WellFormed(it)
    ensures it.href == Href(m.messageId, origin)
  {
    Item(m.messageId, {MessageItemClass, if m.read then ReadClass else UnreadClass}, false, Href(m.messageId, origin))
  }

  /** The list after rendering `ms`: one item per message, in the same order. */
  function Rendered(ms: seq<Message>, origin: string): (r: seq<Item>)
    ensures |r| == |ms|
    ensures forall i :: 0 <= i < |ms| ==> r[i] == CreateMessageListItem(ms[i], origin)
  {
    if ms == [] then [] else Rendered(ms[..|ms| - 1], origin) + [CreateMessageListItem(ms[|ms| - 1], origin)]
  }

  /**
   * What a render of the fetched messages leaves: the items correspond one to
   * one to the messages sorted stably by date in the flag's direction.
   */
  lemma RenderedInDateOrder(ms: seq<Message>, descending: bool, origin: string)
    ensures var sorted := SortByDate(ms, descending);
      && SortedByDate(sorted, descending)
      && multiset(sorted) == multiset(ms)
      && SameOrderPerDate(sorted, ms)
      && |Rendered(sorted, origin)| == |ms|
      && forall i :: 0 <= i < |ms| ==>
           var it := Rendered(sorted, origin)[i];
           && it.value == sorted[i].messageId
           && (ReadClass in it.classes <==> sorted[i].read)
           && (UnreadClass in it.classes <==> !sorted[i].read)
           && !it.checked
           && it.href == Href(sorted[i].messageId, origin)
  {
    SortByDateCorrect(ms, descending);
  }

  /**
   * Two messages of January and February 2024, fetched with the descending
   * flag set, render February first; February's item is read and January's
   * unread.
   */
  lemma RenderNewestFirstExample()
    ensures var ms := [Message("1", "A", 1704103200, false), Message("2", "B", 1706781600, true)];
      var r := Rendered(SortByDate(ms, true), Origin(true));
      && |r| == 2
      && r[0].value == "2" && ReadClass in r[0].classes && UnreadClass !in r[0].classes
      && r[1].value == "1" && UnreadClass in r[1].classes && ReadClass !in r[1].classes
  {
    var ms := [Message("1", "A", 1704103200, false), Message("2", "B", 1706781600, true)];
    assert ms[1..][1..] == [];
    assert SortByDate(ms, true) == [ms[1], ms[0]];
  }

  // ----- marking read and unread -----

  /** The item after a successful mark-as-read: `unread` removed, `read` added, nothing else changed. */
  function MarkedRead(it: Item): (r: Item)
    ensures ReadClass in r.classes && UnreadClass !in r.classes
    ensures forall c :: c != ReadClass && c != UnreadClass ==> (c in r.classes <==> c in it.classes)
    ensures r.value == it.value && r.checked == it.checked && r.href == it.href
  {
    it.(classes := it.classes - {UnreadClass} + {ReadClass})
  }

  /** The item after a successful mark-as-unread: `read` removed, `unread` added, nothing else changed. */
  function MarkedUnread(it: Item): (r: Item)
    ensures UnreadClass in r.classes && ReadClass !in r.classes
    ensures forall c :: c != ReadClass && c != UnreadClass ==> (c in r.classes <==> c in it.classes)
    ensures r.value == it.value && r.checked == it.checked && r.href == it.href
  {
    it.(classes := it.classes - {ReadClass} + {UnreadClass})
  }

  function Marked(it: Item, toRead: bool): Item
  {
    if toRead then MarkedRead(it) else MarkedUnread(it)
  }

  /** Mark-as-unread undoes mark-as-read on an unread item, and the other way round. */
  lemma MarksAreInverse(it: Item)
    requires WellFormed(it)
    ensures IsUnread(it) ==> MarkedUnread(MarkedRead(it)) == it
    ensures !IsUnread(it) ==> MarkedRead(MarkedUnread(it)) == it
  {
    if IsUnread(it) {
      assert MarkedUnread(MarkedRead(it)).classes == it.classes;
    } else {
      assert MarkedRead(MarkedUnread(it)).classes == it.classes;
    }
  }

  /** A successful mark turns `{messageItem, unread}` into `{messageItem, read}` and back. */
  lemma MarkClassSets(value: string, checked: bool, href: string)
    ensures MarkedRead(Item(value, {MessageItemClass, UnreadClass}, checked, href)).classes == {MessageItemClass, ReadClass}
    ensures MarkedUnread(Item(value, {MessageItemClass, ReadClass}, checked, href)).classes == {MessageItemClass, UnreadClass}
  {
  }

  // ----- the selection -----

  /** `getSelectedMessages`: the positions of the checked items, in document order. */
  function Selected(items: seq<Item>): (sel: seq<nat>)
    ensures forall k :: 0 <= k < |sel| ==> sel[k] < |items| && items[sel[k]].checked
    ensures forall k, l :: 0 <= k < l < |sel| ==> sel[k] < sel[l]
    ensures forall i :: 0 <= i < |items| && items[i].checked ==> i in sel
  {
    if items == [] then []
    else
      var n := |items| - 1;
      var prior := Selected(items[..n]);
      assert forall i :: 0 <= i < n ==> items[..n][i] == items[i];
      prior + (if items[n].checked then [n] else [])
  }

  /** With no checkbox checked the selection is empty. */
  lemma {:induction false} NothingChecked(items: seq<Item>)
    requires forall i :: 0 <= i < |items| ==> !items[i].checked
    ensures Selected(items) == []
  {
    if items != [] {
      var n := |items| - 1;
      assert forall i :: 0 <= i < n ==> items[..n][i] == items[i];
      NothingChecked(items[..n]);
    }
  }

  /** Positions into `items`, strictly increasing: a selection. */
  predicate IsSelection(items: seq<Item>, sel: seq<nat>)
  {
    && (forall k :: 0 <= k < |sel| ==> sel[k] < |items|)
    && (forall k, l :: 0 <= k < l < |sel| ==> sel[k] < sel[l])
  }

  /** The checkbox values at the selected positions. */
  function IdsAt(items: seq<Item>, sel: seq<nat>): (ids: seq<string>)
    requires forall k :: 0 <= k < |sel| ==> sel[k] < |items|
    ensures |ids| == |sel|
  {
    seq(|sel|, k requires 0 <= k < |sel| => items[sel[k]].value)
  }

  /** The selection is empty exactly when no checkbox is checked. */
  lemma SelectionEmptyIff(items: seq<Item>)
    ensures Selected(items) == [] <==> forall i :: 0 <= i < |items| ==> !items[i].checked
  {
    var sel := Selected(items);
    if sel != [] {
      assert items[sel[0]].checked;
    }
  }

  /** Every checked item's id is among the ids of the selection. */
  lemma CheckedIdsSelected(items: seq<Item>)
    ensures forall i :: 0 <= i < |items| && items[i].checked ==> items[i].value in IdsAt(items, Selected(items))
  {
    var sel := Selected(items);
    var ids := IdsAt(items, sel);
    forall i | 0 <= i < |items| && items[i].checked
      ensures items[i].value in ids
    {
      var k :| 0 <= k < |sel| && sel[k] == i;
      assert ids[k] == items[i].value;
    }
  }

  /** `getSelectedMessages().map(checkbox => checkbox.value)`. */
  function SelectedIds(items: seq<Item>): (ids: seq<string>)
    ensures |ids| == |Selected(items)|
    ensures forall i :: 0 <= i < |items| && items[i].checked ==> items[i].value in ids
  {
    CheckedIdsSelected(items);
    IdsAt(items, Selected(items))
  }

  /** `selectedMessages.some(isMessageUnread)`. */
  predicate AnyUnread(items: seq<Item>, sel: seq<nat>)
  {
    exists k :: 0 <= k < |sel| && sel[k] < |items| && IsUnread(items[sel[k]])
  }

  /** The outcome of the `k`-th request; a request that has had no answer is pending. */
  function OutcomeAt(outcomes: seq<Outcome>, k: nat): Outcome
  {
    if k < |outcomes| then outcomes[k] else Pending
  }

  predicate Succeeded(outcomes: seq<Outcome>, k: nat)
  {
    OutcomeAt(outcomes, k) == Ok
  }

  // ----- bulk toggle -----

  /** One mark request per id, all in the same direction. */
  function MarkRequests(ids: seq<string>, toRead: bool): (rs: seq<Request>)
    ensures |rs| == |ids|
    ensures forall k :: 0 <= k < |ids| ==> rs[k] == if toRead then MarkRead(ids[k]) else MarkUnread(ids[k])
  {
    seq(|ids|, k requires 0 <= k < |ids| => if toRead then MarkRead(ids[k]) else MarkUnread(ids[k]))
  }

  /** The list after the answers to the mark requests for `sel` were applied in order. */
  function MarkSelected(items: seq<Item>, sel: seq<nat>, toRead: bool, outcomes: seq<Outcome>): (r: seq<Item>)
    requires forall k :: 0 <= k < |sel| ==> sel[k] < |items|
    ensures |r| == |items|
    decreases |sel|
  {
    if sel == [] then items
    else
      var k := |sel| - 1;
      var prior := MarkSelected(items, sel[..k], toRead, outcomes);
      if Succeeded(outcomes, k) then prior[sel[k] := Marked(prior[sel[k]], toRead)] else prior
  }

  /**
   * A bulk mark touches only the selected items: a selected item whose
   * request succeeded is marked in the one direction, every other item is
   * unchanged.
   */
  lemma {:induction false} MarkSelectedPointwise(items: seq<Item>, sel: seq<nat>, toRead: bool, outcomes: seq<Outcome>)
    requires IsSelection(items, sel)
    ensures var r := MarkSelected(items, sel, toRead, outcomes);
      && (forall k :: 0 <= k < |sel| ==>
            r[sel[k]] == if Succeeded(outcomes, k) then Marked(items[sel[k]], toRead) else items[sel[k]])
      && (forall i :: 0 <= i < |items| && i !in sel ==> r[i] == items[i])
  {
    if sel != [] {
      var k := |sel| - 1;
      var prefix := sel[..k];
      MarkSelectedPointwise(items, prefix, toRead, outcomes);
      var r := MarkSelected(items, sel, toRead, outcomes);
      forall l | 0 <= l < k
        ensures r[sel[l]] == if Succeeded(outcomes, l) then Marked(items[sel[l]], toRead) else items[sel[l]]
      {
        assert prefix[l] == sel[l] && sel[l] != sel[k];
      }
      assert sel[k] !in prefix;
      forall i | 0 <= i < |items| && i !in sel
        ensures r[i] == items[i]
      {
        assert i !in prefix;
      }
    }
  }

  /** A bulk mark keeps every item's read/unread classes mutually exclusive. */
  lemma MarkSelectedWellFormed(items: seq<Item>, sel: seq<nat>, toRead: bool, outcomes: seq<Outcome>)
    requires IsSelection(items, sel)
    requires forall i :: 0 <= i < |items| ==> WellFormed(items[i])
    ensures var r := MarkSelected(items, sel, toRead, outcomes);
      forall i :: 0 <= i < |r| ==> WellFormed(r[i])
  {
    MarkSelectedPointwise(items, sel, toRead, outcomes);
    var r := MarkSelected(items, sel, toRead, outcomes);
    forall i | 0 <= i < |r|
      ensures WellFormed(r[i])
    {
      if i in sel {
        var k :| 0 <= k < |sel| && sel[k] == i;
      }
    }
  }

  // ----- archive -----

  /** The position of the first item whose checkbox value is `id`, or -1. */
  function FindItem(items: seq<Item>, id: string): (r: int)
    ensures -1 <= r < |items|
    ensures r >= 0 ==> items[r].value == id && forall j :: 0 <= j < r ==> items[j].value != id
    ensures r < 0 ==> forall j :: 0 <= j < |items| ==> items[j].value != id
  {
    if items == [] then -1
    else if items[0].value == id then 0
    else
      var j := FindItem(items[1..], id);
      if j < 0 then -1 else j + 1
  }

  /**
   * `removeMessageFromList`: the first item whose checkbox value is `id` is
   * removed; when there is none, the lookup yields null, the call throws,
   * the error is caught and logged, and the list stays as it was.
   */
  function RemoveFirst(items: seq<Item>, id: string): (r: seq<Item>)
    ensures (forall j :: 0 <= j < |items| ==> items[j].value != id) ==> r == items
    ensures (exists j :: 0 <= j < |items| && items[j].value == id) ==> |r| == |items| - 1
  {
    var j := FindItem(items, id);
    if j < 0 then items else items[..j] + items[j + 1..]
  }

  /** What is removed is the first match, and the rest keeps its order. */
  lemma RemoveFirstRemovesFirstMatch(items: seq<Item>, id: string, j: nat)
    requires j < |items| && items[j].value == id
    requires forall i :: 0 <= i < j ==> items[i].value != id
    ensures RemoveFirst(items, id) == items[..j] + items[j + 1..]
  {
    var f := FindItem(items, id);
    assert f == j;
  }

  /** The list after the answers to archive requests for `ids` were applied in order. */
  function ArchiveAll(items: seq<Item>, ids: seq<string>, outcomes: seq<Outcome>): (r: seq<Item>)
    ensures |r| <= |items|
    ensures (forall k :: 0 <= k < |ids| ==> !Succeeded(outcomes, k)) ==> r == items
    decreases |ids|
  {
    if ids == [] then items
    else
      var k := |ids| - 1;
      var prior := ArchiveAll(items, ids[..k], outcomes);
      if Succeeded(outcomes, k) then RemoveFirst(prior, ids[k]) else prior
  }

  /** One archive request per id, all to the same endpoint. */
  function ArchiveRequests(endpoint: string, ids: seq<string>): (rs: seq<Request>)
    ensures |rs| == |ids|
    ensures forall k :: 0 <= k < |ids| ==> rs[k] == Archive(endpoint, ids[k])
  {
    seq(|ids|, k requires 0 <= k < |ids| => Archive(endpoint, ids[k]))
  }

  /** Removing the first match takes away one copy of a matching item and nothing else. */
  lemma RemoveFirstMultiset(items: seq<Item>, id: string)
    ensures multiset(RemoveFirst(items, id)) <= multiset(items)
    ensures forall it: Item :: it.value != id ==> multiset(RemoveFirst(items, id))[it] == multiset(items)[it]
  {
    var j := FindItem(items, id);
    if j >= 0 {
      assert items == items[..j] + [items[j]] + items[j + 1..];
    }
  }

  /** Removing an item keeps every remaining item's read/unread classes exclusive. */
  lemma RemoveFirstWellFormed(items: seq<Item>, id: string)
    requires forall i :: 0 <= i < |items| ==> WellFormed(items[i])
    ensures var r := RemoveFirst(items, id);
      forall i :: 0 <= i < |r| ==> WellFormed(r[i])
  {
    var r := RemoveFirst(items, id);
    RemoveFirstMultiset(items, id);
    forall i | 0 <= i < |r|
      ensures WellFormed(r[i])
    {
      assert r[i] in multiset(items);
    }
  }

  /**
   * Archiving removes only items whose ids were archived: an item whose id
   * is not among them stays, as many times as it was there.
   */
  lemma {:induction false} ArchiveKeepsOthers(items: seq<Item>, ids: seq<string>, outcomes: seq<Outcome>)
    ensures multiset(ArchiveAll(items, ids, outcomes)) <= multiset(items)
    ensures forall it: Item :: it.value !in ids ==> multiset(ArchiveAll(items, ids, outcomes))[it] == multiset(items)[it]
  {
    if ids != [] {
      var k := |ids| - 1;
      ArchiveKeepsOthers(items, ids[..k], outcomes);
      var prior := ArchiveAll(items, ids[..k], outcomes);
      RemoveFirstMultiset(prior, ids[k]);
      forall it: Item | it.value !in ids
        ensures multiset(ArchiveAll(items, ids, outcomes))[it] == multiset(items)[it]
      {
        assert it.value !in ids[..k];
      }
    }
  }

  /** The items whose checkbox is not checked, in order. */
  function Unchecked(items: seq<Item>): (r: seq<Item>)
    ensures forall x :: x in r ==> x in items && !x.checked
  {
    if items == [] then []
    else
      var n := |items| - 1;
      Unchecked(items[..n]) + (if items[n].checked then [] else [items[n]])
  }

  /** One item per message: no two items carry the same checkbox value. */
  predicate UniqueValues(items: seq<Item>)
  {
    forall i, j :: 0 <= i < j < |items| ==> items[i].value != items[j].value
  }

  lemma SelectedSnoc(p: seq<Item>, x: Item)
    ensures Selected(p + [x]) == Selected(p) + (if x.checked then [|p|] else [])
  {
    assert (p + [x])[..|p|] == p;
  }

  lemma SelectedIdsSnoc(p: seq<Item>, x: Item)
    ensures SelectedIds(p + [x]) == SelectedIds(p) + (if x.checked then [x.value] else [])
  {
    var items := p + [x];
    var sp := Selected(p);
    var s := Selected(items);
    SelectedSnoc(p, x);
    var lhs := SelectedIds(items);
    var rhs := SelectedIds(p) + (if x.checked then [x.value] else []);
    assert |lhs| == |rhs|;
    forall k | 0 <= k < |lhs|
      ensures lhs[k] == rhs[k]
    {
      if k < |sp| {
        assert s[k] == sp[k];
        assert items[sp[k]] == p[sp[k]];
      }
    }
  }

  /** Every id the delete handler sends is the id of a checked item. */
  lemma SelectedIdsAreValues(p: seq<Item>, id: string)
    requires id in SelectedIds(p)
    ensures exists i :: 0 <= i < |p| && p[i].checked && p[i].value == id
  {
    var sp := Selected(p);
    var k :| 0 <= k < |sp| && SelectedIds(p)[k] == id;
    assert p[sp[k]].value == id;
  }

  lemma RemoveFirstSnoc(q: seq<Item>, x: Item, id: string)
    requires x.value != id
    ensures RemoveFirst(q + [x], id) == RemoveFirst(q, id) + [x]
  {
    var j := FindItem(q, id);
    var qx := q + [x];
    if j >= 0 {
      RemoveFirstRemovesFirstMatch(qx, id, j);
      RemoveFirstRemovesFirstMatch(q, id, j);
      assert qx[..j] == q[..j];
      assert qx[j + 1..] == q[j + 1..] + [x];
    } else {
      assert forall i :: 0 <= i < |qx| ==> qx[i].value != id;
    }
  }

  lemma {:induction false} ArchiveAllSnoc(q: seq<Item>, x: Item, ids: seq<string>, outcomes: seq<Outcome>)
    requires x.value !in ids
    ensures ArchiveAll(q + [x], ids, outcomes) == ArchiveAll(q, ids, outcomes) + [x]
  {
    if ids != [] {
      var k := |ids| - 1;
      assert x.value !in ids[..k];
      ArchiveAllSnoc(q, x, ids[..k], outcomes);
      if Succeeded(outcomes, k) {
        RemoveFirstSnoc(ArchiveAll(q, ids[..k], outcomes), x, ids[k]);
      }
    }
  }

  /** Archiving the value of an appended item that no other item carries takes exactly that item away. */
  lemma RemoveAppended(kept: seq<Item>, x: Item)
    requires forall j :: 0 <= j < |kept| ==> kept[j].value != x.value
    ensures RemoveFirst(kept + [x], x.value) == kept
  {
    var items := kept + [x];
    RemoveFirstRemovesFirstMatch(items, x.value, |kept|);
    assert items[..|kept|] == kept;
  }

  /** No unchecked item of a unique list shares its value with a later item. */
  lemma UncheckedValuesDiffer(p: seq<Item>, x: Item)
    requires UniqueValues(p + [x])
    ensures forall j :: 0 <= j < |Unchecked(p)| ==> Unchecked(p)[j].value != x.value
  {
    var kept := Unchecked(p);
    var items := p + [x];
    forall j | 0 <= j < |kept|
      ensures kept[j].value != x.value
    {
      assert kept[j] in kept;
      var i :| 0 <= i < |p| && p[i] == kept[j];
      assert items[i].value != items[|p|].value;
    }
  }

  lemma UniqueSnoc(p: seq<Item>, x: Item)
    requires UniqueValues(p + [x])
    ensures UniqueValues(p)
    ensures forall i :: 0 <= i < |p| ==> p[i].value != x.value
  {
    var items := p + [x];
    forall i | 0 <= i < |p|
      ensures p[i].value != x.value
    {
      assert items[i] == p[i] && items[|p|] == x;
    }
    forall i, j | 0 <= i < j < |p|
      ensures p[i].value != p[j].value
    {
      assert items[i] == p[i] && items[j] == p[j];
    }
  }

  /**
   * Deleting the selection with every archive request answered ok, on a list
   * with one item per message, leaves exactly the unchecked items, in order.
   */
  lemma {:induction false} ArchiveSelectedLeavesUnchecked(items: seq<Item>, outcomes: seq<Outcome>)
    requires UniqueValues(items)
    requires forall k :: 0 <= k < |SelectedIds(items)| ==> Succeeded(outcomes, k)
    ensures ArchiveAll(items, SelectedIds(items), outcomes) == Unchecked(items)
  {
    if items != [] {
      var n := |items| - 1;
      var p, x := items[..n], items[n];
      assert items == p + [x];
      SelectedIdsSnoc(p, x);
      var idsP := SelectedIds(p);
      UniqueSnoc(p, x);
      ArchiveSelectedLeavesUnchecked(p, outcomes);
      if x.value in idsP {
        SelectedIdsAreValues(p, x.value);
      }
      ArchiveAllSnoc(p, x, idsP, outcomes);
      var kept := Unchecked(p);
      assert ArchiveAll(items, idsP, outcomes) == kept + [x];
      assert Unchecked(items) == kept + (if x.checked then [] else [x]);
      if x.checked {
        var ids := idsP + [x.value];
        assert SelectedIds(items) == ids;
        assert ids[..|idsP|] == idsP;
        assert Succeeded(outcomes, |idsP|);
        UncheckedValuesDiffer(p, x);
        RemoveAppended(kept, x);
        assert ArchiveAll(items, ids, outcomes) == RemoveFirst(kept + [x], x.value);
      } else {
        assert SelectedIds(items) == idsP;
      }
    }
  }

  // ----- delete -----

  /**
   * Delete, the same in both versions: with nothing checked it warns and does
   * nothing; when the dialog is declined it does nothing; otherwise it sends
   * one archive request per selected id to the folder's endpoint and applies
   * the answers in order.
   */
  function DeleteEffect(items: seq<Item>, inboxSelected: bool, confirmed: bool, outcomes: seq<Outcome>): (e: Effect)
    ensures e.warned ==> forall i :: 0 <= i < |items| ==> !items[i].checked
    ensures e.warned || !confirmed ==> e.requests == [] && e.items == items
    ensures |e.requests| == (if confirmed then |Selected(items)| else 0)
    ensures multiset(e.items) <= multiset(items)
  {
    SelectionEmptyIff(items);
    var ids := SelectedIds(items);
    ArchiveKeepsOthers(items, ids, outcomes);
    if ids == [] then Effect(true, [], items)
    else if !confirmed then Effect(false, [], items)
    else Effect(false, ArchiveRequests(ArchiveEndpoint(inboxSelected), ids), ArchiveAll(items, ids, outcomes))
  }

  /** Delete with nothing checked warns, sends nothing and changes nothing, whatever the dialog would say. */
  lemma EmptyDeleteIsNoOp(items: seq<Item>, inboxSelected: bool, confirmed: bool, outcomes: seq<Outcome>)
    requires forall i :: 0 <= i < |items| ==> !items[i].checked
    ensures DeleteEffect(items, inboxSelected, confirmed, outcomes) == Effect(true, [], items)
  {
    NothingChecked(items);
  }

  /** A declined delete sends nothing and changes nothing. */
  lemma DeclinedDeleteIsNoOp(items: seq<Item>, inboxSelected: bool, outcomes: seq<Outcome>)
    ensures DeleteEffect(items, inboxSelected, false, outcomes).requests == []
    ensures DeleteEffect(items, inboxSelected, false, outcomes).items == items
  {
  }

  /**
   * A confirmed delete sends exactly one archive request per checked item,
   * in document order, to the receiver-side endpoint in the inbox and the
   * sender-side endpoint otherwise.
   */
  lemma DeleteRequests(items: seq<Item>, inboxSelected: bool, outcomes: seq<Outcome>)
    requires Selected(items) != []
    ensures var e := DeleteEffect(items, inboxSelected, true, outcomes);
      var sel := Selected(items);
      && !e.warned
      && |e.requests| == |sel|
      && forall k :: 0 <= k < |sel| ==>
           e.requests[k] == Archive(if inboxSelected then ArchiveReceiverEndpoint else ArchiveSenderEndpoint,
                                    items[sel[k]].value)
  {
  }
}
