/**
 * The refactored inbox list controller: the module-level sort flag, the
 * folder context and the rendered list become the fields of one page
 * object, and each handler becomes a method that changes them. A handler's
 * network answers and its dialog result are parameters: the answers are
 * applied in the order the requests were sent.
 */
module InboxRefactor {
  import opened InboxModel

  /**
   * The bulk toggle: with nothing checked it warns and does nothing; when
   * the dialog is cancelled it does nothing; otherwise it marks every
   * selected item read if any of them is unread, and unread otherwise.
   */
  function ToggleEffect(items: seq<Item>, confirmed: bool, outcomes: seq<Outcome>): (e: Effect)
    ensures e.warned ==> forall i :: 0 <= i < |items| ==> !items[i].checked
    ensures e.warned || !confirmed ==> e.requests == [] && e.items == items
    ensures |e.requests| == (if confirmed then |Selected(items)| else 0)
    ensures |e.items| == |items|
  {
    SelectionEmptyIff(items);
    var sel := Selected(items);
    if sel == [] then Effect(true, [], items)
    else if !confirmed then Effect(false, [], items)
    else
      var toRead := AnyUnread(items, sel);
      Effect(false, MarkRequests(IdsAt(items, sel), toRead), MarkSelected(items, sel, toRead, outcomes))
  }

  /** Cancelling the dialog sends no mark request and leaves every item as it was. */
  lemma CancelledToggleIsNoOp(items: seq<Item>, outcomes: seq<Outcome>)
    ensures ToggleEffect(items, false, outcomes).requests == []
    ensures ToggleEffect(items, false, outcomes).items == items
    ensures ToggleEffect(items, false, outcomes).warned <==> Selected(items) == []
  {
  }

  /** Toggle with nothing checked warns, sends nothing and changes nothing, whatever the dialog would say. */
  lemma EmptyToggleIsNoOp(items: seq<Item>, confirmed: bool, outcomes: seq<Outcome>)
    requires forall i :: 0 <= i < |items| ==> !items[i].checked
    ensures ToggleEffect(items, confirmed, outcomes) == Effect(true, [], items)
  {
    NothingChecked(items);
  }

  /**
   * A confirmed toggle picks one direction for the whole selection: every
   * checked item gets a mark-as-read request if some checked item is
   * unread, and a mark-as-unread request otherwise. An item whose request
   * succeeded ends in that state; every other item is unchanged; and the
   * read/unread classes stay mutually exclusive.
   */
  lemma ConfirmedToggle(items: seq<Item>, outcomes: seq<Outcome>)
    requires Selected(items) != []
    requires forall i :: 0 <= i < |items| ==> WellFormed(items[i])
    ensures var e := ToggleEffect(items, true, outcomes);
      var sel := Selected(items);
      var toRead := exists i :: 0 <= i < |items| && items[i].checked && IsUnread(items[i]);
      && !e.warned
      && |e.requests| == |sel|
      && (forall k :: 0 <= k < |sel| ==>
            e.requests[k] == if toRead then MarkRead(items[sel[k]].value) else MarkUnread(items[sel[k]].value))
      && (forall k :: 0 <= k < |sel| && Succeeded(outcomes, k) ==>
            IsUnread(e.items[sel[k]]) != toRead && e.items[sel[k]].value == items[sel[k]].value)
      && (forall i :: 0 <= i < |items| && !items[i].checked ==> e.items[i] == items[i])
      && (forall i :: 0 <= i < |items| ==> WellFormed(e.items[i]))
  {
    var sel := Selected(items);
    var toRead := AnyUnread(items, sel);
    assert toRead <==> exists i :: 0 <= i < |items| && items[i].checked && IsUnread(items[i]) by {
      if exists i :: 0 <= i < |items| && items[i].checked && IsUnread(items[i]) {
        var i :| 0 <= i < |items| && items[i].checked && IsUnread(items[i]);
        var k :| 0 <= k < |sel| && sel[k] == i;
        assert sel[k] < |items| && IsUnread(items[sel[k]]);
      }
    }
    var e := ToggleEffect(items, true, outcomes);
    assert e == Effect(false, MarkRequests(IdsAt(items, sel), toRead), MarkSelected(items, sel, toRead, outcomes));
    MarkSelectedPointwise(items, sel, toRead, outcomes);
    MarkSelectedWellFormed(items, sel, toRead, outcomes);
  }

  /**
   * The user checks item "1" (unread) and item "2" (read) and confirms:
   * both get a mark-as-read request, although "2" is already read.
   */
  lemma ToggleMixedSelectionExample(h1: string, h2: string)
    ensures var items := [Item("1", {MessageItemClass, UnreadClass}, true, h1),
                          Item("2", {MessageItemClass, ReadClass}, true, h2)];
      ToggleEffect(items, true, [Ok, Ok]).requests == [MarkRead("1"), MarkRead("2")]
  {
    var items := [Item("1", {MessageItemClass, UnreadClass}, true, h1),
                  Item("2", {MessageItemClass, ReadClass}, true, h2)];
    assert items[..1][..0] == [];
    assert Selected(items[..1]) == [0];
    assert Selected(items) == [0, 1];
    assert IsUnread(items[0]);
  }

  class InboxPage {
    /** The sort direction flag, descending by default. */
    var isSortedDescending: bool
    /** Whether the inbox selector carries the `selected` marker. */
    var inboxSelected: bool
    /** The rendered list, in document order. */
    var items: seq<Item>

    /** Every item carries exactly one of `read` and `unread`. */
    predicate Valid()
      reads this
    {
      forall i :: 0 <= i < |items| ==> WellFormed(items[i])
    }

    constructor (inboxSelected: bool)
      ensures isSortedDescending && this.inboxSelected == inboxSelected && items == []
      ensures Valid()
    {
      isSortedDescending := true;
      this.inboxSelected := inboxSelected;
      items := [];
    }

    /**
     * `fetchMessages`: one request to `endpoint`; a received list is
     * rendered, and a failed status or a rejected fetch leaves the list as
     * it was.
     */
    method FetchMessages(endpoint: string, response: FetchResponse) returns (request: Request)
      requires Valid()
      modifies this
      ensures Valid()
      ensures request == Fetch(endpoint)
      ensures isSortedDescending == old(isSortedDescending) && inboxSelected == old(inboxSelected)
      ensures response.Received? ==>
        items == Rendered(SortByDate(response.messages, isSortedDescending), Origin(inboxSelected))
      ensures !response.Received? ==> items == old(items)
    {
      request := Fetch(endpoint);
      if response.Received? {
        var ms := response.messages;
        var messages := new Message[|ms|](i requires 0 <= i < |ms| => ms[i]);
        assert messages[..] == ms;
        RenderMessages(messages);
      }
    }

    /**
     * `renderMessages`: the array is sorted in place in the flag's
     * direction, then the list is replaced by one item per message, in
     * array order.
     */
    method RenderMessages(messages: array<Message>)
      modifies this, messages
      ensures messages[..] == SortByDate(old(messages[..]), isSortedDescending)
      ensures items == Rendered(messages[..], Origin(inboxSelected))
      ensures Valid()
      ensures isSortedDescending == old(isSortedDescending) && inboxSelected == old(inboxSelected)
    {
      var origin := Origin(inboxSelected);
      SortMessages(messages, isSortedDescending);
      ghost var sorted := messages[..];
      items := [];
      for i := 0 to messages.Length
        invariant messages[..] == sorted
        invariant items == Rendered(messages[..i], origin)
        invariant isSortedDescending == old(isSortedDescending) && inboxSelected == old(inboxSelected)
      {
        assert messages[..i + 1][..i] == messages[..i];
        items := items + [CreateMessageListItem(messages[i], origin)];
      }
      assert messages[..messages.Length] == messages[..];
    }

    /**
     * `markAsRead` on the `i`-th item: a mark-as-read request for
     * `messageId`; an ok answer swaps the item's `unread` for `read`, any
     * other answer leaves the list as it was.
     */
    method MarkAsRead(messageId: string, i: nat, outcome: Outcome) returns (request: Request)
      requires Valid() && i < |items|
      modifies this
      ensures Valid()
      ensures request == MarkRead(messageId)
      ensures items == old(items)[i := if outcome == Ok then MarkedRead(old(items)[i]) else old(items)[i]]
      ensures isSortedDescending == old(isSortedDescending) && inboxSelected == old(inboxSelected)
    {
      request := MarkRead(messageId);
      if outcome == Ok {
        items := items[i := MarkedRead(items[i])];
      }
    }

    /** `markAsUnread` on the `i`-th item: the mirror image of MarkAsRead. */
    method MarkAsUnread(messageId: string, i: nat, outcome: Outcome) returns (request: Request)
      requires Valid() && i < |items|
      modifies this
      ensures Valid()
      ensures request == MarkUnread(messageId)
      ensures items == old(items)[i := if outcome == Ok then MarkedUnread(old(items)[i]) else old(items)[i]]
      ensures isSortedDescending == old(isSortedDescending) && inboxSelected == old(inboxSelected)
    {
      request := MarkUnread(messageId);
      if outcome == Ok {
        items := items[i := MarkedUnread(items[i])];
      }
    }

    /**
     * A click on the `i`-th item's link: the mark-as-read side effect for
     * the item's message, then the detail page of that message opens.
     */
    method ClickLink(i: nat, outcome: Outcome) returns (request: Request, href: string)
      requires Valid() && i < |items|
      modifies this
      ensures Valid()
      ensures request == MarkRead(old(items)[i].value) && href == old(items)[i].href
      ensures items == old(items)[i := if outcome == Ok then MarkedRead(old(items)[i]) else old(items)[i]]
      ensures isSortedDescending == old(isSortedDescending) && inboxSelected == old(inboxSelected)
    {
      href := items[i].href;
      request := MarkAsRead(items[i].value, i, outcome);
    }

    /**
     * The user ticks or clears the `i`-th item's checkbox; nothing else on
     * the page changes.
     */
    method SetChecked(i: nat, b: bool)
      requires Valid() && i < |items|
      modifies this
      ensures Valid()
      ensures items == old(items)[i := old(items)[i].(checked := b)]
      ensures isSortedDescending == old(isSortedDescending) && inboxSelected == old(inboxSelected)
    {
      items := items[i := items[i].(checked := b)];
    }

    /** `handleToggleReadUnread` with the dialog's answer and the answers to the mark requests. */
    method HandleToggleReadUnread(confirmed: bool, outcomes: seq<Outcome>) returns (warned: bool, requests: seq<Request>)
      requires Valid()
      modifies this
      ensures Valid()
      ensures Effect(warned, requests, items) == ToggleEffect(old(items), confirmed, outcomes)
      ensures isSortedDescending == old(isSortedDescending) && inboxSelected == old(inboxSelected)
    {
      var selectedMessages := Selected(items);
      if |selectedMessages| == 0 {
        warned, requests := true, [];
        return;
      }
      warned := false;
      var hasUnread := AnyUnread(items, selectedMessages);
      if confirmed {
        requests := ProcessToggleReadUnread(selectedMessages, hasUnread, outcomes);
      } else {
        requests := [];
      }
    }

    /** `processToggleReadUnread`: one mark request per selected item, all in the chosen direction. */
    method ProcessToggleReadUnread(selectedMessages: seq<nat>, hasUnread: bool, outcomes: seq<Outcome>)
      returns (requests: seq<Request>)
      requires Valid() && IsSelection(items, selectedMessages)
      modifies this
      ensures Valid()
      ensures requests == MarkRequests(IdsAt(old(items), selectedMessages), hasUnread)
      ensures items == MarkSelected(old(items), selectedMessages, hasUnread, outcomes)
      ensures isSortedDescending == old(isSortedDescending) && inboxSelected == old(inboxSelected)
    {
      var before := items;
      var ids := IdsAt(items, selectedMessages);
      requests := [];
      for k := 0 to |selectedMessages|
        invariant Valid() && |items| == |before|
        invariant items == MarkSelected(before, selectedMessages[..k], hasUnread, outcomes)
        invariant requests == MarkRequests(ids[..k], hasUnread)
        invariant isSortedDescending == old(isSortedDescending) && inboxSelected == old(inboxSelected)
      {
        assert selectedMessages[..k + 1][..k] == selectedMessages[..k];
        var request;
        if hasUnread {
          request := MarkAsRead(ids[k], selectedMessages[k], OutcomeAt(outcomes, k));
        } else {
          request := MarkAsUnread(ids[k], selectedMessages[k], OutcomeAt(outcomes, k));
        }
        requests := requests + [request];
      }
      assert selectedMessages[..|selectedMessages|] == selectedMessages;
      assert ids[..|ids|] == ids;
    }

    /** `handleDeleteMessages` with the dialog's answer and the answers to the archive requests. */
    method HandleDeleteMessages(confirmed: bool, outcomes: seq<Outcome>) returns (warned: bool, requests: seq<Request>)
      requires Valid()
      modifies this
      ensures Valid()
      ensures Effect(warned, requests, items) == DeleteEffect(old(items), inboxSelected, confirmed, outcomes)
      ensures isSortedDescending == old(isSortedDescending) && inboxSelected == old(inboxSelected)
    {
      var selectedMessageIds := SelectedIds(items);
      if |selectedMessageIds| == 0 {
        warned, requests := true, [];
        return;
      }
      warned := false;
      if confirmed {
        requests := ProcessDeleteMessages(selectedMessageIds, outcomes);
      } else {
        requests := [];
      }
    }

    /**
     * `processDeleteMessages`: one archive request per id to the folder's
     * endpoint; an ok answer removes that message's item.
     */
    method ProcessDeleteMessages(selectedMessageIds: seq<string>, outcomes: seq<Outcome>) returns (requests: seq<Request>)
      requires Valid()
      modifies this
      ensures Valid()
      ensures requests == ArchiveRequests(ArchiveEndpoint(inboxSelected), selectedMessageIds)
      ensures items == ArchiveAll(old(items), selectedMessageIds, outcomes)
      ensures isSortedDescending == old(isSortedDescending) && inboxSelected == old(inboxSelected)
    {
      var apiEndpoint := if inboxSelected then ArchiveReceiverEndpoint else ArchiveSenderEndpoint;
      var before := items;
      requests := [];
      for k := 0 to |selectedMessageIds|
        invariant Valid()
        invariant items == ArchiveAll(before, selectedMessageIds[..k], outcomes)
        invariant requests == ArchiveRequests(apiEndpoint, selectedMessageIds[..k])
        invariant isSortedDescending == old(isSortedDescending) && inboxSelected == old(inboxSelected)
      {
        assert selectedMessageIds[..k + 1][..k] == selectedMessageIds[..k];
        requests := requests + [Archive(apiEndpoint, selectedMessageIds[k])];
        if OutcomeAt(outcomes, k) == Ok {
          RemoveMessageFromList(selectedMessageIds[k]);
        }
      }
      assert selectedMessageIds[..|selectedMessageIds|] == selectedMessageIds;
    }

    /**
     * `removeMessageFromList`: the first item whose checkbox value is
     * `messageId` is removed; without one the list stays as it was.
     */
    method RemoveMessageFromList(messageId: string)
      requires Valid()
      modifies this
      ensures Valid()
      ensures items == RemoveFirst(old(items), messageId)
      ensures isSortedDescending == old(isSortedDescending) && inboxSelected == old(inboxSelected)
    {
      RemoveFirstWellFormed(items, messageId);
      items := RemoveFirst(items, messageId);
    }

    /**
     * The sort control: the flag flips, and the receiver listing is
     * fetched again, whichever folder is selected.
     */
    method ToggleSort(response: FetchResponse) returns (request: Request)
      requires Valid()
      modifies this
      ensures Valid()
      ensures isSortedDescending == !old(isSortedDescending) && inboxSelected == old(inboxSelected)
      ensures request == Fetch(ReceiverEndpoint)
      ensures response.Received? ==>
        items == Rendered(SortByDate(response.messages, isSortedDescending), Origin(inboxSelected))
      ensures !response.Received? ==> items == old(items)
    {
      isSortedDescending := !isSortedDescending;
      request := FetchMessages(ReceiverEndpoint, response);
    }
  }

  /** Two clicks on the sort control restore the direction the page started with. */
  method ToggleSortTwice(page: InboxPage, first: FetchResponse, second: FetchResponse)
    returns (requests: seq<Request>)
    requires page.Valid()
    modifies page
    ensures page.isSortedDescending == old(page.isSortedDescending)
    ensures requests == [Fetch(ReceiverEndpoint), Fetch(ReceiverEndpoint)]
  {
    var r1 := page.ToggleSort(first);
    var r2 := page.ToggleSort(second);
    requests := [r1, r2];
  }
}
