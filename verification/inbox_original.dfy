/**
 * The earlier version of the inbox list controller. It renders, marks,
 * deletes and sorts as the refactored one does, with the list items built
 * inline, but its toggle listener sends the mark requests straight after
 * opening the dialog, outside the dialog's continuation, so the answer to
 * the dialog changes nothing.
 */
module InboxOriginal {
  import opened InboxModel
  import InboxRefactor

  /**
   * The toggle listener as written: with nothing checked it warns and does
   * nothing; otherwise it marks every selected item read if any of them is
   * unread, and unread otherwise, whether or not the dialog is confirmed.
   */
  function ToggleEffect(items: seq<Item>, confirmed: bool, outcomes: seq<Outcome>): (e: Effect)
    ensures e.warned ==> forall i :: 0 <= i < |items| ==> !items[i].checked
    ensures e.warned ==> e.requests == [] && e.items == items
    ensures |e.requests| == |Selected(items)|
    ensures |e.items| == |items|
  {
    SelectionEmptyIff(items);
    var sel := Selected(items);
    if sel == [] then Effect(true, [], items)
    else
      var toRead := AnyUnread(items, sel);
      Effect(false, MarkRequests(IdsAt(items, sel), toRead), MarkSelected(items, sel, toRead, outcomes))
  }

  /** The dialog's answer makes no difference to the toggle. */
  lemma DialogIgnored(items: seq<Item>, outcomes: seq<Outcome>)
    ensures ToggleEffect(items, false, outcomes) == ToggleEffect(items, true, outcomes)
  {
  }

  /**
   * One unread item checked, the dialog cancelled, the request answered ok:
   * the item is still sent a mark-as-read request and ends up read.
   */
  lemma CancelledToggleStillMarks(href: string)
    ensures var items := [Item("1", {MessageItemClass, UnreadClass}, true, href)];
      var e := ToggleEffect(items, false, [Ok]);
      && e.requests == [MarkRead("1")]
      && e.items == [Item("1", {MessageItemClass, ReadClass}, true, href)]
  {
    var items := [Item("1", {MessageItemClass, UnreadClass}, true, href)];
    assert items[..0] == [];
    assert Selected(items[..0]) == [];
    var sel := Selected(items);
    assert sel == [0];
    assert sel[..0] == [];
    assert AnyUnread(items, sel) by {
      assert sel[0] < |items| && IsUnread(items[sel[0]]);
    }
    assert MarkSelected(items, sel[..0], true, [Ok]) == items;
    assert MarkedRead(items[0]).classes == {MessageItemClass, ReadClass};
  }

  /** When the dialog is confirmed, both versions of the toggle have the same effect. */
  lemma ConfirmedToggleAgrees(items: seq<Item>, outcomes: seq<Outcome>)
    ensures ToggleEffect(items, true, outcomes) == InboxRefactor.ToggleEffect(items, true, outcomes)
  {
  }

  /**
   * With nothing checked the two versions agree whatever the dialog says:
   * the toggle warns, sends nothing and leaves the list as it was.
   */
  lemma EmptyToggleAgrees(items: seq<Item>, confirmed: bool, outcomes: seq<Outcome>)
    requires forall i :: 0 <= i < |items| ==> !items[i].checked
    ensures ToggleEffect(items, confirmed, outcomes) == InboxRefactor.ToggleEffect(items, confirmed, outcomes)
    ensures ToggleEffect(items, confirmed, outcomes).warned && ToggleEffect(items, confirmed, outcomes).requests == []
    ensures ToggleEffect(items, confirmed, outcomes).items == items
  {
    NothingChecked(items);
  }

  class InboxPage {
    /** The sort direction flag, descending by default. */
    var isSortedDescending: bool
    /** Whether the inbox selector carries the `selected` marker. */
    var inboxSelected: bool
    /** The rendered list, in document order. */
    var items: seq<Item>

    /** Every item carries exactly one of `read` and `unread`. */
    predicate Valid()
      reads this
    {
      forall i :: 0 <= i < |items| ==> WellFormed(items[i])
    }

    constructor (inboxSelected: bool)
      ensures isSortedDescending && this.inboxSelected == inboxSelected && items == []
      ensures Valid()
    {
      isSortedDescending := true;
      this.inboxSelected := inboxSelected;
      items := [];
    }

    /**
     * `fetchMessages`: one request to `endpoint`; a received list is
     * rendered, and a failed status or a rejected fetch leaves the list as
     * it was.
     */
    method FetchMessages(endpoint: string, response: FetchResponse) returns (request: Request)
      requires Valid()
      modifies this
      ensures Valid()
      ensures request == Fetch(endpoint)
      ensures isSortedDescending == old(isSortedDescending) && inboxSelected == old(inboxSelected)
      ensures response.Received? ==>
        items == Rendered(SortByDate(response.messages, isSortedDescending), Origin(inboxSelected))
      ensures !response.Received? ==> items == old(items)
    {
      request := Fetch(endpoint);
      if response.Received? {
        var ms := response.messages;
        var messages := new Message[|ms|](i requires 0 <= i < |ms| => ms[i]);
        assert messages[..] == ms;
        RenderMessages(messages);
      }
    }

    /**
     * `renderMessages`, building each item inline: the class is `read` or
     * `unread` from the message's flag, the checkbox value is the id, and
     * the link carries the id and the folder.
     */
    method RenderMessages(messages: array<Message>)
      modifies this, messages
      ensures messages[..] == SortByDate(old(messages[..]), isSortedDescending)
      ensures items == Rendered(messages[..], Origin(inboxSelected))
      ensures Valid()
      ensures isSortedDescending == old(isSortedDescending) && inboxSelected == old(inboxSelected)
    {
      var origin := if inboxSelected then "inbox" else "outbox";
      SortMessages(messages, isSortedDescending);
      ghost var sorted := messages[..];
      items := [];
      for i := 0 to messages.Length
        invariant messages[..] == sorted
        invariant items == Rendered(messages[..i], origin)
        invariant isSortedDescending == old(isSortedDescending) && inboxSelected == old(inboxSelected)
      {
        assert messages[..i + 1][..i] == messages[..i];
        var message := messages[i];
        var listItem := Item(
          message.messageId,
          {MessageItemClass, if message.read then ReadClass else UnreadClass},
          false,
          "/messageDetails/messageDetails.html?messageId=" + message.messageId + "&origin=" + origin);
        items := items + [listItem];
      }
      assert messages[..messages.Length] == messages[..];
    }

    /** `markAsRead` on the `i`-th item: an ok answer swaps `unread` for `read`. */
    method MarkAsRead(messageId: string, i: nat, outcome: Outcome) returns (request: Request)
      requires Valid() && i < |items|
      modifies this
      ensures Valid()
      ensures request == MarkRead(messageId)
      ensures items == old(items)[i := if outcome == Ok then MarkedRead(old(items)[i]) else old(items)[i]]
      ensures isSortedDescending == old(isSortedDescending) && inboxSelected == old(inboxSelected)
    {
      request := MarkRead(messageId);
      if outcome == Ok {
        items := items[i := MarkedRead(items[i])];
      }
    }

    /** `markAsUnread` on the `i`-th item: an ok answer swaps `read` for `unread`. */
    method MarkAsUnread(messageId: string, i: nat, outcome: Outcome) returns (request: Request)
      requires Valid() && i < |items|
      modifies this
      ensures Valid()
      ensures request == MarkUnread(messageId)
      ensures items == old(items)[i := if outcome == Ok then MarkedUnread(old(items)[i]) else old(items)[i]]
      ensures isSortedDescending == old(isSortedDescending) && inboxSelected == old(inboxSelected)
    {
      request := MarkUnread(messageId);
      if outcome == Ok {
        items := items[i := MarkedUnread(items[i])];
      }
    }

    /** A click on the `i`-th item's link: mark its message read, then open its detail page. */
    method ClickLink(i: nat, outcome: Outcome) returns (request: Request, href: string)
      requires Valid() && i < |items|
      modifies this
      ensures Valid()
      ensures request == MarkRead(old(items)[i].value) && href == old(items)[i].href
      ensures items == old(items)[i := if outcome == Ok then MarkedRead(old(items)[i]) else old(items)[i]]
      ensures isSortedDescending == old(isSortedDescending) && inboxSelected == old(inboxSelected)
    {
      href := items[i].href;
      request := MarkAsRead(items[i].value, i, outcome);
    }

    /**
     * The user ticks or clears the `i`-th item's checkbox; nothing else on
     * the page changes.
     */
    method SetChecked(i: nat, b: bool)
      requires Valid() && i < |items|
      modifies this
      ensures Valid()
      ensures items == old(items)[i := old(items)[i].(checked := b)]
      ensures isSortedDescending == old(isSortedDescending) && inboxSelected == old(inboxSelected)
    {
      items := items[i := items[i].(checked := b)];
    }

    /**
     * The toggle listener: the dialog is opened, and the mark requests are
     * sent whatever it answers.
     */
    method HandleToggleReadUnread(confirmed: bool, outcomes: seq<Outcome>) returns (warned: bool, requests: seq<Request>)
      requires Valid()
      modifies this
      ensures Valid()
      ensures Effect(warned, requests, items) == ToggleEffect(old(items), confirmed, outcomes)
      ensures isSortedDescending == old(isSortedDescending) && inboxSelected == old(inboxSelected)
    {
      var selectedMessages := Selected(items);
      if |selectedMessages| == 0 {
        warned, requests := true, [];
        return;
      }
      warned := false;
      var hasUnread := AnyUnread(items, selectedMessages);
      // the dialog's continuation only logs; the marks below are sent regardless
      requests := MarkEach(selectedMessages, hasUnread, outcomes);
    }

    /**
     * The listener's `forEach` over the selection: one mark request per
     * selected item, all in one direction, and each ok answer marks that
     * item.
     */
    method MarkEach(selectedMessages: seq<nat>, hasUnread: bool, outcomes: seq<Outcome>) returns (requests: seq<Request>)
      requires Valid() && IsSelection(items, selectedMessages)
      modifies this
      ensures Valid()
      ensures requests == MarkRequests(IdsAt(old(items), selectedMessages), hasUnread)
      ensures items == MarkSelected(old(items), selectedMessages, hasUnread, outcomes)
      ensures isSortedDescending == old(isSortedDescending) && inboxSelected == old(inboxSelected)
    {
      var before := items;
      var ids := IdsAt(items, selectedMessages);
      requests := [];
      for k := 0 to |selectedMessages|
        invariant Valid() && |items| == |before|
        invariant items == MarkSelected(before, selectedMessages[..k], hasUnread, outcomes)
        invariant requests == MarkRequests(ids[..k], hasUnread)
        invariant isSortedDescending == old(isSortedDescending) && inboxSelected == old(inboxSelected)
      {
        assert selectedMessages[..k + 1][..k] == selectedMessages[..k];
        var request;
        if hasUnread {
          request := MarkAsRead(ids[k], selectedMessages[k], OutcomeAt(outcomes, k));
        } else {
          request := MarkAsUnread(ids[k], selectedMessages[k], OutcomeAt(outcomes, k));
        }
        requests := requests + [request];
      }
      assert selectedMessages[..|selectedMessages|] == selectedMessages;
      assert ids[..|ids|] == ids;
    }

    /**
     * The delete listener: warn on an empty selection, stop when `confirm`
     * is declined, otherwise one archive request per id to the folder's
     * endpoint, and an ok answer removes that message's item.
     */
    method HandleDeleteMessages(confirmed: bool, outcomes: seq<Outcome>) returns (warned: bool, requests: seq<Request>)
      requires Valid()
      modifies this
      ensures Valid()
      ensures Effect(warned, requests, items) == DeleteEffect(old(items), inboxSelected, confirmed, outcomes)
      ensures isSortedDescending == old(isSortedDescending) && inboxSelected == old(inboxSelected)
    {
      var selectedMessageIds := SelectedIds(items);
      if |selectedMessageIds| == 0 {
        warned, requests := true, [];
        return;
      }
      warned := false;
      if !confirmed {
        requests := [];
        return;
      }
      requests := ArchiveEach(selectedMessageIds, outcomes);
    }

    /**
     * The listener's loop over the selected ids: one archive request per id
     * to the folder's endpoint, and each ok answer removes that message's
     * item.
     */
    method ArchiveEach(selectedMessageIds: seq<string>, outcomes: seq<Outcome>) returns (requests: seq<Request>)
      requires Valid()
      modifies this
      ensures Valid()
      ensures requests == ArchiveRequests(ArchiveEndpoint(inboxSelected), selectedMessageIds)
      ensures items == ArchiveAll(old(items), selectedMessageIds, outcomes)
      ensures isSortedDescending == old(isSortedDescending) && inboxSelected == old(inboxSelected)
    {
      var apiEndpoint := if inboxSelected then ArchiveReceiverEndpoint else ArchiveSenderEndpoint;
      var before := items;
      requests := [];
      for k := 0 to |selectedMessageIds|
        invariant Valid()
        invariant items == ArchiveAll(before, selectedMessageIds[..k], outcomes)
        invariant requests == ArchiveRequests(apiEndpoint, selectedMessageIds[..k])
        invariant isSortedDescending == old(isSortedDescending) && inboxSelected == old(inboxSelected)
      {
        assert selectedMessageIds[..k + 1][..k] == selectedMessageIds[..k];
        requests := requests + [Archive(apiEndpoint, selectedMessageIds[k])];
        if OutcomeAt(outcomes, k) == Ok {
          RemoveFirstWellFormed(items, selectedMessageIds[k]);
          items := RemoveFirst(items, selectedMessageIds[k]);
        }
      }
      assert selectedMessageIds[..|selectedMessageIds|] == selectedMessageIds;
    }

    /** The sort control: flip the flag and fetch the receiver listing again. */
    method ToggleSort(response: FetchResponse) returns (request: Request)
      requires Valid()
      modifies this
      ensures Valid()
      ensures isSortedDescending == !old(isSortedDescending) && inboxSelected == old(inboxSelected)
      ensures request == Fetch(ReceiverEndpoint)
      ensures response.Received? ==>
        items == Rendered(SortByDate(response.messages, isSortedDescending), Origin(inboxSelected))
      ensures !response.Received? ==> items == old(items)
    {
      isSortedDescending := !isSortedDescending;
      request := FetchMessages(ReceiverEndpoint, response);
    }
  }
}
