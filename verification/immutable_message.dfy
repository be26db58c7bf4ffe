/**
 * The immutable message with its builder: a message whose fields are all
 * final and which is made only by a builder that collects the field values
 * through chained setters.
 */
module ImmutableMessage {
  import opened JavaTypes

  /**
   * A built message. Every field is final and there are no setters, so a
   * datatype value is the whole of it; its getters are the field names.
   */
  datatype Message = Message(
    messageId: int32,
    sender: Option<User>,
    receiver: Option<User>,
    dateTime: Option<LocalDateTime>,
    subject: Option<string>,
    messageContent: Option<string>,
    threadId: int32,
    isRead: bool,
    archivedBySender: bool,
    archivedByReceiver: bool)

  class Builder {
    var messageId: int32
    var sender: Option<User>
    var receiver: Option<User>
    var dateTime: Option<LocalDateTime>
    var subject: Option<string>
    var messageContent: Option<string>
    var threadId: int32
    var isRead: bool
    var archivedBySender: bool
    var archivedByReceiver: bool

    /** The field values collected so far, in the shape of the message they will become. */
    function Collected(): Message
      reads this
    {
      Message(messageId, sender, receiver, dateTime, subject, messageContent,
              threadId, isRead, archivedBySender, archivedByReceiver)
    }

    /**
     * A fresh builder: Java's field defaults, an empty subject and content,
     * and `now` (the reading of `LocalDateTime.now()`) as the date.
     */
    constructor (now: LocalDateTime)
      ensures Collected() == Message(0, None, None, Some(now), Some(""), Some(""), 0, false, false, false)
    {
      messageId := 0;
      sender := None;
      receiver := None;
      dateTime := Some(now);
      subject := Some("");
      messageContent := Some("");
      threadId := 0;
      isRead := false;
      archivedBySender := false;
      archivedByReceiver := false;
    }

    method MessageId(messageId: int32) returns (b: Builder)
      modifies this
      ensures b == this
      ensures Collected() == old(Collected()).(messageId := messageId)
    {
      this.messageId := messageId;
      b := this;
    }

    method Sender(sender: Option<User>) returns (b: Builder)
      modifies this
      ensures b == this
      ensures Collected() == old(Collected()).(sender := sender)
    {
      this.sender := sender;
      b := this;
    }

    method Receiver(receiver: Option<User>) returns (b: Builder)
      modifies this
      ensures b == this
      ensures Collected() == old(Collected()).(receiver := receiver)
    {
      this.receiver := receiver;
      b := this;
    }

    method DateTime(dateTime: Option<LocalDateTime>) returns (b: Builder)
      modifies this
      ensures b == this
      ensures Collected() == old(Collected()).(dateTime := dateTime)
    {
      this.dateTime := dateTime;
      b := this;
    }

    method Subject(subject: Option<string>) returns (b: Builder)
      modifies this
      ensures b == this
      ensures Collected() == old(Collected()).(subject := subject)
    {
      this.subject := subject;
      b := this;
    }

    method MessageContent(messageContent: Option<string>) returns (b: Builder)
      modifies this
      ensures b == this
      ensures Collected() == old(Collected()).(messageContent := messageContent)
    {
      this.messageContent := messageContent;
      b := this;
    }

    method ThreadId(threadId: int32) returns (b: Builder)
      modifies this
      ensures b == this
      ensures Collected() == old(Collected()).(threadId := threadId)
    {
      this.threadId := threadId;
      b := this;
    }

    method IsRead(isRead: bool) returns (b: Builder)
      modifies this
      ensures b == this
      ensures Collected() == old(Collected()).(isRead := isRead)
    {
      this.isRead := isRead;
      b := this;
    }

    method ArchivedBySender(archivedBySender: bool) returns (b: Builder)
      modifies this
      ensures b == this
      ensures Collected() == old(Collected()).(archivedBySender := archivedBySender)
    {
      this.archivedBySender := archivedBySender;
      b := this;
    }

    method ArchivedByReceiver(archivedByReceiver: bool) returns (b: Builder)
      modifies this
      ensures b == this
      ensures Collected() == old(Collected()).(archivedByReceiver := archivedByReceiver)
    {
      this.archivedByReceiver := archivedByReceiver;
      b := this;
    }

    /**
     * `build()`, through the private `Message(Builder)` constructor: every
     * getter of the result returns the builder's field. The builder is not
     * modified (there is no modifies clause).
     */
    method Build() returns (m: Message)
      ensures m.messageId == messageId && m.sender == sender && m.receiver == receiver
      ensures m.dateTime == dateTime && m.subject == subject && m.messageContent == messageContent
      ensures m.threadId == threadId && m.isRead == isRead
      ensures m.archivedBySender == archivedBySender && m.archivedByReceiver == archivedByReceiver
    {
      m := Message(messageId, sender, receiver, dateTime, subject, messageContent,
                   threadId, isRead, archivedBySender, archivedByReceiver);
    }
  }

  /** Building twice from the same builder gives field-for-field identical messages. */
  method BuildTwice(b: Builder) returns (m1: Message, m2: Message)
    ensures m1 == m2 == b.Collected()
  {
    m1 := b.Build();
    m2 := b.Build();
  }

  /**
   * A chain of setters on a fresh builder: the fields set take the given
   * values, every other field keeps its default, and the chain returns the
   * builder it started from.
   */
  method BuildWithSubject(now: LocalDateTime, id: int32, sender: User, subject: string) returns (m: Message)
    ensures m == Message(id, Some(sender), None, Some(now), Some(subject), Some(""), 0, false, false, false)
  {
    var b := new Builder(now);
    var b1 := b.MessageId(id);
    var b2 := b1.Sender(Some(sender));
    var b3 := b2.Subject(Some(subject));
    assert b3 == b;
    m := b3.Build();
  }
}
