/**
 * The mutable message entity of the domain layer: a class whose setters
 * update one field each, an `equals` over a subset of the fields, and a
 * `hashCode` that folds a different subset into a 32-bit integer.
 */
module MessageEntity {
  import opened JavaTypes

  /** The value of every field of a message at one moment. */
  datatype Data = Data(
    messageId: int32,
    sender: Option<User>,
    receiver: Option<User>,
    dateTime: Option<LocalDateTime>,
    subject: Option<string>,
    messageContent: Option<string>,
    threadId: int32,
    isRead: bool,
    archivedBySender: bool,
    archivedByReceiver: bool,
    senderFullName: Option<string>,
    senderCompanyName: Option<string>,
    receiverFullName: Option<string>,
    receiverCompanyName: Option<string>)

  /** The argument of `equals(Object)`: null, a message, or an object of another class. */
  datatype JavaObject = NullRef | MessageRef(message: Message) | OtherObject

  /**
   * The fields `equals` compares: id, sender, receiver, thread and the three
   * flags. Subject, date, content and the four display-name fields are not compared.
   */
  predicate SameMessage(a: Data, b: Data)
  {
    && a.messageId == b.messageId
    && a.sender == b.sender
    && a.receiver == b.receiver
    && a.threadId == b.threadId
    && a.isRead == b.isRead
    && a.archivedBySender == b.archivedBySender
    && a.archivedByReceiver == b.archivedByReceiver
  }

  /** One step of the hash accumulator: `result = 31 * result + c` in 32-bit arithmetic. */
  function Step(result: int32, c: int32): int32
  {
    Wrap(31 * result as int + c as int)
  }

  /** The accumulator after folding the contributions left to right, starting from 0. */
  function Fold(cs: seq<int32>): int32
  {
    if cs == [] then 0 else Step(Fold(cs[..|cs| - 1]), cs[|cs| - 1])
  }

  function UserHash(u: Option<User>, userHash: User -> int32): int32
  {
    if u.Some? then userHash(u.value) else 0
  }

  function StringHash(s: Option<string>, stringHash: string -> int32): int32
  {
    if s.Some? then stringHash(s.value) else 0
  }

  /**
   * What `hashCode` folds, in order. `User.hashCode` and `String.hashCode`
   * are not part of this model and are parameters.
   */
  function Contributions(d: Data, userHash: User -> int32, stringHash: string -> int32): (cs: seq<int32>)
    ensures |cs| == 8
    ensures cs[3] == StringHash(d.subject, stringHash)
  {
    [ d.messageId,
      UserHash(d.sender, userHash),
      UserHash(d.receiver, userHash),
      StringHash(d.subject, stringHash),
      d.threadId,
      if d.isRead then 1 else 0,
      if d.archivedBySender then 2 else 0,
      if d.archivedByReceiver then 3 else 0 ]
  }

  /** The hash code of a message as written: the fold of all eight contributions. */
  function HashOf(d: Data, userHash: User -> int32, stringHash: string -> int32): (h: int32)
    ensures var cs := Contributions(d, userHash, stringHash);
      h == Step(Step(Step(Step(Step(Step(Step(d.messageId, cs[1]), cs[2]), cs[3]), cs[4]), cs[5]), cs[6]), cs[7])
  {
    var cs := Contributions(d, userHash, stringHash);
    FoldEight(cs);
    Fold(cs)
  }

  class Message {
    var messageId: int32
    var sender: Option<User>
    var receiver: Option<User>
    var dateTime: Option<LocalDateTime>
    var subject: Option<string>
    var messageContent: Option<string>
    var threadId: int32
    var isRead: bool
    var archivedBySender: bool
    var archivedByReceiver: bool
    var senderFullName: Option<string>
    var senderCompanyName: Option<string>
    var receiverFullName: Option<string>
    var receiverCompanyName: Option<string>

    /** The current value of every field. */
    function Snapshot(): Data
      reads this
    {
      Data(messageId, sender, receiver, dateTime, subject, messageContent, threadId,
           isRead, archivedBySender, archivedByReceiver,
           senderFullName, senderCompanyName, receiverFullName, receiverCompanyName)
    }

    /** The ten-argument constructor; the display-name fields stay null. */
    constructor (messageId: int32, sender: Option<User>, receiver: Option<User>,
                 dateTime: Option<LocalDateTime>, subject: Option<string>, messageContent: Option<string>,
                 threadId: int32, isRead: bool, archivedBySender: bool, archivedByReceiver: bool)
      ensures Snapshot() == Data(messageId, sender, receiver, dateTime, subject, messageContent,
                                 threadId, isRead, archivedBySender, archivedByReceiver,
                                 None, None, None, None)
    {
      this.messageId := messageId;
      this.sender := sender;
      this.receiver := receiver;
      this.dateTime := dateTime;
      this.subject := subject;
      this.messageContent := messageContent;
      this.threadId := threadId;
      this.isRead := isRead;
      this.archivedBySender := archivedBySender;
      this.archivedByReceiver := archivedByReceiver;
      this.senderFullName := None;
      this.senderCompanyName := None;
      this.receiverFullName := None;
      this.receiverCompanyName := None;
    }

    /** The no-argument constructor; `now` is the clock reading `LocalDateTime.now()`. */
    constructor Default(now: LocalDateTime)
      ensures Snapshot() == Data(0, None, None, Some(now), Some("default"), Some("ignore"),
                                 0, false, false, false, None, None, None, None)
    {
      messageId := 0;
      sender := None;
      receiver := None;
      dateTime := Some(now);
      subject := Some("default");
      messageContent := Some("ignore");
      threadId := 0;
      isRead := false;
      archivedBySender := false;
      archivedByReceiver := false;
      senderFullName := None;
      senderCompanyName := None;
      receiverFullName := None;
      receiverCompanyName := None;
    }

    /** `equals(Object)`: identity, then null and class checks, then the compared fields. */
    predicate Equals(obj: JavaObject): (r: bool)
      reads this, if obj.MessageRef? then {obj.message} else {}
      ensures r ==> obj.MessageRef?
      ensures obj == MessageRef(this) ==> r
      ensures obj.MessageRef? && obj.message.Snapshot() == Snapshot() ==> r
    {
      match obj
      case NullRef => false
      case OtherObject => false
      case MessageRef(other) => other == this || SameMessage(Snapshot(), other.Snapshot())
    }

    /** `hashCode()`, accumulating step by step as the source does. */
    method HashCode(userHash: User -> int32, stringHash: string -> int32) returns (h: int32)
      ensures h == HashOf(Snapshot(), userHash, stringHash)
    {
      var result := messageId;
      result := Step(result, if sender.Some? then userHash(sender.value) else 0);
      result := Step(result, if receiver.Some? then userHash(receiver.value) else 0);
      result := Step(result, if subject.Some? then stringHash(subject.value) else 0);
      result := Step(result, threadId);
      result := Step(result, if isRead then 1 else 0);
      result := Step(result, if archivedBySender then 2 else 0);
      result := Step(result, if archivedByReceiver then 3 else 0);
      h := result;
      FoldEight(Contributions(Snapshot(), userHash, stringHash));
    }

    method SetMessageId(messageId: int32)
      modifies this
      ensures Snapshot() == old(Snapshot()).(messageId := messageId)
    {
      this.messageId := messageId;
    }

    method SetSender(sender: Option<User>)
      modifies this
      ensures Snapshot() == old(Snapshot()).(sender := sender)
    {
      this.sender := sender;
    }

    method SetReceiver(receiver: Option<User>)
      modifies this
      ensures Snapshot() == old(Snapshot()).(receiver := receiver)
    {
      this.receiver := receiver;
    }

    method SetDateTime(dateTime: Option<LocalDateTime>)
      modifies this
      ensures Snapshot() == old(Snapshot()).(dateTime := dateTime)
    {
      this.dateTime := dateTime;
    }

    method SetSubject(subject: Option<string>)
      modifies this
      ensures Snapshot() == old(Snapshot()).(subject := subject)
    {
      this.subject := subject;
    }

    method SetMessageContent(messageContent: Option<string>)
      modifies this
      ensures Snapshot() == old(Snapshot()).(messageContent := messageContent)
    {
      this.messageContent := messageContent;
    }

    method SetThreadId(threadId: int32)
      modifies this
      ensures Snapshot() == old(Snapshot()).(threadId := threadId)
    {
      this.threadId := threadId;
    }

    method SetRead(read: bool)
      modifies this
      ensures Snapshot() == old(Snapshot()).(isRead := read)
    {
      this.isRead := read;
    }

    method SetSenderFullName(senderFullName: Option<string>)
      modifies this
      ensures Snapshot() == old(Snapshot()).(senderFullName := senderFullName)
    {
      this.senderFullName := senderFullName;
    }

    method SetSenderCompanyName(senderCompanyName: Option<string>)
      modifies this
      ensures Snapshot() == old(Snapshot()).(senderCompanyName := senderCompanyName)
    {
      this.senderCompanyName := senderCompanyName;
    }

    method SetReceiverFullName(receiverFullName: Option<string>)
      modifies this
      ensures Snapshot() == old(Snapshot()).(receiverFullName := receiverFullName)
    {
      this.receiverFullName := receiverFullName;
    }

    method SetReceiverCompanyName(receiverCompanyName: Option<string>)
      modifies this
      ensures Snapshot() == old(Snapshot()).(receiverCompanyName := receiverCompanyName)
    {
      this.receiverCompanyName := receiverCompanyName;
    }

    method SetArchivedBySender(archivedBySender: bool)
      modifies this
      ensures Snapshot() == old(Snapshot()).(archivedBySender := archivedBySender)
    {
      this.archivedBySender := archivedBySender;
    }

    method SetArchivedByReceiver(archivedByReceiver: bool)
      modifies this
      ensures Snapshot() == old(Snapshot()).(archivedByReceiver := archivedByReceiver)
    {
      this.archivedByReceiver := archivedByReceiver;
    }
  }

  /** Folding one more contribution is one more accumulator step. */
  lemma FoldStep(cs: seq<int32>, k: nat)
    requires k < |cs|
    ensures Fold(cs[..k + 1]) == Step(Fold(cs[..k]), cs[k])
  {
    assert cs[..k + 1][..k] == cs[..k];
  }

  /** Folding eight contributions from 0 is the source's accumulator seeded with the first one. */
  lemma FoldEight(cs: seq<int32>)
    requires |cs| == 8
    ensures Fold(cs) == Step(Step(Step(Step(Step(Step(Step(cs[0], cs[1]), cs[2]), cs[3]), cs[4]), cs[5]), cs[6]), cs[7])
  {
    FoldStep(cs, 0);
    assert cs[..0] == [];
    FoldStep(cs, 1);
    FoldStep(cs, 2);
    FoldStep(cs, 3);
    FoldStep(cs, 4);
    FoldStep(cs, 5);
    FoldStep(cs, 6);
    FoldStep(cs, 7);
    assert cs[..8] == cs;
  }

  // ----- equals -----

  /** `equals` is reflexive and rejects null and objects of another class. */
  lemma EqualsReflexiveAndTyped(m: Message)
    ensures m.Equals(MessageRef(m))
    ensures !m.Equals(NullRef) && !m.Equals(OtherObject)
  {
  }

  /** Two distinct messages are equal exactly when the seven compared fields match. */
  lemma EqualsIffSameFields(a: Message, b: Message)
    ensures a.Equals(MessageRef(b)) <==>
      (a == b ||
       (a.messageId == b.messageId && a.sender == b.sender && a.receiver == b.receiver &&
        a.threadId == b.threadId && a.isRead == b.isRead &&
        a.archivedBySender == b.archivedBySender && a.archivedByReceiver == b.archivedByReceiver))
  {
  }

  /** `equals` is symmetric. */
  lemma EqualsSymmetric(a: Message, b: Message)
    ensures a.Equals(MessageRef(b)) == b.Equals(MessageRef(a))
  {
  }

  // ----- hashCode against equals -----

  /** Java's wrap-around identifies two integers exactly when they differ by a multiple of 2^32. */
  lemma WrapDifference(x: int, y: int)
    requires Wrap(x) == Wrap(y)
    ensures x - y == ((x + 0x8000_0000) / TwoTo32 - (y + 0x8000_0000) / TwoTo32) * TwoTo32
  {
  }

  /** 31 is odd, so it has an inverse modulo 2^32 and multiplying by it loses nothing. */
  lemma ThirtyOneCancels(d: int, q: int)
    requires 31 * d == q * TwoTo32
    requires -TwoTo32 < d < TwoTo32
    ensures d == 0
  {
    var inv, k := 3186588639, 23;
    assert 31 * inv == 1 + k * TwoTo32;
    var e := q * inv - d * k;
    calc {
      d;
      d * (31 * inv) - d * k * TwoTo32;
      (31 * d) * inv - d * k * TwoTo32;
      (q * TwoTo32) * inv - d * k * TwoTo32;
      e * TwoTo32;
    }
  }

  /** A step with the same contribution never merges two different accumulators. */
  lemma StepInjectiveInResult(r1: int32, r2: int32, c: int32)
    requires r1 != r2
    ensures Step(r1, c) != Step(r2, c)
  {
    if Step(r1, c) == Step(r2, c) {
      var x, y := 31 * r1 as int + c as int, 31 * r2 as int + c as int;
      WrapDifference(x, y);
      var q := (x + 0x8000_0000) / TwoTo32 - (y + 0x8000_0000) / TwoTo32;
      assert 31 * (r1 as int - r2 as int) == q * TwoTo32;
      ThirtyOneCancels(r1 as int - r2 as int, q);
      assert false;
    }
  }

  /** A step from the same accumulator with different contributions gives different results. */
  lemma StepInjectiveInContribution(r: int32, c1: int32, c2: int32)
    requires c1 != c2
    ensures Step(r, c1) != Step(r, c2)
  {
    if Step(r, c1) == Step(r, c2) {
      var x, y := 31 * r as int + c1 as int, 31 * r as int + c2 as int;
      WrapDifference(x, y);
      assert false;
    }
  }

  /**
   * Once two folds have diverged, equal remaining contributions keep them apart:
   * the fold remembers every contribution.
   */
  lemma {:induction false} FoldKeepsDifference(cs1: seq<int32>, cs2: seq<int32>, n: nat)
    requires |cs1| == |cs2| && n <= |cs1|
    requires Fold(cs1[..n]) != Fold(cs2[..n])
    requires cs1[n..] == cs2[n..]
    ensures Fold(cs1) != Fold(cs2)
  {
    if |cs1| == n {
      assert cs1[..n] == cs1 && cs2[..n] == cs2;
    } else {
      var m := |cs1| - 1;
      assert cs1[..m][..n] == cs1[..n] && cs2[..m][..n] == cs2[..n];
      assert cs1[..m][n..] == cs2[..m][n..] by {
        assert cs1[..m][n..] == cs1[n..][..m - n];
        assert cs2[..m][n..] == cs2[n..][..m - n];
      }
      FoldKeepsDifference(cs1[..m], cs2[..m], n);
      assert cs1[m] == cs1[n..][m - n] == cs2[n..][m - n] == cs2[m];
      StepInjectiveInResult(Fold(cs1[..m]), Fold(cs2[..m]), cs1[m]);
    }
  }

  /**
   * The source's `equals` and `hashCode` disagree: changing only the subject
   * keeps two messages equal, yet whenever the two subjects hash differently
   * the two message hash codes differ.
   */
  lemma {:induction false} EqualMessagesWithDifferentHashes(d: Data, subject: Option<string>,
                                                            userHash: User -> int32, stringHash: string -> int32)
    requires StringHash(d.subject, stringHash) != StringHash(subject, stringHash)
    ensures SameMessage(d, d.(subject := subject))
    ensures HashOf(d, userHash, stringHash) != HashOf(d.(subject := subject), userHash, stringHash)
  {
    var e := d.(subject := subject);
    var cs1, cs2 := Contributions(d, userHash, stringHash), Contributions(e, userHash, stringHash);
    assert cs1[..3] == cs2[..3];
    assert cs1[..4][..3] == cs1[..3] && cs2[..4][..3] == cs2[..3];
    StepInjectiveInContribution(Fold(cs1[..3]), cs1[3], cs2[3]);
    assert Fold(cs1[..4]) != Fold(cs2[..4]);
    assert cs1[4..] == cs2[4..];
    FoldKeepsDifference(cs1, cs2, 4);
  }

  /** The hash that agrees with `equals`: the same fold without the subject. */
  function ConsistentHashOf(d: Data, userHash: User -> int32): int32
  {
    Fold([ d.messageId,
           UserHash(d.sender, userHash),
           UserHash(d.receiver, userHash),
           d.threadId,
           if d.isRead then 1 else 0,
           if d.archivedBySender then 2 else 0,
           if d.archivedByReceiver then 3 else 0 ])
  }

  /** Equal messages have equal hash codes under the corrected hash. */
  lemma EqualMessagesHashAlike(a: Data, b: Data, userHash: User -> int32)
    requires SameMessage(a, b)
    ensures ConsistentHashOf(a, userHash) == ConsistentHashOf(b, userHash)
  {
  }
}
