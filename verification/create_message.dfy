/**
 * The create-message endpoint: authorise the sender, look up the receiver,
 * save the message, and answer with a two-key response map. It exists in an
 * older single-method form and a newer form built from small helpers; both
 * are modelled, and both are proved to give the same answer.
 *
 * The authorisation service, `findReceiver` and `saveMessage` are not part
 * of this model: their outcomes are inputs. `findReceiver` and `saveMessage`
 * are functions of the message as it stands when they are called, so a
 * contract that mentions them also says in which state they saw it.
 */
module CreateMessage {
  import opened JavaTypes
  import MessageEntity

  /** A value stored in the response map (`Map<String, Object>`). */
  datatype Value = BoolValue(b: bool) | StringValue(s: string)

  type ResponseMap = map<string, Value>

  /** `ResponseEntity`: an HTTP status and a body. */
  datatype ResponseEntity = ResponseEntity(status: int, body: ResponseMap)

  /** The checked exceptions `authorizeUserByToken` may throw; they leave the method. */
  datatype AuthFailure = TokenExpired | NoSuchUser | UnauthorizedAccess | TokenNotFound

  datatype Authorization = Authorized(user: User) | Refused(failure: AuthFailure)

  /** What `findReceiver` does: return a user, return null, or throw (with a possibly-null detail message). */
  datatype Lookup = Found(receiver: User) | NotFound | LookupThrows(detail: Option<string>)

  /** What `saveMessage` does: return true, return false, or throw. */
  datatype Save = Saved | NotSaved | SaveThrows(detail: Option<string>)

  /** What the endpoint does: answer, or let an authorisation exception escape. */
  datatype Reply = Responded(entity: ResponseEntity) | Thrown(failure: AuthFailure)

  /** What the new version's response supplier does: return a map or throw. */
  datatype Supplied = Returned(body: ResponseMap) | Threw(detail: Option<string>)

  type FindReceiver = (MessageEntity.Data, Option<string>) -> Lookup
  type SaveMessage = MessageEntity.Data -> Save

  const HttpOk: int := 200
  const SuccessKey: string := "success"
  const MessageKey: string := "message"
  const SentText: string := "Bericht succesvol verzonden."
  const TooLongText: string := "Bericht sturen niet succesvol. Onderwerp of bericht is te lang."

  function NotFoundText(receiverUsername: Option<string>): string
  {
    "Gebruiker met gebruikersnaam " + JavaString(receiverUsername) + " niet gevonden"
  }

  function FailureText(detail: Option<string>): string
  {
    "Er is een fout opgetreden " + JavaString(detail)
  }

  // ----- the new version's helpers -----

  /** `createResponseMap`: a map with exactly the keys `success` and `message`. */
  function CreateResponseMap(success: bool, message: string): (r: ResponseMap)
    ensures r.Keys == {SuccessKey, MessageKey}
    ensures r[SuccessKey] == BoolValue(success)
    ensures r[MessageKey] == StringValue(message)
  {
    map[SuccessKey := BoolValue(success), MessageKey := StringValue(message)]
  }

  function ErrorResponse(message: string): (r: ResponseMap)
    ensures r.Keys == {SuccessKey, MessageKey}
    ensures r[SuccessKey] == BoolValue(false) && r[MessageKey] == StringValue(message)
  {
    CreateResponseMap(false, message)
  }

  /**
   * `successResponse()`. The source calls it with the success text as an
   * argument, but only the zero-argument form, which supplies that same
   * text, exists; this is the form modelled.
   */
  function SuccessResponse(): (r: ResponseMap)
    ensures r.Keys == {SuccessKey, MessageKey}
    ensures r[SuccessKey] == BoolValue(true) && r[MessageKey] == StringValue(SentText)
  {
    CreateResponseMap(true, SentText)
  }

  /** `createResponse`: whatever the supplier does, the status is OK; a thrown exception becomes an error map. */
  function CreateResponse(supplied: Supplied): (r: ResponseEntity)
    ensures r.status == HttpOk
    ensures supplied.Returned? ==> r.body == supplied.body
    ensures supplied.Threw? ==> r.body.Keys == {SuccessKey, MessageKey}
    ensures supplied.Threw? ==> r.body[SuccessKey] == BoolValue(false)
    ensures supplied.Threw? ==> r.body[MessageKey] == StringValue(FailureText(supplied.detail))
  {
    match supplied
    case Returned(body) => ResponseEntity(HttpOk, body)
    case Threw(detail) => ResponseEntity(HttpOk, ErrorResponse(FailureText(detail)))
  }

  // ----- what both versions answer -----

  /**
   * The message after the sender was set and the receiver looked up: the
   * receiver is set exactly when the lookup found one.
   */
  function AfterLookup(withSender: MessageEntity.Data, receiverUsername: Option<string>,
                       findReceiver: FindReceiver): MessageEntity.Data
  {
    match findReceiver(withSender, receiverUsername)
    case Found(u) => withSender.(receiver := Some(u))
    case _ => withSender
  }

  /**
   * The response map for a message whose sender is already set: the lookup
   * sees that message, and the save sees it with the receiver filled in.
   */
  function Respond(withSender: MessageEntity.Data, receiverUsername: Option<string>,
                   findReceiver: FindReceiver, saveMessage: SaveMessage): (r: ResponseMap)
    ensures r.Keys == {SuccessKey, MessageKey}
    ensures r[SuccessKey] == BoolValue(true) <==>
      (findReceiver(withSender, receiverUsername).Found? &&
       saveMessage(AfterLookup(withSender, receiverUsername, findReceiver)) == Saved)
  {
    match findReceiver(withSender, receiverUsername)
    case LookupThrows(detail) => ErrorResponse(FailureText(detail))
    case NotFound => ErrorResponse(NotFoundText(receiverUsername))
    case Found(u) =>
      match saveMessage(withSender.(receiver := Some(u)))
      case SaveThrows(detail) => ErrorResponse(FailureText(detail))
      case Saved => SuccessResponse()
      case NotSaved => ErrorResponse(TooLongText)
  }

  /** The message text of every outcome. */
  lemma RespondMessages(withSender: MessageEntity.Data, receiverUsername: Option<string>,
                        findReceiver: FindReceiver, saveMessage: SaveMessage)
    ensures var lookup := findReceiver(withSender, receiverUsername);
      var r := Respond(withSender, receiverUsername, findReceiver, saveMessage);
      var save := saveMessage(AfterLookup(withSender, receiverUsername, findReceiver));
      && (lookup.NotFound? ==> r[MessageKey] == StringValue(NotFoundText(receiverUsername)))
      && (lookup.LookupThrows? ==> r[MessageKey] == StringValue(FailureText(lookup.detail)))
      && (lookup.Found? && save == Saved ==> r[MessageKey] == StringValue(SentText))
      && (lookup.Found? && save == NotSaved ==> r[MessageKey] == StringValue(TooLongText))
      && (lookup.Found? && save.SaveThrows? ==> r[MessageKey] == StringValue(FailureText(save.detail)))
  {
  }

  /** When the receiver is not found (or the lookup throws), the save is not consulted. */
  lemma SaveSkippedWithoutReceiver(withSender: MessageEntity.Data, receiverUsername: Option<string>,
                                   findReceiver: FindReceiver, save1: SaveMessage, save2: SaveMessage)
    requires !findReceiver(withSender, receiverUsername).Found?
    ensures Respond(withSender, receiverUsername, findReceiver, save1)
         == Respond(withSender, receiverUsername, findReceiver, save2)
  {
  }

  // ----- the new version -----

  /** The response supplier of the new version: look up, set the receiver, save. */
  method SupplyResponse(message: MessageEntity.Message, receiverUsername: Option<string>,
                        findReceiver: FindReceiver, saveMessage: SaveMessage) returns (s: Supplied)
    modifies message
    ensures message.Snapshot() == AfterLookup(old(message.Snapshot()), receiverUsername, findReceiver)
    ensures CreateResponse(s).body == Respond(old(message.Snapshot()), receiverUsername, findReceiver, saveMessage)
  {
    var lookup := findReceiver(message.Snapshot(), receiverUsername);
    if lookup.LookupThrows? {
      return Threw(lookup.detail);
    }
    if lookup.NotFound? {
      return Returned(ErrorResponse(NotFoundText(receiverUsername)));
    }
    message.SetReceiver(Some(lookup.receiver));
    var isSaved := saveMessage(message.Snapshot());
    if isSaved.SaveThrows? {
      return Threw(isSaved.detail);
    }
    s := Returned(if isSaved == Saved then SuccessResponse() else ErrorResponse(TooLongText));
  }

  /** `createMessage`, new version. */
  method CreateMessage(auth: Authorization, message: MessageEntity.Message, receiverUsername: Option<string>,
                       findReceiver: FindReceiver, saveMessage: SaveMessage) returns (reply: Reply)
    modifies message
    ensures auth.Refused? ==> reply == Thrown(auth.failure) && message.Snapshot() == old(message.Snapshot())
    ensures auth.Authorized? ==>
      var withSender := old(message.Snapshot()).(sender := Some(auth.user));
      && reply == Responded(ResponseEntity(HttpOk, Respond(withSender, receiverUsername, findReceiver, saveMessage)))
      && message.Snapshot() == AfterLookup(withSender, receiverUsername, findReceiver)
  {
    if auth.Refused? {
      return Thrown(auth.failure);
    }
    message.SetSender(Some(auth.user));
    var supplied := SupplyResponse(message, receiverUsername, findReceiver, saveMessage);
    reply := Responded(CreateResponse(supplied));
  }

  // ----- the old version -----

  /** `createMessage`, old version: one method that fills a map step by step. */
  method CreateMessageOld(auth: Authorization, message: MessageEntity.Message, receiverUsername: Option<string>,
                          findReceiver: FindReceiver, saveMessage: SaveMessage) returns (reply: Reply)
    modifies message
    ensures auth.Refused? ==> reply == Thrown(auth.failure) && message.Snapshot() == old(message.Snapshot())
    ensures auth.Authorized? ==>
      var withSender := old(message.Snapshot()).(sender := Some(auth.user));
      && reply == Responded(ResponseEntity(HttpOk, Respond(withSender, receiverUsername, findReceiver, saveMessage)))
      && message.Snapshot() == AfterLookup(withSender, receiverUsername, findReceiver)
  {
    if auth.Refused? {
      return Thrown(auth.failure);
    }
    message.SetSender(Some(auth.user));
    var responseMap: ResponseMap := map[];
    var lookup := findReceiver(message.Snapshot(), receiverUsername);
    if lookup.LookupThrows? {
      responseMap := responseMap[SuccessKey := BoolValue(false)];
      responseMap := responseMap[MessageKey := StringValue(FailureText(lookup.detail))];
      return Responded(ResponseEntity(HttpOk, responseMap));
    }
    if lookup.NotFound? {
      responseMap := responseMap[SuccessKey := BoolValue(false)];
      responseMap := responseMap[MessageKey := StringValue(NotFoundText(receiverUsername))];
      return Responded(ResponseEntity(HttpOk, responseMap));
    }
    message.SetReceiver(Some(lookup.receiver));
    var isSaved := saveMessage(message.Snapshot());
    if isSaved.SaveThrows? {
      responseMap := responseMap[SuccessKey := BoolValue(false)];
      responseMap := responseMap[MessageKey := StringValue(FailureText(isSaved.detail))];
      return Responded(ResponseEntity(HttpOk, responseMap));
    }
    if isSaved == Saved {
      responseMap := responseMap[SuccessKey := BoolValue(true)];
      responseMap := responseMap[MessageKey := StringValue(SentText)];
    } else {
      responseMap := responseMap[SuccessKey := BoolValue(false)];
      responseMap := responseMap[MessageKey := StringValue(TooLongText)];
    }
    reply := Responded(ResponseEntity(HttpOk, responseMap));
  }

  /**
   * The refactoring changed nothing observable: on two distinct messages
   * in the same state, with the same authorisation and the same
   * collaborator outcomes, the old and the new method give equal replies
   * and leave the two messages in equal states.
   */
  method OldAndNewAgree(auth: Authorization, m1: MessageEntity.Message, m2: MessageEntity.Message,
                        receiverUsername: Option<string>,
                        findReceiver: FindReceiver, saveMessage: SaveMessage)
    returns (oldReply: Reply, newReply: Reply)
    requires m1 != m2 && m1.Snapshot() == m2.Snapshot()
    modifies m1, m2
    ensures oldReply == newReply
    ensures m1.Snapshot() == m2.Snapshot()
  {
    oldReply := CreateMessageOld(auth, m1, receiverUsername, findReceiver, saveMessage);
    newReply := CreateMessage(auth, m2, receiverUsername, findReceiver, saveMessage);
  }
}
