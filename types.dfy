/** Values shared by every part of the model: optional values, results,
    IMAP reply statuses, messages, and the two run-time errors the program raises. */
module ImapTypes {

  datatype Option<+T> = None | Some(value: T)

  datatype Result<+R, +E> = Success(value: R) | Failure(error: E)

  /** Status word of a tagged IMAP reply. */
  datatype Status = OK | NO

  /** A reply as the session returns it: a status and its payload. */
  datatype Reply<+T> = Reply(status: Status, data: T)

  /** A message as stored by a server. The Message-ID header is absent for
      some malformed mail; `body` stands for the rest of the RFC 822 text. */
  datatype Message = Message(messageId: Option<string>, body: string)

  /** The two `RuntimeError`s of the program: a reply whose status is not OK,
      and a LIST line the listing pattern does not match. */
  datatype Error = InvalidReply(status: Status) | NoMatch(line: string)
}
