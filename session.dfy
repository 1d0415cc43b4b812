/** An abstract, in-memory IMAP session: the state behind one authenticated
    connection and the commands the program issues on it. */
module Server {
  import opened ImapTypes
  import opened Text

  /** Mailbox name to its messages, in sequence-number order. */
  type Store = map<string, seq<Message>>

  /** What a server shows that the program never changes: its greeting, its
      LIST reply, and the text of the NO reply with which it refuses to SELECT
      certain mailboxes (an Exchange special mailbox, say). */
  datatype Profile = Profile(
    welcome: string,
    listStatus: Status,
    listLines: seq<string>,
    refusals: map<string, string>)

  /** The commands that name a mailbox, as recorded in a session's log. */
  datatype Command = Created(name: string) | Selected(name: string, readOnly: bool) | Appended(name: string, message: Message)

  /** Text of the NO reply to SELECT of a mailbox that does not exist. */
  const NonexistentText := "[NONEXISTENT] Unknown Mailbox"

  /** The store after CREATE: a new, empty mailbox unless it exists already. */
  function CreateResult(boxes: Store, name: string): (r: Store)
    ensures name in r && r.Keys == boxes.Keys + {name}
    ensures forall n :: n in boxes ==> r[n] == boxes[n]
    ensures name !in boxes ==> r[name] == []
  {
    if name in boxes then boxes else boxes[name := []]
  }

  /** Reply to SELECT: refused with the server's text, OK with the number of
      messages, or NO when there is no such mailbox. */
  function SelectReply(refusals: map<string, string>, boxes: Store, name: string): (r: Reply<string>)
    ensures r.status == OK <==> name !in refusals && name in boxes
  {
    if name in refusals then Reply(NO, refusals[name])
    else if name in boxes then Reply(OK, NatToString(|boxes[name]|))
    else Reply(NO, NonexistentText)
  }

  /** The sequence numbers 1 .. n as strings. */
  function SeqNumbers(n: nat): (ids: seq<string>)
    ensures |ids| == n
    ensures forall t :: t in ids ==> t != [] && NoWs(t)
  {
    seq(n, k requires 0 <= k < n => NatToString(k + 1))
  }

  /** Reply to SEARCH ALL: the sequence numbers of the selected mailbox. */
  function SearchReply(boxes: Store, selected: Option<string>): Reply<string> {
    if selected.Some? && selected.value in boxes
    then Reply(OK, JoinSp(SeqNumbers(|boxes[selected.value]|)))
    else Reply(NO, [])
  }

  /** The message of the selected mailbox that a sequence number names. */
  function Addressed(boxes: Store, selected: Option<string>, id: string): Option<Message> {
    if selected.Some? && selected.value in boxes then
      match ParseNat(id)
      case Some(k) =>
        if 1 <= k <= |boxes[selected.value]| then Some(boxes[selected.value][k - 1]) else None
      case None => None
    else None
  }

  /** Reply to FETCH id (BODY.PEEK[HEADER]), with the header's Message-ID. */
  function HeaderReply(boxes: Store, selected: Option<string>, id: string): Reply<Option<string>> {
    match Addressed(boxes, selected, id)
    case Some(m) => Reply(OK, m.messageId)
    case None => Reply(NO, None)
  }

  const NoMessage := Message(None, [])

  /** Reply to FETCH id (RFC822), with the whole message. */
  function FullReply(boxes: Store, selected: Option<string>, id: string): Reply<Message> {
    match Addressed(boxes, selected, id)
    case Some(m) => Reply(OK, m)
    case None => Reply(NO, NoMessage)
  }

  /** The k-th number SEARCH returns addresses the k-th message. */
  lemma AddressedBySeqNumber(boxes: Store, name: string, k: nat)
    requires name in boxes && k < |boxes[name]|
    ensures Addressed(boxes, Some(name), SeqNumbers(|boxes[name]|)[k]) == Some(boxes[name][k])
  {
    ParseNatToString(k + 1);
  }

  /** SEARCH's payload splits into exactly the sequence numbers. */
  lemma SearchSplitsToSeqNumbers(boxes: Store, name: string)
    requires name in boxes
    ensures SplitWs(SearchReply(boxes, Some(name)).data) == SeqNumbers(|boxes[name]|)
  {
    SplitJoin(SeqNumbers(|boxes[name]|));
  }

  class Session {
    const profile: Profile
    var mailboxes: Store
    var selected: Option<string>
    /** Every command naming a mailbox that was issued on this session. */
    ghost var log: seq<Command>

    ghost predicate Valid()
      reads this
    {
      selected.Some? ==> selected.value in mailboxes
    }

    constructor (profile: Profile, mailboxes: Store)
      ensures Valid()
      ensures this.profile == profile && this.mailboxes == mailboxes
      ensures selected == None && log == []
    {
      this.profile := profile;
      this.mailboxes := mailboxes;
      selected := None;
      log := [];
    }

    method List() returns (res: Status, data: seq<string>)
      ensures res == profile.listStatus && data == profile.listLines
    {
      res, data := profile.listStatus, profile.listLines;
    }

    method Create(name: string) returns (res: Status)
      requires Valid()
      modifies this`mailboxes, this`log
      ensures Valid()
      ensures res == (if name in old(mailboxes) then NO else OK)
      ensures mailboxes == CreateResult(old(mailboxes), name)
      ensures log == old(log) + [Created(name)]
    {
      res := if name in mailboxes then NO else OK;
      mailboxes := CreateResult(mailboxes, name);
      log := log + [Created(name)];
    }

    /** SELECT (readOnly) or EXAMINE; a failed selection leaves nothing selected. */
    method Select(name: string, readOnly: bool) returns (res: Status, data: string)
      requires Valid()
      modifies this`selected, this`log
      ensures Valid()
      ensures Reply(res, data) == SelectReply(profile.refusals, mailboxes, name)
      ensures selected == (if res == OK then Some(name) else None)
      ensures log == old(log) + [Selected(name, readOnly)]
    {
      var r := SelectReply(profile.refusals, mailboxes, name);
      res, data := r.status, r.data;
      selected := if res == OK then Some(name) else None;
      log := log + [Selected(name, readOnly)];
    }

    method Search() returns (res: Status, data: string)
      ensures Reply(res, data) == SearchReply(mailboxes, selected)
    {
      var r := SearchReply(mailboxes, selected);
      res, data := r.status, r.data;
    }

    method FetchHeader(id: string) returns (res: Status, messageId: Option<string>)
      ensures Reply(res, messageId) == HeaderReply(mailboxes, selected, id)
    {
      var r := HeaderReply(mailboxes, selected, id);
      res, messageId := r.status, r.data;
    }

    method FetchFull(id: string) returns (res: Status, message: Message)
      ensures Reply(res, message) == FullReply(mailboxes, selected, id)
    {
      var r := FullReply(mailboxes, selected, id);
      res, message := r.status, r.data;
    }

    method Append(name: string, message: Message) returns (res: Status)
      requires Valid()
      modifies this`mailboxes, this`log
      ensures Valid()
      ensures res == (if name in old(mailboxes) then OK else NO)
      ensures mailboxes == if name in old(mailboxes)
                           then old(mailboxes)[name := old(mailboxes)[name] + [message]]
                           else old(mailboxes)
      ensures log == old(log) + [Appended(name, message)]
    {
      if name in mailboxes {
        res := OK;
        mailboxes := mailboxes[name := mailboxes[name] + [message]];
      } else {
        res := NO;
      }
      log := log + [Appended(name, message)];
    }
  }
}
