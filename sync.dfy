/** The program's command wrappers and its synchronisation loop, run against
    two abstract sessions and proved to do what `SyncSpec` describes. */
module Sync {
  import opened ImapTypes
  import opened Text
  import opened Dialect
  import opened FolderName
  import opened Listing
  import opened Server
  import opened SyncSpec

  /** `__listMailboxes`: LIST, then one record per reply line. */
  method ListMailboxes(conn: Session) returns (r: Result<seq<MailboxListing>, Error>)
    ensures r == ParseListing(conn.profile.listStatus, conn.profile.listLines)
  {
    var res, data := conn.List();
    if res != OK {
      return Failure(InvalidReply(res));
    }
    var folders: seq<MailboxListing> := [];
    var i := 0;
    while i < |data|
      invariant 0 <= i <= |data|
      invariant |folders| == i
      invariant forall k :: 0 <= k < i ==> ParseLine(data[k]) == Some(folders[k])
    {
      var m := ParseLine(data[i]);
      if m.None? {
        return Failure(NoMatch(data[i]));
      }
      folders := folders + [m.value];
      i := i + 1;
    }
    var spec := ParseListing(res, data);
    assert spec.Success?;
    assert forall k :: 0 <= k < |data| ==> Some(spec.value[k]) == Some(folders[k]);
    assert spec.value == folders;
    return Success(folders);
  }

  /** `__listMessages`: SEARCH ALL, then the whitespace-split payload. */
  method ListMessages(conn: Session) returns (r: Result<seq<string>, Error>)
    ensures var reply := SearchReply(conn.mailboxes, conn.selected);
            (reply.status != OK ==> r == Failure(InvalidReply(reply.status)))
            && (reply.status == OK ==> r == Success(SplitWs(reply.data)))
    ensures r.Success? <==> conn.selected.Some? && conn.selected.value in conn.mailboxes
    ensures r.Success? ==> r.value == SeqNumbers(|conn.mailboxes[conn.selected.value]|)
  {
    var res, data := conn.Search();
    if res != OK {
      return Failure(InvalidReply(res));
    }
    SearchSplitsToSeqNumbers(conn.mailboxes, conn.selected.value);
    return Success(SplitWs(data));
  }

  /** `__getMessageId`: FETCH of the header, then its Message-ID. */
  method GetMessageId(conn: Session, id: string) returns (r: Result<Option<string>, Error>)
    ensures var m := Addressed(conn.mailboxes, conn.selected, id);
            (m.None? ==> r == Failure(InvalidReply(NO))) && (m.Some? ==> r == Success(m.value.messageId))
  {
    var res, messageId := conn.FetchHeader(id);
    if res != OK {
      return Failure(InvalidReply(res));
    }
    return Success(messageId);
  }

  /** `__getMessage`: FETCH of the whole RFC 822 message. */
  method GetMessage(conn: Session, id: string) returns (r: Result<Message, Error>)
    ensures var m := Addressed(conn.mailboxes, conn.selected, id);
            (m.None? ==> r == Failure(InvalidReply(NO))) && (m.Some? ==> r == Success(m.value))
  {
    var res, message := conn.FetchFull(id);
    if res != OK {
      return Failure(InvalidReply(res));
    }
    return Success(message);
  }

  /** The loop that builds `dstmexids`: one Message-ID per listed message,
      stopping at the first fetch that fails. */
  method CollectMessageIds(conn: Session, ids: seq<string>) returns (r: Result<seq<Option<string>>, Error>)
    ensures r.Success? <==> forall k :: 0 <= k < |ids| ==> Addressed(conn.mailboxes, conn.selected, ids[k]).Some?
    ensures r.Success? ==> |r.value| == |ids|
    ensures r.Success? ==>
              forall k :: 0 <= k < |ids| ==> r.value[k] == Addressed(conn.mailboxes, conn.selected, ids[k]).value.messageId
    ensures r.Failure? ==> r.error == InvalidReply(NO)
  {
    var mexids: seq<Option<string>> := [];
    var i := 0;
    while i < |ids|
      invariant 0 <= i <= |ids|
      invariant |mexids| == i
      invariant forall k :: 0 <= k < i ==> Addressed(conn.mailboxes, conn.selected, ids[k]).Some?
      invariant forall k :: 0 <= k < i ==>
                  mexids[k] == Addressed(conn.mailboxes, conn.selected, ids[k]).value.messageId
    {
      var mid := GetMessageId(conn, ids[i]);
      if mid.Failure? {
        return Failure(mid.error);
      }
      mexids := mexids + [mid.value];
      i := i + 1;
    }
    return Success(mexids);
  }

  /** The loop over `excludes` that sets `skip` and stops at the first match. */
  method CheckExcluded(name: string, excludes: seq<string>) returns (skip: bool)
    ensures skip == IsExcluded(name, excludes)
  {
    skip := false;
    var k := 0;
    while k < |excludes|
      invariant 0 <= k <= |excludes|
      invariant forall j :: 0 <= j < k ==> !MatchesAtStart(excludes[j], name)
    {
      if MatchesAtStart(excludes[k], name) {
        skip := true;
        break;
      }
      k := k + 1;
    }
  }

  /** The copy loop: every source message whose Message-ID is not in the
      snapshot is fetched in full and appended, in source order. */
  method CopyMissing(src: Session, dst: Session, dname: string, srcids: seq<string>,
                     snapshot: seq<Option<string>>)
    requires src != dst && src.Valid() && dst.Valid()
    requires src.selected.Some? && dname in dst.mailboxes
    requires srcids == SeqNumbers(|src.mailboxes[src.selected.value]|)
    modifies dst`mailboxes, dst`log
    ensures dst.Valid()
    ensures var copies := ToCopy(src.mailboxes[src.selected.value], snapshot);
            dst.mailboxes == old(dst.mailboxes)[dname := old(dst.mailboxes)[dname] + copies]
            && dst.log == old(dst.log) + AppendCommands(dname, copies)
  {
    ghost var msgs := src.mailboxes[src.selected.value];
    ghost var boxes0 := dst.mailboxes;
    ghost var log0 := dst.log;
    assert ToCopy(msgs[..0], snapshot) == [];
    assert boxes0[dname] + [] == boxes0[dname];
    assert boxes0[dname := boxes0[dname]] == boxes0;
    var i := 0;
    while i < |srcids|
      invariant 0 <= i <= |srcids|
      invariant dst.Valid()
      invariant dst.mailboxes == boxes0[dname := boxes0[dname] + ToCopy(msgs[..i], snapshot)]
      invariant dst.log == log0 + AppendCommands(dname, ToCopy(msgs[..i], snapshot))
    {
      AddressedBySeqNumber(src.mailboxes, src.selected.value, i);
      var mid := GetMessageId(src, srcids[i]);
      assert mid == Success(msgs[i].messageId);
      ghost var done := ToCopy(msgs[..i], snapshot);
      ToCopySnoc(msgs, i, snapshot);
      if mid.value !in snapshot {
        var mex := GetMessage(src, srcids[i]);
        var status := dst.Append(dname, mex.value);
        AppendedOneMore(boxes0, log0, dname, done, msgs[i]);
      }
      i := i + 1;
    }
    assert msgs[..i] == msgs;
  }

  /** Appending one more message keeps the store and the log in the shape of
      the loop invariant of `CopyMissing`. */
  lemma AppendedOneMore(boxes0: Store, log0: seq<Command>, dname: string, done: seq<Message>, m: Message)
    requires dname in boxes0
    ensures var b := boxes0[dname := boxes0[dname] + done];
            b[dname := b[dname] + [m]] == boxes0[dname := boxes0[dname] + (done + [m])]
    ensures log0 + AppendCommands(dname, done) + [Appended(dname, m)] == log0 + AppendCommands(dname, done + [m])
  {
    assert boxes0[dname] + done + [m] == boxes0[dname] + (done + [m]);
    assert AppendCommands(dname, done + [m]) == AppendCommands(dname, done) + [Appended(dname, m)];
  }

  /** One pass of the loop body of `run` over the source folder `name`. */
  method SyncOne(src: Session, dst: Session, name: string, srcType: ServerType, dstType: ServerType,
                 excludes: seq<string>) returns (result: FolderResult)
    requires src != dst && src.Valid() && dst.Valid()
    modifies src`selected, src`log, dst`mailboxes, dst`selected, dst`log
    ensures src.Valid() && dst.Valid()
    ensures var s := SyncFolder(Config(src.profile, src.mailboxes, srcType, dst.profile, dstType, excludes),
                                old(dst.mailboxes), name);
            result == s.result && dst.mailboxes == s.boxes
            && src.log == old(src.log) + s.srcCmds && dst.log == old(dst.log) + s.dstCmds
  {
    var dname := Translate(name, srcType, dstType);
    var skip := CheckExcluded(name, excludes);
    if skip {
      return Excluded;
    }
    result := PassOne(src, dst, name, dname, Config(src.profile, src.mailboxes, srcType, dst.profile, dstType, excludes));
  }

  /** The CREATE, the read-only source SELECT and the special-mailbox skip
      of `run`, then the copy. */
  method PassOne(src: Session, dst: Session, name: string, dname: string, c: Config)
    returns (result: FolderResult)
    requires src != dst && src.Valid() && dst.Valid()
    requires c.srcProfile == src.profile && c.srcBoxes == src.mailboxes && c.dstProfile == dst.profile
    modifies src`selected, src`log, dst`mailboxes, dst`selected, dst`log
    ensures src.Valid() && dst.Valid()
    ensures var s := PassFolder(c, old(dst.mailboxes), name, dname);
            result == s.result && dst.mailboxes == s.boxes
            && src.log == old(src.log) + s.srcCmds && dst.log == old(dst.log) + s.dstCmds
  {
    ghost var srcLog0, dstLog0 := src.log, dst.log;
    var created := dst.Create(dname);
    ghost var boxes1 := dst.mailboxes;
    var res, data := src.Select(name, true);
    if res == NO && c.srcType == Exchange && Contains(data, SpecialMarker) {
      return SkippedSpecial;
    }
    result := CopyOne(src, dst, name, dname, res, c);
    ghost var t := CopyFolder(c, boxes1, name, dname, res);
    assert srcLog0 + [Selected(name, true)] + t.srcCmds == srcLog0 + ([Selected(name, true)] + t.srcCmds);
    assert dstLog0 + [Created(dname)] + t.dstCmds == dstLog0 + ([Created(dname)] + t.dstCmds);
  }

  /** The rest of a folder's pass in `run`: snapshot the destination's
      Message-IDs, list the source messages and copy the missing ones. */
  method CopyOne(src: Session, dst: Session, name: string, dname: string, srcStatus: Status, ghost c: Config)
    returns (result: FolderResult)
    requires src != dst && src.Valid() && dst.Valid()
    requires dname in dst.mailboxes && c.srcBoxes == src.mailboxes && c.dstProfile == dst.profile
    requires src.selected == (if srcStatus == OK then Some(name) else None)
    modifies dst`mailboxes, dst`selected, dst`log
    ensures dst.Valid()
    ensures var s := CopyFolder(c, old(dst.mailboxes), name, dname, srcStatus);
            result == s.result && dst.mailboxes == s.boxes
            && src.log == old(src.log) + s.srcCmds && dst.log == old(dst.log) + s.dstCmds
  {
    var dstmexids := SnapshotIds(dst, dname);
    if dstmexids.Failure? {
      return Aborted(dstmexids.error);
    }
    var srcids := ListMessages(src);
    if srcids.Failure? {
      return Aborted(srcids.error);
    }
    CopyMissing(src, dst, dname, srcids.value, dstmexids.value);
    return Synced;
  }

  /** The destination SELECT and the `dstmexids` loop of `run`: select the
      destination folder read-write, list its messages and collect their
      Message-IDs. */
  method SnapshotIds(dst: Session, dname: string) returns (r: Result<seq<Option<string>>, Error>)
    requires dst.Valid() && dname in dst.mailboxes
    modifies dst`selected, dst`log
    ensures dst.Valid()
    ensures dst.log == old(dst.log) + [Selected(dname, false)]
    ensures r.Success? <==> SelectReply(dst.profile.refusals, dst.mailboxes, dname).status == OK
    ensures r.Failure? ==> r.error == InvalidReply(NO)
    ensures r.Success? ==> r.value == Ids(dst.mailboxes[dname]) && dst.selected == Some(dname)
  {
    var dstSelected, dstData := dst.Select(dname, false);
    var dstids := ListMessages(dst);
    if dstids.Failure? {
      return Failure(dstids.error);
    }
    var dstmexids := CollectMessageIds(dst, dstids.value);
    forall k | 0 <= k < |dstids.value|
      ensures Addressed(dst.mailboxes, dst.selected, dstids.value[k]) == Some(dst.mailboxes[dname][k])
    {
      AddressedBySeqNumber(dst.mailboxes, dname, k);
    }
    assert dstmexids.value == Ids(dst.mailboxes[dname]);
    return dstmexids;
  }

  /** `run` from the detection of the server types to the end of the loop over
      the source folders. */
  method Run(src: Session, dst: Session, excludes: seq<string>, rules: seq<Rule>) returns (outcome: Outcome)
    requires src != dst && src.Valid() && dst.Valid()
    requires IsTableOrder(rules)
    modifies src`selected, src`log, dst`mailboxes, dst`selected, dst`log
    ensures src.mailboxes == old(src.mailboxes)
    ensures var run := RunSpec(src.profile, src.mailboxes, dst.profile, old(dst.mailboxes), excludes, rules);
            outcome == run.outcome && dst.mailboxes == run.progress.boxes
            && src.log == old(src.log) + run.progress.srcLog
            && dst.log == old(dst.log) + run.progress.dstLog
  {
    var srcType := ServerTypeOf(src.profile.welcome, rules);
    var dstType := ServerTypeOf(dst.profile.welcome, rules);
    var srcFolders := ListMailboxes(src);
    if srcFolders.Failure? {
      RunSpecUnlisted(src.profile, src.mailboxes, dst.profile, dst.mailboxes, excludes, rules, srcFolders.error);
      return Failed(srcFolders.error);
    }
    var dstFolders := ListMailboxes(dst);
    if dstFolders.Failure? {
      RunSpecUnlisted(src.profile, src.mailboxes, dst.profile, dst.mailboxes, excludes, rules, dstFolders.error);
      return Failed(dstFolders.error);
    }
    RunSpecListed(src.profile, src.mailboxes, dst.profile, dst.mailboxes, excludes, rules, srcFolders.value);
    var c := Config(src.profile, src.mailboxes, srcType, dst.profile, dstType, excludes);
    outcome := SyncAll(src, dst, srcFolders.value, c);
  }

  /** The loop of `run` over the source folders, which ends the run at the
      first folder that aborts. */
  method SyncAll(src: Session, dst: Session, folders: seq<MailboxListing>, c: Config)
    returns (outcome: Outcome)
    requires src != dst && src.Valid() && dst.Valid()
    requires c.srcProfile == src.profile && c.srcBoxes == src.mailboxes && c.dstProfile == dst.profile
    modifies src`selected, src`log, dst`mailboxes, dst`selected, dst`log
    ensures src.mailboxes == old(src.mailboxes)
    ensures var p := SyncFolders(c, Names(folders), old(dst.mailboxes));
            outcome == (if Stopped(p) then Failed(p.results[|p.results| - 1].error) else Done)
            && dst.mailboxes == p.boxes
            && src.log == old(src.log) + p.srcLog && dst.log == old(dst.log) + p.dstLog
  {
    ghost var names := Names(folders);
    ghost var boxes0 := dst.mailboxes;
    ghost var srcLog0 := src.log;
    ghost var dstLog0 := dst.log;
    var i := 0;
    while i < |folders|
      invariant 0 <= i <= |folders|
      invariant src.Valid() && dst.Valid()
      invariant src.mailboxes == c.srcBoxes
      invariant var p := SyncFolders(c, names[..i], boxes0);
                !Stopped(p) && dst.mailboxes == p.boxes
                && src.log == srcLog0 + p.srcLog && dst.log == dstLog0 + p.dstLog
    {
      ghost var before := SyncFolders(c, names[..i], boxes0);
      assert Config(src.profile, src.mailboxes, c.srcType, dst.profile, c.dstType, c.excludes) == c;
      var r := SyncOne(src, dst, folders[i].mailbox, c.srcType, c.dstType, c.excludes);
      ghost var s := SyncFolder(c, before.boxes, names[i]);
      SyncFoldersStep(c, names, boxes0, i);
      ExtendLogs(before, s, SyncFolders(c, names[..i + 1], boxes0), srcLog0, dstLog0, src.log, dst.log);
      if r.Aborted? {
        StoppedIsFinal(c, names, boxes0, i + 1);
        return Failed(r.error);
      }
      i := i + 1;
    }
    assert names[..i] == names;
    return Done;
  }
}
