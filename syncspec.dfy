/** What one run of the synchronisation does, as functions of the two servers'
    states: per source folder in listing order, the exclusion check, the
    best-effort CREATE, the Exchange special-mailbox skip, the snapshot of the
    destination's Message-IDs and the appends of the messages missing from it. */
module SyncSpec {
  import opened ImapTypes
  import opened Text
  import opened Dialect
  import opened FolderName
  import opened Listing
  import opened Server

  /** What an Exchange server says when it refuses to open a special mailbox. */
  const SpecialMarker := "special mailbox"

  /** An exclusion pattern is applied with `re.match`, which is anchored at the
      start of the name; patterns are taken here as literal texts. */
  predicate MatchesAtStart(pattern: string, name: string) {
    pattern <= name
  }

  predicate IsExcluded(name: string, excludes: seq<string>) {
    exists k :: 0 <= k < |excludes| && MatchesAtStart(excludes[k], name)
  }

  /** The Message-IDs of a mailbox, in order (the list `dstmexids`). */
  function Ids(ms: seq<Message>): (r: seq<Option<string>>)
    ensures |r| == |ms|
    ensures forall k :: 0 <= k < |ms| ==> r[k] == ms[k].messageId
  {
    seq(|ms|, k requires 0 <= k < |ms| => ms[k].messageId)
  }

  /** The source messages whose Message-ID is not in the snapshot, in source order.
      Message-IDs are compared as values, so a message without one is left out
      whenever the snapshot holds a message without one. */
  function ToCopy(src: seq<Message>, snapshot: seq<Option<string>>): seq<Message>
    decreases |src|
  {
    if src == [] then []
    else
      var n := |src| - 1;
      ToCopy(src[..n], snapshot) + (if src[n].messageId in snapshot then [] else [src[n]])
  }

  /** One more source message extends the messages to copy by that message,
      unless its Message-ID is in the snapshot. */
  lemma ToCopySnoc(src: seq<Message>, i: nat, snapshot: seq<Option<string>>)
    requires i < |src|
    ensures src[i].messageId in snapshot ==> ToCopy(src[..i + 1], snapshot) == ToCopy(src[..i], snapshot)
    ensures src[i].messageId !in snapshot ==> ToCopy(src[..i + 1], snapshot) == ToCopy(src[..i], snapshot) + [src[i]]
  {
    assert src[..i + 1][..i] == src[..i];
    assert ToCopy(src[..i], snapshot) + [] == ToCopy(src[..i], snapshot);
  }

  function AppendCommands(name: string, ms: seq<Message>): (cmds: seq<Command>)
    ensures |cmds| == |ms|
    ensures forall k :: 0 <= k < |ms| ==> cmds[k] == Appended(name, ms[k])
  {
    seq(|ms|, k requires 0 <= k < |ms| => Appended(name, ms[k]))
  }

  /** Everything a run fixes before its loop over folders. */
  datatype Config = Config(
    srcProfile: Profile,
    srcBoxes: Store,
    srcType: ServerType,
    dstProfile: Profile,
    dstType: ServerType,
    excludes: seq<string>)

  /** How the processing of one source folder ends. */
  datatype FolderResult = Excluded | SkippedSpecial | Synced | Aborted(error: Error)

  /** One folder's result, the commands it issued on each session, and the
      destination store afterwards. */
  datatype Step = Step(result: FolderResult, srcCmds: seq<Command>, dstCmds: seq<Command>, boxes: Store)

  /** The refusal that makes the program skip a source folder. */
  predicate IsSpecialRefusal(srcType: ServerType, sel: Reply<string>) {
    sel.status == NO && srcType == Exchange && Contains(sel.data, SpecialMarker)
  }

  /** One pass of the loop body over the source folder `name`. */
  function SyncFolder(c: Config, boxes: Store, name: string): Step {
    if IsExcluded(name, c.excludes) then Step(Excluded, [], [], boxes)
    else PassFolder(c, boxes, name, Translate(name, c.srcType, c.dstType))
  }

  /** The pass over a folder that is not excluded, into `dname`: CREATE, the
      read-only source SELECT and the special-mailbox skip. */
  function PassFolder(c: Config, boxes: Store, name: string, dname: string): Step {
    var created := CreateResult(boxes, dname);
    var srcSel := SelectReply(c.srcProfile.refusals, c.srcBoxes, name);
    if IsSpecialRefusal(c.srcType, srcSel) then
      Step(SkippedSpecial, [Selected(name, true)], [Created(dname)], created)
    else
      var t := CopyFolder(c, created, name, dname, srcSel.status);
      Step(t.result, [Selected(name, true)] + t.srcCmds, [Created(dname)] + t.dstCmds, t.boxes)
  }

  /** The rest of the pass once the source SELECT is not the special refusal.
      The destination SELECT is not checked, and neither is a failed source
      SELECT: each fails the next SEARCH on its session instead. */
  function CopyFolder(c: Config, boxes: Store, name: string, dname: string, srcStatus: Status): Step
    requires dname in boxes
  {
    var srcCmds := [];
    var dstCmds := [Selected(dname, false)];
    var dstSel := SelectReply(c.dstProfile.refusals, boxes, dname);
    if dstSel.status != OK || srcStatus != OK || name !in c.srcBoxes then
      Step(Aborted(InvalidReply(NO)), srcCmds, dstCmds, boxes)
    else
      var copies := ToCopy(c.srcBoxes[name], Ids(boxes[dname]));
      Step(Synced, srcCmds, dstCmds + AppendCommands(dname, copies), boxes[dname := boxes[dname] + copies])
  }

  /** A folder that is not excluded gets the pass into its translated name. */
  lemma SyncFolderUnexcluded(c: Config, boxes: Store, name: string)
    requires !IsExcluded(name, c.excludes)
    ensures SyncFolder(c, boxes, name) == PassFolder(c, boxes, name, Translate(name, c.srcType, c.dstType))
  {
  }

  /** Past the skip, the pass is the CREATE and the source SELECT followed by the copy stage. */
  lemma PassFolderUnskipped(c: Config, boxes: Store, name: string, dname: string)
    requires !IsSpecialRefusal(c.srcType, SelectReply(c.srcProfile.refusals, c.srcBoxes, name))
    ensures var status := SelectReply(c.srcProfile.refusals, c.srcBoxes, name).status;
            var t := CopyFolder(c, CreateResult(boxes, dname), name, dname, status);
            PassFolder(c, boxes, name, dname)
              == Step(t.result, [Selected(name, true)] + t.srcCmds, [Created(dname)] + t.dstCmds, t.boxes)
  {
  }

  /** The folder results so far, the commands issued on each session, and the
      destination store. */
  datatype Progress = Progress(results: seq<FolderResult>, srcLog: seq<Command>, dstLog: seq<Command>, boxes: Store)

  predicate Stopped(p: Progress) {
    |p.results| > 0 && p.results[|p.results| - 1].Aborted?
  }

  /** The loop over the source folders; the first aborted folder ends the run. */
  function SyncFolders(c: Config, names: seq<string>, boxes: Store): Progress
    decreases |names|
  {
    if names == [] then Progress([], [], [], boxes)
    else
      var p := SyncFolders(c, names[..|names| - 1], boxes);
      if Stopped(p) then p
      else
        var s := SyncFolder(c, p.boxes, names[|names| - 1]);
        Progress(p.results + [s.result], p.srcLog + s.srcCmds, p.dstLog + s.dstCmds, s.boxes)
  }

  datatype Outcome = Done | Failed(error: Error)

  datatype Run = Run(outcome: Outcome, progress: Progress)

  function Names(folders: seq<MailboxListing>): (names: seq<string>)
    ensures |names| == |folders|
    ensures forall k :: 0 <= k < |folders| ==> names[k] == folders[k].mailbox
  {
    seq(|folders|, k requires 0 <= k < |folders| => folders[k].mailbox)
  }

  /** A whole run: detect both server types, list both servers' mailboxes
      (either listing may fail the run), then sync every source folder. */
  function RunSpec(src: Profile, srcBoxes: Store, dst: Profile, dstBoxes: Store,
                   excludes: seq<string>, rules: seq<Rule>): Run
    requires IsTableOrder(rules)
  {
    match ParseListing(src.listStatus, src.listLines)
    case Failure(e) => Run(Failed(e), Progress([], [], [], dstBoxes))
    case Success(folders) =>
      match ParseListing(dst.listStatus, dst.listLines)
      case Failure(e) => Run(Failed(e), Progress([], [], [], dstBoxes))
      case Success(_) =>
        var c := Config(src, srcBoxes, ServerTypeOf(src.welcome, rules),
                        dst, ServerTypeOf(dst.welcome, rules), excludes);
        var p := SyncFolders(c, Names(folders), dstBoxes);
        Run(if Stopped(p) then Failed(p.results[|p.results| - 1].error) else Done, p)
  }

  /** A run whose source or destination listing fails stops there. */
  lemma RunSpecUnlisted(src: Profile, srcBoxes: Store, dst: Profile, dstBoxes: Store,
                        excludes: seq<string>, rules: seq<Rule>, e: Error)
    requires IsTableOrder(rules)
    requires ParseListing(src.listStatus, src.listLines) == Failure(e)
             || (ParseListing(src.listStatus, src.listLines).Success?
                 && ParseListing(dst.listStatus, dst.listLines) == Failure(e))
    ensures RunSpec(src, srcBoxes, dst, dstBoxes, excludes, rules) == Run(Failed(e), Progress([], [], [], dstBoxes))
  {
  }

  /** A run whose listings both succeed is the loop over the source folders. */
  lemma RunSpecListed(src: Profile, srcBoxes: Store, dst: Profile, dstBoxes: Store,
                      excludes: seq<string>, rules: seq<Rule>, folders: seq<MailboxListing>)
    requires IsTableOrder(rules)
    requires ParseListing(src.listStatus, src.listLines) == Success(folders)
    requires ParseListing(dst.listStatus, dst.listLines).Success?
    ensures var c := Config(src, srcBoxes, ServerTypeOf(src.welcome, rules),
                            dst, ServerTypeOf(dst.welcome, rules), excludes);
            var p := SyncFolders(c, Names(folders), dstBoxes);
            RunSpec(src, srcBoxes, dst, dstBoxes, excludes, rules)
              == Run(if Stopped(p) then Failed(p.results[|p.results| - 1].error) else Done, p)
  {
  }

  /** Once a folder has aborted, the remaining folders change nothing. */
  lemma {:induction false} StoppedIsFinal(c: Config, names: seq<string>, boxes: Store, i: nat)
    requires i <= |names|
    requires Stopped(SyncFolders(c, names[..i], boxes))
    ensures SyncFolders(c, names, boxes) == SyncFolders(c, names[..i], boxes)
    decreases |names| - i
  {
    if i < |names| {
      assert names[..i + 1][..i] == names[..i];
      StoppedIsFinal(c, names, boxes, i + 1);
    } else {
      assert names[..i] == names;
    }
  }

  /** One more folder, when the run has not stopped, is one more pass. */
  lemma SyncFoldersStep(c: Config, names: seq<string>, boxes: Store, i: nat)
    requires i < |names|
    requires !Stopped(SyncFolders(c, names[..i], boxes))
    ensures var p := SyncFolders(c, names[..i], boxes);
            var s := SyncFolder(c, p.boxes, names[i]);
            SyncFolders(c, names[..i + 1], boxes)
              == Progress(p.results + [s.result], p.srcLog + s.srcCmds, p.dstLog + s.dstCmds, s.boxes)
  {
    assert names[..i + 1][..i] == names[..i];
  }

  /** Logs extended by one pass's commands are the logs of the progress that
      includes the pass. */
  lemma ExtendLogs(p: Progress, s: Step, q: Progress,
                   srcLog0: seq<Command>, dstLog0: seq<Command>, srcLog: seq<Command>, dstLog: seq<Command>)
    requires q == Progress(p.results + [s.result], p.srcLog + s.srcCmds, p.dstLog + s.dstCmds, s.boxes)
    requires srcLog == srcLog0 + p.srcLog + s.srcCmds && dstLog == dstLog0 + p.dstLog + s.dstCmds
    ensures srcLog == srcLog0 + q.srcLog && dstLog == dstLog0 + q.dstLog
  {
    assert srcLog0 + p.srcLog + s.srcCmds == srcLog0 + (p.srcLog + s.srcCmds);
    assert dstLog0 + p.dstLog + s.dstCmds == dstLog0 + (p.dstLog + s.dstCmds);
  }
}
