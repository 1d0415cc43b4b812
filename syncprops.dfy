/** Properties of a run: the deduplication rule, what each folder pass does,
    and what a whole run does to the two servers. */
module SyncProps {
  import opened ImapTypes
  import opened Text
  import opened Dialect
  import opened FolderName
  import opened Listing
  import opened Server
  import opened SyncSpec

  // ---------------------------------------------------------------------
  // The deduplication rule

  /** A message is copied exactly as many times as it occurs in the source
      when its Message-ID is not in the snapshot, and never otherwise. */
  lemma {:induction false} ToCopyCounts(src: seq<Message>, snapshot: seq<Option<string>>, m: Message)
    ensures multiset(ToCopy(src, snapshot))[m] == if m.messageId in snapshot then 0 else multiset(src)[m]
    decreases |src|
  {
    if src != [] {
      var n := |src| - 1;
      ToCopyCounts(src[..n], snapshot, m);
      assert src == src[..n] + [src[n]];
      assert multiset(src) == multiset(src[..n]) + multiset{src[n]};
    }
  }

  /** A message is appended if and only if it is a source message whose
      Message-ID the snapshot lacks. */
  lemma ToCopyMembers(src: seq<Message>, snapshot: seq<Option<string>>, m: Message)
    ensures m in ToCopy(src, snapshot) <==> m in src && m.messageId !in snapshot
  {
    ToCopyCounts(src, snapshot, m);
  }

  /** Copies keep the source order: the rule distributes over concatenation. */
  lemma {:induction false} ToCopyConcat(a: seq<Message>, b: seq<Message>, snapshot: seq<Option<string>>)
    ensures ToCopy(a + b, snapshot) == ToCopy(a, snapshot) + ToCopy(b, snapshot)
    decreases |b|
  {
    if b == [] {
      assert a + b == a;
    } else {
      var n := |b| - 1;
      ToCopyConcat(a, b[..n], snapshot);
      assert (a + b)[..|a + b| - 1] == a + b[..n];
      assert (a + b)[|a + b| - 1] == b[n];
    }
  }

  /** The positions of the source messages whose Message-ID the snapshot lacks. */
  ghost function MissingPositions(src: seq<Message>, snapshot: seq<Option<string>>): set<nat> {
    set k: nat | k < |src| && src[k].messageId !in snapshot
  }

  /** The number of appends is the number of source messages missing from
      the snapshot: the snapshot is not updated while copying. */
  lemma {:induction false} ToCopyCount(src: seq<Message>, snapshot: seq<Option<string>>)
    ensures |ToCopy(src, snapshot)| == |MissingPositions(src, snapshot)|
    decreases |src|
  {
    if src != [] {
      var n := |src| - 1;
      ToCopyCount(src[..n], snapshot);
      var before := MissingPositions(src[..n], snapshot);
      if src[n].messageId in snapshot {
        assert MissingPositions(src, snapshot) == before;
      } else {
        assert MissingPositions(src, snapshot) == before + {n};
        assert n !in before;
      }
    }
  }

  /** Nothing is copied when every source Message-ID is already in the snapshot. */
  lemma ToCopyNothingMissing(src: seq<Message>, snapshot: seq<Option<string>>)
    requires forall k :: 0 <= k < |src| ==> src[k].messageId in snapshot
    ensures ToCopy(src, snapshot) == []
  {
    var r := ToCopy(src, snapshot);
    if r != [] {
      ToCopyMembers(src, snapshot, r[0]);
    }
  }

  /** After the copy, every source Message-ID is in the destination. */
  lemma ToCopyCovers(src: seq<Message>, dst: seq<Message>)
    ensures forall k :: 0 <= k < |src| ==> src[k].messageId in Ids(dst + ToCopy(src, Ids(dst)))
  {
    var copies := ToCopy(src, Ids(dst));
    var all := dst + copies;
    forall k | 0 <= k < |src|
      ensures src[k].messageId in Ids(all)
    {
      if src[k].messageId in Ids(dst) {
        var j :| 0 <= j < |dst| && Ids(dst)[j] == src[k].messageId;
        assert Ids(all)[j] == src[k].messageId;
      } else {
        ToCopyMembers(src, Ids(dst), src[k]);
        var j :| 0 <= j < |copies| && copies[j] == src[k];
        assert Ids(all)[|dst| + j] == src[k].messageId;
      }
    }
  }

  /** Copying twice copies nothing the second time. */
  lemma ToCopyIdempotent(src: seq<Message>, dst: seq<Message>)
    ensures ToCopy(src, Ids(dst + ToCopy(src, Ids(dst)))) == []
  {
    ToCopyCovers(src, dst);
    ToCopyNothingMissing(src, Ids(dst + ToCopy(src, Ids(dst))));
  }

  /** Messages without a Message-ID compare equal: one is copied exactly when
      the destination holds no message without a Message-ID. */
  lemma MissingIdCopiedOnlyIntoFolderWithoutOne(m: Message, dst: seq<Message>)
    requires m.messageId == None
    ensures ToCopy([m], Ids(dst)) == [] <==> exists k :: 0 <= k < |dst| && dst[k].messageId == None
  {
    ToCopyMembers([m], Ids(dst), m);
    if ToCopy([m], Ids(dst)) != [] {
      ToCopyMembers([m], Ids(dst), ToCopy([m], Ids(dst))[0]);
    }
  }

  const MsgA := Message(Some("<a@example.org>"), "A")
  const MsgB := Message(Some("<b@example.org>"), "B")
  const MsgC := Message(Some("<c@example.org>"), "C")

  /** A destination holding A and B and a source holding A and C: only C is copied. */
  lemma DedupExample()
    ensures ToCopy([MsgA, MsgC], Ids([MsgA, MsgB])) == [MsgC]
  {
    var snapshot := Ids([MsgA, MsgB]);
    assert snapshot == [MsgA.messageId, MsgB.messageId];
    assert MsgC.messageId.value[1] != MsgA.messageId.value[1];
    assert MsgC.messageId.value[1] != MsgB.messageId.value[1];
    assert [MsgA, MsgC][..1] == [MsgA] && [MsgA][..0] == [];
    assert ToCopy([MsgA], snapshot) == [];
  }

  // ---------------------------------------------------------------------
  // One folder pass

  /** A pattern whose first character is absent from the text is not found. */
  lemma {:induction false} AbsentFirstChar(text: string, pat: string)
    requires pat != [] && pat[0] !in text
    ensures !Contains(text, pat)
    decreases |text|
  {
    if |pat| <= |text| {
      assert text[..|pat|][0] == text[0];
      assert forall k :: 0 <= k < |text| - 1 ==> text[1..][k] == text[k + 1];
      AbsentFirstChar(text[1..], pat);
    }
  }

  /** The refusal of a nonexistent mailbox is not the special-mailbox refusal:
      its text holds no lower-case `s`. */
  lemma NonexistentIsNotSpecial()
    ensures !Contains(NonexistentText, SpecialMarker)
  {
    assert SpecialMarker[0] == 's';
    AbsentFirstChar(NonexistentText, SpecialMarker);
  }

  /** Excluded folders issue no command and change nothing. */
  lemma SyncFolderExcluded(c: Config, boxes: Store, name: string)
    ensures var s := SyncFolder(c, boxes, name);
            (s.result == Excluded <==> IsExcluded(name, c.excludes))
            && (s.result == Excluded ==> s.srcCmds == [] && s.dstCmds == [] && s.boxes == boxes)
  {
    if !IsExcluded(name, c.excludes) {
      var dname := Translate(name, c.srcType, c.dstType);
      var created := CreateResult(boxes, dname);
      var srcSel := SelectReply(c.srcProfile.refusals, c.srcBoxes, name);
      if !IsSpecialRefusal(c.srcType, srcSel) {
        CopyFolderCases(c, created, name, dname, srcSel.status);
      }
    }
  }

  /** The special-mailbox skip happens only for an Exchange source that refuses
      the folder as special; the CREATE has been issued, and nothing is appended. */
  lemma SyncFolderSkipped(c: Config, boxes: Store, name: string)
    ensures var s := SyncFolder(c, boxes, name);
            var dname := Translate(name, c.srcType, c.dstType);
            (s.result == SkippedSpecial <==>
               !IsExcluded(name, c.excludes) && c.srcType == Exchange
               && name in c.srcProfile.refusals && Contains(c.srcProfile.refusals[name], SpecialMarker))
            && (s.result == SkippedSpecial ==>
                  s.srcCmds == [Selected(name, true)] && s.dstCmds == [Created(dname)]
                  && s.boxes == CreateResult(boxes, dname))
  {
    if !IsExcluded(name, c.excludes) {
      var dname := Translate(name, c.srcType, c.dstType);
      var created := CreateResult(boxes, dname);
      var srcSel := SelectReply(c.srcProfile.refusals, c.srcBoxes, name);
      SpecialRefusalCases(c.srcType, c.srcProfile.refusals, c.srcBoxes, name);
      if !IsSpecialRefusal(c.srcType, srcSel) {
        CopyFolderCases(c, created, name, dname, srcSel.status);
      }
    }
  }

  /** The copy stage: with both SELECTs successful it appends the missing
      messages to the destination folder, and otherwise it aborts having only
      selected the destination folder. */
  lemma CopyFolderCases(c: Config, boxes: Store, name: string, dname: string, srcStatus: Status)
    requires dname in boxes
    ensures var t := CopyFolder(c, boxes, name, dname, srcStatus);
            t.srcCmds == []
            && (t.result == Synced <==> dname !in c.dstProfile.refusals && srcStatus == OK && name in c.srcBoxes)
            && (t.result == Synced ==>
                  var copies := ToCopy(c.srcBoxes[name], Ids(boxes[dname]));
                  t.boxes == boxes[dname := boxes[dname] + copies]
                  && t.dstCmds == [Selected(dname, false)] + AppendCommands(dname, copies))
            && (t.result != Synced ==> t == Step(Aborted(InvalidReply(NO)), [], [Selected(dname, false)], boxes))
  {
    assert SelectReply(c.dstProfile.refusals, boxes, dname).status == OK <==> dname !in c.dstProfile.refusals;
  }

  /** A pass that is past the skip is Synced when both SELECTs succeed, and
      otherwise aborts with only the CREATE and the destination SELECT issued. */
  lemma PassFolderDecision(c: Config, boxes: Store, name: string, dname: string)
    requires !IsSpecialRefusal(c.srcType, SelectReply(c.srcProfile.refusals, c.srcBoxes, name))
    ensures var s := PassFolder(c, boxes, name, dname);
            (s.result == Synced <==>
               name !in c.srcProfile.refusals && name in c.srcBoxes && dname !in c.dstProfile.refusals)
            && s.srcCmds == [Selected(name, true)]
            && (s.result != Synced ==>
                  s.result == Aborted(InvalidReply(NO)) && s.boxes == CreateResult(boxes, dname)
                  && s.dstCmds == [Created(dname), Selected(dname, false)])
  {
    var srcSel := SelectReply(c.srcProfile.refusals, c.srcBoxes, name);
    PassFolderUnskipped(c, boxes, name, dname);
    CopyFolderCases(c, CreateResult(boxes, dname), name, dname, srcSel.status);
  }

  /** The translated folder of a pass that is past the exclusion and the skip
      is Synced when both SELECTs succeed, and otherwise the pass aborts with
      only the CREATE and the destination SELECT issued. */
  lemma SyncFolderCopyDecision(c: Config, boxes: Store, name: string)
    requires !IsExcluded(name, c.excludes)
    requires c.srcType != Exchange || name !in c.srcProfile.refusals
             || !Contains(c.srcProfile.refusals[name], SpecialMarker)
    ensures var s := SyncFolder(c, boxes, name);
            var dname := Translate(name, c.srcType, c.dstType);
            (s.result == Synced <==>
               name !in c.srcProfile.refusals && name in c.srcBoxes && dname !in c.dstProfile.refusals)
            && s.srcCmds == [Selected(name, true)]
            && (s.result != Synced ==>
                  s.result == Aborted(InvalidReply(NO)) && s.boxes == CreateResult(boxes, dname)
                  && s.dstCmds == [Created(dname), Selected(dname, false)])
  {
    SpecialRefusalCases(c.srcType, c.srcProfile.refusals, c.srcBoxes, name);
    SyncFolderUnexcluded(c, boxes, name);
    PassFolderDecision(c, boxes, name, Translate(name, c.srcType, c.dstType));
  }

  /** A Synced pass into `dname` appends, after the CREATE and the SELECT,
      exactly the source messages whose Message-ID the destination lacked. */
  lemma PassFolderCopies(c: Config, boxes: Store, name: string, dname: string)
    requires !IsSpecialRefusal(c.srcType, SelectReply(c.srcProfile.refusals, c.srcBoxes, name))
    requires name !in c.srcProfile.refusals && name in c.srcBoxes && dname !in c.dstProfile.refusals
    ensures var s := PassFolder(c, boxes, name, dname);
            var created := CreateResult(boxes, dname);
            var copies := ToCopy(c.srcBoxes[name], Ids(created[dname]));
            s.result == Synced
            && s.boxes == created[dname := created[dname] + copies]
            && s.dstCmds == [Created(dname), Selected(dname, false)] + AppendCommands(dname, copies)
  {
    var created := CreateResult(boxes, dname);
    PassFolderUnskipped(c, boxes, name, dname);
    CopyFolderCases(c, created, name, dname, OK);
    var copies := ToCopy(c.srcBoxes[name], Ids(created[dname]));
    assert [Created(dname)] + ([Selected(dname, false)] + AppendCommands(dname, copies))
        == [Created(dname), Selected(dname, false)] + AppendCommands(dname, copies);
  }

  /** A Synced pass appends, after the CREATE and the SELECT, exactly the
      source messages whose Message-ID the destination folder lacked. */
  lemma SyncFolderCopies(c: Config, boxes: Store, name: string)
    requires !IsExcluded(name, c.excludes)
    requires c.srcType != Exchange || name !in c.srcProfile.refusals
             || !Contains(c.srcProfile.refusals[name], SpecialMarker)
    requires name !in c.srcProfile.refusals && name in c.srcBoxes
    requires Translate(name, c.srcType, c.dstType) !in c.dstProfile.refusals
    ensures var s := SyncFolder(c, boxes, name);
            var dname := Translate(name, c.srcType, c.dstType);
            var created := CreateResult(boxes, dname);
            var copies := ToCopy(c.srcBoxes[name], Ids(created[dname]));
            s.result == Synced
            && s.boxes == created[dname := created[dname] + copies]
            && s.dstCmds == [Created(dname), Selected(dname, false)] + AppendCommands(dname, copies)
  {
    SpecialRefusalCases(c.srcType, c.srcProfile.refusals, c.srcBoxes, name);
    SyncFolderUnexcluded(c, boxes, name);
    PassFolderCopies(c, boxes, name, Translate(name, c.srcType, c.dstType));
  }

  /** Only a refusal the server words as special triggers the skip: the reply
      to a missing mailbox does not. */
  lemma SpecialRefusalCases(srcType: ServerType, refusals: map<string, string>, boxes: Store, name: string)
    ensures IsSpecialRefusal(srcType, SelectReply(refusals, boxes, name))
            <==> srcType == Exchange && name in refusals && Contains(refusals[name], SpecialMarker)
  {
    if name !in refusals && name !in boxes {
      NonexistentIsNotSpecial();
    }
  }

  /** A pass only adds mailboxes and only appends to them. */
  lemma SyncFolderGrows(c: Config, boxes: Store, name: string)
    ensures var s := SyncFolder(c, boxes, name);
            boxes.Keys <= s.boxes.Keys && forall n :: n in boxes ==> boxes[n] <= s.boxes[n]
  {
  }

  /** What a pass decides, and what it issues on the source, depend only on the
      configuration and the folder, not on the destination's contents: the
      destination folder exists once CREATE has run. */
  lemma SyncFolderDecisionIndependent(c: Config, b1: Store, b2: Store, name: string)
    ensures SyncFolder(c, b1, name).result == SyncFolder(c, b2, name).result
    ensures SyncFolder(c, b1, name).srcCmds == SyncFolder(c, b2, name).srcCmds
  {
    var dname := Translate(name, c.srcType, c.dstType);
    var s1, s2 := SyncFolder(c, b1, name), SyncFolder(c, b2, name);
    var srcSel := SelectReply(c.srcProfile.refusals, c.srcBoxes, name);
    if !IsExcluded(name, c.excludes) && !IsSpecialRefusal(c.srcType, srcSel) {
      CopyFolderCases(c, CreateResult(b1, dname), name, dname, srcSel.status);
      CopyFolderCases(c, CreateResult(b2, dname), name, dname, srcSel.status);
    }
  }

  /** The commands of a pass name only its folder: the source folder, opened
      read-only, and the translated destination folder; an excluded folder
      issues none. */
  lemma SyncFolderNames(c: Config, boxes: Store, name: string)
    ensures var s := SyncFolder(c, boxes, name);
            forall cmd :: cmd in s.srcCmds ==> cmd == Selected(name, true) && !IsExcluded(name, c.excludes)
    ensures var s := SyncFolder(c, boxes, name);
            forall cmd :: cmd in s.dstCmds ==>
              cmd.name == Translate(name, c.srcType, c.dstType) && !IsExcluded(name, c.excludes)
  {
    if !IsExcluded(name, c.excludes) {
      SyncFolderUnexcluded(c, boxes, name);
      PassFolderNames(c, boxes, name, Translate(name, c.srcType, c.dstType));
    }
  }

  /** The commands of a pass into `dname` name only its two folders. */
  lemma PassFolderNames(c: Config, boxes: Store, name: string, dname: string)
    ensures var s := PassFolder(c, boxes, name, dname);
            (forall cmd :: cmd in s.srcCmds ==> cmd == Selected(name, true))
            && forall cmd :: cmd in s.dstCmds ==> cmd.name == dname
  {
    var srcSel := SelectReply(c.srcProfile.refusals, c.srcBoxes, name);
    if !IsSpecialRefusal(c.srcType, srcSel) {
      PassFolderUnskipped(c, boxes, name, dname);
      CopyFolderCases(c, CreateResult(boxes, dname), name, dname, srcSel.status);
    }
  }

  // ---------------------------------------------------------------------
  // A whole run

  /** The folders are processed in listing order, each one unless an earlier
      one aborted: the run processes a prefix of the listing, all of it unless
      it stopped. */
  lemma {:induction false} SyncFoldersLength(c: Config, names: seq<string>, boxes: Store)
    ensures var p := SyncFolders(c, names, boxes);
            |p.results| <= |names| && (!Stopped(p) ==> |p.results| == |names|)
    decreases |names|
  {
    if names != [] {
      var n := |names| - 1;
      SyncFoldersLength(c, names[..n], boxes);
    }
  }

  /** An aborted folder, if any, is the last processed. */
  lemma {:induction false} SyncFoldersResults(c: Config, names: seq<string>, boxes: Store)
    ensures var p := SyncFolders(c, names, boxes);
            forall i :: 0 <= i < |p.results| - 1 ==> !p.results[i].Aborted?
    decreases |names|
  {
    if names != [] {
      var n := |names| - 1;
      SyncFoldersResults(c, names[..n], boxes);
      var p := SyncFolders(c, names[..n], boxes);
      if !Stopped(p) {
        SyncFoldersStep(c, names, boxes, n);
        assert names[..n + 1] == names;
        ResultsExtend(p.results, SyncFolder(c, p.boxes, names[n]).result);
      }
    }
  }

  /** A result added after results none of which aborted leaves an abort, if
      any, in last place. */
  lemma ResultsExtend(results: seq<FolderResult>, r: FolderResult)
    requires forall i :: 0 <= i < |results| ==> !results[i].Aborted?
    ensures forall i :: 0 <= i < |results + [r]| - 1 ==> !(results + [r])[i].Aborted?
  {
  }

  /** The processed folders are excluded exactly where their names match an
      exclusion pattern. */
  lemma {:induction false} SyncFoldersExclusions(c: Config, names: seq<string>, boxes: Store)
    ensures var p := SyncFolders(c, names, boxes);
            forall i :: 0 <= i < |p.results| && i < |names| ==>
              (p.results[i] == Excluded <==> IsExcluded(names[i], c.excludes))
    decreases |names|
  {
    if names != [] {
      var n := |names| - 1;
      SyncFoldersExclusions(c, names[..n], boxes);
      SyncFoldersLength(c, names[..n], boxes);
      var p := SyncFolders(c, names[..n], boxes);
      assert forall k :: 0 <= k < n ==> names[..n][k] == names[k];
      if !Stopped(p) {
        var s := SyncFolder(c, p.boxes, names[n]);
        SyncFolderExcluded(c, p.boxes, names[n]);
        SyncFoldersStep(c, names, boxes, n);
        assert names[..n + 1] == names;
        ExclusionsExtend(p.results, s.result, names, c.excludes);
      }
    }
  }

  lemma ExclusionsExtend(results: seq<FolderResult>, r: FolderResult, names: seq<string>, excludes: seq<string>)
    requires |results| < |names|
    requires forall i :: 0 <= i < |results| ==> (results[i] == Excluded <==> IsExcluded(names[i], excludes))
    requires r == Excluded <==> IsExcluded(names[|results|], excludes)
    ensures forall i :: 0 <= i < |results| + 1 ==>
              ((results + [r])[i] == Excluded <==> IsExcluded(names[i], excludes))
  {
  }

  /** The destination only gains mailboxes and messages: every mailbox stays,
      and its old messages stay at the front. */
  lemma {:induction false} SyncFoldersGrows(c: Config, names: seq<string>, boxes: Store)
    ensures var p := SyncFolders(c, names, boxes);
            boxes.Keys <= p.boxes.Keys && forall n :: n in boxes ==> boxes[n] <= p.boxes[n]
    decreases |names|
  {
    if names != [] {
      var n := |names| - 1;
      SyncFoldersGrows(c, names[..n], boxes);
      var p := SyncFolders(c, names[..n], boxes);
      if !Stopped(p) {
        SyncFolderGrows(c, p.boxes, names[n]);
      }
    }
  }

  /** The source is only ever opened read-only, and never on an excluded
      folder; every destination command names the translation of a source
      folder that is not excluded. */
  lemma {:induction false} SyncFoldersCommands(c: Config, names: seq<string>, boxes: Store)
    ensures var p := SyncFolders(c, names, boxes);
            forall cmd :: cmd in p.srcLog ==>
              cmd.Selected? && cmd.readOnly && cmd.name in names && !IsExcluded(cmd.name, c.excludes)
    ensures var p := SyncFolders(c, names, boxes);
            forall cmd :: cmd in p.dstLog ==>
              exists k :: 0 <= k < |names| && !IsExcluded(names[k], c.excludes)
                          && cmd.name == Translate(names[k], c.srcType, c.dstType)
    decreases |names|
  {
    if names != [] {
      var n := |names| - 1;
      SyncFoldersCommands(c, names[..n], boxes);
      var p := SyncFolders(c, names[..n], boxes);
      var q := SyncFolders(c, names, boxes);
      assert forall k :: 0 <= k < n ==> names[..n][k] == names[k];
      assert forall x :: x in names[..n] ==> x in names;
      var s := SyncFolder(c, p.boxes, names[n]);
      SyncFolderNames(c, p.boxes, names[n]);
      assert q.dstLog == p.dstLog || q.dstLog == p.dstLog + s.dstCmds;
      assert q.srcLog == p.srcLog || q.srcLog == p.srcLog + s.srcCmds;
      forall cmd | cmd in q.dstLog
        ensures exists k :: 0 <= k < |names| && !IsExcluded(names[k], c.excludes)
                            && cmd.name == Translate(names[k], c.srcType, c.dstType)
      {
        if cmd in p.dstLog {
          var k :| 0 <= k < n && !IsExcluded(names[..n][k], c.excludes)
                   && cmd.name == Translate(names[..n][k], c.srcType, c.dstType);
          assert names[k] == names[..n][k];
        } else {
          assert cmd in s.dstCmds;
          assert !IsExcluded(names[n], c.excludes) && cmd.name == Translate(names[n], c.srcType, c.dstType);
        }
      }
    }
  }

  /** A run fails exactly when a listing fails or a folder aborts; a failed
      listing issues no command and leaves the destination as it was, and a
      run that is done has processed every listed folder. */
  lemma RunSpecOutcome(src: Profile, srcBoxes: Store, dst: Profile, dstBoxes: Store,
                       excludes: seq<string>, rules: seq<Rule>)
    requires IsTableOrder(rules)
    ensures var run := RunSpec(src, srcBoxes, dst, dstBoxes, excludes, rules);
            var srcList := ParseListing(src.listStatus, src.listLines);
            var dstList := ParseListing(dst.listStatus, dst.listLines);
            (srcList.Failure? || dstList.Failure? ==>
               run == Run(Failed(if srcList.Failure? then srcList.error else dstList.error),
                          Progress([], [], [], dstBoxes)))
            && (srcList.Success? && dstList.Success? ==>
                  (run.outcome == Done <==> !Stopped(run.progress))
                  && (run.outcome == Done ==> |run.progress.results| == |srcList.value|))
  {
    var srcList := ParseListing(src.listStatus, src.listLines);
    var dstList := ParseListing(dst.listStatus, dst.listLines);
    if srcList.Success? && dstList.Success? {
      var c := Config(src, srcBoxes, ServerTypeOf(src.welcome, rules),
                      dst, ServerTypeOf(dst.welcome, rules), excludes);
      SyncFoldersResults(c, Names(srcList.value), dstBoxes);
      SyncFoldersLength(c, Names(srcList.value), dstBoxes);
    }
  }

  // ---------------------------------------------------------------------
  // Running twice

  /** The folders whose pass copies messages (`SyncFolderCopyDecision`). */
  predicate CopiesFolder(c: Config, name: string) {
    !IsExcluded(name, c.excludes)
    && (c.srcType != Exchange || name !in c.srcProfile.refusals
        || !Contains(c.srcProfile.refusals[name], SpecialMarker))
    && name !in c.srcProfile.refusals && name in c.srcBoxes
    && Translate(name, c.srcType, c.dstType) !in c.dstProfile.refusals
  }

  /** A folder whose pass would change nothing in the store `b`: it is excluded,
      or its destination exists and, if it is copied, already holds every
      source Message-ID. */
  ghost predicate Settled(c: Config, b: Store, name: string) {
    var dname := Translate(name, c.srcType, c.dstType);
    IsExcluded(name, c.excludes)
    || (dname in b
        && (CopiesFolder(c, name) ==>
              forall k :: 0 <= k < |c.srcBoxes[name]| ==> c.srcBoxes[name][k].messageId in Ids(b[dname])))
  }

  predicate Grows(b: Store, b': Store) {
    b.Keys <= b'.Keys && forall n :: n in b ==> b[n] <= b'[n]
  }

  lemma SettledAfterPass(c: Config, b: Store, name: string)
    ensures Settled(c, SyncFolder(c, b, name).boxes, name)
  {
    if !IsExcluded(name, c.excludes) {
      var dname := Translate(name, c.srcType, c.dstType);
      var created := CreateResult(b, dname);
      SyncFolderSkipped(c, b, name);
      if CopiesFolder(c, name) {
        SyncFolderCopies(c, b, name);
        ToCopyCovers(c.srcBoxes[name], created[dname]);
      } else if c.srcType != Exchange || name !in c.srcProfile.refusals
                || !Contains(c.srcProfile.refusals[name], SpecialMarker) {
        SyncFolderCopyDecision(c, b, name);
      }
    }
  }

  lemma SettledGrows(c: Config, b: Store, b': Store, name: string)
    requires Settled(c, b, name) && Grows(b, b')
    ensures Settled(c, b', name)
  {
    var dname := Translate(name, c.srcType, c.dstType);
    if !IsExcluded(name, c.excludes) && CopiesFolder(c, name) {
      var ms := c.srcBoxes[name];
      forall k | 0 <= k < |ms|
        ensures ms[k].messageId in Ids(b'[dname])
      {
        var j :| 0 <= j < |b[dname]| && Ids(b[dname])[j] == ms[k].messageId;
        assert Ids(b'[dname])[j] == b'[dname][j].messageId == b[dname][j].messageId;
      }
    }
  }

  /** A settled folder's pass leaves the store alone and appends nothing. */
  lemma SettledPassChangesNothing(c: Config, b: Store, name: string)
    requires Settled(c, b, name)
    ensures var s := SyncFolder(c, b, name);
            s.boxes == b && forall cmd :: cmd in s.dstCmds ==> !cmd.Appended?
  {
    SyncFolderExcluded(c, b, name);
    SyncFolderSkipped(c, b, name);
    if !IsExcluded(name, c.excludes)
       && (c.srcType != Exchange || name !in c.srcProfile.refusals
           || !Contains(c.srcProfile.refusals[name], SpecialMarker)) {
      var dname := Translate(name, c.srcType, c.dstType);
      SyncFolderCopyDecision(c, b, name);
      assert CreateResult(b, dname) == b;
      if CopiesFolder(c, name) {
        SyncFolderCopies(c, b, name);
        ToCopyNothingMissing(c.srcBoxes[name], Ids(b[dname]));
        assert b[dname] + [] == b[dname];
        assert b[dname := b[dname]] == b;
      }
    }
  }

  /** Decisions, and the source's commands, are those of any other store. */
  lemma {:induction false} SyncFoldersDecisionIndependent(c: Config, names: seq<string>, b1: Store, b2: Store)
    ensures SyncFolders(c, names, b1).results == SyncFolders(c, names, b2).results
    ensures SyncFolders(c, names, b1).srcLog == SyncFolders(c, names, b2).srcLog
    decreases |names|
  {
    if names != [] {
      var n := |names| - 1;
      SyncFoldersDecisionIndependent(c, names[..n], b1, b2);
      var p1, p2 := SyncFolders(c, names[..n], b1), SyncFolders(c, names[..n], b2);
      SyncFolderDecisionIndependent(c, p1.boxes, p2.boxes, names[n]);
    }
  }

  /** After a run, every folder it processed is settled in the final store. */
  lemma {:induction false} ProcessedFoldersSettled(c: Config, names: seq<string>, b: Store)
    ensures var p := SyncFolders(c, names, b);
            forall i :: 0 <= i < |names| && i < |p.results| ==> Settled(c, p.boxes, names[i])
    decreases |names|
  {
    if names != [] {
      var n := |names| - 1;
      ProcessedFoldersSettled(c, names[..n], b);
      SyncFoldersLength(c, names[..n], b);
      var p := SyncFolders(c, names[..n], b);
      assert forall k :: 0 <= k < n ==> names[..n][k] == names[k];
      if !Stopped(p) {
        var s := SyncFolder(c, p.boxes, names[n]);
        SyncFoldersStep(c, names, b, n);
        assert names[..n + 1] == names;
        SyncFolderGrows(c, p.boxes, names[n]);
        SettledAfterPass(c, p.boxes, names[n]);
        SettledExtend(c, names, n, p.boxes, s.boxes);
      }
    }
  }

  /** Settled folders stay settled when one more folder is settled in a
      store that grew. */
  lemma SettledExtend(c: Config, names: seq<string>, m: nat, b: Store, b': Store)
    requires m < |names| && Grows(b, b')
    requires forall i :: 0 <= i < m ==> Settled(c, b, names[i])
    requires Settled(c, b', names[m])
    ensures forall i :: 0 <= i < m + 1 ==> Settled(c, b', names[i])
  {
    forall i | 0 <= i < m
      ensures Settled(c, b', names[i])
    {
      SettledGrows(c, b, b', names[i]);
    }
  }

  /** A run over a store where every folder the first run processed is
      settled changes nothing and appends nothing. */
  lemma {:induction false} RerunFromSettled(c: Config, names: seq<string>, b0: Store, b: Store)
    requires forall i :: 0 <= i < |names| && i < |SyncFolders(c, names, b0).results| ==> Settled(c, b, names[i])
    ensures var p := SyncFolders(c, names, b);
            p.boxes == b && forall cmd :: cmd in p.dstLog ==> !cmd.Appended?
    decreases |names|
  {
    if names != [] {
      var n := |names| - 1;
      var p0, p := SyncFolders(c, names[..n], b0), SyncFolders(c, names[..n], b);
      var q0 := SyncFolders(c, names, b0);
      assert |p0.results| <= |q0.results|;
      assert forall k :: 0 <= k < n ==> names[..n][k] == names[k];
      RerunFromSettled(c, names[..n], b0, b);
      SyncFoldersDecisionIndependent(c, names[..n], b0, b);
      if !Stopped(p) {
        SyncFoldersLength(c, names[..n], b0);
        assert |q0.results| == n + 1;
        SettledPassChangesNothing(c, b, names[n]);
      }
    }
  }

  /** Running the loop a second time over what the first run left changes
      nothing: the same decisions are taken, the same source commands are
      issued, and no message is appended. */
  lemma RerunChangesNothing(c: Config, names: seq<string>, b0: Store)
    ensures var p1 := SyncFolders(c, names, b0);
            var p2 := SyncFolders(c, names, p1.boxes);
            p2.boxes == p1.boxes && p2.results == p1.results && p2.srcLog == p1.srcLog
            && forall cmd :: cmd in p2.dstLog ==> !cmd.Appended?
  {
    var p1 := SyncFolders(c, names, b0);
    ProcessedFoldersSettled(c, names, b0);
    RerunFromSettled(c, names, b0, p1.boxes);
    SyncFoldersDecisionIndependent(c, names, b0, p1.boxes);
  }

  /** A second run against the destination a first run left has the same
      outcome, leaves the destination as it is and appends nothing. */
  lemma RunSpecIdempotent(src: Profile, srcBoxes: Store, dst: Profile, dstBoxes: Store,
                          excludes: seq<string>, rules: seq<Rule>)
    requires IsTableOrder(rules)
    ensures var run1 := RunSpec(src, srcBoxes, dst, dstBoxes, excludes, rules);
            var run2 := RunSpec(src, srcBoxes, dst, run1.progress.boxes, excludes, rules);
            run2.outcome == run1.outcome && run2.progress.boxes == run1.progress.boxes
            && forall cmd :: cmd in run2.progress.dstLog ==> !cmd.Appended?
  {
    var srcList := ParseListing(src.listStatus, src.listLines);
    var dstList := ParseListing(dst.listStatus, dst.listLines);
    if srcList.Success? && dstList.Success? {
      var c := Config(src, srcBoxes, ServerTypeOf(src.welcome, rules),
                      dst, ServerTypeOf(dst.welcome, rules), excludes);
      RerunChangesNothing(c, Names(srcList.value), dstBoxes);
    }
  }
}
