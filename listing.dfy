/** Parsing of LIST reply lines (`__listMailboxes`).

    The program matches each line with the regular expression
        \((?P<flags>.*)\)\s+"(?P<delimiter>.*)"\s+"?(?P<name>[^"]*)"?
    anchored at the start of the line. This module reproduces what that match
    yields, backtracking included:
    - `.` does not match a newline, `\s` is Python 2's whitespace class;
    - the flags group is greedy, so it closes at the LAST `)` from which the
      rest can match, and the delimiter group closes at the last suitable `"`
      after that;
    - each `\s+` is forced to take the whole whitespace run (the first is
      followed by `"`, and what follows the second always matches);
    - the name is the run of non-`"` characters after an optional `"`. */
module Listing {
  import opened ImapTypes
  import opened Text

  /** One LIST entry, as the program's dictionary with keys
      'flags', 'delimiter' and 'mailbox'. */
  datatype MailboxListing = MailboxListing(flags: string, delimiter: string, mailbox: string)

  predicate NoNewline(l: string, a: nat, b: nat)
    requires a <= b <= |l|
  {
    forall m :: a <= m < b ==> l[m] != '\n'
  }

  /** End of the whitespace run that starts at `i`. */
  function SkipWs(l: string, i: nat): (j: nat)
    requires i <= |l|
    ensures i <= j <= |l|
    ensures forall m :: i <= m < j ==> IsWs(l[m])
    ensures j == |l| || !IsWs(l[j])
    decreases |l| - i
  {
    if i == |l| || !IsWs(l[i]) then i else SkipWs(l, i + 1)
  }

  /** `\(` flags `\)` `\s+` `"` matches with the flags group closing at `p`. */
  predicate FlagsCloseAt(l: string, p: nat) {
    0 < p < |l| && l[0] == '(' && l[p] == ')' && NoNewline(l, 1, p)
    && var j := SkipWs(l, p + 1); p + 1 < j < |l| && l[j] == '"'
  }

  /** Index of the quote that opens the delimiter group. */
  function DelimOpen(l: string, p: nat): nat
    requires p < |l|
  {
    SkipWs(l, p + 1)
  }

  /** delimiter `"` `\s` matches with the delimiter group opened at `j`
      and closed by the quote at `q`. */
  predicate DelimCloseAt(l: string, j: nat, q: nat) {
    j < q && q + 1 < |l| && l[q] == '"' && NoNewline(l, j + 1, q) && IsWs(l[q + 1])
  }

  /** The whole pattern matches with the two groups closing at `p` and `q`. */
  predicate MatchAt(l: string, p: nat, q: nat) {
    FlagsCloseAt(l, p) && DelimCloseAt(l, DelimOpen(l, p), q)
  }

  /** Among the matches, (p, q) is the one the greedy search finds first. */
  ghost predicate Greediest(l: string, p: nat, q: nat) {
    MatchAt(l, p, q) && forall p': nat, q': nat :: MatchAt(l, p', q') ==> p' < p || (p' == p && q' <= q)
  }

  /** Largest `q < hi` closing the delimiter group opened at `j`. */
  function LastDelimClose(l: string, j: nat, hi: nat): (r: Option<nat>)
    ensures r.Some? ==> r.value < hi && DelimCloseAt(l, j, r.value)
                        && forall q: nat :: r.value < q < hi ==> !DelimCloseAt(l, j, q)
    ensures r.None? ==> forall q: nat :: q < hi ==> !DelimCloseAt(l, j, q)
    decreases hi
  {
    if hi == 0 then None
    else if DelimCloseAt(l, j, hi - 1) then Some(hi - 1)
    else LastDelimClose(l, j, hi - 1)
  }

  /** Greediest match whose flags group closes before `hi`. */
  function LastMatch(l: string, hi: nat): (r: Option<(nat, nat)>)
    ensures r.Some? ==> r.value.0 < hi && MatchAt(l, r.value.0, r.value.1)
    ensures r.Some? ==> forall p: nat, q: nat :: p < hi && MatchAt(l, p, q)
                          ==> p < r.value.0 || (p == r.value.0 && q <= r.value.1)
    ensures r.None? ==> forall p: nat, q: nat :: p < hi ==> !MatchAt(l, p, q)
    decreases hi
  {
    if hi == 0 then None
    else if FlagsCloseAt(l, hi - 1) then
      match LastDelimClose(l, DelimOpen(l, hi - 1), |l|)
      case Some(q) => Some((hi - 1, q))
      case None => LastMatch(l, hi - 1)
    else LastMatch(l, hi - 1)
  }

  /** First `"` at or after `s`, or the end of the line. */
  function NextQuote(l: string, s: nat): (e: nat)
    requires s <= |l|
    ensures s <= e <= |l|
    ensures e == |l| || l[e] == '"'
    ensures forall m :: s <= m < e ==> l[m] != '"'
    decreases |l| - s
  {
    if s == |l| || l[s] == '"' then s else NextQuote(l, s + 1)
  }

  /** Start of the name group: after the whitespace and an optional `"`. */
  function NameStart(l: string, q: nat): (s: nat)
    requires q < |l|
    ensures s <= |l|
  {
    var k := SkipWs(l, q + 1);
    if k < |l| && l[k] == '"' then k + 1 else k
  }

  /** The three groups of the match closing at `p` and `q`. */
  function Groups(l: string, p: nat, q: nat): MailboxListing
    requires MatchAt(l, p, q)
  {
    var s := NameStart(l, q);
    MailboxListing(l[1..p], l[DelimOpen(l, p) + 1..q], l[s..NextQuote(l, s)])
  }

  /** `list_re.match(line)` and its groups. */
  function ParseLine(l: string): Option<MailboxListing> {
    match LastMatch(l, |l|)
    case None => None
    case Some(pq) => Some(Groups(l, pq.0, pq.1))
  }

  /** A line is rejected exactly when the pattern cannot match it; otherwise the
      groups are those of the greedy match, and the name holds no `"`. */
  lemma ParseLineIsGreedyMatch(l: string)
    ensures ParseLine(l).None? <==> forall p: nat, q: nat :: !MatchAt(l, p, q)
    ensures ParseLine(l).Some? ==> exists p: nat, q: nat :: Greediest(l, p, q) && ParseLine(l).value == Groups(l, p, q)
    ensures ParseLine(l).Some? ==> '"' !in ParseLine(l).value.mailbox
  {
    match LastMatch(l, |l|)
    case None =>
    case Some(pq) =>
      var g := Groups(l, pq.0, pq.1);
      assert Greediest(l, pq.0, pq.1);
      var s := NameStart(l, pq.1);
      var e := NextQuote(l, s);
      assert g.mailbox == l[s..e];
      assert forall m :: 0 <= m < |g.mailbox| ==> g.mailbox[m] == l[s + m];
  }

  /** Positions in a line `(F) "D" "N"`: the flags end at P, the delimiter is
      quoted at P + 2 and Q, and the name sits between Q + 2 and the end. */
  lemma {:induction false} FormattedLayout(F: string, D: string, N: string, l: string)
    requires l == "(" + F + ") \"" + D + "\" \"" + N + "\""
    ensures |l| == |F| + |D| + |N| + 8
    ensures l[0] == '(' && l[|F| + 1] == ')' && l[|F| + 2] == ' ' && l[|F| + 3] == '"'
    ensures l[|F| + |D| + 4] == '"' && l[|F| + |D| + 5] == ' ' && l[|F| + |D| + 6] == '"'
    ensures l[|l| - 1] == '"'
    ensures l[1..|F| + 1] == F && l[|F| + 4..|F| + |D| + 4] == D && l[|F| + |D| + 7..|l| - 1] == N
  {
    var a := "(" + F + ") \"";
    var b := a + D + "\" \"";
    assert a[1..|F| + 1] == F;
    assert b[|a|..|a| + |D|] == D;
    assert l == b + N + "\"";
    assert l[..|a|] == a;
    assert l[..|b|] == b;
  }

  /** The greediest match of a line whose quotes after the delimiter's opening
      one are at q, q + 2 and the end, with no whitespace after q + 2. */
  lemma GreediestOfLayout(l: string, p: nat, q: nat)
    requires MatchAt(l, p, q) && q + 3 < |l| && !IsWs(l[q + 3])
    requires forall m :: DelimOpen(l, p) < m < |l| && l[m] == '"' ==> m == q || m == q + 2 || m == |l| - 1
    ensures LastMatch(l, |l|) == Some((p, q))
  {
    var j := DelimOpen(l, p);
    forall j': nat, q': nat | j <= j' && DelimCloseAt(l, j', q')
      ensures q' == q
    {
    }
    forall p': nat, q': nat | MatchAt(l, p', q')
      ensures p' < p || (p' == p && q' <= q)
    {
      if p' >= p {
        assert j <= DelimOpen(l, p');
      }
    }
  }

  /** A line laid out as `(` flags `) "` delimiter `" "` name `"`, with the
      flags ending at p and the delimiter at q, parses into those parts. */
  lemma ParseOfLayout(l: string, p: nat, q: nat)
    requires p + 3 <= q && q + 3 < |l|
    requires l[0] == '(' && l[p] == ')' && l[p + 1] == ' ' && l[p + 2] == '"'
    requires l[q] == '"' && l[q + 1] == ' ' && l[q + 2] == '"' && l[|l| - 1] == '"'
    requires forall m :: 1 <= m < p ==> l[m] != '\n'
    requires forall m :: p + 2 < m < q ==> l[m] != '\n' && l[m] != '"'
    requires forall m :: q + 2 < m < |l| - 1 ==> l[m] != '"'
    requires !IsWs(l[q + 3])
    ensures ParseLine(l) == Some(MailboxListing(l[1..p], l[p + 3..q], l[q + 3..|l| - 1]))
  {
    assert DelimOpen(l, p) == p + 2;
    assert MatchAt(l, p, q);
    GreediestOfLayout(l, p, q);
    assert SkipWs(l, q + 1) == q + 2;
    assert NextQuote(l, q + 3) == |l| - 1;
  }

  /** A line laid out as `(F) "D" "N"` parses into F, D and N when F and D
      hold no newline, D and N hold no `"`, and N does not start with whitespace. */
  lemma ParsePieces(l: string, F: string, D: string, N: string)
    requires '\n' !in F + D && '"' !in D + N && (N == [] || !IsWs(N[0]))
    requires |l| == |F| + |D| + |N| + 8
    requires l[0] == '(' && l[|F| + 1] == ')' && l[|F| + 2] == ' ' && l[|F| + 3] == '"'
    requires l[|F| + |D| + 4] == '"' && l[|F| + |D| + 5] == ' ' && l[|F| + |D| + 6] == '"'
    requires l[|l| - 1] == '"'
    requires l[1..|F| + 1] == F && l[|F| + 4..|F| + |D| + 4] == D && l[|F| + |D| + 7..|l| - 1] == N
    ensures ParseLine(l) == Some(MailboxListing(F, D, N))
  {
    var p := |F| + 1;
    var q := |F| + |D| + 4;
    assert forall m :: 1 <= m < p ==> l[m] != '\n' by {
      forall m | 1 <= m < p ensures l[m] != '\n' { assert l[m] == F[m - 1]; }
    }
    assert forall m :: p + 2 < m < q ==> l[m] != '\n' && l[m] != '"' by {
      forall m | p + 2 < m < q ensures l[m] != '\n' && l[m] != '"' { assert l[m] == D[m - p - 3]; }
    }
    assert forall m :: q + 2 < m < |l| - 1 ==> l[m] != '"' by {
      forall m | q + 2 < m < |l| - 1 ensures l[m] != '"' { assert l[m] == N[m - q - 3]; }
    }
    assert !IsWs(l[q + 3]) by {
      if N != [] { assert l[q + 3] == N[0]; }
    }
    ParseOfLayout(l, p, q);
  }

  /** A LIST line of the usual shape `(F) "D" "N"` (section 7.2.2 of RFC 3501)
      parses into its three parts, provided the flags and the delimiter hold no
      newline, the delimiter and the name hold no `"`, and the name does not
      start with whitespace. */
  lemma ParseFormatted(F: string, D: string, N: string)
    requires '\n' !in F + D && '"' !in D + N && (N == [] || !IsWs(N[0]))
    ensures ParseLine("(" + F + ") \"" + D + "\" \"" + N + "\"") == Some(MailboxListing(F, D, N))
  {
    var l := "(" + F + ") \"" + D + "\" \"" + N + "\"";
    FormattedLayout(F, D, N, l);
    ParsePieces(l, F, D, N);
  }

  /** A name that starts with a space is misread: the greedy delimiter group
      runs on to the quote that opens the name. */
  lemma LeadingSpaceNameMisread()
    ensures ParseLine("() \"/\" \" x\"") == Some(MailboxListing("", "/\" ", "x"))
  {
    var l := "() \"/\" \" x\"";
    assert DelimOpen(l, 1) == 3;
    assert LastDelimClose(l, 3, 8) == Some(7);
    assert LastDelimClose(l, 3, 11) == Some(7);
    assert LastMatch(l, 2) == Some((1, 7));
    assert LastMatch(l, 11) == LastMatch(l, 10) == LastMatch(l, 9) == LastMatch(l, 8) == LastMatch(l, 7);
    assert LastMatch(l, 7) == LastMatch(l, 6) == LastMatch(l, 5) == LastMatch(l, 4) == LastMatch(l, 3) == LastMatch(l, 2);
    assert SkipWs(l, 8) == 9 && NextQuote(l, 9) == 10;
    assert ParseLine(l) == Some(MailboxListing(l[1..1], l[4..7], l[9..10]));
    assert l[1..1] == "" && l[4..7] == "/\" " && l[9..10] == "x";
  }

  /** `__listMailboxes` after the LIST command: a non-OK status fails, then
      the lines are parsed in order and the first line that does not match
      fails with that line. */
  function ParseListing(status: Status, lines: seq<string>): (r: Result<seq<MailboxListing>, Error>)
    ensures status != OK ==> r == Failure(InvalidReply(status))
    ensures status == OK ==> (r.Success? <==> forall i :: 0 <= i < |lines| ==> ParseLine(lines[i]).Some?)
    ensures r.Success? ==> |r.value| == |lines|
                           && forall i :: 0 <= i < |lines| ==> ParseLine(lines[i]) == Some(r.value[i])
    ensures status == OK && r.Failure? ==>
              exists i :: 0 <= i < |lines| && ParseLine(lines[i]).None? && r.error == NoMatch(lines[i])
                          && forall k :: 0 <= k < i ==> ParseLine(lines[k]).Some?
    decreases |lines|
  {
    if status != OK then Failure(InvalidReply(status))
    else if lines == [] then Success([])
    else
      var n := |lines| - 1;
      assert forall i :: 0 <= i < n ==> lines[..n][i] == lines[i];
      match ParseListing(status, lines[..n])
      case Failure(e) => Failure(e)
      case Success(fs) =>
        match ParseLine(lines[n])
        case None => Failure(NoMatch(lines[n]))
        case Some(f) => Success(fs + [f])
  }
}
