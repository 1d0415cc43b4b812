/** String operations the program takes from Python's `str` and `re`:
    whitespace, single-character replacement, whitespace splitting,
    decimal numerals and substring search. */
module Text {
  import opened ImapTypes

  /** Python 2's `\s` on byte strings: space, tab, newline, vertical tab,
      form feed and carriage return. */
  predicate IsWs(c: char) {
    c == ' ' || 9 <= c as int <= 13
  }

  predicate NoWs(t: string) {
    forall k :: 0 <= k < |t| ==> !IsWs(t[k])
  }

  // ---------------------------------------------------------------------
  // str.replace with one-character arguments

  /** `s.replace(a, b)` where `a` and `b` are one character each. */
  function Replace(s: string, a: char, b: char): (r: string)
    ensures |r| == |s|
  {
    if s == [] then [] else [if s[0] == a then b else s[0]] + Replace(s[1..], a, b)
  }

  /** Replacement is positionwise: every `a` becomes `b`, every other character stays. */
  lemma {:induction false} ReplaceAt(s: string, a: char, b: char, i: nat)
    requires i < |s|
    ensures Replace(s, a, b)[i] == if s[i] == a then b else s[i]
  {
    if i > 0 {
      ReplaceAt(s[1..], a, b, i - 1);
    }
  }

  // ---------------------------------------------------------------------
  // str.split() without arguments

  /** Length of the longest prefix of `s` holding no whitespace. */
  function TokenLen(s: string): (n: nat)
    ensures n <= |s|
    ensures NoWs(s[..n])
    ensures n == |s| || IsWs(s[n])
  {
    if s == [] || IsWs(s[0]) then 0 else 1 + TokenLen(s[1..])
  }

  /** `s.split()`: the maximal runs of non-whitespace characters, in order. */
  function SplitWs(s: string): (toks: seq<string>)
    ensures forall t :: t in toks ==> t != [] && NoWs(t)
    decreases |s|
  {
    if s == [] then []
    else if IsWs(s[0]) then SplitWs(s[1..])
    else
      var n := TokenLen(s);
      [s[..n]] + SplitWs(s[n..])
  }

  /** `" ".join(toks)`. */
  function JoinSp(toks: seq<string>): string
  {
    if |toks| == 0 then []
    else if |toks| == 1 then toks[0]
    else toks[0] + " " + JoinSp(toks[1..])
  }

  lemma {:induction false} TokenLenOfToken(t: string, rest: string)
    requires NoWs(t)
    requires rest == [] || IsWs(rest[0])
    ensures TokenLen(t + rest) == |t|
  {
    if t != [] {
      assert (t + rest)[1..] == t[1..] + rest;
      TokenLenOfToken(t[1..], rest);
    }
  }

  /** Splitting a space-joined list of tokens gives back the tokens. */
  lemma {:induction false} SplitJoin(toks: seq<string>)
    requires forall t :: t in toks ==> t != [] && NoWs(t)
    ensures SplitWs(JoinSp(toks)) == toks
  {
    if |toks| == 1 {
      TokenLenOfToken(toks[0], []);
      assert toks[0] + [] == toks[0];
      assert toks[0][|toks[0]|..] == [];
    } else if |toks| > 1 {
      var t, rest := toks[0], JoinSp(toks[1..]);
      var s := t + " " + rest;
      assert s == t + (" " + rest);
      TokenLenOfToken(t, " " + rest);
      assert s[..|t|] == t;
      assert s[|t|..] == " " + rest;
      assert (" " + rest)[1..] == rest;
      assert forall u :: u in toks[1..] ==> u in toks;
      SplitJoin(toks[1..]);
      assert toks == [t] + toks[1..];
    }
  }

  // ---------------------------------------------------------------------
  // Decimal numerals (IMAP message sequence numbers)

  predicate IsDigit(c: char) {
    '0' <= c <= '9'
  }

  function Digit(d: nat): (c: char)
    requires d < 10
    ensures IsDigit(c) && c as int - '0' as int == d
  {
    ('0' as int + d) as char
  }

  /** `str(n)`. */
  function NatToString(n: nat): (s: string)
    ensures s != []
    ensures forall k :: 0 <= k < |s| ==> IsDigit(s[k])
    decreases n
  {
    if n < 10 then [Digit(n)] else NatToString(n / 10) + [Digit(n % 10)]
  }

  /** The value of a non-empty string of decimal digits, or None. */
  function ParseNat(s: string): Option<nat>
    decreases |s|
  {
    if s == [] || !IsDigit(s[|s| - 1]) then None
    else
      var d := s[|s| - 1] as int - '0' as int;
      if |s| == 1 then Some(d)
      else match ParseNat(s[..|s| - 1])
        case None => None
        case Some(v) => Some(10 * v + d)
  }

  lemma {:induction false} ParseNatToString(n: nat)
    ensures ParseNat(NatToString(n)) == Some(n)
    decreases n
  {
    if n >= 10 {
      var s := NatToString(n);
      assert s[..|s| - 1] == NatToString(n / 10);
      ParseNatToString(n / 10);
    }
  }

  // ---------------------------------------------------------------------
  // Substring search

  ghost predicate OccursAt(text: string, pat: string, i: int) {
    0 <= i && i + |pat| <= |text| && text[i..i + |pat|] == pat
  }

  /** `pat in text`. */
  function Contains(text: string, pat: string): bool
    decreases |text|
  {
    if |pat| > |text| then false
    else if text[..|pat|] == pat then true
    else Contains(text[1..], pat)
  }

  /** The search finds `pat` exactly when it occurs somewhere in `text`. */
  lemma {:induction false} ContainsOccurs(text: string, pat: string)
    ensures Contains(text, pat) <==> exists i :: OccursAt(text, pat, i)
    decreases |text|
  {
    if |pat| > |text| {
      assert forall i :: !OccursAt(text, pat, i);
    } else if text[..|pat|] == pat {
      assert OccursAt(text, pat, 0);
    } else {
      OccursShift(text, pat);
      ContainsOccurs(text[1..], pat);
    }
  }

  lemma OccursShift(text: string, pat: string)
    requires |pat| <= |text| && text[..|pat|] != pat
    ensures (exists i :: OccursAt(text, pat, i)) <==> (exists i :: OccursAt(text[1..], pat, i))
  {
    if i :| OccursAt(text, pat, i) {
      assert i != 0;
      assert text[1..][i - 1..i - 1 + |pat|] == text[i..i + |pat|];
      assert OccursAt(text[1..], pat, i - 1);
    }
    if i :| OccursAt(text[1..], pat, i) {
      assert text[1..][i..i + |pat|] == text[i + 1..i + 1 + |pat|];
      assert OccursAt(text, pat, i + 1);
    }
  }

  /** ASCII case folding, as `re.I` does on byte strings. */
  function Lower(c: char): char {
    if 'A' <= c <= 'Z' then (c as int + 32) as char else c
  }

  function LowerStr(s: string): (r: string)
    ensures |r| == |s|
    ensures forall k :: 0 <= k < |s| ==> r[k] == Lower(s[k])
  {
    seq(|s|, k requires 0 <= k < |s| => Lower(s[k]))
  }

  /** `pat` occurs in `text` when ASCII letter case is ignored. */
  function ContainsIgnoreCase(text: string, pat: string): bool {
    Contains(LowerStr(text), LowerStr(pat))
  }
}
