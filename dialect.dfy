/** Server type detection from the greeting line (`__getServerType`). */
module Dialect {
  import opened Text

  datatype ServerType = Exchange | Dovecot | Unknown

  /** One entry of the detection table: a tag and the text whose presence,
      ignoring case, identifies it; the table's regular expressions have the
      form `^.*TEXT.*$`. */
  datatype Rule = Rule(tag: ServerType, pattern: string)

  const ExchangeRule := Rule(Exchange, "Microsoft Exchange")
  const DovecotRule := Rule(Dovecot, "imapfront")

  /** The table is a dictionary, so it is scanned in one of its two orders;
      which one is not fixed by the program. */
  predicate IsTableOrder(rules: seq<Rule>) {
    rules == [ExchangeRule, DovecotRule] || rules == [DovecotRule, ExchangeRule]
  }

  /** `.` does not match a newline and `$` matches only at the end or before a
      final newline, so `^.*TEXT.*$` needs a greeting whose only newline, if
      any, is its last character. */
  predicate OneLine(welcome: string) {
    forall i :: 0 <= i < |welcome| - 1 ==> welcome[i] != '\n'
  }

  /** `regs[r].match(conn.welcome)`, with `re.I` folding ASCII letters. */
  predicate Matches(welcome: string, r: Rule) {
    OneLine(welcome) && ContainsIgnoreCase(welcome, r.pattern)
  }

  /** The tag of the first rule at or after `i` that matches, else Unknown. */
  function FirstMatch(rules: seq<Rule>, welcome: string, i: nat): (t: ServerType)
    requires i <= |rules|
    ensures (t == Unknown && forall j :: i <= j < |rules| ==> !Matches(welcome, rules[j]))
         || (exists j :: i <= j < |rules| && Matches(welcome, rules[j]) && t == rules[j].tag
                         && forall k :: i <= k < j ==> !Matches(welcome, rules[k]))
    decreases |rules| - i
  {
    if i == |rules| then Unknown
    else if Matches(welcome, rules[i]) then rules[i].tag
    else FirstMatch(rules, welcome, i + 1)
  }

  /** `__getServerType`: classify a greeting line. */
  function ServerTypeOf(welcome: string, rules: seq<Rule>): ServerType
    requires IsTableOrder(rules)
  {
    FirstMatch(rules, welcome, 0)
  }

  /** The greeting is Unknown exactly when it matches neither pattern; when it
      matches one, that one; when it matches both, the table's first. */
  lemma ServerTypeOfCases(welcome: string, rules: seq<Rule>)
    requires IsTableOrder(rules)
    ensures var t := ServerTypeOf(welcome, rules);
            var exchange, dovecot := Matches(welcome, ExchangeRule), Matches(welcome, DovecotRule);
            (t == Unknown <==> !exchange && !dovecot)
            && (exchange && !dovecot ==> t == Exchange)
            && (!exchange && dovecot ==> t == Dovecot)
            && (exchange && dovecot ==> t == rules[0].tag)
  {
    assert |rules| == 2;
    assert Matches(welcome, rules[0]) || Matches(welcome, rules[1])
       <==> Matches(welcome, ExchangeRule) || Matches(welcome, DovecotRule);
    assert rules[0].tag != Unknown && rules[1].tag != Unknown;
  }

  /** A greeting with a newline before its last character matches no pattern,
      whatever it mentions. */
  lemma MultiLineGreetingIsUnknown(welcome: string, rules: seq<Rule>, i: nat)
    requires IsTableOrder(rules)
    requires i < |welcome| - 1 && welcome[i] == '\n'
    ensures ServerTypeOf(welcome, rules) == Unknown
  {
    ServerTypeOfCases(welcome, rules);
  }

  /** A one-line greeting is classified by what it mentions, ignoring case. */
  lemma OneLineGreeting(welcome: string, rules: seq<Rule>)
    requires IsTableOrder(rules)
    requires OneLine(welcome)
    ensures ServerTypeOf(welcome, rules) == Unknown
            <==> !ContainsIgnoreCase(welcome, "Microsoft Exchange") && !ContainsIgnoreCase(welcome, "imapfront")
  {
    ServerTypeOfCases(welcome, rules);
  }
}
