/** Folder name translation between server hierarchy conventions
    (`__translateFolderName`). The pivot is the dot-separated form. */
module FolderName {
  import opened Text
  import opened Dialect

  /** Stage 1: from the source server's convention into the dot-separated form.
      Exchange names turn `.` into a space and then `/` into `.`. */
  function ToCanonical(name: string, src: ServerType): string {
    if src == Exchange then Replace(Replace(name, '.', ' '), '/', '.') else name
  }

  /** Stage 2: from the dot-separated form into the destination's convention.
      Exchange names turn `/` into a space and then `.` into `/`. */
  function FromCanonical(path: string, dst: ServerType): string {
    if dst == Exchange then Replace(Replace(path, '/', ' '), '.', '/') else path
  }

  function Translate(name: string, src: ServerType, dst: ServerType): string {
    FromCanonical(ToCanonical(name, src), dst)
  }

  /** Translation keeps the length, and is the identity unless one side is Exchange. */
  lemma TranslateShape(name: string, src: ServerType, dst: ServerType)
    ensures |Translate(name, src, dst)| == |name|
    ensures src != Exchange && dst != Exchange ==> Translate(name, src, dst) == name
  {
  }

  /** Reference definition of translation, one character at a time. */
  function ToCanonicalChar(c: char, src: ServerType): char {
    if src != Exchange then c else if c == '.' then ' ' else if c == '/' then '.' else c
  }

  function FromCanonicalChar(c: char, dst: ServerType): char {
    if dst != Exchange then c else if c == '/' then ' ' else if c == '.' then '/' else c
  }

  lemma ToCanonicalAt(name: string, src: ServerType, i: nat)
    requires i < |name|
    ensures |ToCanonical(name, src)| == |name|
    ensures ToCanonical(name, src)[i] == ToCanonicalChar(name[i], src)
  {
    if src == Exchange {
      ReplaceAt(name, '.', ' ', i);
      ReplaceAt(Replace(name, '.', ' '), '/', '.', i);
    }
  }

  lemma FromCanonicalAt(path: string, dst: ServerType, i: nat)
    requires i < |path|
    ensures |FromCanonical(path, dst)| == |path|
    ensures FromCanonical(path, dst)[i] == FromCanonicalChar(path[i], dst)
  {
    if dst == Exchange {
      ReplaceAt(path, '/', ' ', i);
      ReplaceAt(Replace(path, '/', ' '), '.', '/', i);
    }
  }

  /** The chained replacements agree with the character table at every position. */
  lemma TranslateAt(name: string, src: ServerType, dst: ServerType, i: nat)
    requires i < |name|
    ensures |Translate(name, src, dst)| == |name|
    ensures Translate(name, src, dst)[i] == FromCanonicalChar(ToCanonicalChar(name[i], src), dst)
  {
    ToCanonicalAt(name, src, i);
    FromCanonicalAt(ToCanonical(name, src), dst, i);
  }

  /** Only `.` and `/` can change under translation. */
  lemma TranslateKeepsOtherChars(name: string, src: ServerType, dst: ServerType)
    ensures forall i :: 0 <= i < |name| && name[i] != '.' && name[i] != '/'
              ==> Translate(name, src, dst)[i] == name[i]
  {
    TranslateShape(name, src, dst);
    forall i | 0 <= i < |name| && name[i] != '.' && name[i] != '/' {
      TranslateAt(name, src, dst, i);
    }
  }

  /** An Exchange name leaves no `/` in the dot-separated form. */
  lemma CanonicalOfExchangeHasNoSlash(name: string)
    ensures '/' !in ToCanonical(name, Exchange)
  {
    var p := ToCanonical(name, Exchange);
    forall i | 0 <= i < |p| ensures p[i] != '/' {
      ToCanonicalAt(name, Exchange, i);
    }
  }

  /** A name produced for Exchange holds no `.`. */
  lemma ExchangeNameHasNoDot(path: string)
    ensures '.' !in FromCanonical(path, Exchange)
  {
    var r := FromCanonical(path, Exchange);
    forall i | 0 <= i < |r| ensures r[i] != '.' {
      FromCanonicalAt(path, Exchange, i);
    }
  }

  /** Exchange to Exchange is not the identity: `.` becomes a space, `/` stays. */
  lemma ExchangeToExchange(name: string)
    ensures Translate(name, Exchange, Exchange) == Replace(name, '.', ' ')
  {
    var r := Translate(name, Exchange, Exchange);
    TranslateShape(name, Exchange, Exchange);
    forall i | 0 <= i < |name| ensures r[i] == Replace(name, '.', ' ')[i] {
      TranslateAt(name, Exchange, Exchange, i);
      ReplaceAt(name, '.', ' ', i);
    }
  }

  /** A name without `/` survives a trip to Exchange and back. */
  lemma RoundTripThroughExchange(name: string, t: ServerType)
    requires t != Exchange
    requires '/' !in name
    ensures Translate(Translate(name, t, Exchange), Exchange, t) == name
  {
    var there := Translate(name, t, Exchange);
    var back := Translate(there, Exchange, t);
    TranslateShape(name, t, Exchange);
    TranslateShape(there, Exchange, t);
    forall i | 0 <= i < |name| ensures back[i] == name[i] {
      TranslateAt(name, t, Exchange, i);
      TranslateAt(there, Exchange, t, i);
    }
  }

  /** An Exchange name without `.` survives a trip to another server and back. */
  lemma RoundTripFromExchange(name: string, t: ServerType)
    requires t != Exchange
    requires '.' !in name
    ensures Translate(Translate(name, Exchange, t), t, Exchange) == name
  {
    var there := Translate(name, Exchange, t);
    var back := Translate(there, t, Exchange);
    TranslateShape(name, Exchange, t);
    TranslateShape(there, t, Exchange);
    forall i | 0 <= i < |name| ensures back[i] == name[i] {
      TranslateAt(name, Exchange, t, i);
      TranslateAt(there, t, Exchange, i);
    }
  }

  /** Without those conditions the round trip loses information. */
  lemma RoundTripLosesSlash()
    ensures Translate(Translate("a/b", Dovecot, Exchange), Exchange, Dovecot) == "a b"
  {
    TranslateAt("a/b", Dovecot, Exchange, 1);
    var there := Translate("a/b", Dovecot, Exchange);
    assert there == "a b" by {
      TranslateAt("a/b", Dovecot, Exchange, 0);
      TranslateAt("a/b", Dovecot, Exchange, 2);
    }
    assert Translate("a b", Exchange, Dovecot) == "a b" by {
      TranslateKeepsOtherChars("a b", Exchange, Dovecot);
    }
  }
}
