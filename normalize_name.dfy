/** `ConverterMapping.NormalizeName` and `RemoveDiacritics`: the comparison
    key every other part of the mapping is built on. */
module NameNormalization {
  import opened Text

  /** A character Unicode classifies as a non-spacing combining mark in the
      Combining Diacritical Marks block. */
  predicate IsCombiningMark(c: char) {
    '\U{300}' <= c <= '\U{36F}'
  }

  /** The base letter of a Latin-1 letter that canonical decomposition
      splits into a letter and combining marks, if `c` is one. */
  function BaseLetter(c: char): (r: char)
  {
    if c < 'À' || 'ÿ' < c then c
    else if c <= 'Å' then 'A'
    else if c == 'Ç' then 'C'
    else if 'È' <= c <= 'Ë' then 'E'
    else if 'Ì' <= c <= 'Ï' then 'I'
    else if c == 'Ñ' then 'N'
    else if 'Ò' <= c <= 'Ö' then 'O'
    else if 'Ù' <= c <= 'Ü' then 'U'
    else if c == 'Ý' then 'Y'
    else if 'à' <= c <= 'å' then 'a'
    else if c == 'ç' then 'c'
    else if 'è' <= c <= 'ë' then 'e'
    else if 'ì' <= c <= 'ï' then 'i'
    else if c == 'ñ' then 'n'
    else if 'ò' <= c <= 'ö' then 'o'
    else if 'ù' <= c <= 'ü' then 'u'
    else if c == 'ý' || c == 'ÿ' then 'y'
    else c
  }

  predicate HasDiacritic(c: char) {
    BaseLetter(c) != c
  }

  /** `RemoveDiacritics`: decompose, drop non-spacing marks, recompose. */
  function RemoveDiacritics(s: string): string
  {
    if s == [] then []
    else (if IsCombiningMark(s[0]) then [] else [BaseLetter(s[0])]) + RemoveDiacritics(s[1..])
  }

  /** The result holds no combining mark and no decomposable Latin-1
      letter. */
  lemma {:induction false} RemoveDiacriticsClean(s: string)
    ensures |RemoveDiacritics(s)| <= |s|
    ensures forall i :: 0 <= i < |RemoveDiacritics(s)| ==>
              !IsCombiningMark(RemoveDiacritics(s)[i]) && !HasDiacritic(RemoveDiacritics(s)[i])
  {
    if s != [] {
      RemoveDiacriticsClean(s[1..]);
    }
  }

  /** A string without combining marks or decomposable letters is returned
      as it is. */
  lemma {:induction false} RemoveDiacriticsUnchanged(s: string)
    requires forall i :: 0 <= i < |s| ==> !IsCombiningMark(s[i]) && !HasDiacritic(s[i])
    ensures RemoveDiacritics(s) == s
  {
    if s != [] {
      RemoveDiacriticsUnchanged(s[1..]);
    }
  }

  /** `replacementChars`: the literal replacements, in the order they are
      applied. */
  const ReplacementTable: seq<(char, string)> :=
    [('Æ', "Ae"), ('æ', "ae"), ('’', "'"), (':', ""), ('-', ""), ('\'', "")]

  /** The characters no normalized name contains. */
  const RemovedChars: set<char> := {'Æ', 'æ', '’', ':', '-', '\''}

  /** The `foreach` over the table: each entry is applied to the result of
      the ones before it. */
  function ApplyReplacements(s: string, table: seq<(char, string)>): string
    decreases |table|
  {
    if table == [] then s
    else ApplyReplacements(ReplaceChar(s, table[0].0, table[0].1), table[1..])
  }

  /** A character that is absent and that no replacement introduces stays
      absent. */
  lemma {:induction false} ApplyReplacementsKeepsAbsent(s: string, table: seq<(char, string)>, c: char)
    requires c !in s
    requires forall j :: 0 <= j < |table| ==> c !in table[j].1
    ensures c !in ApplyReplacements(s, table)
    decreases |table|
  {
    if table != [] {
      ReplaceCharContents(s, table[0].0, table[0].1, c);
      ApplyReplacementsKeepsAbsent(ReplaceChar(s, table[0].0, table[0].1), table[1..], c);
    }
  }

  /** The character an entry replaces is gone from the result, provided no
      entry from that one on reintroduces it. */
  lemma {:induction false} ApplyReplacementsRemoves(s: string, table: seq<(char, string)>, i: nat)
    requires i < |table|
    requires forall j :: i <= j < |table| ==> table[i].0 !in table[j].1
    ensures table[i].0 !in ApplyReplacements(s, table)
    decreases |table|
  {
    if i == 0 {
      ReplaceCharContents(s, table[0].0, table[0].1, table[0].0);
      ApplyReplacementsKeepsAbsent(ReplaceChar(s, table[0].0, table[0].1), table[1..], table[0].0);
    } else {
      ApplyReplacementsRemoves(ReplaceChar(s, table[0].0, table[0].1), table[1..], i - 1);
    }
  }

  /** A character that no entry replaces or introduces is kept. */
  lemma {:induction false} ApplyReplacementsKeepsOthers(s: string, table: seq<(char, string)>, c: char)
    requires c in s
    requires forall j :: 0 <= j < |table| ==> table[j].0 != c
    ensures c in ApplyReplacements(s, table)
    decreases |table|
  {
    if table != [] {
      ReplaceCharContents(s, table[0].0, table[0].1, c);
      ApplyReplacementsKeepsOthers(ReplaceChar(s, table[0].0, table[0].1), table[1..], c);
    }
  }

  /** After the whole table none of the replaced characters is left: in
      particular `’` is first turned into `'`, which a later entry removes. */
  lemma TableRemovesAll(s: string)
    ensures forall c :: c in ApplyReplacements(s, ReplacementTable) ==> c !in RemovedChars
  {
    var t := ReplacementTable;
    forall i | 0 <= i < |t|
      ensures t[i].0 !in ApplyReplacements(s, t)
    {
      ApplyReplacementsRemoves(s, t, i);
    }
    assert RemovedChars == {t[0].0, t[1].0, t[2].0, t[3].0, t[4].0, t[5].0};
  }

  /** Lower-casing introduces none of the removed characters. */
  lemma LowerKeepsRemovedAbsent(s: string)
    requires forall c :: c in s ==> c !in RemovedChars
    ensures forall i :: 0 <= i < |ToLower(s)| ==> ToLower(s)[i] !in RemovedChars
  {
    ToLowerAt(s);
    forall i | 0 <= i < |s| ensures ToLower(s)[i] !in RemovedChars {
      assert s[i] in s;
    }
  }

  /** `NormalizeName`: trim, drop diacritics, apply the replacement table,
      lower-case. */
  function NormalizeName(name: string): string
  {
    ToLower(ApplyReplacements(RemoveDiacritics(Trim(name)), ReplacementTable))
  }

  /** A key holds none of the removed characters and no ASCII upper-case
      letter, whatever the name was. */
  lemma NormalizeNameKeyChars(name: string)
    ensures forall i :: 0 <= i < |NormalizeName(name)| ==>
              NormalizeName(name)[i] !in RemovedChars && !IsAsciiUpper(NormalizeName(name)[i])
  {
    var replaced := ApplyReplacements(RemoveDiacritics(Trim(name)), ReplacementTable);
    TableRemovesAll(RemoveDiacritics(Trim(name)));
    LowerKeepsRemovedAbsent(replaced);
    ToLowerAt(replaced);
  }

  /** A character that may appear in a key that normalization leaves as it
      is: a lower-case ASCII letter, a digit or a space. */
  predicate IsPlainKeyChar(c: char) {
    ('a' <= c <= 'z') || ('0' <= c <= '9') || c == ' '
  }

  lemma {:induction false} ApplyReplacementsNoOp(s: string, table: seq<(char, string)>)
    requires forall j :: 0 <= j < |table| ==> table[j].0 !in s
    ensures ApplyReplacements(s, table) == s
    decreases |table|
  {
    if table != [] {
      ReplaceCharAbsent(s, table[0].0, table[0].1);
      ApplyReplacementsNoOp(s, table[1..]);
    }
  }

  lemma PlainCharsNotReplaced(s: string)
    requires forall i :: 0 <= i < |s| ==> IsPlainKeyChar(s[i])
    ensures forall j :: 0 <= j < |ReplacementTable| ==> ReplacementTable[j].0 !in s
  {
  }

  lemma PlainCharsHaveNoDiacritics(s: string)
    requires forall i :: 0 <= i < |s| ==> IsPlainKeyChar(s[i])
    ensures RemoveDiacritics(s) == s
  {
    RemoveDiacriticsUnchanged(s);
  }

  lemma PlainCharsAreLower(s: string)
    requires forall i :: 0 <= i < |s| ==> IsPlainKeyChar(s[i])
    ensures ToLower(s) == s
  {
    ToLowerAt(s);
  }

  lemma NormalizeTrimmed(s: string)
    requires Trim(s) == s
    ensures NormalizeName(s) == ToLower(ApplyReplacements(RemoveDiacritics(s), ReplacementTable))
  {
  }

  lemma PlainKeyUnchangedAfterTrim(s: string)
    requires forall i :: 0 <= i < |s| ==> IsPlainKeyChar(s[i])
    ensures ToLower(ApplyReplacements(RemoveDiacritics(s), ReplacementTable)) == s
  {
    PlainCharsNotReplaced(s);
    PlainCharsHaveNoDiacritics(s);
    PlainCharsAreLower(s);
    ApplyReplacementsNoOp(s, ReplacementTable);
  }

  /** A name made of lower-case ASCII letters, digits and spaces, with no
      white space to trim, is already its own key. */
  lemma NormalizeNameFixesPlainKeys(s: string)
    requires forall i :: 0 <= i < |s| ==> IsPlainKeyChar(s[i])
    requires Trim(s) == s
    ensures NormalizeName(s) == s
  {
    NormalizeTrimmed(s);
    PlainKeyUnchangedAfterTrim(s);
  }

  /** Names with the same trimmed form have the same key. */
  lemma NormalizeNameOnlySeesTrimmed(a: string, b: string)
    requires Trim(a) == Trim(b)
    ensures NormalizeName(a) == NormalizeName(b)
  {
  }

  lemma {:induction false} ApplyReplacementsSkip(s: string, table: seq<(char, string)>, n: nat)
    requires n <= |table|
    requires forall j :: 0 <= j < n ==> table[j].0 !in s
    ensures ApplyReplacements(s, table) == ApplyReplacements(s, table[n..])
    decreases n
  {
    if n > 0 {
      ReplaceCharAbsent(s, table[0].0, table[0].1);
      ApplyReplacementsSkip(s, table[1..], n - 1);
      assert table[1..][n - 1..] == table[n..];
    }
  }

  lemma TrimHyphenExample() ensures Trim("- a") == "- a" { }
  lemma TrimStartSpaceExample() ensures TrimStart(" a") == "a" { }
  lemma TrimEndLetterExample() ensures TrimEnd("a") == "a" { }
  lemma TrimSpaceExample() ensures Trim(" a") == "a" {
    TrimStartSpaceExample();
    TrimEndLetterExample();
  }
  lemma TrimLetterExample() ensures Trim("a") == "a" { }
  lemma HyphenHasNoDiacritics() ensures RemoveDiacritics("- a") == "- a" { }

  lemma HyphenRemovedExample()
    ensures ApplyReplacements("- a", ReplacementTable) == " a"
  {
    var t := ReplacementTable;
    ApplyReplacementsSkip("- a", t, 4);
    ApplyReplacementsStep("- a", t[4..]);
    HyphenReplaced();
    assert t[4..][1..] == [('\'', "")];
    ApplyReplacementsSkip(" a", [('\'', "")], 1);
  }

  lemma HyphenReplaced()
    ensures ReplaceChar("- a", '-', "") == " a"
  {
    ReplaceCharAbsent(" a", '-', "");
    assert "- a"[1..] == " a";
  }

  lemma LowerSpaceExample() ensures ToLower(" a") == " a" { }

  /** Trimming happens before characters are removed, so normalizing a key
      again can change it: "- a" normalizes to " a", which normalizes to
      "a". */
  lemma NormalizeNameNotIdempotent()
    ensures NormalizeName("- a") == " a"
    ensures NormalizeName(NormalizeName("- a")) == "a"
  {
    TrimHyphenExample();
    TrimSpaceExample();
    TrimLetterExample();
    HyphenHasNoDiacritics();
    HyphenRemovedExample();
    LowerSpaceExample();
    NormalizeTrimmed("- a");
    NormalizeNameOnlySeesTrimmed(" a", "a");
    NormalizeNameFixesPlainKeys("a");
  }

  lemma ApplyReplacementsStep(s: string, table: seq<(char, string)>)
    requires table != []
    ensures ApplyReplacements(s, table) == ApplyReplacements(ReplaceChar(s, table[0].0, table[0].1), table[1..])
  {
  }

  lemma ReplaceSingle(c: char, from: char, to: string)
    ensures ReplaceChar([c], from, to) == if c == from then to else [c]
  {
    assert [c][1..] == [];
  }

  lemma ApostropheRemoved()
    ensures ApplyReplacements("'", [('\'', "")]) == ""
  {
    ApplyReplacementsStep("'", [('\'', "")]);
    ReplaceSingle('\'', '\'', "");
  }

  /** Table order matters: `’` is first turned into `'`, which the last
      entry then removes. */
  lemma RightQuoteRemovedThroughApostrophe()
    ensures ApplyReplacements("’", ReplacementTable) == ""
  {
    var t := ReplacementTable;
    ApplyReplacementsSkip("’", t, 2);
    ApplyReplacementsStep("’", t[2..]);
    ReplaceSingle('’', '’', "'");
    ApplyReplacementsSkip("'", t[3..], 2);
    assert t[3..][2..] == [('\'', "")];
    ApostropheRemoved();
  }

  /** With the two entries the other way round an apostrophe would be
      left. */
  lemma SwappedEntriesLeaveApostrophe()
    ensures ApplyReplacements("’", [('\'', ""), ('’', "'")]) == "'"
  {
    var t: seq<(char, string)> := [('\'', ""), ('’', "'")];
    ApplyReplacementsSkip("’", t, 1);
    ApplyReplacementsStep("’", t[1..]);
    ReplaceSingle('’', '’', "'");
  }
}
