/** The .NET string primitives the mapping code relies on, restricted to
    what can be stated without the Unicode tables: `Char.IsWhiteSpace`,
    `Trim`, `ToLowerInvariant` (ASCII letters only), ordinal `Replace`,
    `Split('/', RemoveEmptyEntries)`, a case-insensitive `StartsWith`
    (ASCII letters only) and `IsNullOrWhiteSpace`. */
module Text {

  /** The characters `Char.IsWhiteSpace` accepts (Unicode categories Zs, Zl,
      Zp plus the control characters U+0009-U+000D and U+0085). */
  predicate IsWhiteSpace(c: char) {
    || c == ' '
    || ('\t' <= c <= '\r')
    || c == '\U{85}'
    || c == '\U{A0}'
    || c == '\U{1680}'
    || ('\U{2000}' <= c <= '\U{200A}')
    || c == '\U{2028}'
    || c == '\U{2029}'
    || c == '\U{202F}'
    || c == '\U{205F}'
    || c == '\U{3000}'
  }

  /** Drops leading white space. */
  function TrimStart(s: string): string {
    if |s| > 0 && IsWhiteSpace(s[0]) then TrimStart(s[1..]) else s
  }

  /** Drops trailing white space. */
  function TrimEnd(s: string): string {
    if |s| > 0 && IsWhiteSpace(s[|s| - 1]) then TrimEnd(s[..|s| - 1]) else s
  }

  /** The result of `TrimStart` is the suffix of `s` that starts at its
      first non-white-space character. */
  lemma {:induction false} TrimStartIsSuffix(s: string)
    ensures |TrimStart(s)| <= |s| && TrimStart(s) == s[|s| - |TrimStart(s)|..]
    ensures forall k :: 0 <= k < |s| - |TrimStart(s)| ==> IsWhiteSpace(s[k])
    ensures TrimStart(s) != [] ==> !IsWhiteSpace(TrimStart(s)[0])
    decreases |s|
  {
    if |s| > 0 && IsWhiteSpace(s[0]) {
      TrimStartIsSuffix(s[1..]);
    }
  }

  /** The result of `TrimEnd` is the prefix of `s` that ends at its last
      non-white-space character. */
  lemma {:induction false} TrimEndIsPrefix(s: string)
    ensures |TrimEnd(s)| <= |s| && TrimEnd(s) == s[..|TrimEnd(s)|]
    ensures forall k :: |TrimEnd(s)| <= k < |s| ==> IsWhiteSpace(s[k])
    ensures TrimEnd(s) != [] ==> !IsWhiteSpace(TrimEnd(s)[|TrimEnd(s)| - 1])
    decreases |s|
  {
    if |s| > 0 && IsWhiteSpace(s[|s| - 1]) {
      TrimEndIsPrefix(s[..|s| - 1]);
    }
  }

  /** `String.Trim()`. */
  function Trim(s: string): string {
    TrimEnd(TrimStart(s))
  }

  /** `Trim` returns a slice `s[i..j]` with only white space outside it
      and no white space at either end. */
  lemma TrimIsInnerSlice(s: string)
    ensures exists i, j :: 0 <= i <= j <= |s| && Trim(s) == s[i..j]
                           && (forall k :: 0 <= k < i ==> IsWhiteSpace(s[k]))
                           && (forall k :: j <= k < |s| ==> IsWhiteSpace(s[k]))
    ensures Trim(s) != [] ==> !IsWhiteSpace(Trim(s)[0]) && !IsWhiteSpace(Trim(s)[|Trim(s)| - 1])
  {
    var t := TrimStart(s);
    TrimStartIsSuffix(s);
    TrimEndIsPrefix(t);
    var r := TrimEnd(t);
    var i := |s| - |t|;
    assert r == s[i..i + |r|];
    assert forall k :: i + |r| <= k < |s| ==> s[k] == t[k - i];
  }

  lemma TrimUnchanged(s: string)
    requires s != [] ==> !IsWhiteSpace(s[0]) && !IsWhiteSpace(s[|s| - 1])
    ensures Trim(s) == s
  {
  }

  predicate IsAsciiUpper(c: char) {
    'A' <= c <= 'Z'
  }

  const UpperLetters: string := "ABCDEFGHIJKLMNOPQRSTUVWXYZ"
  const LowerLetters: string := "abcdefghijklmnopqrstuvwxyz"

  /** `Char.ToLowerInvariant` restricted to ASCII letters. */
  function ToLowerChar(c: char): (r: char)
    ensures !IsAsciiUpper(c) ==> r == c
    ensures !IsAsciiUpper(r)
  {
    if IsAsciiUpper(c) then (c as int + 32) as char else c
  }

  /** An upper-case letter becomes the lower-case letter at the same place
      in the alphabet. */
  lemma ToLowerCharAlphabet(c: char)
    requires IsAsciiUpper(c)
    ensures c == UpperLetters[c as int - 'A' as int]
    ensures ToLowerChar(c) == LowerLetters[c as int - 'A' as int]
  {
  }

  /** Lower-casing a character twice is lower-casing it once. */
  lemma ToLowerCharIdempotent(c: char)
    ensures ToLowerChar(ToLowerChar(c)) == ToLowerChar(c)
  {
  }

  /** `String.ToLowerInvariant`, character by character. */
  function ToLower(s: string): string {
    if s == [] then [] else [ToLowerChar(s[0])] + ToLower(s[1..])
  }

  /** Lower-casing keeps the length and maps each position on its own. */
  lemma {:induction false} ToLowerAt(s: string)
    ensures |ToLower(s)| == |s|
    ensures forall i :: 0 <= i < |s| ==> ToLower(s)[i] == ToLowerChar(s[i])
  {
    if s != [] {
      ToLowerAt(s[1..]);
    }
  }

  /** Lower-casing a string twice is lower-casing it once. */
  lemma {:induction false} ToLowerIdempotent(s: string)
    ensures ToLower(ToLower(s)) == ToLower(s)
  {
    ToLowerAt(s);
    ToLowerAt(ToLower(s));
    forall i | 0 <= i < |s|
      ensures ToLower(ToLower(s))[i] == ToLower(s)[i]
    {
      ToLowerCharIdempotent(s[i]);
    }
  }

  /** Ordinal `String.Replace(old, new)` for a one-character `old`. */
  function ReplaceChar(s: string, from: char, to: string): string
  {
    if s == [] then []
    else (if s[0] == from then to else [s[0]]) + ReplaceChar(s[1..], from, to)
  }

  /** Every occurrence of `from` is replaced, nothing else is lost and
      nothing but `to` is added. */
  lemma {:induction false} ReplaceCharContents(s: string, from: char, to: string, c: char)
    ensures c in ReplaceChar(s, from, to) <==> (c in s && c != from) || (from in s && c in to)
  {
    if s != [] {
      ReplaceCharContents(s[1..], from, to, c);
    }
  }

  /** Replacing a character that does not occur changes nothing. */
  lemma {:induction false} ReplaceCharAbsent(s: string, from: char, to: string)
    requires from !in s
    ensures ReplaceChar(s, from, to) == s
  {
    if s != [] {
      ReplaceCharAbsent(s[1..], from, to);
    }
  }

  /** `String.Split(new[] {sep}, StringSplitOptions.RemoveEmptyEntries)`.
      `current` is the segment read so far. */
  function SplitFrom(s: string, sep: char, current: string): seq<string>
  {
    if s == [] then
      (if current == [] then [] else [current])
    else if s[0] == sep then
      (if current == [] then [] else [current]) + SplitFrom(s[1..], sep, [])
    else
      SplitFrom(s[1..], sep, current + [s[0]])
  }

  function Split(s: string, sep: char): seq<string> {
    SplitFrom(s, sep, [])
  }

  lemma {:induction false} SplitFromSegments(s: string, sep: char, current: string)
    requires sep !in current
    ensures forall i :: 0 <= i < |SplitFrom(s, sep, current)| ==>
              SplitFrom(s, sep, current)[i] != [] && sep !in SplitFrom(s, sep, current)[i]
  {
    if s == [] {
    } else if s[0] == sep {
      SplitFromSegments(s[1..], sep, []);
    } else {
      SplitFromSegments(s[1..], sep, current + [s[0]]);
    }
  }

  /** Every segment is non-empty and free of the separator. */
  lemma SplitSegments(s: string, sep: char)
    ensures forall i :: 0 <= i < |Split(s, sep)| ==> Split(s, sep)[i] != [] && sep !in Split(s, sep)[i]
  {
    SplitFromSegments(s, sep, []);
  }

  function Concat(parts: seq<string>): string {
    if parts == [] then [] else parts[0] + Concat(parts[1..])
  }

  /** `s` with every `c` removed. */
  function RemoveAll(s: string, c: char): (r: string)
    ensures c !in r
  {
    if s == [] then [] else (if s[0] == c then [] else [s[0]]) + RemoveAll(s[1..], c)
  }

  lemma {:induction false} ConcatAppend(a: seq<string>, b: seq<string>)
    ensures Concat(a + b) == Concat(a) + Concat(b)
  {
    if a != [] {
      assert (a + b)[1..] == a[1..] + b;
      ConcatAppend(a[1..], b);
    } else {
      assert a + b == b;
    }
  }

  lemma {:induction false} SplitFromConcat(s: string, sep: char, current: string)
    requires sep !in current
    ensures Concat(SplitFrom(s, sep, current)) == current + RemoveAll(s, sep)
  {
    if s == [] {
    } else if s[0] == sep {
      var head: seq<string> := if current == [] then [] else [current];
      SplitFromConcat(s[1..], sep, []);
      ConcatAppend(head, SplitFrom(s[1..], sep, []));
      assert Concat(head) == current;
      assert RemoveAll(s, sep) == RemoveAll(s[1..], sep);
    } else {
      SplitFromConcat(s[1..], sep, current + [s[0]]);
      assert RemoveAll(s, sep) == [s[0]] + RemoveAll(s[1..], sep);
      assert current + [s[0]] + RemoveAll(s[1..], sep) == current + RemoveAll(s, sep);
    }
  }

  /** Splitting loses only the separators: the segments, put back together,
      are the input with every separator removed. */
  lemma SplitLosesOnlySeparators(s: string, sep: char)
    ensures Concat(Split(s, sep)) == RemoveAll(s, sep)
  {
    SplitFromConcat(s, sep, []);
  }

  /** No non-empty segment exists exactly when the input has nothing but
      separators (the case in which `.First()` throws). */
  lemma SplitEmptyIff(s: string, sep: char)
    ensures Split(s, sep) == [] <==> forall i :: 0 <= i < |s| ==> s[i] == sep
  {
    SplitFromEmptyIff(s, sep, []);
  }

  lemma {:induction false} SplitFromEmptyIff(s: string, sep: char, current: string)
    requires sep !in current
    ensures SplitFrom(s, sep, current) == [] <==> current == [] && forall i :: 0 <= i < |s| ==> s[i] == sep
  {
    if s == [] {
    } else if s[0] == sep {
      SplitFromEmptyIff(s[1..], sep, []);
      if current == [] {
        assert forall i :: 0 <= i < |s[1..]| ==> s[1..][i] == s[i + 1];
      }
    } else {
      SplitFromEmptyIff(s[1..], sep, current + [s[0]]);
    }
  }

  lemma {:induction false} SplitFromAtSeparator(x: string, y: string, sep: char, current: string)
    requires sep !in current
    ensures SplitFrom(x + [sep] + y, sep, current) == SplitFrom(x, sep, current) + Split(y, sep)
    decreases |x|
  {
    var head: seq<string> := if current == [] then [] else [current];
    if x == [] {
      assert (x + [sep] + y)[1..] == y;
    } else if x[0] == sep {
      assert (x + [sep] + y)[1..] == x[1..] + [sep] + y;
      SplitFromAtSeparator(x[1..], y, sep, []);
      assert head + (SplitFrom(x[1..], sep, []) + Split(y, sep)) == (head + SplitFrom(x[1..], sep, [])) + Split(y, sep);
    } else {
      assert (x + [sep] + y)[1..] == x[1..] + [sep] + y;
      SplitFromAtSeparator(x[1..], y, sep, current + [x[0]]);
    }
  }

  /** A separator cuts the input in two: the segments of the whole are the
      segments before it followed by the segments after it. */
  lemma SplitAtSeparator(x: string, y: string, sep: char)
    ensures Split(x + [sep] + y, sep) == Split(x, sep) + Split(y, sep)
  {
    SplitFromAtSeparator(x, y, sep, []);
  }

  lemma {:induction false} SplitFromWithoutSeparator(x: string, sep: char, current: string)
    requires sep !in x
    ensures SplitFrom(x, sep, current) == if current + x == [] then [] else [current + x]
    decreases |x|
  {
    if x == [] {
      assert current + x == current;
    } else {
      assert x[0] in x;
      assert current + [x[0]] + x[1..] == current + x;
      SplitFromWithoutSeparator(x[1..], sep, current + [x[0]]);
    }
  }

  /** A non-empty input without the separator is one segment, itself. */
  lemma SplitWithoutSeparator(x: string, sep: char)
    requires x != [] && sep !in x
    ensures Split(x, sep) == [x]
  {
    SplitFromWithoutSeparator(x, sep, []);
    assert [] + x == x;
  }

  /** `String.StartsWith(prefix, StringComparison.InvariantCultureIgnoreCase)`,
      comparing ASCII letters without regard to case. */
  predicate StartsWithIgnoreCase(s: string, prefix: string) {
    |prefix| <= |s| && forall i :: 0 <= i < |prefix| ==> ToLowerChar(s[i]) == ToLowerChar(prefix[i])
  }

  /** `String.IsNullOrWhiteSpace` on a non-null string. */
  predicate IsNullOrWhiteSpace(s: string) {
    forall i :: 0 <= i < |s| ==> IsWhiteSpace(s[i])
  }
}
