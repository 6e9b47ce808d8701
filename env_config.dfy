/** Cleaning of environment values read by the Hardhat configuration
    (hardhat.config.ts): `normalizeEnvValue` keeps the first whitespace-free
    word of a possibly undefined string, and `normalizePrivateKey` turns that
    word into an optional `0x`-prefixed key. */
module EnvConfig {
  import opened Wrappers

  /** ECMAScript WhiteSpace or LineTerminator (sections 12.2 and 12.3 of
      ECMA-262): the characters that String.prototype.trim strips and that
      the regular-expression class \s matches. USP (any Unicode "Zs" space
      separator) is listed as of Unicode 15. */
  predicate IsWhitespace(c: char)
  {
    || c == '\t' || c == '\U{000B}' || c == '\U{000C}' || c == ' '
    || c == '\U{00A0}' || c == '\U{FEFF}' || c == '\U{1680}'
    || ('\U{2000}' <= c <= '\U{200A}')
    || c == '\U{202F}' || c == '\U{205F}' || c == '\U{3000}'
    || c == '\n' || c == '\r' || c == '\U{2028}' || c == '\U{2029}'
  }

  predicate NoWhitespace(s: string)
  {
    forall i :: 0 <= i < |s| ==> !IsWhitespace(s[i])
  }

  predicate AllWhitespace(s: string)
  {
    forall i :: 0 <= i < |s| ==> IsWhitespace(s[i])
  }

  /** The first index at or after `from` that does not hold whitespace
      (or |s|): skips a run of whitespace. */
  function SkipBlank(s: string, from: nat): (j: nat)
    requires from <= |s|
    ensures from <= j <= |s|
    ensures forall k :: from <= k < j ==> IsWhitespace(s[k])
    ensures j == |s| || !IsWhitespace(s[j])
    decreases |s| - from
  {
    if from < |s| && IsWhitespace(s[from]) then SkipBlank(s, from + 1) else from
  }

  /** The first index at or after `from` that holds whitespace (or |s|):
      skips a word. */
  function SkipWord(s: string, from: nat): (j: nat)
    requires from <= |s|
    ensures from <= j <= |s|
    ensures forall k :: from <= k < j ==> !IsWhitespace(s[k])
    ensures j == |s| || IsWhitespace(s[j])
    decreases |s| - from
  {
    if from < |s| && !IsWhitespace(s[from]) then SkipWord(s, from + 1) else from
  }

  /** The start of the run of whitespace that ends at `to`: skips that run
      backwards. */
  function SkipBlankBack(s: string, to: nat): (j: nat)
    requires to <= |s|
    ensures j <= to
    ensures forall k :: j <= k < to ==> IsWhitespace(s[k])
    ensures j == 0 || !IsWhitespace(s[j - 1])
  {
    if to > 0 && IsWhitespace(s[to - 1]) then SkipBlankBack(s, to - 1) else to
  }

  /** String.prototype.trim: the part of `s` between its leading and its
      trailing whitespace; empty exactly when `s` is blank. */
  function Trim(s: string): (r: string)
    ensures var i := SkipBlank(s, 0);
      && i + |r| <= |s|
      && r == s[i..i + |r|]
      && (forall k :: i + |r| <= k < |s| ==> IsWhitespace(s[k]))
    ensures r == [] <==> AllWhitespace(s)
    ensures r != [] ==> !IsWhitespace(r[0]) && !IsWhitespace(r[|r| - 1])
  {
    var i := SkipBlank(s, 0);
    if i == |s| then [] else s[i..SkipBlankBack(s, |s|)]
  }

  /** String.prototype.split(/\s+/): the fields between maximal runs of
      whitespace. The empty string gives [""], leading whitespace gives an
      empty first field and trailing whitespace an empty last field, as the
      RegExp split algorithm of ECMA-262 does for a pattern that cannot match
      the empty string. */
  function Split(s: string): (fields: seq<string>)
    ensures |fields| >= 1
    ensures fields[0] == s[..SkipWord(s, 0)]
    ensures forall k :: 0 <= k < |fields| ==> NoWhitespace(fields[k])
  {
    SplitFrom(s, 0)
  }

  /** The fields of `s[from..]`, where `from` starts a field. */
  function SplitFrom(s: string, from: nat): (fields: seq<string>)
    requires from <= |s|
    ensures |fields| >= 1
    ensures fields[0] == s[from..SkipWord(s, from)]
    ensures forall k :: 0 <= k < |fields| ==> NoWhitespace(fields[k])
    decreases |s| - from
  {
    var end := SkipWord(s, from);
    if end == |s| then
      [s[from..]]
    else
      [s[from..end]] + SplitFrom(s, SkipBlank(s, end))
  }

  /** normalizeEnvValue: `(value ?? "").trim().split(/\s+/)[0] ?? ""`. The
      result holds no whitespace and is empty exactly when the value is
      undefined or blank. */
  function NormalizeEnvValue(value: Option<string>): (r: string)
    ensures NoWhitespace(r)
    ensures r == [] <==> value.None? || AllWhitespace(value.value)
  {
    var fields := Split(Trim(value.GetOr("")));
    if |fields| > 0 then fields[0] else ""
  }

  /** normalizePrivateKey: undefined when the cleaned value is empty,
      otherwise the cleaned value with a `0x` prefix added unless it already
      starts with exactly `0x` (the test is case-sensitive). */
  function NormalizePrivateKey(privateKey: Option<string>): (r: Option<string>)
    ensures r.None? <==> NormalizeEnvValue(privateKey) == []
    ensures r.Some? ==> "0x" <= r.value && NoWhitespace(r.value)
  {
    var cleaned := NormalizeEnvValue(privateKey);
    if cleaned == [] then None
    else if "0x" <= cleaned then Some(cleaned)
    else Some("0x" + cleaned)
  }

  /** The cleaned value is the longest whitespace-free prefix of the
      trimmed value. */
  lemma CleanedIsFirstField(v: string)
    ensures var trimmed := Trim(v);
      NormalizeEnvValue(Some(v)) == trimmed[..SkipWord(trimmed, 0)]
  {
  }

  /** `w` is a word of `v` starting at index `i`: a non-empty maximal run of
      non-whitespace characters, preceded by whitespace or the start of `v`
      and followed by whitespace or the end of `v`. */
  predicate IsWordAt(w: string, v: string, i: nat)
  {
    && w != []
    && NoWhitespace(w)
    && i + |w| <= |v|
    && w == v[i..i + |w|]
    && (i == 0 || IsWhitespace(v[i - 1]))
    && (i + |w| == |v| || IsWhitespace(v[i + |w|]))
  }

  /** For a value that is not blank, the cleaned value is its first word:
      the word that starts where the leading whitespace ends. The trimmed
      value starts with it. */
  lemma EnvValueIsFirstWord(v: string)
    requires !AllWhitespace(v)
    ensures IsWordAt(NormalizeEnvValue(Some(v)), v, SkipBlank(v, 0))
    ensures AllWhitespace(v[..SkipBlank(v, 0)])
    ensures NormalizeEnvValue(Some(v)) <= Trim(v)
  {
    CleanedIsFirstField(v);
    FirstWordOfTrimmed(v);
  }

  /** The first word of the trimmed value, located in the value itself. */
  lemma FirstWordOfTrimmed(v: string)
    requires !AllWhitespace(v)
    ensures var trimmed := Trim(v);
      IsWordAt(trimmed[..SkipWord(trimmed, 0)], v, SkipBlank(v, 0))
    ensures AllWhitespace(v[..SkipBlank(v, 0)])
  {
    var trimmed := Trim(v);
    var i := SkipBlank(v, 0);
    var n := SkipWord(trimmed, 0);
    assert trimmed[..n] == v[i..i + n];
    if n < |trimmed| {
      assert v[i + n] == trimmed[n];
    }
  }

  /** A whitespace-free word is cleaned to itself. */
  lemma WordIsNormal(s: string)
    requires NoWhitespace(s)
    ensures NormalizeEnvValue(Some(s)) == s
  {
    assert SkipBlank(s, 0) == 0;
    assert Trim(s) == s;
    assert s[..SkipWord(s, 0)] == s;
  }

  /** normalizeEnvValue is idempotent. */
  lemma NormalizeEnvValueIdempotent(value: Option<string>)
    ensures NormalizeEnvValue(Some(NormalizeEnvValue(value))) == NormalizeEnvValue(value)
  {
    WordIsNormal(NormalizeEnvValue(value));
  }

  /** For any input, a cleaned value that already starts with `0x` is the
      result, unchanged. */
  lemma PrefixedCleanedUnchanged(privateKey: Option<string>)
    ensures "0x" <= NormalizeEnvValue(privateKey) ==>
      NormalizePrivateKey(privateKey) == Some(NormalizeEnvValue(privateKey))
  {
  }

  /** For any input, a non-empty cleaned value that does not start with
      `0x` is the result with exactly one `0x` in front. */
  lemma UnprefixedCleanedGetsPrefix(privateKey: Option<string>)
    ensures NormalizeEnvValue(privateKey) != [] && !("0x" <= NormalizeEnvValue(privateKey)) ==>
      NormalizePrivateKey(privateKey) == Some("0x" + NormalizeEnvValue(privateKey))
  {
  }

  /** A whitespace-free key that already starts with `0x` is returned
      unchanged. */
  lemma PrefixedWordUnchanged(key: string)
    requires NoWhitespace(key) && "0x" <= key
    ensures NormalizePrivateKey(Some(key)) == Some(key)
  {
    WordIsNormal(key);
  }

  /** A non-empty word that does not start with `0x` is returned with `0x`
      in front. */
  lemma UnprefixedWordGetsPrefix(key: string)
    requires key != [] && NoWhitespace(key) && !("0x" <= key)
    ensures NormalizePrivateKey(Some(key)) == Some("0x" + key)
  {
    WordIsNormal(key);
  }

  /** The prefix test is case-sensitive: a key written with `0X` is not
      recognised as prefixed and becomes `0x0X...`. */
  lemma UpperCasePrefixIsKept(hex: string)
    requires NoWhitespace(hex)
    ensures NormalizePrivateKey(Some("0X" + hex)) == Some("0x0X" + hex)
  {
    UpperCaseKeyIsUnprefixedWord(hex);
    UnprefixedWordGetsPrefix("0X" + hex);
  }

  lemma UpperCaseKeyIsUnprefixedWord(hex: string)
    requires NoWhitespace(hex)
    ensures var key := "0X" + hex;
      key != [] && NoWhitespace(key) && !("0x" <= key) && "0x" + key == "0x0X" + hex
  {
    var key := "0X" + hex;
    assert key[0] == '0' && key[1] == 'X';
    assert forall i :: 2 <= i < |key| ==> key[i] == hex[i - 2];
    assert key[1] != "0x"[1];
  }

  /** normalizePrivateKey is idempotent: feeding a result back in changes
      nothing, whether the result is defined or not. */
  lemma NormalizePrivateKeyIdempotent(privateKey: Option<string>)
    ensures NormalizePrivateKey(NormalizePrivateKey(privateKey)) == NormalizePrivateKey(privateKey)
  {
    var r := NormalizePrivateKey(privateKey);
    if r.Some? {
      WordIsNormal(r.value);
    }
  }

  /** Concatenation of a list of strings. */
  function Concat(fields: seq<string>): string
  {
    if fields == [] then [] else fields[0] + Concat(fields[1..])
  }

  /** `s` with every whitespace character taken out. */
  function RemoveWhitespace(s: string): string
  {
    if s == [] then []
    else (if IsWhitespace(s[0]) then [] else [s[0]]) + RemoveWhitespace(s[1..])
  }

  lemma {:induction false} RemoveWhitespaceAppend(a: string, b: string)
    ensures RemoveWhitespace(a + b) == RemoveWhitespace(a) + RemoveWhitespace(b)
    decreases |a|
  {
    if a != [] {
      assert (a + b)[0] == a[0];
      assert (a + b)[1..] == a[1..] + b;
      RemoveWhitespaceAppend(a[1..], b);
    } else {
      assert a + b == b;
    }
  }

  lemma {:induction false} RemoveWhitespaceOfWord(s: string)
    requires NoWhitespace(s)
    ensures RemoveWhitespace(s) == s
    decreases |s|
  {
    if s != [] {
      RemoveWhitespaceOfWord(s[1..]);
    }
  }

  lemma {:induction false} RemoveWhitespaceOfBlank(s: string)
    requires AllWhitespace(s)
    ensures RemoveWhitespace(s) == []
    decreases |s|
  {
    if s != [] {
      RemoveWhitespaceOfBlank(s[1..]);
    }
  }

  /** The edge cases of split(/\s+/): the empty string gives [""], a
      blank string gives ["", ""], leading whitespace gives an empty first
      field and trailing whitespace an empty last field. */
  lemma SplitEdgeCases(s: string)
    ensures s == [] ==> Split(s) == [[]]
    ensures s != [] && IsWhitespace(s[0]) ==> Split(s)[0] == []
    ensures s != [] && IsWhitespace(s[|s| - 1]) ==> Split(s)[|Split(s)| - 1] == []
    ensures s != [] && AllWhitespace(s) ==> Split(s) == [[], []]
  {
    if s != [] && IsWhitespace(s[|s| - 1]) {
      SplitFromEndsEmpty(s, 0);
    }
    if s != [] && AllWhitespace(s) {
      assert SkipWord(s, 0) == 0;
      assert SkipBlank(s, 0) == |s|;
      assert SplitFrom(s, |s|) == [s[|s|..]];
    }
  }

  /** When `s` ends in whitespace, the last field is empty. */
  lemma {:induction false} SplitFromEndsEmpty(s: string, from: nat)
    requires from <= |s| && s != [] && IsWhitespace(s[|s| - 1])
    ensures var fields := SplitFrom(s, from); fields[|fields| - 1] == []
    decreases |s| - from
  {
    var end := SkipWord(s, from);
    if end < |s| {
      SplitFromEndsEmpty(s, SkipBlank(s, end));
    }
  }

  /** Splitting on whitespace loses only whitespace: the fields, put back
      together, are the input with its whitespace taken out. */
  lemma SplitLosesOnlyWhitespace(s: string)
    ensures Concat(Split(s)) == RemoveWhitespace(s)
  {
    SplitFromLosesOnlyWhitespace(s, 0);
    assert s[0..] == s;
  }

  lemma {:induction false} SplitFromLosesOnlyWhitespace(s: string, from: nat)
    requires from <= |s|
    ensures Concat(SplitFrom(s, from)) == RemoveWhitespace(s[from..])
    decreases |s| - from
  {
    var end := SkipWord(s, from);
    if end == |s| {
      RemoveWhitespaceOfField(s, from, end, end);
    } else {
      var next := SkipBlank(s, end);
      SplitFromLosesOnlyWhitespace(s, next);
      RemoveWhitespaceOfField(s, from, end, next);
      assert SplitFrom(s, from) == [s[from..end]] + SplitFrom(s, next);
    }
  }

  /** Taking the whitespace out of a word, the whitespace after it and the
      rest leaves the word followed by the rest with its whitespace taken
      out. */
  lemma RemoveWhitespaceOfField(s: string, from: nat, end: nat, next: nat)
    requires from <= end <= next <= |s|
    requires forall k :: from <= k < end ==> !IsWhitespace(s[k])
    requires forall k :: end <= k < next ==> IsWhitespace(s[k])
    ensures RemoveWhitespace(s[from..]) == s[from..end] + RemoveWhitespace(s[next..])
  {
    var word, gap, rest := s[from..end], s[end..next], s[next..];
    assert s[from..] == word + gap + rest;
    assert NoWhitespace(word) by {
      assert forall k :: 0 <= k < |word| ==> word[k] == s[from + k];
    }
    assert AllWhitespace(gap) by {
      assert forall k :: 0 <= k < |gap| ==> gap[k] == s[end + k];
    }
    RemoveWhitespaceAppend(word + gap, rest);
    RemoveWhitespaceAppend(word, gap);
    RemoveWhitespaceOfWord(word);
    RemoveWhitespaceOfBlank(gap);
  }
}
