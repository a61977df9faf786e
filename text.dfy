/** The Python string operations the pipeline relies on: `str.strip()`,
    `str.lower()`, `str.upper()`, `str.replace()` and the `in` substring test.
    Case mapping covers ASCII and Latin-1 only; the model assumes the
    workbook's labels use no other letters. */
module Text {

  /** Python's `str.isspace()` for a single character: the characters that
      `str.strip()` with no argument removes. */
  predicate IsSpace(c: char) {
    || c == ' ' || c == '\t' || c == '\n' || c == '\r'
    || c == '\U{000B}' || c == '\U{000C}'
    || ('\U{001C}' <= c <= '\U{001F}')
    || c == '\U{0085}' || c == '\U{00A0}' || c == '\U{1680}'
    || ('\U{2000}' <= c <= '\U{200A}')
    || c == '\U{2028}' || c == '\U{2029}' || c == '\U{202F}'
    || c == '\U{205F}' || c == '\U{3000}'
  }

  /** No whitespace at either end: what `strip()` leaves behind. */
  predicate Trimmed(s: string) {
    s == [] || (!IsSpace(s[0]) && !IsSpace(s[|s| - 1]))
  }

  function StripStart(s: string): string {
    if |s| > 0 && IsSpace(s[0]) then StripStart(s[1..]) else s
  }

  function StripEnd(s: string): string {
    if |s| > 0 && IsSpace(s[|s| - 1]) then StripEnd(s[..|s| - 1]) else s
  }

  /** Python's `str.strip()`. */
  function Strip(s: string): string {
    StripEnd(StripStart(s))
  }

  /** `lstrip()` leaves a suffix that does not start with whitespace, and
      removes only whitespace. */
  lemma {:induction false} StripStartIsSuffix(s: string)
    ensures |StripStart(s)| <= |s| && StripStart(s) == s[|s| - |StripStart(s)|..]
    ensures StripStart(s) == [] || !IsSpace(StripStart(s)[0])
    ensures forall k :: 0 <= k < |s| - |StripStart(s)| ==> IsSpace(s[k])
  {
    if |s| > 0 && IsSpace(s[0]) {
      StripStartIsSuffix(s[1..]);
    }
  }

  /** `rstrip()` leaves a prefix that does not end with whitespace, and
      removes only whitespace. */
  lemma {:induction false} StripEndIsPrefix(s: string)
    ensures |StripEnd(s)| <= |s| && StripEnd(s) == s[..|StripEnd(s)|]
    ensures StripEnd(s) == [] || !IsSpace(StripEnd(s)[|StripEnd(s)| - 1])
    ensures forall k :: |StripEnd(s)| <= k < |s| ==> IsSpace(s[k])
  {
    if |s| > 0 && IsSpace(s[|s| - 1]) {
      StripEndIsPrefix(s[..|s| - 1]);
    }
  }

  /** `strip()` removes whitespace from both ends and nothing else: the result
      is a slice of the input with no whitespace at either end, everything cut
      off is whitespace, and a string that is already trimmed is left as it
      is. */
  lemma StripIsTrimmedSlice(s: string)
    ensures Trimmed(Strip(s))
    ensures exists i, j :: (0 <= i <= j <= |s| && Strip(s) == s[i..j]
                            && (forall k :: 0 <= k < i ==> IsSpace(s[k]))
                            && (forall k :: j <= k < |s| ==> IsSpace(s[k])))
    ensures Trimmed(s) ==> Strip(s) == s
  {
    var t := StripStart(s);
    var r := StripEnd(t);
    StripStartIsSuffix(s);
    StripEndIsPrefix(t);
    assert t == s[|s| - |t|..];
    assert r == t[..|r|];
    assert r == s[|s| - |t|..|s| - |t| + |r|];
    forall k | |s| - |t| + |r| <= k < |s| ensures IsSpace(s[k]) {
      assert s[k] == t[k - (|s| - |t|)];
    }
    if r != [] {
      assert r[0] == t[0];
    }
  }

  /** `strip()` keeps every character that is not whitespace, at the
      position `k` returned. */
  lemma StripKeepsNonSpace(s: string, i: nat) returns (k: nat)
    requires i < |s| && !IsSpace(s[i])
    ensures k < |Strip(s)| && Strip(s)[k] == s[i]
  {
    var t := StripStart(s);
    StripStartIsSuffix(s);
    var off := |s| - |t|;
    assert off <= i;
    assert t[i - off] == s[i];
    StripEndIsPrefix(t);
    k := i - off;
    assert k < |StripEnd(t)|;
  }

  function LowerChar(c: char): char {
    if 'A' <= c <= 'Z' || ('\U{00C0}' <= c <= '\U{00DE}' && c != '\U{00D7}')
    then (c as int + 32) as char
    else c
  }

  predicate IsUpperChar(c: char) {
    'A' <= c <= 'Z' || ('\U{00C0}' <= c <= '\U{00DE}' && c != '\U{00D7}')
  }

  /** Python's `str.lower()`, character by character. */
  function Lower(s: string): (r: string)
    ensures |r| == |s|
    ensures forall i :: 0 <= i < |s| ==> r[i] == LowerChar(s[i])
  {
    seq(|s|, i requires 0 <= i < |s| => LowerChar(s[i]))
  }

  /** Python's `str.upper()` for one character; `ß` becomes two letters. */
  function UpperChar(c: char): string {
    if 'a' <= c <= 'z' || ('\U{00E0}' <= c <= '\U{00FE}' && c != '\U{00F7}')
    then [(c as int - 32) as char]
    else if c == '\U{00DF}' then "SS"
    else if c == '\U{00FF}' then "\U{0178}"
    else if c == '\U{00B5}' then "\U{039C}"
    else [c]
  }

  predicate IsLowerChar(c: char) {
    'a' <= c <= 'z' || ('\U{00DF}' <= c <= '\U{00FF}' && c != '\U{00F7}') || c == '\U{00B5}'
  }

  /** Python's `str.upper()`. */
  function Upper(s: string): string {
    if s == [] then [] else UpperChar(s[0]) + Upper(s[1..])
  }

  /** `str.upper()` leaves no lower-case letter behind. */
  lemma {:induction false} UpperHasNoLower(s: string)
    ensures NoLower(Upper(s))
  {
    if s != [] {
      UpperHasNoLower(s[1..]);
      var c := UpperChar(s[0]);
      assert NoLower(c);
      var r := Upper(s);
      forall i | 0 <= i < |r| ensures !IsLowerChar(r[i]) {
        if i >= |c| {
          assert r[i] == Upper(s[1..])[i - |c|];
        }
      }
    }
  }

  /** `str.upper()` leaves a string without lower-case letters unchanged. */
  lemma {:induction false} UpperOfNoLower(s: string)
    requires NoLower(s)
    ensures Upper(s) == s
  {
    if s != [] {
      UpperOfNoLower(s[1..]);
    }
  }

  /** `pat` occurs in `s` at position `i`. */
  predicate OccursAt(s: string, pat: string, i: int) {
    0 <= i && i + |pat| <= |s| && s[i..i + |pat|] == pat
  }

  /** Python's `str.replace(pat, rep)`: every occurrence, scanning left to
      right, occurrences never overlapping. */
  function ReplaceAll(s: string, pat: string, rep: string): string
    requires pat != []
  {
    if |s| < |pat| then s
    else if s[..|pat|] == pat then rep + ReplaceAll(s[|pat|..], pat, rep)
    else [s[0]] + ReplaceAll(s[1..], pat, rep)
  }

  /** Replacing one character by another is a character-wise substitution. */
  lemma {:induction false} ReplaceCharAt(s: string, c: char, d: char)
    ensures |ReplaceAll(s, [c], [d])| == |s|
    ensures forall i :: 0 <= i < |s| ==>
      ReplaceAll(s, [c], [d])[i] == (if s[i] == c then d else s[i])
  {
    if s != [] {
      ReplaceCharAt(s[1..], c, d);
      var r := ReplaceAll(s, [c], [d]);
      var rest := ReplaceAll(s[1..], [c], [d]);
      assert r == [if s[0] == c then d else s[0]] + rest;
      forall i | 0 < i < |s|
        ensures r[i] == (if s[i] == c then d else s[i])
      {
        assert r[i] == rest[i - 1];
        assert s[1..][i - 1] == s[i];
      }
    }
  }

  /** A replacement never leaves `rep` untouched around it: when `pat` is not
      in `s` at all, `replace` returns `s`. */
  lemma {:induction false} ReplaceAbsent(s: string, pat: string, rep: string)
    requires pat != []
    requires forall i :: 0 <= i <= |s| - |pat| ==> !OccursAt(s, pat, i)
    ensures ReplaceAll(s, pat, rep) == s
  {
    if |s| >= |pat| {
      assert !OccursAt(s, pat, 0);
      assert s[..|pat|] != pat;
      forall i | 0 <= i <= |s[1..]| - |pat|
        ensures !OccursAt(s[1..], pat, i)
      {
        assert !OccursAt(s, pat, i + 1);
        assert s[1..][i..i + |pat|] == s[i + 1..i + 1 + |pat|];
      }
      ReplaceAbsent(s[1..], pat, rep);
    }
  }

  /** Every character of the result comes from the input or from the
      replacement text. */
  lemma {:induction false} ReplaceAllChars(s: string, pat: string, rep: string)
    requires pat != []
    ensures forall i :: 0 <= i < |ReplaceAll(s, pat, rep)| ==>
      ReplaceAll(s, pat, rep)[i] in s || ReplaceAll(s, pat, rep)[i] in rep
  {
    if |s| >= |pat| {
      var r := ReplaceAll(s, pat, rep);
      if s[..|pat|] == pat {
        var rest := ReplaceAll(s[|pat|..], pat, rep);
        ReplaceAllChars(s[|pat|..], pat, rep);
        forall i | |rep| <= i < |r| ensures r[i] in s || r[i] in rep {
          assert r[i] == rest[i - |rep|];
          assert rest[i - |rep|] in s[|pat|..] ==> rest[i - |rep|] in s;
        }
      } else {
        var rest := ReplaceAll(s[1..], pat, rep);
        ReplaceAllChars(s[1..], pat, rep);
        forall i | 1 <= i < |r| ensures r[i] in s || r[i] in rep {
          assert r[i] == rest[i - 1];
          assert rest[i - 1] in s[1..] ==> rest[i - 1] in s;
        }
      }
    }
  }

  /** No lower-case letter: what `str.upper()` leaves behind. */
  predicate NoLower(s: string) {
    forall i :: 0 <= i < |s| ==> !IsLowerChar(s[i])
  }

  lemma ReplaceAllNoLower(s: string, pat: string, rep: string)
    requires pat != [] && NoLower(s) && NoLower(rep)
    ensures NoLower(ReplaceAll(s, pat, rep))
  {
    var r := ReplaceAll(s, pat, rep);
    ReplaceAllChars(s, pat, rep);
    forall i | 0 <= i < |r| ensures !IsLowerChar(r[i]) {
      if r[i] in s {
        var j :| 0 <= j < |s| && s[j] == r[i];
      } else {
        var j :| 0 <= j < |rep| && rep[j] == r[i];
      }
    }
  }

  lemma StripNoLower(s: string)
    requires NoLower(s)
    ensures NoLower(Strip(s))
  {
    StripIsTrimmedSlice(s);
    var i, j :| 0 <= i <= j <= |s| && Strip(s) == s[i..j];
    forall k | 0 <= k < |Strip(s)| ensures !IsLowerChar(Strip(s)[k]) {
      assert Strip(s)[k] == s[i + k];
    }
  }

  /** Python's `sub in s`, as the search it performs. */
  predicate Contains(s: string, sub: string) {
    (|sub| <= |s| && s[..|sub|] == sub) || (s != [] && Contains(s[1..], sub))
  }

  /** Every character of a string found in `s` is a character of `s`. */
  lemma {:induction false} ContainsHasChars(s: string, sub: string)
    ensures Contains(s, sub) ==> forall k :: 0 <= k < |sub| ==> sub[k] in s
  {
    if Contains(s, sub) {
      if |sub| <= |s| && s[..|sub|] == sub {
        assert forall k :: 0 <= k < |sub| ==> sub[k] == s[k];
      } else {
        ContainsHasChars(s[1..], sub);
        assert forall k :: 0 <= k < |sub| ==> sub[k] in s[1..];
      }
    }
  }

  /** The search finds `sub` exactly when it occurs somewhere in `s`. */
  lemma {:induction false} ContainsIffOccurs(s: string, sub: string)
    ensures Contains(s, sub) <==> exists i :: 0 <= i <= |s| - |sub| && OccursAt(s, sub, i)
  {
    if |sub| <= |s| && s[..|sub|] == sub {
      assert OccursAt(s, sub, 0);
    } else if s != [] {
      ContainsIffOccurs(s[1..], sub);
      if Contains(s[1..], sub) {
        var i :| 0 <= i <= |s[1..]| - |sub| && OccursAt(s[1..], sub, i);
        assert s[i + 1..i + 1 + |sub|] == s[1..][i..i + |sub|];
        assert OccursAt(s, sub, i + 1);
      } else if exists i :: 0 <= i <= |s| - |sub| && OccursAt(s, sub, i) {
        var i :| 0 <= i <= |s| - |sub| && OccursAt(s, sub, i);
        assert i != 0;
        assert s[1..][i - 1..i - 1 + |sub|] == s[i..i + |sub|];
        assert OccursAt(s[1..], sub, i - 1);
        assert false;
      }
    }
  }
}
