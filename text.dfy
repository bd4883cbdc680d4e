/**
 * The Ruby 1.8 string built-ins the renamer relies on, as far as the model
 * needs them: String#upcase and String#downcase (ASCII letters only),
 * String#strip, and search and global replacement with a pattern whose text
 * is taken literally (Regexp#match and String#gsub without metacharacters).
 */
module Text {

  predicate IsLower(c: char) { 'a' <= c <= 'z' }

  predicate IsUpper(c: char) { 'A' <= c <= 'Z' }

  function UpChar(c: char): char
  {
    if IsLower(c) then (c as int - 32) as char else c
  }

  function DownChar(c: char): char
  {
    if IsUpper(c) then (c as int + 32) as char else c
  }

  /** String#upcase: every ASCII lower-case letter becomes upper-case. */
  function AsciiUpcase(s: string): string
  {
    seq(|s|, i requires 0 <= i < |s| => UpChar(s[i]))
  }

  /** String#downcase: every ASCII upper-case letter becomes lower-case. */
  function AsciiDowncase(s: string): string
  {
    seq(|s|, i requires 0 <= i < |s| => DownChar(s[i]))
  }

  /** Upcasing keeps the length, leaves no lower-case letter, only changes
      letter case, and is idempotent. */
  lemma UpcaseFacts(s: string)
    ensures |AsciiUpcase(s)| == |s|
    ensures forall i :: 0 <= i < |s| ==> !IsLower(AsciiUpcase(s)[i])
    ensures forall i :: 0 <= i < |s| && !IsLower(s[i]) ==> AsciiUpcase(s)[i] == s[i]
    ensures AsciiDowncase(AsciiUpcase(s)) == AsciiDowncase(s)
    ensures AsciiUpcase(AsciiUpcase(s)) == AsciiUpcase(s)
  {
    var u := AsciiUpcase(s);
    assert forall i :: 0 <= i < |s| ==> DownChar(u[i]) == DownChar(s[i]);
    assert forall i :: 0 <= i < |s| ==> UpChar(u[i]) == u[i];
  }

  /** Downcasing keeps the length, leaves no upper-case letter, only changes
      letter case, and is idempotent. */
  lemma DowncaseFacts(s: string)
    ensures |AsciiDowncase(s)| == |s|
    ensures forall i :: 0 <= i < |s| ==> !IsUpper(AsciiDowncase(s)[i])
    ensures forall i :: 0 <= i < |s| && !IsUpper(s[i]) ==> AsciiDowncase(s)[i] == s[i]
    ensures AsciiUpcase(AsciiDowncase(s)) == AsciiUpcase(s)
    ensures AsciiDowncase(AsciiDowncase(s)) == AsciiDowncase(s)
  {
    var d := AsciiDowncase(s);
    assert forall i :: 0 <= i < |s| ==> UpChar(d[i]) == UpChar(s[i]);
    assert forall i :: 0 <= i < |s| ==> DownChar(d[i]) == d[i];
  }

  /** The characters String#lstrip removes: space, tab, newline, vertical
      tab, form feed and carriage return. */
  predicate IsSpace(c: char)
  {
    c == ' ' || c == '\t' || c == '\n' || c == '\U{0B}' || c == '\U{0C}' || c == '\r'
  }

  /** A character String#rstrip may remove: whitespace or NUL. */
  predicate IsTrailingBlank(c: char)
  {
    IsSpace(c) || c == '\0'
  }

  function StripLeading(s: string): (r: string)
    ensures |r| <= |s| && r == s[|s| - |r|..]
    ensures forall i :: 0 <= i < |s| - |r| ==> IsSpace(s[i])
    ensures r == [] || !IsSpace(r[0])
  {
    if s != [] && IsSpace(s[0]) then StripLeading(s[1..]) else s
  }

  /** The first pass of String#rstrip in Ruby 1.8: trailing NULs. */
  function StripTrailingNuls(s: string): (r: string)
    ensures r <= s
    ensures forall i :: |r| <= i < |s| ==> s[i] == '\0'
    ensures r == [] || r[|r| - 1] != '\0'
  {
    if s != [] && s[|s| - 1] == '\0' then StripTrailingNuls(s[..|s| - 1]) else s
  }

  /** The second pass: trailing whitespace. */
  function StripTrailingSpaces(s: string): (r: string)
    ensures r <= s
    ensures forall i :: |r| <= i < |s| ==> IsSpace(s[i])
    ensures r == [] || !IsSpace(r[|r| - 1])
  {
    if s != [] && IsSpace(s[|s| - 1]) then StripTrailingSpaces(s[..|s| - 1]) else s
  }

  /** String#rstrip in Ruby 1.8: the NULs at the very end go first, then the
      whitespace before them, so a NUL that whitespace follows is kept. What
      is removed is whitespace followed by NULs; what is left does not end
      with whitespace, and ends with a NUL only when whitespace was removed
      right after it. */
  function StripTrailing(s: string): (r: string)
    ensures r <= s
    ensures forall i :: |r| <= i < |s| ==> IsTrailingBlank(s[i])
    ensures forall i, j :: |r| <= i < j < |s| && s[i] == '\0' ==> s[j] == '\0'
    ensures r == [] || !IsSpace(r[|r| - 1])
    ensures r != [] && r[|r| - 1] == '\0' ==> |r| < |s| && IsSpace(s[|r|])
  {
    StripTrailingSpaces(StripTrailingNuls(s))
  }

  /** "x\0 " strips to "x\0" in Ruby 1.8: the space is removed, the NUL
      before it is not. */
  lemma NulBeforeSpaceKept()
    ensures StripTrailing("x\0 ") == "x\0"
  {
    assert "x\0 "[..2] == "x\0";
    assert StripTrailingNuls("x\0 ") == "x\0 ";
    assert StripTrailingSpaces("x\0") == "x\0";
  }

  /** String#strip. */
  function Strip(s: string): string
  {
    StripTrailing(StripLeading(s))
  }

  /** A string that neither starts with whitespace nor ends with whitespace
      or NUL is left alone by String#strip. */
  lemma StripKeeps(s: string)
    requires s != [] && !IsSpace(s[0]) && !IsTrailingBlank(s[|s| - 1])
    ensures Strip(s) == s
  {
  }

  /** The text a pattern is compared on: case-folded when the pattern
      ignores case. */
  function Fold(s: string, ignoreCase: bool): string
  {
    if ignoreCase then AsciiDowncase(s) else s
  }

  /** The literal pattern p occurs at the very start of s. */
  predicate MatchesPrefix(s: string, p: string, ignoreCase: bool)
  {
    |p| <= |s| && Fold(s[..|p|], ignoreCase) == Fold(p, ignoreCase)
  }

  /** Regexp#match for a literal pattern: p occurs somewhere in s. */
  predicate Occurs(p: string, s: string, ignoreCase: bool)
    decreases |s|
  {
    MatchesPrefix(s, p, ignoreCase) || (s != [] && Occurs(p, s[1..], ignoreCase))
  }

  /** Occurs agrees with the positional definition "some suffix of s starts
      with p". */
  lemma {:induction false} OccursAtSomePosition(p: string, s: string, ignoreCase: bool)
    ensures Occurs(p, s, ignoreCase) <==> exists i :: 0 <= i <= |s| && MatchesPrefix(s[i..], p, ignoreCase)
    decreases |s|
  {
    if s != [] {
      OccursAtSomePosition(p, s[1..], ignoreCase);
      if MatchesPrefix(s, p, ignoreCase) {
        assert s[0..] == s;
      }
      if Occurs(p, s[1..], ignoreCase) {
        var j :| 0 <= j <= |s[1..]| && MatchesPrefix(s[1..][j..], p, ignoreCase);
        assert s[1..][j..] == s[j + 1..];
      }
      if i :| 0 <= i <= |s| && MatchesPrefix(s[i..], p, ignoreCase) {
        if i > 0 {
          assert s[i..] == s[1..][i - 1..];
        } else {
          assert s[i..] == s;
        }
      }
    } else {
      if Occurs(p, s, ignoreCase) {
        assert s[0..] == s;
      }
    }
  }

  /** What String#gsub returns for an empty pattern: the replacement is
      inserted before every byte and once more at the end. */
  function InsertEverywhere(s: string, r: string): string
  {
    if s == [] then r else r + [s[0]] + InsertEverywhere(s[1..], r)
  }

  /** String#gsub with a literal pattern: every leftmost, non-overlapping
      occurrence of p in s is replaced by r, scanning left to right. */
  function ReplaceAll(s: string, p: string, r: string, ignoreCase: bool): string
    decreases |s|
  {
    if p == [] then InsertEverywhere(s, r)
    else if MatchesPrefix(s, p, ignoreCase) then r + ReplaceAll(s[|p|..], p, r, ignoreCase)
    else if s == [] then []
    else [s[0]] + ReplaceAll(s[1..], p, r, ignoreCase)
  }

  /** A name in which a non-empty pattern does not occur is left unchanged. */
  lemma {:induction false} ReplaceAllWithoutOccurrence(s: string, p: string, r: string, ignoreCase: bool)
    requires p != [] && !Occurs(p, s, ignoreCase)
    ensures ReplaceAll(s, p, r, ignoreCase) == s
    decreases |s|
  {
    if s != [] {
      ReplaceAllWithoutOccurrence(s[1..], p, r, ignoreCase);
      assert [s[0]] + s[1..] == s;
    }
  }

  /** Replacing a pattern by itself (case-sensitively) changes nothing. */
  lemma {:induction false} ReplaceAllBySelf(s: string, p: string)
    ensures ReplaceAll(s, p, p, false) == s
    decreases |s|
  {
    if p == [] {
      InsertNothing(s);
    } else if MatchesPrefix(s, p, false) {
      ReplaceAllBySelf(s[|p|..], p);
      assert s[..|p|] + s[|p|..] == s;
    } else if s != [] {
      ReplaceAllBySelf(s[1..], p);
      assert [s[0]] + s[1..] == s;
    }
  }

  lemma {:induction false} InsertNothing(s: string)
    ensures InsertEverywhere(s, []) == s
  {
    if s != [] {
      InsertNothing(s[1..]);
      assert [s[0]] + s[1..] == s;
    }
  }

  /** A replacement as long as the pattern keeps the length of the name. */
  lemma {:induction false} ReplaceAllSameLength(s: string, p: string, r: string, ignoreCase: bool)
    requires |r| == |p|
    ensures |ReplaceAll(s, p, r, ignoreCase)| == |s|
    decreases |s|
  {
    if p == [] {
      InsertNothing(s);
    } else if MatchesPrefix(s, p, ignoreCase) {
      ReplaceAllSameLength(s[|p|..], p, r, ignoreCase);
    } else if s != [] {
      ReplaceAllSameLength(s[1..], p, r, ignoreCase);
    }
  }

  /** gsub replaces the leftmost occurrence first and resumes right after
      it: when p first occurs in a name just after a prefix a, the name
      becomes a, then r, then the replacement of what follows the
      occurrence, so a later occurrence that overlaps this one is never
      replaced. */
  lemma {:induction false} ReplaceAllLeftmost(a: string, p: string, b: string, r: string, ignoreCase: bool)
    requires p != []
    requires forall i :: 0 <= i < |a| ==> !MatchesPrefix((a + p + b)[i..], p, ignoreCase)
    ensures ReplaceAll(a + p + b, p, r, ignoreCase) == a + r + ReplaceAll(b, p, r, ignoreCase)
    decreases |a|
  {
    if a == [] {
      assert a + p + b == p + b;
      ReplaceAllAtMatch(p, b, r, ignoreCase);
    } else {
      assert (a + p + b)[0..] == a + p + b;
      ShiftedNoMatch(a, p, b, ignoreCase);
      ReplaceAllLeftmost(a[1..], p, b, r, ignoreCase);
      ReplaceAllSkip(a, p, b, r, ignoreCase);
      ConsAppend(a, r, ReplaceAll(b, p, r, ignoreCase));
    }
  }

  lemma ConsAppend(a: string, r: string, x: string)
    requires a != []
    ensures [a[0]] + (a[1..] + r + x) == a + r + x
  {
    assert [a[0]] + a[1..] == a;
  }

  /** A name that does not start with the pattern keeps its first
      character. */
  lemma ReplaceAllSkip(a: string, p: string, b: string, r: string, ignoreCase: bool)
    requires p != [] && a != [] && !MatchesPrefix(a + p + b, p, ignoreCase)
    ensures ReplaceAll(a + p + b, p, r, ignoreCase) == [a[0]] + ReplaceAll(a[1..] + p + b, p, r, ignoreCase)
  {
    assert (a + p + b)[1..] == a[1..] + p + b;
  }

  /** A name that starts with the pattern has that occurrence replaced. */
  lemma ReplaceAllAtMatch(p: string, b: string, r: string, ignoreCase: bool)
    requires p != []
    ensures ReplaceAll(p + b, p, r, ignoreCase) == r + ReplaceAll(b, p, r, ignoreCase)
  {
    assert (p + b)[..|p|] == p && (p + b)[|p|..] == b;
  }

  /** Dropping the first character of a keeps "no match before p". */
  lemma ShiftedNoMatch(a: string, p: string, b: string, ignoreCase: bool)
    requires a != []
    requires forall i :: 0 <= i < |a| ==> !MatchesPrefix((a + p + b)[i..], p, ignoreCase)
    ensures forall i :: 0 <= i < |a| - 1 ==> !MatchesPrefix((a[1..] + p + b)[i..], p, ignoreCase)
  {
    forall i | 0 <= i < |a| - 1
      ensures !MatchesPrefix((a[1..] + p + b)[i..], p, ignoreCase)
    {
      assert (a[1..] + p + b)[i..] == (a + p + b)[i + 1..];
    }
  }

  /** Two instances: "aaa" with "aa" replaced by "b" is "ba", and foo.txt
      with foo replaced by baz is baz.txt. */
  lemma LeftmostNonOverlapping()
    ensures ReplaceAll("aaa", "aa", "b", false) == "ba"
    ensures ReplaceAll("foo.txt", "foo", "baz", false) == "baz.txt"
  {
    assert MatchesPrefix("aaa", "aa", false);
    assert "aaa"[2..] == "a";
    assert !MatchesPrefix("a", "aa", false);
    assert "a"[1..] == [];
    assert MatchesPrefix("foo.txt", "foo", false);
    assert "foo.txt"[3..] == ".txt";
    assert ".txt"[1..] == "txt" && "txt"[1..] == "xt" && "xt"[1..] == "t" && "t"[1..] == [];
  }

  /** A pattern whose first character does not occur in a name does not
      occur in it. */
  lemma {:induction false} FirstCharAbsent(p: string, s: string)
    requires p != [] && p[0] !in s
    ensures !Occurs(p, s, false)
    decreases |s|
  {
    if s != [] {
      assert s[0] != p[0];
      FirstCharAbsent(p, s[1..]);
    }
  }
}
