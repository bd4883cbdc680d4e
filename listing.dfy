/**
 * The two list-building steps of Filelist: the candidate scan of
 * Filelist#initialize (batch.rename.rb:203-246) and the pattern filter of
 * Filelist#pattern (batch.rename.rb:249-276), as functions over the
 * directory listing. Filelists.Filelist runs the same steps as loops and is
 * proved against these functions.
 */
module Listing {
  import opened Regexps

  /** One entry of the directory listing that Dir.foreach yields, with the
      answer File.directory? gives for it. */
  datatype Entry = Entry(name: string, isDir: bool)

  /** Which entries the scan keeps: -D (only directories), -d (files and
      directories), or by default files only. */
  datatype DirPolicy = OnlyDirs | WithDirs | FilesOnly

  predicate Admits(policy: DirPolicy, isDir: bool)
  {
    match policy
    case OnlyDirs => isDir
    case WithDirs => true
    case FilesOnly => !isDir
  }

  predicate IsDotEntry(name: string)
  {
    name == "." || name == ".."
  }

  /** @orig_list_array after the scan: the names of the entries that are not
      `.` or `..` and that the policy admits, in listing order. */
  function Kept(listing: seq<Entry>, policy: DirPolicy): seq<string>
  {
    if listing == [] then []
    else
      var e := listing[|listing| - 1];
      Kept(listing[..|listing| - 1], policy)
      + (if !IsDotEntry(e.name) && Admits(policy, e.isDir) then [e.name] else [])
  }

  /** @filecount after the scan: the entries other than `.` and `..`. */
  function Counted(listing: seq<Entry>): nat
  {
    if listing == [] then 0
    else Counted(listing[..|listing| - 1]) + (if IsDotEntry(listing[|listing| - 1].name) then 0 else 1)
  }

  /** The names of the listing, in order. */
  function Names(listing: seq<Entry>): seq<string>
  {
    seq(|listing|, i requires 0 <= i < |listing| => listing[i].name)
  }

  /** The set of names the listing holds: the directory before a run. */
  function NameSet(listing: seq<Entry>): set<string>
  {
    set e | e in listing :: e.name
  }

  /** a is b with some elements left out, the rest in their order. */
  ghost predicate Subsequence(a: seq<string>, b: seq<string>)
    decreases |b|
  {
    if a == [] then true
    else if b == [] then false
    else
      (a[|a| - 1] == b[|b| - 1] && Subsequence(a[..|a| - 1], b[..|b| - 1]))
      || Subsequence(a, b[..|b| - 1])
  }

  /** s is an interleaving of a and b: every element of s is taken, in
      order, from the front of a or of b. */
  ghost predicate Interleaving(s: seq<string>, a: seq<string>, b: seq<string>)
    decreases |s|
  {
    if s == [] then a == [] && b == []
    else
      (a != [] && a[|a| - 1] == s[|s| - 1] && Interleaving(s[..|s| - 1], a[..|a| - 1], b))
      || (b != [] && b[|b| - 1] == s[|s| - 1] && Interleaving(s[..|s| - 1], a, b[..|b| - 1]))
  }

  /** A name is kept exactly when some entry of the listing has it, is not
      `.` or `..`, and is admitted by the policy: by default no directory,
      under -D only directories, under -d everything. */
  lemma {:induction false} KeptMembers(listing: seq<Entry>, policy: DirPolicy, x: string)
    ensures x in Kept(listing, policy)
            <==> exists e :: e in listing && e.name == x && !IsDotEntry(x) && Admits(policy, e.isDir)
  {
    if listing != [] {
      var init := listing[..|listing| - 1];
      KeptMembers(init, policy, x);
      assert listing == init + [listing[|listing| - 1]];
    }
  }

  /** The kept names appear in listing order. */
  lemma {:induction false} KeptInOrder(listing: seq<Entry>, policy: DirPolicy)
    ensures Subsequence(Kept(listing, policy), Names(listing))
  {
    if listing != [] {
      var init := listing[..|listing| - 1];
      var e := listing[|listing| - 1];
      KeptInOrder(init, policy);
      NamesSnoc(listing);
      if !IsDotEntry(e.name) && Admits(policy, e.isDir) {
        SubsequenceAppendBoth(Kept(init, policy), Names(init), e.name);
      } else {
        assert Kept(listing, policy) == Kept(init, policy);
        SubsequenceExtend(Kept(init, policy), Names(init), e.name);
      }
    }
  }

  /** The names of a non-empty listing are those of all but its last entry,
      then the last entry's name. */
  lemma NamesSnoc(listing: seq<Entry>)
    requires listing != []
    ensures Names(listing) == Names(listing[..|listing| - 1]) + [listing[|listing| - 1].name]
  {
  }

  /** Appending the same element to both keeps a subsequence a subsequence. */
  lemma SubsequenceAppendBoth(a: seq<string>, b: seq<string>, x: string)
    requires Subsequence(a, b)
    ensures Subsequence(a + [x], b + [x])
  {
    assert (a + [x])[..|a|] == a && (b + [x])[..|b|] == b;
  }

  /** Appending to the longer sequence keeps a subsequence a subsequence. */
  lemma {:induction false} SubsequenceExtend(a: seq<string>, b: seq<string>, x: string)
    requires Subsequence(a, b)
    ensures Subsequence(a, b + [x])
  {
    assert (b + [x])[..|b|] == b;
  }

  /** @searchcount <= @filecount <= the length of the listing. */
  lemma {:induction false} KeptBounds(listing: seq<Entry>, policy: DirPolicy)
    ensures |Kept(listing, policy)| <= Counted(listing) <= |listing|
  {
    if listing != [] {
      KeptBounds(listing[..|listing| - 1], policy);
    }
  }

  /** The names the pattern matches, in order (positive_array). */
  function Matched(list: seq<string>, re: Regexp): seq<string>
  {
    if list == [] then []
    else
      Matched(list[..|list| - 1], re)
      + (if Matches(re, list[|list| - 1]) then [list[|list| - 1]] else [])
  }

  /** The names the pattern does not match, in order (negative_array). */
  function Unmatched(list: seq<string>, re: Regexp): seq<string>
  {
    if list == [] then []
    else
      Unmatched(list[..|list| - 1], re)
      + (if Matches(re, list[|list| - 1]) then [] else [list[|list| - 1]])
  }

  /** @list_array after the filter: the unmatched names under invert, the
      matched ones otherwise. */
  function Selected(list: seq<string>, re: Regexp, invert: bool): seq<string>
  {
    if invert then Unmatched(list, re) else Matched(list, re)
  }

  /** The two arrays split the candidates by the pattern, each keeping the
      candidates' order. */
  lemma {:induction false} PartitionInterleaves(list: seq<string>, re: Regexp)
    ensures Interleaving(list, Matched(list, re), Unmatched(list, re))
  {
    if list != [] {
      var init := list[..|list| - 1];
      PartitionInterleaves(init, re);
      var m, u := Matched(list, re), Unmatched(list, re);
      if Matches(re, list[|list| - 1]) {
        assert m[..|m| - 1] == Matched(init, re);
        assert u == Unmatched(init, re);
      } else {
        assert u[..|u| - 1] == Unmatched(init, re);
        assert m == Matched(init, re);
      }
    }
  }

  /** Each side of an interleaving is a subsequence of it. */
  lemma {:induction false} InterleavingSides(s: seq<string>, a: seq<string>, b: seq<string>)
    requires Interleaving(s, a, b)
    ensures Subsequence(a, s) && Subsequence(b, s)
    decreases |s|
  {
    if s != [] {
      var init := s[..|s| - 1];
      if a != [] && a[|a| - 1] == s[|s| - 1] && Interleaving(init, a[..|a| - 1], b) {
        InterleavingSides(init, a[..|a| - 1], b);
        assert init + [s[|s| - 1]] == s;
        SubsequenceExtend(b, init, s[|s| - 1]);
      } else {
        InterleavingSides(init, a, b[..|b| - 1]);
        assert init + [s[|s| - 1]] == s;
        SubsequenceExtend(a, init, s[|s| - 1]);
      }
    }
  }

  /** A name is in the matched array exactly when it is a candidate the
      pattern matches, and in the unmatched array exactly when it is a
      candidate the pattern does not match. */
  lemma {:induction false} PartitionMembers(list: seq<string>, re: Regexp, x: string)
    ensures x in Matched(list, re) <==> x in list && Matches(re, x)
    ensures x in Unmatched(list, re) <==> x in list && !Matches(re, x)
  {
    if list != [] {
      var init := list[..|list| - 1];
      PartitionMembers(init, re, x);
      assert list == init + [list[|list| - 1]];
    }
  }
}
