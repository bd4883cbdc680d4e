/**
 * class Filelist (batch.rename.rb:200-460): the candidate list, the
 * filtered list, the rename hash and the counters, updated in place by one
 * method per step of the run. The working directory is the field
 * `directory` (the set of names in it) and every File.rename call is
 * recorded in `performed`.
 */
module Filelists {
  import opened Wrappers
  import opened Regexps
  import opened Listing
  import opened Rewrites
  import opened Execution

  /** Why a run ends before anything is renamed. */
  datatype Stop =
    | Help                  // -h: help text, then exit (:493-494)
    | Version               // -v: version, then exit (:495-496)
    | NoFiles               // the scan kept nothing (:235-241)
    | NoPattern             // no PATTERN and no -a (:253-256, :516)
    | ZeroTrim              // -t 0 (:327-330)
    | SubstituteWithInvert  // substitution under -i (:372-374)
    | NilReplacement        // -A/-P with no positional argument: `key + nil` or `nil + key` raises (:398-399)

  class Filelist {
    var directory: set<string>            // the names in the working directory
    var origList: seq<string>             // @orig_list_array
    var listArray: seq<string>            // @list_array
    var listHash: map<string, string>     // @list_hash
    var fileCount: nat                    // @filecount
    var searchCount: nat                  // @searchcount
    var renameCount: nat                  // @renamecount
    var clobberCount: nat                 // @clobbercount
    var performed: seq<(string, string)>  // the File.rename calls, in order

    /** The filtered list and the hash only ever hold candidates. */
    ghost predicate Valid()
      reads this
    {
      && searchCount == |origList|
      && (forall x :: x in listArray ==> x in origList)
      && (forall k :: k in listHash ==> k in origList)
    }

    /** Filelist#initialize: the scan of the directory listing. Whether the
        kept list is empty, which aborts the run, is checked by the caller. */
    constructor (listing: seq<Entry>, policy: DirPolicy)
      ensures Valid()
      ensures directory == NameSet(listing)
      ensures origList == Kept(listing, policy) && listArray == origList
      ensures fileCount == Counted(listing) && searchCount == |origList|
      ensures listHash == map[] && renameCount == 0 && clobberCount == 0 && performed == []
    {
      var kept: seq<string> := [];
      var count: nat := 0;
      for i := 0 to |listing|
        invariant kept == Kept(listing[..i], policy)
        invariant count == Counted(listing[..i])
      {
        var f := listing[i];
        assert listing[..i + 1][..i] == listing[..i];
        if IsDotEntry(f.name) {
          continue;
        }
        count := count + 1;
        if !Admits(policy, f.isDir) {
          continue;
        }
        kept := kept + [f.name];
      }
      assert listing[..|listing|] == listing;
      directory := NameSet(listing);
      origList := kept;
      listArray := kept;
      listHash := map[];
      fileCount := count;
      searchCount := |kept|;
      renameCount := 0;
      clobberCount := 0;
      performed := [];
    }

    /** Filelist#pattern: aborts without a pattern, otherwise splits the
        candidates into matched and unmatched names and keeps one side. */
    method Pattern(pattern: Option<string>, re: Regexp, invert: bool) returns (stop: Option<Stop>)
      requires Valid()
      modifies this`listArray
      ensures Valid()
      ensures pattern.None? ==> stop == Some(NoPattern) && listArray == old(listArray)
      ensures pattern.Some? ==> stop == None && listArray == Selected(origList, re, invert)
    {
      if pattern.None? {
        return Some(NoPattern);
      }
      var positive: seq<string> := [];
      var negative: seq<string> := [];
      for i := 0 to |origList|
        invariant positive == Matched(origList[..i], re)
        invariant negative == Unmatched(origList[..i], re)
      {
        assert origList[..i + 1][..i] == origList[..i];
        if Matches(re, origList[i]) {
          positive := positive + [origList[i]];
        } else {
          negative := negative + [origList[i]];
        }
      }
      assert origList[..|origList|] == origList;
      listArray := if invert then negative else positive;
      forall x | x in listArray
        ensures x in origList
      {
        PartitionMembers(origList, re, x);
      }
      stop := None;
    }

    /** Filelist#create_hash. */
    method CreateHash()
      requires Valid()
      modifies this`listHash
      ensures Valid()
      ensures listHash == IdentityHash(listArray)
    {
      listHash := IdentityHash(listArray);
    }

    /** Filelist#upcase. */
    method Upcase()
      requires Valid()
      modifies this`listHash
      ensures Valid()
      ensures listHash == IdentityHash(listArray) + SubHash(IdentityHash(listArray).Keys, UpcaseAll)
    {
      CreateHash();
      var upHash := BuildSubHash(listHash.Keys, UpcaseAll);
      listHash := listHash + upHash;
    }

    /** Filelist#downcase. */
    method Downcase()
      requires Valid()
      modifies this`listHash
      ensures Valid()
      ensures listHash == IdentityHash(listArray) + SubHash(IdentityHash(listArray).Keys, DowncaseAll)
    {
      CreateHash();
      var downHash := BuildSubHash(listHash.Keys, DowncaseAll);
      listHash := listHash + downHash;
    }

    /** Filelist#trim: the hash is replaced by the trimmed names only. */
    method Trim(n: int) returns (stop: Option<Stop>)
      requires Valid()
      modifies this`listHash
      ensures Valid()
      ensures n == 0 ==> stop == Some(ZeroTrim)
      ensures n != 0 ==> stop == None && listHash == SubHash(IdentityHash(listArray).Keys, TrimBy(n))
    {
      CreateHash();
      if n == 0 {
        return Some(ZeroTrim);
      }
      var subHash := BuildSubHash(listHash.Keys, TrimBy(n));
      listHash := subHash;
      stop := None;
    }

    /** Filelist#substitute: -a only draws a warning and wins over -i, which
        aborts. */
    method Substitute(re: Regexp, replacement: string, all: bool, invert: bool) returns (stop: Option<Stop>)
      requires Valid()
      modifies this`listHash
      ensures Valid()
      ensures !all && invert ==> stop == Some(SubstituteWithInvert)
      ensures all || !invert ==>
                stop == None
                && listHash == IdentityHash(listArray) + SubHash(IdentityHash(listArray).Keys, Gsub(re, replacement))
    {
      CreateHash();
      if !all && invert {
        return Some(SubstituteWithInvert);
      }
      var subHash := BuildSubHash(listHash.Keys, Gsub(re, replacement));
      listHash := listHash + subHash;
      stop := None;
    }

    /** Filelist#xx_pend. A missing replacement is Ruby's nil, and adding it
        to the first key raises. */
    method AppendOrPrepend(append: bool, prepend: bool, replacement: Option<string>) returns (stop: Option<Stop>)
      requires Valid()
      modifies this`listHash
      ensures Valid()
      ensures (append || prepend) && replacement.None? && listArray != [] ==> stop == Some(NilReplacement)
      ensures replacement.Some? ==>
                stop == None
                && listHash == IdentityHash(listArray)
                               + SubHash(IdentityHash(listArray).Keys, Affix(append, prepend, replacement.value))
      ensures replacement.None? && (listArray == [] || !(append || prepend)) ==>
                stop == None && listHash == IdentityHash(listArray)
    {
      CreateHash();
      if replacement.None? {
        assert listArray != [] ==> listArray[0] in listHash;
        if (append || prepend) && listHash != map[] {
          return Some(NilReplacement);
        }
        return None;
      }
      var subHash := BuildSubHash(listHash.Keys, Affix(append, prepend, replacement.value));
      listHash := listHash + subHash;
      stop := None;
    }

    /** File.rename, on the model of the directory. */
    method RenameFile(from: string, to: string)
      modifies this`directory, this`performed
      ensures directory == old(directory) - {from} + {to}
      ensures performed == old(performed) + [(from, to)]
    {
      directory := directory - {from} + {to};
      performed := performed + [(from, to)];
    }

    /** One step of rename_action's loop: a clobber-free pair is renamed;
        any other pair is renamed and counted as a clobber under -F only. */
    method Visit(key: string, value: string, snapshot: seq<string>, force: bool)
      modifies this`renameCount, this`clobberCount, this`performed, this`directory
      ensures Performs(key, value, snapshot, force) ==>
                && renameCount == old(renameCount) + 1
                && clobberCount == old(clobberCount) + (if ClobberFree(key, value, snapshot) then 0 else 1)
                && performed == old(performed) + [(key, value)]
                && directory == old(directory) - {key} + {value}
      ensures !Performs(key, value, snapshot, force) ==>
                && renameCount == old(renameCount) && clobberCount == old(clobberCount)
                && performed == old(performed) && directory == old(directory)
    {
      if key != value && value !in snapshot {
        RenameFile(key, value);
        renameCount := renameCount + 1;
      } else if force {
        RenameFile(key, value);
        clobberCount := clobberCount + 1;
        renameCount := renameCount + 1;
      }
    }

    /** The `each_pair` loop of rename_action over the hash h, checking
        targets against the snapshot. The ghost results are the keys it
        renamed and the keys it counted as clobbered. */
    method RenamePairs(h: map<string, string>, snapshot: seq<string>, force: bool)
      returns (ghost renamed: set<string>, ghost clobbered: set<string>)
      requires renameCount == 0 && clobberCount == 0 && performed == []
      modifies this`renameCount, this`clobberCount, this`performed, this`directory
      ensures forall k :: k in renamed <==> k in h && Performs(k, h[k], snapshot, force)
      ensures forall k :: k in clobbered <==> k in h && force && !ClobberFree(k, h[k], snapshot)
      ensures renameCount == |renamed| && clobberCount == |clobbered| && |performed| == renameCount
      ensures forall k :: k in h ==> ((k, h[k]) in performed <==> k in renamed)
      ensures forall p :: p in performed ==> p.0 in h && h[p.0] == p.1
      ensures directory == Applied(old(directory), performed)
    {
      renamed, clobbered := {}, {};
      var todo := h.Keys;
      while todo != {}
        invariant todo <= h.Keys
        invariant forall k :: k in renamed <==> k in h && k !in todo && Performs(k, h[k], snapshot, force)
        invariant forall k :: k in clobbered <==> k in h && k !in todo && force && !ClobberFree(k, h[k], snapshot)
        invariant renameCount == |renamed| && clobberCount == |clobbered| && |performed| == renameCount
        invariant forall k :: k in h ==> ((k, h[k]) in performed <==> k in renamed)
        invariant forall p :: p in performed ==> p.0 in h && h[p.0] == p.1
        invariant directory == Applied(old(directory), performed)
        decreases todo
      {
        var key :| key in todo;
        Visit(key, h[key], snapshot, force);
        if Performs(key, h[key], snapshot, force) {
          renamed := renamed + {key};
          if !ClobberFree(key, h[key], snapshot) {
            clobbered := clobbered + {key};
          }
        }
        todo := todo - {key};
      }
    }

    /** Filelist#rename_action: drops the pairs with an empty target, then
        visits the rest in no particular order, renaming clobber-free pairs
        and, under -F, the others too. */
    method RenameAction(force: bool)
      requires Valid()
      modifies this`listHash, this`renameCount, this`clobberCount, this`performed, this`directory
      ensures Valid()
      ensures listHash == NonEmpty(old(listHash))
      ensures renameCount == |Renamed(listHash, origList, force)|
      ensures clobberCount == |Clobbered(listHash, origList, force)|
      ensures |performed| == renameCount
      ensures forall k :: k in listHash ==>
                ((k, listHash[k]) in performed <==> k in Renamed(listHash, origList, force))
      ensures forall p :: p in performed ==> p.0 in listHash && listHash[p.0] == p.1
      ensures directory == Applied(old(directory), performed)
    {
      renameCount := 0;
      clobberCount := 0;
      listHash := NonEmpty(listHash);
      performed := [];
      var renamed, clobbered := RenamePairs(listHash, origList, force);
      assert renamed == Renamed(listHash, origList, force);
      assert clobbered == Clobbered(listHash, origList, force);
    }
  }

}
