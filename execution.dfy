/**
 * The decisions of Filelist#rename_action (batch.rename.rb:407-449) as
 * functions of the final hash and the snapshot @orig_list_array. The method
 * Filelists.Filelist.RenameAction runs the source's loop and is proved
 * against these functions; the lemmas here state what the counters mean.
 */
module Execution {

  /** The check at batch.rename.rb:418: the target differs from the key and
      is not a name of the original candidate list. Targets created earlier
      in the same run and entries the directory policy excluded are not
      looked at. */
  predicate ClobberFree(key: string, target: string, snapshot: seq<string>)
  {
    key != target && target !in snapshot
  }

  /** Whether File.rename is called for a pair. */
  predicate Performs(key: string, target: string, snapshot: seq<string>, force: bool)
  {
    ClobberFree(key, target, snapshot) || force
  }

  /** `delete_if { |key, value| value == '' }`: the pairs that are left. */
  function NonEmpty(h: map<string, string>): (live: map<string, string>)
    ensures forall k :: k in live <==> k in h && h[k] != ""
    ensures forall k :: k in live ==> live[k] == h[k]
  {
    map k | k in h && h[k] != "" :: h[k]
  }

  /** The keys that are renamed; @renamecount is their number. */
  function Renamed(h: map<string, string>, snapshot: seq<string>, force: bool): (r: set<string>)
    ensures r <= h.Keys
  {
    set k | k in h && Performs(k, h[k], snapshot, force)
  }

  /** The keys renamed only because of -F; @clobbercount is their number. */
  function Clobbered(h: map<string, string>, snapshot: seq<string>, force: bool): (c: set<string>)
    ensures c <= Renamed(h, snapshot, force)
  {
    set k | k in h && force && !ClobberFree(k, h[k], snapshot)
  }

  /** The directory's names after a sequence of File.rename calls. */
  function Applied(dir: set<string>, renames: seq<(string, string)>): set<string>
  {
    if renames == [] then dir
    else
      var last := renames[|renames| - 1];
      Applied(dir, renames[..|renames| - 1]) - {last.0} + {last.1}
  }

  lemma {:induction false} SubsetCard(a: set<string>, b: set<string>)
    requires a <= b
    ensures |a| <= |b|
    decreases |b|
  {
    if a != {} {
      var x :| x in a;
      SubsetCard(a - {x}, b - {x});
    }
  }

  /** Without -F a key whose name was a candidate is renamed exactly when
      its target was not a candidate; in particular a key mapped to itself
      is never renamed. */
  lemma UnforcedDecision(h: map<string, string>, snapshot: seq<string>, k: string)
    requires k in h && k in snapshot
    ensures k in Renamed(h, snapshot, false) <==> h[k] !in snapshot
    ensures h[k] == k ==> k !in Renamed(h, snapshot, false)
  {
  }

  /** Without -F nothing is clobbered and at most one rename happens per
      pair. */
  lemma UnforcedCounts(h: map<string, string>, snapshot: seq<string>)
    ensures Clobbered(h, snapshot, false) == {}
    ensures |Renamed(h, snapshot, false)| <= |h|
  {
    SubsetCard(Renamed(h, snapshot, false), h.Keys);
  }

  /** With -F every pair is renamed, and the clobbered ones are exactly the
      pairs whose target was a candidate, identity pairs included. */
  lemma ForcedCounts(h: map<string, string>, snapshot: seq<string>)
    requires forall k :: k in h ==> k in snapshot
    ensures Renamed(h, snapshot, true) == h.Keys
    ensures Clobbered(h, snapshot, true) == set k | k in h && h[k] in snapshot
    ensures |Clobbered(h, snapshot, true)| <= |Renamed(h, snapshot, true)| == |h|
  {
    SubsetCard(Clobbered(h, snapshot, true), Renamed(h, snapshot, true));
  }

  /** With -F a key mapped to itself counts as a rename and as a clobber. */
  lemma ForcedIdentity(h: map<string, string>, snapshot: seq<string>, k: string)
    requires k in h && h[k] == k
    ensures k in Renamed(h, snapshot, true) && k in Clobbered(h, snapshot, true)
  {
  }

  /** Two candidates given the same new name are both renamed: the second
      rename is checked against the snapshot only, not against the first
      one's result. */
  lemma SharedTargetRenamedTwice()
    ensures Renamed(map["a" := "c", "b" := "c"], ["a", "b"], false) == {"a", "b"}
  {
    var h := map["a" := "c", "b" := "c"];
    assert "c" !in ["a", "b"];
    assert Performs("a", h["a"], ["a", "b"], false);
    assert Performs("b", h["b"], ["a", "b"], false);
  }

  /** `x.txt` mapped onto the existing `y.txt`: skipped without -F, renamed
      and counted as a clobber with it. */
  lemma ClobberScenario()
    ensures Renamed(map["x.txt" := "y.txt"], ["x.txt", "y.txt"], false) == {}
    ensures Renamed(map["x.txt" := "y.txt"], ["x.txt", "y.txt"], true) == {"x.txt"}
    ensures Clobbered(map["x.txt" := "y.txt"], ["x.txt", "y.txt"], true) == {"x.txt"}
  {
    var h := map["x.txt" := "y.txt"];
    assert "y.txt" in ["x.txt", "y.txt"];
    assert !ClobberFree("x.txt", h["x.txt"], ["x.txt", "y.txt"]);
  }
}
