/**
 * batch_rename (batch.rename.rb:464-521): reads the positional arguments,
 * wraps the pattern, stops for -h and -v, scans the directory, filters the
 * candidates unless -a is given, runs the editing mode that takes
 * precedence, and renames. Plan and Summary state what a run does as
 * functions of the options, the arguments and the directory listing; the
 * method BatchRename drives a Filelist through the same steps and is proved
 * against them.
 */
module BatchRename {
  import opened Wrappers
  import opened Text
  import opened Regexps
  import opened Listing
  import opened Rewrites
  import opened Execution
  import opened Filelists

  /** The options the command line sets ($op), as a plain record. -t n is
      `trim == Some(n)`; the output-only options are not part of it. */
  datatype Options = Options(
    invert: bool,       // -i
    ignoreCase: bool,   // -c
    upcase: bool,       // -u
    downcase: bool,     // -l
    all: bool,          // -a
    version: bool,      // -v
    help: bool,         // -h
    trim: Option<int>,  // -t n
    dirs: bool,         // -d
    onlyDirs: bool,     // -D
    append: bool,       // -A
    prepend: bool,      // -P
    force: bool)        // -F

  /** $pattern and $replacement; None is Ruby's nil. */
  datatype Arguments = Arguments(pattern: Option<string>, replacement: Option<string>)

  /** The editing modes, in the order batch_rename tries them. -A and -P
      both run xx_pend. */
  datatype Mode = Uppercase | Lowercase | Trimming(n: int) | Pending | Substitution

  /** The positional arguments (ARGV) read as pattern and replacement. Under
      -A or -P one argument is the text to add and two are pattern and text;
      otherwise the first is the pattern and the second the replacement,
      which defaults to the empty string. */
  function Positional(o: Options, argv: seq<string>): (a: Arguments)
    ensures a.pattern.Some? ==> argv != [] && a.pattern.value == argv[0]
    ensures a.pattern.None? <==> argv == [] || ((o.append || o.prepend) && |argv| == 1)
    ensures a.replacement.None? <==> (o.append || o.prepend) && argv == []
    ensures a.replacement.Some? && |argv| >= 2 ==> a.replacement.value == argv[1]
    ensures a.replacement.Some? && |argv| == 1 ==> a.replacement.value == (if o.append || o.prepend then argv[0] else "")
    ensures a.replacement.Some? && argv == [] ==> a.replacement.value == ""
  {
    if o.append || o.prepend then
      if |argv| >= 2 then Arguments(Some(argv[0]), Some(argv[1]))
      else if |argv| == 1 then Arguments(None, Some(argv[0]))
      else Arguments(None, None)
    else
      Arguments(if argv == [] then None else Some(argv[0]), Some(if |argv| >= 2 then argv[1] else ""))
  }

  /** The mode that runs: the first of -u, -l, -t, -A/-P that is set, and
      substitution when none is. */
  function SelectMode(o: Options): (m: Mode)
    ensures m == Uppercase <==> o.upcase
    ensures m == Lowercase <==> !o.upcase && o.downcase
    ensures m.Trimming? <==> !o.upcase && !o.downcase && o.trim.Some?
    ensures m.Trimming? ==> m.n == o.trim.value
    ensures m == Pending <==> !o.upcase && !o.downcase && o.trim.None? && (o.append || o.prepend)
    ensures m == Substitution <==> !o.upcase && !o.downcase && o.trim.None? && !o.append && !o.prepend
  {
    if o.upcase then Uppercase
    else if o.downcase then Lowercase
    else if o.trim.Some? then Trimming(o.trim.value)
    else if o.append || o.prepend then Pending
    else Substitution
  }

  /** The directory policy of the scan: -D wins over -d. */
  function PolicyOf(o: Options): (p: DirPolicy)
    ensures p == OnlyDirs <==> o.onlyDirs
    ensures p == WithDirs <==> !o.onlyDirs && o.dirs
    ensures p == FilesOnly <==> !o.onlyDirs && !o.dirs
  {
    if o.onlyDirs then OnlyDirs else if o.dirs then WithDirs else FilesOnly
  }

  /** The text batch_rename hands to to_regexp: the pattern (empty when
      nil) between slashes, followed by the i flag under -c. */
  function Wrapped(pattern: Option<string>, ignoreCase: bool): string
  {
    "/" + (if pattern.Some? then pattern.value else "") + (if ignoreCase then "/i" else "/")
  }

  /** $pattern_re: the pattern text itself, with IGNORECASE alone under -c
      and no option otherwise (PatternParses shows that this is what
      to_regexp makes of the wrapped text). */
  function PatternRegexp(pattern: Option<string>, ignoreCase: bool): (re: Regexp)
    ensures re.source == (if pattern.Some? then pattern.value else "")
    ensures IgnoresCase(re) == ignoreCase
  {
    Regexp(if pattern.Some? then pattern.value else "", if ignoreCase then IGNORECASE else 0)
  }

  /** The wrapped pattern always parses, to PatternRegexp. */
  lemma PatternParses(pattern: Option<string>, ignoreCase: bool)
    ensures ToRegexp(Wrapped(pattern, ignoreCase)) == Some(PatternRegexp(pattern, ignoreCase))
  {
    WrappedPatternRoundTrip(if pattern.Some? then pattern.value else "", ignoreCase);
  }

  /** The hash the selected mode leaves for rename_action, or why it stops. */
  function ModeHash(m: Mode, o: Options, a: Arguments, re: Regexp, list: seq<string>): Result<map<string, string>, Stop>
  {
    var id := IdentityHash(list);
    match m
    case Uppercase => Success(id + SubHash(id.Keys, UpcaseAll))
    case Lowercase => Success(id + SubHash(id.Keys, DowncaseAll))
    case Trimming(n) =>
      if n == 0 then Failure(ZeroTrim) else Success(SubHash(id.Keys, TrimBy(n)))
    case Pending =>
      if a.replacement.None? then
        (if list != [] then Failure(NilReplacement) else Success(id))
      else Success(id + SubHash(id.Keys, Affix(o.append, o.prepend, a.replacement.value)))
    case Substitution =>
      if a.pattern.None? then Failure(NoPattern)
      else if !o.all && o.invert then Failure(SubstituteWithInvert)
      else
        var text := if a.replacement.Some? then a.replacement.value else "";
        Success(id + SubHash(id.Keys, Gsub(re, text)))
  }

  /** Everything a run decides before rename_action: the hash it hands over,
      or the reason it stops first. */
  function Plan(o: Options, argv: seq<string>, listing: seq<Entry>): Result<map<string, string>, Stop>
  {
    if o.help then Failure(Help)
    else if o.version then Failure(Version)
    else
      var orig := Kept(listing, PolicyOf(o));
      var a := Positional(o, argv);
      var re := PatternRegexp(a.pattern, o.ignoreCase);
      if orig == [] then Failure(NoFiles)
      else if !o.all && a.pattern.None? then Failure(NoPattern)
      else
        var list := if o.all then orig else Selected(orig, re, o.invert);
        ModeHash(SelectMode(o), o, a, re, list)
  }

  /** How a run ends: stopped early, or the four numbers of the summary line
      (renames, clobbered, considered, objects). */
  datatype Outcome =
    | Stopped(reason: Stop)
    | Done(renames: nat, clobbers: nat, considered: nat, objects: nat)

  function Summary(o: Options, argv: seq<string>, listing: seq<Entry>): Outcome
  {
    match Plan(o, argv, listing)
    case Failure(reason) => Stopped(reason)
    case Success(h) =>
      var orig := Kept(listing, PolicyOf(o));
      var live := NonEmpty(h);
      Done(|Renamed(live, orig, o.force)|, |Clobbered(live, orig, o.force)|, |orig|, Counted(listing))
  }

  /** The `case` at batch.rename.rb:504-517: runs the selected mode on the
      filtered list, or stops. */
  method RunMode(bob: Filelist, o: Options, a: Arguments, re: Regexp) returns (stop: Option<Stop>)
    requires bob.Valid()
    modifies bob`listHash
    ensures bob.Valid()
    ensures ModeHash(SelectMode(o), o, a, re, bob.listArray)
            == (if stop.Some? then Failure(stop.value) else Success(bob.listHash))
  {
    stop := None;
    match SelectMode(o) {
      case Uppercase => bob.Upcase();
      case Lowercase => bob.Downcase();
      case Trimming(n) => stop := bob.Trim(n);
      case Pending => stop := bob.AppendOrPrepend(o.append, o.prepend, a.replacement);
      case Substitution =>
        if a.pattern.None? {
          return Some(NoPattern);
        }
        var text := if a.replacement.Some? then a.replacement.value else "";
        stop := bob.Substitute(re, text, o.all, o.invert);
    }
  }

  /** batch_rename up to rename_action: the Filelist ready to rename, or
      why the run stops first. */
  method Prepare(o: Options, argv: seq<string>, listing: seq<Entry>) returns (r: Result<Filelist, Stop>)
    ensures r.Failure? ==> Plan(o, argv, listing) == Failure(r.error)
    ensures r.Success? ==>
              && fresh(r.value) && r.value.Valid()
              && Plan(o, argv, listing) == Success(r.value.listHash)
              && r.value.origList == Kept(listing, PolicyOf(o))
              && r.value.fileCount == Counted(listing)
              && r.value.directory == NameSet(listing) && r.value.performed == []
  {
    var a := Positional(o, argv);
    var re := PatternRegexp(a.pattern, o.ignoreCase);
    if o.help {
      return Failure(Help);
    }
    if o.version {
      return Failure(Version);
    }
    var bob := new Filelist(listing, PolicyOf(o));
    if bob.origList == [] {
      return Failure(NoFiles);
    }
    if !o.all {
      var stop := bob.Pattern(a.pattern, re, o.invert);
      if stop.Some? {
        return Failure(stop.value);
      }
    }
    var stop := RunMode(bob, o, a, re);
    if stop.Some? {
      return Failure(stop.value);
    }
    r := Success(bob);
  }

  /** batch_rename: returns how the run ended, the File.rename calls made in
      the order they were made, and the directory afterwards. */
  method BatchRename(o: Options, argv: seq<string>, listing: seq<Entry>)
    returns (outcome: Outcome, renames: seq<(string, string)>, directory: set<string>)
    ensures outcome == Summary(o, argv, listing)
    ensures Plan(o, argv, listing).Failure? ==> renames == [] && directory == NameSet(listing)
    ensures Plan(o, argv, listing).Success? ==>
              var live := NonEmpty(Plan(o, argv, listing).value);
              var orig := Kept(listing, PolicyOf(o));
              && |renames| == outcome.renames
              && (forall p :: p in renames ==> p.0 in live && live[p.0] == p.1)
              && (forall k :: k in live ==> ((k, live[k]) in renames <==> k in Renamed(live, orig, o.force)))
    ensures directory == Applied(NameSet(listing), renames)
  {
    var r := Prepare(o, argv, listing);
    if r.Failure? {
      return Stopped(r.error), [], NameSet(listing);
    }
    var bob := r.value;
    bob.RenameAction(o.force);
    outcome := Done(bob.renameCount, bob.clobberCount, bob.searchCount, bob.fileCount);
    renames, directory := bob.performed, bob.directory;
  }

  /** Every mode's hash only has filtered names as keys. */
  lemma ModeHashKeys(m: Mode, o: Options, a: Arguments, re: Regexp, list: seq<string>)
    requires ModeHash(m, o, a, re, list).Success?
    ensures forall k :: k in ModeHash(m, o, a, re, list).value ==> k in list
  {
  }

  /** Every name the run's hash holds is a candidate of the scan. */
  lemma PlanKeys(o: Options, argv: seq<string>, listing: seq<Entry>)
    requires Plan(o, argv, listing).Success?
    ensures forall k :: k in Plan(o, argv, listing).value ==> k in Kept(listing, PolicyOf(o))
  {
    var orig := Kept(listing, PolicyOf(o));
    var a := Positional(o, argv);
    var re := PatternRegexp(a.pattern, o.ignoreCase);
    var list := if o.all then orig else Selected(orig, re, o.invert);
    assert Plan(o, argv, listing) == ModeHash(SelectMode(o), o, a, re, list);
    ModeHashKeys(SelectMode(o), o, a, re, list);
    forall k | k in list
      ensures k in orig
    {
      PartitionMembers(orig, re, k);
    }
  }

  /** A set of names drawn from a list has at most as many members as the
      list has entries. */
  lemma {:induction false} DrawnFrom(keys: set<string>, list: seq<string>)
    requires forall k :: k in keys ==> k in list
    ensures |keys| <= |list|
  {
    if list != [] {
      var last := list[|list| - 1];
      var init := list[..|list| - 1];
      assert list == init + [last];
      DrawnFrom(keys - {last}, init);
    }
  }

  /** The summary line's numbers never exceed one another: clobbered <=
      renames <= considered <= objects. */
  lemma SummaryCounts(o: Options, argv: seq<string>, listing: seq<Entry>)
    ensures Summary(o, argv, listing).Done? ==>
              var s := Summary(o, argv, listing);
              s.clobbers <= s.renames <= s.considered <= s.objects
  {
    if Plan(o, argv, listing).Success? {
      var h := Plan(o, argv, listing).value;
      var orig := Kept(listing, PolicyOf(o));
      var live := NonEmpty(h);
      PlanKeys(o, argv, listing);
      SubsetCard(Clobbered(live, orig, o.force), Renamed(live, orig, o.force));
      DrawnFrom(Renamed(live, orig, o.force), orig);
      KeptBounds(listing, PolicyOf(o));
    }
  }

  /** Without -F nothing is counted as clobbered. */
  lemma SummaryUnforced(o: Options, argv: seq<string>, listing: seq<Entry>)
    requires !o.force
    ensures Summary(o, argv, listing).Done? ==> Summary(o, argv, listing).clobbers == 0
  {
    if Plan(o, argv, listing).Success? {
      UnforcedCounts(NonEmpty(Plan(o, argv, listing).value), Kept(listing, PolicyOf(o)));
    }
  }

  /** -h and -v stop the run first; otherwise an empty scan stops it before
      any pattern or mode is looked at, and a run without -a and without a
      pattern stops before any mode runs. */
  lemma EarlyStops(o: Options, argv: seq<string>, listing: seq<Entry>)
    ensures Summary(o, argv, listing) == Stopped(Help) <==> o.help
    ensures Summary(o, argv, listing) == Stopped(Version) <==> !o.help && o.version
    ensures !o.help && !o.version ==>
              (Kept(listing, PolicyOf(o)) == [] <==> Summary(o, argv, listing) == Stopped(NoFiles))
    ensures !o.help && !o.version && Kept(listing, PolicyOf(o)) != [] && !o.all && argv == [] ==>
              Summary(o, argv, listing) == Stopped(NoPattern)
  {
  }

  /** The options of a run with no switch set. */
  const Defaults := Options(false, false, false, false, false, false, false, None, false, false, false, false, false)

  /** A directory holding foo.txt, bar.txt and the directory sub. */
  const SampleListing := [Entry(".", true), Entry("..", true), Entry("foo.txt", false), Entry("bar.txt", false), Entry("sub", true)]

  lemma SampleScan()
    ensures Kept(SampleListing, FilesOnly) == ["foo.txt", "bar.txt"]
    ensures Counted(SampleListing) == 3
  {
    var l1, l2 := [Entry(".", true)], [Entry(".", true), Entry("..", true)];
    var l3 := l2 + [Entry("foo.txt", false)];
    var l4 := l3 + [Entry("bar.txt", false)];
    assert l1[..0] == [] && l2[..1] == l1 && l3[..2] == l2 && l4[..3] == l3 && SampleListing[..4] == l4;
    assert Kept(l2, FilesOnly) == [] && Counted(l2) == 0;
    assert Kept(l3, FilesOnly) == ["foo.txt"] && Counted(l3) == 1;
    assert Kept(l4, FilesOnly) == ["foo.txt", "bar.txt"] && Counted(l4) == 2;
  }

  lemma SampleMatches()
    ensures Matches(Regexp("foo", 0), "foo.txt")
    ensures !Matches(Regexp("foo", 0), "bar.txt")
  {
    assert MatchesPrefix("foo.txt", "foo", false);
    FirstCharAbsent("foo", "bar.txt");
  }

  lemma SampleFilter()
    ensures Selected(["foo.txt", "bar.txt"], Regexp("foo", 0), false) == ["foo.txt"]
  {
    SampleMatches();
    assert ["foo.txt", "bar.txt"][..1] == ["foo.txt"] && ["foo.txt"][..0] == [];
    assert Matched(["foo.txt"], Regexp("foo", 0)) == ["foo.txt"];
  }

  lemma SampleSubstitution()
    ensures ModeHash(Substitution, Defaults, Arguments(Some("foo"), Some("baz")), Regexp("foo", 0), ["foo.txt"])
            == Success(map["foo.txt" := "baz.txt"])
  {
    SampleGsub(IdentityHash(["foo.txt"]));
  }

  /** The gsub of foo by baz on the identity hash of [foo.txt]. */
  lemma SampleGsub(id: map<string, string>)
    requires id == IdentityHash(["foo.txt"])
    ensures id + SubHash(id.Keys, Gsub(Regexp("foo", 0), "baz")) == map["foo.txt" := "baz.txt"]
  {
    var re := Regexp("foo", 0);
    assert id.Keys == {"foo.txt"};
    SampleGsubName();
    var sub := SubHash(id.Keys, Gsub(re, "baz"));
    assert "foo.txt" in sub && sub["foo.txt"] == "baz.txt";
    var h := id + sub;
    assert h.Keys == {"foo.txt"} && h["foo.txt"] == "baz.txt";
  }

  /** foo.txt with foo replaced by baz is baz.txt. */
  lemma SampleGsubName()
    ensures Rewritten(Gsub(Regexp("foo", 0), "baz"), "foo.txt") == Some("baz.txt")
  {
    var re := Regexp("foo", 0);
    assert !IgnoresCase(re) && re.source == "foo";
    LeftmostNonOverlapping();
  }

  lemma SamplePlan()
    ensures Plan(Defaults, ["foo", "baz"], SampleListing) == Success(map["foo.txt" := "baz.txt"])
  {
    SampleScan();
    SampleFilter();
    SampleSubstitution();
    var a := Positional(Defaults, ["foo", "baz"]);
    assert a == Arguments(Some("foo"), Some("baz"));
    assert PolicyOf(Defaults) == FilesOnly && SelectMode(Defaults) == Substitution;
    assert PatternRegexp(a.pattern, false) == Regexp("foo", 0);
  }

  lemma SampleRename()
    ensures Renamed(map["foo.txt" := "baz.txt"], ["foo.txt", "bar.txt"], false) == {"foo.txt"}
    ensures Clobbered(map["foo.txt" := "baz.txt"], ["foo.txt", "bar.txt"], false) == {}
  {
    assert "baz.txt" !in ["foo.txt", "bar.txt"];
  }

  /** `batch_rename foo baz` in that directory: only foo.txt matches, it
      becomes baz.txt, and the summary reads
      1 renames | 2 considered | 3 objects. */
  lemma SubstitutionScenario()
    ensures Summary(Defaults, ["foo", "baz"], SampleListing) == Done(1, 0, 2, 3)
  {
    SampleScan();
    SamplePlan();
    SampleRename();
    var h := map["foo.txt" := "baz.txt"];
    assert NonEmpty(h) == h;
  }
}
