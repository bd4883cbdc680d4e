/**
 * The name-to-name mappings the editing modes build (batch.rename.rb:279-404).
 * Each mode starts from create_hash, which maps every filtered name to
 * itself, then fills a second hash key by key and either merges it into the
 * first (upcase, downcase, substitute, xx_pend) or replaces the first with
 * it (trim). What a mode does to one name is Rewritten; the hash it fills
 * is SubHash, which BuildSubHash computes with the source's key loop.
 */
module Rewrites {
  import opened Wrappers
  import opened Text
  import opened Regexps

  /** One editing mode with its parameters. */
  datatype Rewrite =
    | UpcaseAll                                          // Filelist#upcase
    | DowncaseAll                                        // Filelist#downcase
    | TrimBy(n: int)                                     // Filelist#trim with -t n
    | Affix(append: bool, prepend: bool, text: string)   // Filelist#xx_pend
    | Gsub(re: Regexp, text: string)                     // Filelist#substitute

  /** The new name a mode gives one key, or None when the mode leaves the
      key out of its hash. */
  function Rewritten(w: Rewrite, key: string): Option<string>
  {
    match w
    case UpcaseAll => Some(AsciiUpcase(key))
    case DowncaseAll => Some(AsciiDowncase(key))
    case TrimBy(n) =>
      if n <= 0 then
        (if -n < |key| then Some(key[-n..]) else None)
      else
        (if n < |key| then Some(key[..|key| - n]) else None)
    case Affix(append, prepend, text) =>
      // both assignments run when both flags are set; prepend's comes last
      if prepend then Some(text + key)
      else if append then Some(key + text)
      else None
    case Gsub(re, text) => Some(ReplaceAll(key, re.source, text, IgnoresCase(re)))
  }

  /** create_hash: every filtered name mapped to itself. */
  function IdentityHash(list: seq<string>): (h: map<string, string>)
    ensures forall k :: k in h <==> k in list
    ensures forall k :: k in h ==> h[k] == k
  {
    map v | v in list :: v
  }

  /** The hash a mode fills from the given keys. */
  function SubHash(keys: set<string>, w: Rewrite): (h: map<string, string>)
    ensures h.Keys <= keys
  {
    map k | k in keys && Rewritten(w, k).Some? :: Rewritten(w, k).value
  }

  /** The `each_key` loop shared by the modes, visiting the keys in no
      particular order, as Ruby 1.8's Hash does. */
  method BuildSubHash(keys: set<string>, w: Rewrite) returns (sub: map<string, string>)
    ensures sub == SubHash(keys, w)
  {
    sub := map[];
    var todo := keys;
    while todo != {}
      invariant todo <= keys
      invariant sub == SubHash(keys - todo, w)
      decreases todo
    {
      var key :| key in todo;
      ghost var done := keys - todo;
      match Rewritten(w, key) {
        case Some(v) =>
          sub := sub[key := v];
        case None =>
      }
      todo := todo - {key};
      assert keys - todo == done + {key};
    }
  }

  function Abs(n: int): nat
  {
    if n < 0 then -n else n
  }

  /** upcase and downcase: the hash keeps every filtered name, each new name
      has the length of its key and differs from it only in letter case, and
      the mode maps every new name to itself, so running it again on its own
      output renames nothing. */
  lemma CaseHash(keys: set<string>, w: Rewrite)
    requires w == UpcaseAll || w == DowncaseAll
    ensures SubHash(keys, w).Keys == keys
    ensures forall k :: k in SubHash(keys, w) ==>
              var v := SubHash(keys, w)[k];
              |v| == |k| && AsciiDowncase(v) == AsciiDowncase(k) && Rewritten(w, v) == Some(v)
  {
    forall k | k in keys
      ensures var v := Rewritten(w, k).value;
              |v| == |k| && AsciiDowncase(v) == AsciiDowncase(k) && Rewritten(w, v) == Some(v)
    {
      UpcaseFacts(k);
      DowncaseFacts(k);
    }
  }

  /** trim with n != 0: a name is kept exactly when it is longer than |n|;
      the new name is never empty and is |n| bytes shorter; a positive n
      removes bytes from the end, a negative n from the beginning. */
  lemma TrimHash(keys: set<string>, n: int)
    requires n != 0
    ensures forall k :: k in SubHash(keys, TrimBy(n)) <==> k in keys && Abs(n) < |k|
    ensures forall k :: k in SubHash(keys, TrimBy(n)) ==>
              var v := SubHash(keys, TrimBy(n))[k];
              v != [] && |v| == |k| - Abs(n)
              && (n > 0 ==> v + k[|k| - n..] == k)
              && (n < 0 ==> k[..-n] + v == k)
  {
    forall k | k in keys && Abs(n) < |k|
      ensures var v := Rewritten(TrimBy(n), k).value;
              (n > 0 ==> v + k[|k| - n..] == k) && (n < 0 ==> k[..-n] + v == k)
    {
      if n > 0 {
        assert k[..|k| - n] + k[|k| - n..] == k;
      } else {
        assert k[..-n] + k[-n..] == k;
      }
    }
  }

  /** xx_pend: every filtered name is kept and gets the text on one side;
      when both -A and -P are given the text goes in front. */
  lemma AffixHash(keys: set<string>, append: bool, prepend: bool, text: string)
    requires append || prepend
    ensures SubHash(keys, Affix(append, prepend, text)).Keys == keys
    ensures forall k :: k in SubHash(keys, Affix(append, prepend, text)) ==>
              var v := SubHash(keys, Affix(append, prepend, text))[k];
              |v| == |k| + |text|
              && (prepend ==> v[..|text|] == text && v[|text|..] == k)
              && (!prepend ==> v[..|k|] == k && v[|k|..] == text)
  {
  }

  /** substitute: every filtered name is kept; a name the pattern does not
      occur in keeps its name, a replacement as long as the pattern keeps the
      length, and replacing the pattern by itself renames nothing. */
  lemma GsubHash(keys: set<string>, re: Regexp, text: string)
    ensures SubHash(keys, Gsub(re, text)).Keys == keys
    ensures re.source != [] ==>
              forall k :: k in SubHash(keys, Gsub(re, text)) && !Matches(re, k) ==>
                SubHash(keys, Gsub(re, text))[k] == k
    ensures |text| == |re.source| ==>
              forall k :: k in SubHash(keys, Gsub(re, text)) ==> |SubHash(keys, Gsub(re, text))[k]| == |k|
    ensures text == re.source && !IgnoresCase(re) ==>
              forall k :: k in SubHash(keys, Gsub(re, text)) ==> SubHash(keys, Gsub(re, text))[k] == k
  {
    forall k | k in keys
      ensures re.source != [] && !Matches(re, k) ==> ReplaceAll(k, re.source, text, IgnoresCase(re)) == k
      ensures |text| == |re.source| ==> |ReplaceAll(k, re.source, text, IgnoresCase(re))| == |k|
      ensures text == re.source && !IgnoresCase(re) ==> ReplaceAll(k, re.source, text, IgnoresCase(re)) == k
    {
      if re.source != [] && !Matches(re, k) {
        ReplaceAllWithoutOccurrence(k, re.source, text, IgnoresCase(re));
      }
      if |text| == |re.source| {
        ReplaceAllSameLength(k, re.source, text, IgnoresCase(re));
      }
      if text == re.source && !IgnoresCase(re) {
        ReplaceAllBySelf(k, re.source);
      }
    }
  }

  /** report.doc under trim: -t 4 cuts the last four bytes, -t -4 the
      first four, and -t 10 leaves the name out of the hash. */
  lemma TrimScenario()
    ensures Rewritten(TrimBy(4), "report.doc") == Some("report")
    ensures Rewritten(TrimBy(-4), "report.doc") == Some("rt.doc")
    ensures Rewritten(TrimBy(10), "report.doc") == None
  {
    assert "report.doc"[..6] == "report";
    assert "report.doc"[4..] == "rt.doc";
  }

  /** Names are Ruby 1.8 byte strings, one element per byte, so trim counts
      and cuts bytes: é is the two bytes C3 A9, -t 1 keeps its first byte,
      and -t -4 on café.txt cuts into the é. */
  lemma ByteTrimScenario()
    ensures Rewritten(TrimBy(1), "\U{C3}\U{A9}") == Some("\U{C3}")
    ensures Rewritten(TrimBy(-4), "caf\U{C3}\U{A9}.txt") == Some("\U{A9}.txt")
  {
    assert "\U{C3}\U{A9}"[..1] == "\U{C3}";
    assert "caf\U{C3}\U{A9}.txt"[4..] == "\U{A9}.txt";
  }
}
