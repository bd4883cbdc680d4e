/**
 * String#to_regexp (batch.rename.rb:99-111): a string of the form
 * `/body/flags` becomes a pattern with the options the flags name; any other
 * string becomes a pattern over its whole text. The regular-expression
 * engine itself is not modelled: a pattern's source is matched as literal
 * text (see Text.Occurs and Text.ReplaceAll).
 */
module Regexps {
  import opened Wrappers
  import opened Text

  /** Ruby's Regexp option bits. */
  const IGNORECASE: nat := 1
  const EXTENDED: nat := 2
  const MULTILINE: nat := 4

  /** A compiled pattern: the source text and the option mask. */
  datatype Regexp = Regexp(source: string, options: nat)

  /** The position of the last occurrence of c in t, if any. */
  function LastIndexOf(t: string, c: char): (r: Option<nat>)
    ensures r.Some? ==> r.value < |t| && t[r.value] == c && c !in t[r.value + 1..]
    ensures r.None? ==> c !in t
  {
    if t == [] then None
    else if t[|t| - 1] == c then Some(|t| - 1)
    else LastIndexOf(t[..|t| - 1], c)
  }

  /** The match of `\A\/(.*)\/(.*)\Z` on a stripped string: the body runs
      from after the first slash to the last slash (the first group is
      greedy), the flags are whatever follows the last slash. */
  function SlashForm(t: string): (r: Option<(string, string)>)
    ensures r.Some? <==> |t| >= 2 && t[0] == '/' && '/' in t[1..]
    ensures r.Some? ==> t == "/" + r.value.0 + "/" + r.value.1 && '/' !in r.value.1
  {
    if t != [] && t[0] == '/' then
      match LastIndexOf(t, '/')
      case Some(j) =>
        if j > 0 then
          assert t == "/" + t[1..j] + "/" + t[j + 1..];
          Some((t[1..j], t[j + 1..]))
        else
          assert '/' !in t[1..];
          None
      case None => None
    else None
  }

  /** Only x, i and m are accepted after the closing slash. */
  predicate ValidFlags(flags: string)
  {
    forall c :: c in flags ==> c == 'x' || c == 'i' || c == 'm'
  }

  /** The option mask: the sum of the options whose flag letter is present,
      each counted once however often its letter repeats. */
  function OptionMask(flags: string): (mask: nat)
    ensures mask < 8
    ensures mask % 2 == 1 <==> 'i' in flags
    ensures mask / 2 % 2 == 1 <==> 'x' in flags
    ensures mask / 4 == 1 <==> 'm' in flags
  {
    (if 'x' in flags then EXTENDED else 0)
    + (if 'i' in flags then IGNORECASE else 0)
    + (if 'm' in flags then MULTILINE else 0)
  }

  /** String#to_regexp. None is Ruby's nil: a slash form with a flag other
      than x, i or m. */
  function ToRegexp(s: string): (r: Option<Regexp>)
    ensures r.Some? ==> r.value.options < 8
  {
    match SlashForm(Strip(s))
    case None => Some(Regexp(s, 0))
    case Some((body, flags)) =>
      if ValidFlags(flags) then Some(Regexp(body, OptionMask(flags))) else None
  }

  /** Whatever the body holds, slashes included, `/body/flags` splits at its
      last slash: the body comes back whole, and the result is nil exactly
      when a flag is not x, i or m. */
  lemma ToRegexpSlashForm(body: string, flags: string)
    requires '/' !in flags
    requires flags == [] || !IsTrailingBlank(flags[|flags| - 1])
    ensures ToRegexp("/" + body + "/" + flags)
            == if ValidFlags(flags) then Some(Regexp(body, OptionMask(flags))) else None
  {
    var t := "/" + body + "/" + flags;
    StripKeeps(t);
    var r := SlashForm(t);
    assert t[1..][|body|] == '/';
    assert r.Some?;
    var (b, f) := r.value;
    LastSlashUnique(body, flags, b, f);
  }

  /** A position holding c with no c after it is the one LastIndexOf finds. */
  lemma LastIndexOfIsLast(t: string, c: char, j: nat)
    requires j < |t| && t[j] == c && c !in t[j + 1..]
    ensures LastIndexOf(t, c) == Some(j)
  {
    var r := LastIndexOf(t, c);
    assert forall k :: j < k < |t| ==> t[k] == t[j + 1..][k - j - 1];
    assert forall k :: r.value < k < |t| ==> t[k] == t[r.value + 1..][k - r.value - 1];
  }

  /** In `/body/flags` with slash-free flags, the last slash is the one
      just before the flags. */
  lemma LastSlashBeforeFlags(body: string, flags: string)
    requires '/' !in flags
    ensures LastIndexOf("/" + body + "/" + flags, '/') == Some(|body| + 1)
  {
    var t := "/" + body + "/" + flags;
    assert t[|body| + 2..] == flags;
    LastIndexOfIsLast(t, '/', |body| + 1);
  }

  /** A string with a slash-free tail splits into body and tail in one way
      only. */
  lemma LastSlashUnique(body: string, flags: string, b: string, f: string)
    requires '/' !in flags && '/' !in f
    requires "/" + body + "/" + flags == "/" + b + "/" + f
    ensures body == b && flags == f
  {
    var t := "/" + body + "/" + flags;
    LastSlashBeforeFlags(body, flags);
    LastSlashBeforeFlags(b, f);
    assert body == t[1..|body| + 1] == b;
    assert flags == t[|body| + 2..] == f;
  }

  /** The call at batch.rename.rb:486 wraps the user's pattern as `/p/`, or
      `/p/i` under the ignore-case option; either way the pattern text comes
      back unchanged, with no option or with IGNORECASE alone. */
  lemma WrappedPatternRoundTrip(p: string, ignoreCase: bool)
    ensures ToRegexp("/" + p + (if ignoreCase then "/i" else "/"))
            == Some(Regexp(p, if ignoreCase then IGNORECASE else 0))
  {
    var flags := if ignoreCase then "i" else "";
    assert "/" + p + (if ignoreCase then "/i" else "/") == "/" + p + "/" + flags;
    WrappedWith(p, flags, "/" + p + (if ignoreCase then "/i" else "/"));
  }

  /** `/p/` and `/p/i` are slash forms with valid flags. */
  lemma WrappedWith(p: string, flags: string, t: string)
    requires flags == "" || flags == "i"
    requires t == "/" + p + "/" + flags
    ensures ToRegexp(t) == Some(Regexp(p, if flags == "" then 0 else IGNORECASE))
  {
    assert ValidFlags(flags) && OptionMask(flags) == if flags == "" then 0 else IGNORECASE;
    ToRegexpSlashForm(p, flags);
  }

  /** The pattern ignores case when its IGNORECASE bit is set. */
  predicate IgnoresCase(re: Regexp)
  {
    re.options % 2 == 1
  }

  /** Regexp#match on a file name, the source read as literal text. */
  predicate Matches(re: Regexp, name: string)
  {
    Occurs(re.source, name, IgnoresCase(re))
  }
}
