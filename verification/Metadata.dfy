/**
 The wire schema of a beacon: an allowlist of metadata keys, each with the
 pattern its value must match in full, and two bounded identifiers.
 */
module Metadata {
  import opened Prelude
  import opened Regex

  const LETTER := [('A', 'Z'), ('a', 'z')]
  const LOWER := [('a', 'z')]
  const SLASH := [('/', '/')]
  const HYPHEN := [('-', '-')]
  const ALNUM := [('A', 'Z'), ('a', 'z'), ('0', '9')]
  const LOWER_ALNUM := [('a', 'z'), ('0', '9')]
  const PATH_CHAR := [('A', 'Z'), ('a', 'z'), ('0', '9'), ('/', '/'), ('_', '_'), ('.', '.'), ('-', '-')]
  const LINK_CHAR := [('a', 'z'), ('0', '9'), ('_', '_'), ('-', '-')]
  const HOST_CHAR := [('a', 'z'), ('0', '9'), ('.', '.'), ('-', '-')]
  const SESSION_CHAR := [('A', 'Z'), ('a', 'z'), ('0', '9'), ('_', '_'), ('-', '-')]
  const SLUG_CHAR := [('a', 'z'), ('0', '9'), ('-', '-')]

  const PATH_PATTERN := Cat(Class(SLASH), Rep(Class(PATH_CHAR), 0, 199))
  const LOCALE_CODE_PATTERN := Cat(Rep(Class(LETTER), 2, 3), Opt(Cat(Class(HYPHEN), Rep(Class(ALNUM), 2, 8))))
  const LINK_TOKEN_PATTERN := Cat(Class(LOWER), Rep(Class(LINK_CHAR), 0, 31))
  const REFERRER_HOST_PATTERN := Cat(Class(LOWER_ALNUM), Opt(Cat(Rep(Class(HOST_CHAR), 0, 251), Class(LOWER_ALNUM))))
  const SESSION_ID_PATTERN := Rep(Class(SESSION_CHAR), 8, 128)
  const PROJECT_SLUG_PATTERN := Cat(Class(LOWER_ALNUM), Rep(Class(SLUG_CHAR), 0, 99))

  // ---- Each pattern as lengths and character classes -----------------------

  predicate IsPath(s: string) {
    1 <= |s| <= 200 && s[0] == '/' && AllIn(s[1..], PATH_CHAR)
  }

  predicate IsRegion(s: string) {
    s == "" || (3 <= |s| <= 9 && s[0] == '-' && AllIn(s[1..], ALNUM))
  }

  predicate IsLocaleCode(s: string) {
    || (|s| >= 2 && AllIn(s[..2], LETTER) && IsRegion(s[2..]))
    || (|s| >= 3 && AllIn(s[..3], LETTER) && IsRegion(s[3..]))
  }

  predicate IsLinkToken(s: string) {
    1 <= |s| <= 32 && InClass(s[0], LOWER) && AllIn(s[1..], LINK_CHAR)
  }

  predicate IsHost(s: string) {
    && 1 <= |s| <= 253
    && InClass(s[0], LOWER_ALNUM)
    && InClass(s[|s| - 1], LOWER_ALNUM)
    && AllIn(s, HOST_CHAR)
  }

  predicate IsSessionId(s: string) {
    8 <= |s| <= 128 && AllIn(s, SESSION_CHAR)
  }

  predicate IsProjectSlug(s: string) {
    1 <= |s| <= 100 && InClass(s[0], LOWER_ALNUM) && AllIn(s[1..], SLUG_CHAR)
  }

  // ---- Each class, character by character ----------------------------------

  predicate IsLower(c: char) {
    'a' <= c <= 'z'
  }

  predicate IsLetter(c: char) {
    'a' <= c <= 'z' || 'A' <= c <= 'Z'
  }

  predicate IsDigit(c: char) {
    '0' <= c <= '9'
  }

  lemma LettersAreExact(c: char)
    ensures InClass(c, LOWER) <==> IsLower(c)
    ensures InClass(c, LETTER) <==> IsLetter(c)
    ensures InClass(c, LOWER_ALNUM) <==> IsLower(c) || IsDigit(c)
    ensures InClass(c, ALNUM) <==> IsLetter(c) || IsDigit(c)
  {
    InFirstOrRest(c, LOWER);
    InFirstOrRest(c, LETTER);
    InFirstOrRest(c, LETTER[1..]);
    InFirstOrRest(c, LOWER_ALNUM);
    InFirstOrRest(c, LOWER_ALNUM[1..]);
    InFirstOrRest(c, ALNUM);
    InFirstOrRest(c, ALNUM[1..]);
    InFirstOrRest(c, ALNUM[2..]);
  }

  lemma PathCharsAreExact(c: char)
    ensures InClass(c, PATH_CHAR) <==> IsLetter(c) || IsDigit(c) || c == '/' || c == '_' || c == '.' || c == '-'
  {
    InFirstOrRest(c, PATH_CHAR);
    InFirstOrRest(c, PATH_CHAR[1..]);
    InFirstOrRest(c, PATH_CHAR[2..]);
    InFirstOrRest(c, PATH_CHAR[3..]);
    InFirstOrRest(c, PATH_CHAR[4..]);
    InFirstOrRest(c, PATH_CHAR[5..]);
    InFirstOrRest(c, PATH_CHAR[6..]);
  }

  lemma LinkCharsAreExact(c: char)
    ensures InClass(c, LINK_CHAR) <==> IsLower(c) || IsDigit(c) || c == '_' || c == '-'
  {
    InFirstOrRest(c, LINK_CHAR);
    InFirstOrRest(c, LINK_CHAR[1..]);
    InFirstOrRest(c, LINK_CHAR[2..]);
    InFirstOrRest(c, LINK_CHAR[3..]);
  }

  lemma HostCharsAreExact(c: char)
    ensures InClass(c, HOST_CHAR) <==> IsLower(c) || IsDigit(c) || c == '.' || c == '-'
  {
    InFirstOrRest(c, HOST_CHAR);
    InFirstOrRest(c, HOST_CHAR[1..]);
    InFirstOrRest(c, HOST_CHAR[2..]);
    InFirstOrRest(c, HOST_CHAR[3..]);
  }

  lemma SessionCharsAreExact(c: char)
    ensures InClass(c, SESSION_CHAR) <==> IsLetter(c) || IsDigit(c) || c == '_' || c == '-'
  {
    InFirstOrRest(c, SESSION_CHAR);
    InFirstOrRest(c, SESSION_CHAR[1..]);
    InFirstOrRest(c, SESSION_CHAR[2..]);
    InFirstOrRest(c, SESSION_CHAR[3..]);
    InFirstOrRest(c, SESSION_CHAR[4..]);
  }

  lemma SlugCharsAreExact(c: char)
    ensures InClass(c, SLUG_CHAR) <==> IsLower(c) || IsDigit(c) || c == '-'
  {
    InFirstOrRest(c, SLUG_CHAR);
    InFirstOrRest(c, SLUG_CHAR[1..]);
    InFirstOrRest(c, SLUG_CHAR[2..]);
  }

  lemma PathClosedForm(s: string)
    ensures Matches(PATH_PATTERN, s) <==> IsPath(s)
  {
    ClassThen(SLASH, Rep(Class(PATH_CHAR), 0, 199), s);
    if |s| > 0 {
      RepeatedClass(PATH_CHAR, 0, 199, s[1..]);
      assert InClass(s[0], SLASH) <==> s[0] == '/' by {
        assert SLASH[0] == ('/', '/');
      }
    }
  }

  lemma LinkClosedForm(s: string)
    ensures Matches(LINK_TOKEN_PATTERN, s) <==> IsLinkToken(s)
  {
    ClassThen(LOWER, Rep(Class(LINK_CHAR), 0, 31), s);
    if |s| > 0 {
      RepeatedClass(LINK_CHAR, 0, 31, s[1..]);
    }
  }

  lemma SlugClosedForm(s: string)
    ensures Matches(PROJECT_SLUG_PATTERN, s) <==> IsProjectSlug(s)
  {
    ClassThen(LOWER_ALNUM, Rep(Class(SLUG_CHAR), 0, 99), s);
    if |s| > 0 {
      RepeatedClass(SLUG_CHAR, 0, 99, s[1..]);
    }
  }

  lemma SessionIdClosedForm(s: string)
    ensures Matches(SESSION_ID_PATTERN, s) <==> IsSessionId(s)
  {
    RepeatedClass(SESSION_CHAR, 8, 128, s);
  }

  lemma RegionClosedForm(s: string)
    ensures Matches(Opt(Cat(Class(HYPHEN), Rep(Class(ALNUM), 2, 8))), s) <==> IsRegion(s)
  {
    ClassThen(HYPHEN, Rep(Class(ALNUM), 2, 8), s);
    if |s| > 0 {
      RepeatedClass(ALNUM, 2, 8, s[1..]);
      assert InClass(s[0], HYPHEN) <==> s[0] == '-' by {
        assert HYPHEN[0] == ('-', '-');
      }
    }
  }

  lemma LettersUpTo(s: string, i: nat)
    requires i <= |s|
    ensures Matches(Rep(Class(LETTER), 2, 3), s[..i]) <==> 2 <= i <= 3 && AllIn(s[..i], LETTER)
  {
    RepeatedClass(LETTER, 2, 3, s[..i]);
  }

  /** Two or three letters, then anything; `letters` is only known by what it matches. */
  lemma LettersThen(letters: Re, r: Re, s: string)
    requires forall i :: 0 <= i <= |s| ==> (Matches(letters, s[..i]) <==> 2 <= i <= 3 && AllIn(s[..i], LETTER))
    ensures Matches(Cat(letters, r), s) <==>
            || (|s| >= 2 && AllIn(s[..2], LETTER) && Matches(r, s[2..]))
            || (|s| >= 3 && AllIn(s[..3], LETTER) && Matches(r, s[3..]))
  {
  }

  lemma LocaleClosedForm(s: string)
    ensures Matches(LOCALE_CODE_PATTERN, s) <==> IsLocaleCode(s)
  {
    var letters, region := Rep(Class(LETTER), 2, 3), Opt(Cat(Class(HYPHEN), Rep(Class(ALNUM), 2, 8)));
    forall i | 0 <= i <= |s|
      ensures Matches(letters, s[..i]) <==> 2 <= i <= 3 && AllIn(s[..i], LETTER)
    {
      LettersUpTo(s, i);
    }
    LettersThen(letters, region, s);
    if |s| >= 2 {
      RegionClosedForm(s[2..]);
    }
    if |s| >= 3 {
      RegionClosedForm(s[3..]);
    }
  }

  /** What follows the first character of a host, if anything does. */
  predicate IsHostTail(s: string) {
    1 <= |s| <= 252 && AllIn(s, HOST_CHAR) && InClass(s[|s| - 1], LOWER_ALNUM)
  }

  lemma HostTailClosedForm(s: string)
    ensures Matches(Cat(Rep(Class(HOST_CHAR), 0, 251), Class(LOWER_ALNUM)), s) <==> IsHostTail(s)
  {
    hide InClass, AllIn;
    ThenClass(Rep(Class(HOST_CHAR), 0, 251), LOWER_ALNUM, s);
    if |s| > 0 {
      RepeatedClass(HOST_CHAR, 0, 251, s[..|s| - 1]);
      AlnumIsHostChar(s[|s| - 1]);
      LastAndFront(s, HOST_CHAR);
    }
  }

  lemma HostSplits(s: string)
    ensures IsHost(s) <==> |s| > 0 && InClass(s[0], LOWER_ALNUM) && (s[1..] == "" || IsHostTail(s[1..]))
  {
    hide InClass, AllIn;
    if |s| > 0 {
      HeadAndTail(s, HOST_CHAR);
      AlnumIsHostChar(s[0]);
      NoneIn(s[1..], HOST_CHAR);
    }
  }

  lemma NoneIn(s: string, ranges: seq<(char, char)>)
    ensures s == "" ==> AllIn(s, ranges)
  {
  }

  /** Every character of a host is a host character, the first and last are letters or digits. */
  lemma HostClosedForm(s: string)
    ensures Matches(REFERRER_HOST_PATTERN, s) <==> IsHost(s)
  {
    var tail := Cat(Rep(Class(HOST_CHAR), 0, 251), Class(LOWER_ALNUM));
    ClassThen(LOWER_ALNUM, Opt(tail), s);
    HostSplits(s);
    if |s| > 0 {
      HostTailClosedForm(s[1..]);
      OptMatches(tail, s[1..]);
    }
    hide Matches, IsHost, IsHostTail, InClass;
  }

  lemma OptMatches(r: Re, s: string)
    ensures Matches(Opt(r), s) <==> s == "" || Matches(r, s)
  {
  }

  lemma AlnumIsHostChar(c: char)
    ensures InClass(c, LOWER_ALNUM) ==> InClass(c, HOST_CHAR)
  {
    assert HOST_CHAR[0] == LOWER_ALNUM[0] && HOST_CHAR[1] == LOWER_ALNUM[1];
  }

  lemma LastAndFront(s: string, ranges: seq<(char, char)>)
    requires |s| > 0
    ensures AllIn(s, ranges) <==> AllIn(s[..|s| - 1], ranges) && InClass(s[|s| - 1], ranges)
  {
    if AllIn(s, ranges) {
      assert forall i :: 0 <= i < |s| - 1 ==> s[..|s| - 1][i] == s[i];
    } else {
      var i :| 0 <= i < |s| && !InClass(s[i], ranges);
      assert i < |s| - 1 ==> s[..|s| - 1][i] == s[i];
    }
  }

  // ---- Paths ---------------------------------------------------------------

  /** `value.split(stop, 1)[0]` */
  function CutAt(value: string, stop: char): string {
    if |value| == 0 || value[0] == stop then "" else [value[0]] + CutAt(value[1..], stop)
  }

  function StripPath(value: string): string {
    CutAt(CutAt(value, '?'), '#')
  }

  function CleanPath(value: string): Option<string> {
    if IsPath(StripPath(value)) then Some(StripPath(value)) else None
  }

  lemma {:induction false} CutAtPrefix(value: string, stop: char)
    ensures CutAt(value, stop) <= value
    ensures stop !in CutAt(value, stop)
  {
    if |value| > 0 && value[0] != stop {
      CutAtPrefix(value[1..], stop);
    }
  }

  lemma {:induction false} CutAtLongest(value: string, stop: char, prefix: string)
    requires prefix <= value && stop !in prefix
    ensures prefix <= CutAt(value, stop)
  {
    if |prefix| > 0 {
      assert value[0] == prefix[0];
      CutAtLongest(value[1..], stop, prefix[1..]);
    }
  }

  /** The cleaned path is the longest prefix free of query and fragment marks. */
  lemma StripPathLongest(value: string, prefix: string)
    requires prefix <= value && '?' !in prefix && '#' !in prefix
    ensures prefix <= StripPath(value) <= value
    ensures '?' !in StripPath(value) && '#' !in StripPath(value)
  {
    var once := CutAt(value, '?');
    CutAtPrefix(value, '?');
    CutAtPrefix(once, '#');
    CutAtLongest(value, '?', prefix);
    CutAtLongest(once, '#', prefix);
  }

  lemma {:induction false} CutAtNothing(value: string, stop: char)
    requires stop !in value
    ensures CutAt(value, stop) == value
  {
    if |value| > 0 {
      CutAtNothing(value[1..], stop);
    }
  }

  lemma StripPathTwice(value: string)
    ensures StripPath(StripPath(value)) == StripPath(value)
  {
    StripPathLongest(value, "");
    CutAtNothing(StripPath(value), '?');
    CutAtNothing(StripPath(value), '#');
  }

  // ---- Hosts ---------------------------------------------------------------

  /**
   Lower case, as far as a host can tell: besides A to Z the Kelvin sign is the
   one character whose lower case is a single ASCII letter. Every other lower
   case has a character outside ASCII, as the character itself does, and the
   pattern refuses both.
   */
  function LowerChar(c: char): char {
    if 'A' <= c <= 'Z' then c - 'A' + 'a' else if c == '\U{212A}' then 'k' else c
  }

  function Lower(s: string): string {
    seq(|s|, i requires 0 <= i < |s| => LowerChar(s[i]))
  }

  lemma HostIsLower(s: string)
    requires IsHost(s)
    ensures Lower(s) == s
  {
    forall i | 0 <= i < |s|
      ensures LowerChar(s[i]) == s[i]
    {
      assert InClass(s[i], HOST_CHAR);
    }
  }

  // ---- The allowlist -------------------------------------------------------

  /** What a client may send as a value: a string, or anything else JSON has. */
  datatype Json = Text(text: string) | NotText

  const ALLOWLIST: seq<string> := ["path", "from", "to", "link", "ref"]

  /** The value kept for an allowlisted key, if its shape is right. */
  function Kept(key: string, value: Json): Option<string> {
    if value.NotText? then None
    else if key == "path" then CleanPath(value.text)
    else if key == "ref" then (if IsHost(Lower(value.text)) then Some(Lower(value.text)) else None)
    else if key == "link" then (if IsLinkToken(value.text) then Some(value.text) else None)
    else if IsLocaleCode(value.text) then Some(value.text)
    else None
  }

  predicate Survives(metadata: map<string, Json>, key: string) {
    key in metadata && Kept(key, metadata[key]).Some?
  }

  /** The allowlisted, well-shaped part of what the client sent. */
  function Allowed(metadata: map<string, Json>): map<string, string> {
    map key | key in metadata && key in ALLOWLIST && Survives(metadata, key) :: Kept(key, metadata[key]).value
  }

  /** None rather than an empty object. */
  function OrNone(kept: map<string, string>): Option<map<string, string>> {
    if kept == map[] then None else Some(kept)
  }

  function Sanitized(metadata: Option<map<string, Json>>): Option<map<string, string>> {
    match metadata
    case None => None
    case Some(m) => OrNone(Allowed(m))
  }

  /** The same value as it would look if a client sent it back. */
  function AsJson(metadata: Option<map<string, string>>): Option<map<string, Json>> {
    match metadata
    case None => None
    case Some(m) => Some(map key | key in m :: Text(m[key]))
  }

  /** The pattern of each allowlisted key. */
  function PatternOf(key: string): Re {
    if key == "path" then PATH_PATTERN
    else if key == "link" then LINK_TOKEN_PATTERN
    else if key == "ref" then REFERRER_HOST_PATTERN
    else LOCALE_CODE_PATTERN
  }

  lemma KeptMatches(key: string, value: Json)
    requires Kept(key, value).Some?
    ensures Matches(PatternOf(key), Kept(key, value).value)
    ensures Kept(key, Text(Kept(key, value).value)) == Kept(key, value)
  {
    var kept := Kept(key, value).value;
    PathClosedForm(kept);
    LinkClosedForm(kept);
    HostClosedForm(kept);
    LocaleClosedForm(kept);
    if key == "path" {
      StripPathTwice(value.text);
    } else if key == "ref" {
      HostIsLower(kept);
    }
  }

  /** What survives is never empty, has only allowlisted keys, and every value matches its pattern in full. */
  lemma SanitizedIsClean(metadata: Option<map<string, Json>>, key: string)
    requires Sanitized(metadata).Some?
    ensures Sanitized(metadata).value != map[]
    ensures key in Sanitized(metadata).value ==>
              && key in ALLOWLIST
              && Matches(PatternOf(key), Sanitized(metadata).value[key])
  {
    if key in Sanitized(metadata).value {
      KeptMatches(key, metadata.value[key]);
    }
  }

  lemma AllowedHas(metadata: map<string, Json>, key: string)
    requires key in ALLOWLIST && Survives(metadata, key)
    ensures key in Allowed(metadata) && Allowed(metadata)[key] == Kept(key, metadata[key]).value
  {
  }

  lemma NoMarksInPath(s: string)
    requires IsPath(s)
    ensures StripPath(s) == s
  {
    forall i | 0 <= i < |s|
      ensures s[i] != '?' && s[i] != '#'
    {
      if i > 0 {
        assert s[i] == s[1..][i - 1] && InClass(s[1..][i - 1], PATH_CHAR);
      }
    }
    CutAtNothing(s, '?');
    CutAtNothing(s, '#');
  }

  /** No allowlisted value that matches its pattern in full is dropped, and none is changed. */
  lemma SanitizedIsComplete(metadata: map<string, Json>, key: string)
    requires key in ALLOWLIST && key in metadata && metadata[key].Text?
    requires Matches(PatternOf(key), metadata[key].text)
    ensures Sanitized(Some(metadata)).Some? && key in Sanitized(Some(metadata)).value
    ensures Sanitized(Some(metadata)).value[key] == metadata[key].text
  {
    var text := metadata[key].text;
    PathClosedForm(text);
    LinkClosedForm(text);
    HostClosedForm(text);
    LocaleClosedForm(text);
    if key == "path" {
      NoMarksInPath(text);
    } else if key == "ref" {
      HostIsLower(text);
    }
    AllowedHas(metadata, key);
  }

  /** Sanitising what was sanitised changes nothing. */
  lemma SanitizedTwice(metadata: Option<map<string, Json>>)
    ensures Sanitized(AsJson(Sanitized(metadata))) == Sanitized(metadata)
  {
    if Sanitized(metadata).Some? {
      var once, again := Allowed(metadata.value), AsJson(Sanitized(metadata)).value;
      forall key | key in once
        ensures Kept(key, again[key]) == Some(once[key])
      {
        KeptMatches(key, metadata.value[key]);
      }
      assert Allowed(again) == once;
    }
  }

  // ---- What is stored ------------------------------------------------------

  /** `ref` moves to its own column; metadata that is left empty is stored as NULL. */
  function Stored(metadata: Option<map<string, string>>): (map<string, string>, Option<string>) {
    match metadata
    case None => (map[], None)
    case Some(m) => (m - {"ref"}, if "ref" in m then Some(m["ref"]) else None)
  }

  function Rebuilt(stored: (map<string, string>, Option<string>)): Option<map<string, string>> {
    match stored.1
    case None => OrNone(stored.0)
    case Some(host) => Some(stored.0["ref" := host])
  }

  /** The two columns together are the sanitised metadata, exactly. */
  lemma StoredRebuilds(metadata: Option<map<string, Json>>)
    ensures Rebuilt(Stored(Sanitized(metadata))) == Sanitized(metadata)
    ensures "ref" !in Stored(Sanitized(metadata)).0
  {
    if Sanitized(metadata).Some? {
      var m := Sanitized(metadata).value;
      if "ref" in m {
        assert (m - {"ref"})["ref" := m["ref"]] == m;
      } else {
        assert m - {"ref"} == m;
      }
    }
  }

  // ---- The loop ------------------------------------------------------------

  /** The part of the allowlisted metadata whose keys are among the first n. */
  function AllowedUpTo(metadata: map<string, Json>, n: nat): map<string, string>
    requires n <= |ALLOWLIST|
  {
    map key | key in metadata && key in ALLOWLIST[..n] && Survives(metadata, key) :: Kept(key, metadata[key]).value
  }

  lemma AllowedNext(sent: map<string, Json>, i: nat)
    requires i < |ALLOWLIST|
    ensures AllowedUpTo(sent, i + 1) ==
            if Survives(sent, ALLOWLIST[i]) then
                AllowedUpTo(sent, i)[ALLOWLIST[i] := Kept(ALLOWLIST[i], sent[ALLOWLIST[i]]).value]
            else AllowedUpTo(sent, i)
  {
    assert ALLOWLIST[..i + 1] == ALLOWLIST[..i] + [ALLOWLIST[i]];
  }

  method SanitizeMetadata(metadata: Option<map<string, Json>>) returns (result: Option<map<string, string>>)
    ensures result == Sanitized(metadata)
  {
    if metadata.None? || metadata.value == map[] {
      return None;
    }
    var sent := metadata.value;
    var kept: map<string, string> := map[];
    for i := 0 to |ALLOWLIST|
      invariant kept == AllowedUpTo(sent, i)
    {
      var key := ALLOWLIST[i];
      ghost var before := kept;
      if key in sent && sent[key].Text? {
        var value := sent[key].text;
        if key == "path" {
          var path := CleanPath(value);
          if path.Some? {
            kept := kept[key := path.value];
          }
        } else if key == "ref" {
          var host := Lower(value);
          if IsHost(host) {
            kept := kept[key := host];
          }
        } else if (if key == "link" then IsLinkToken(value) else IsLocaleCode(value)) {
          kept := kept[key := value];
        }
      }
      assert kept == if Survives(sent, key) then before[key := Kept(key, sent[key]).value] else before;
      AllowedNext(sent, i);
    }
    assert ALLOWLIST[..|ALLOWLIST|] == ALLOWLIST;
    result := OrNone(kept);
  }

  function BoundSessionId(value: string): string {
    if IsSessionId(value) then value else ""
  }

  function BoundProjectSlug(value: Option<string>): Option<string> {
    if value.Some? && IsProjectSlug(value.value) then value else None
  }

  /** The identifiers that pass are exactly the ones their patterns match. */
  lemma IdentifiersBounded(session: string, slug: string)
    ensures BoundSessionId(session) != "" <==> Matches(SESSION_ID_PATTERN, session)
    ensures BoundSessionId(session) != "" ==> BoundSessionId(session) == session
    ensures BoundProjectSlug(Some(slug)) == Some(slug) <==> Matches(PROJECT_SLUG_PATTERN, slug)
  {
    SessionIdClosedForm(session);
    SlugClosedForm(slug);
  }

  // ---- Exactly what is kept ------------------------------------------------

  /** A path up to its first query or fragment mark. */
  predicate IsCutPath(value: string, path: string) {
    && path <= value && '?' !in path && '#' !in path
    && (|path| < |value| ==> value[|path|] == '?' || value[|path|] == '#')
  }

  /** Capital letters become small ones, the Kelvin sign a k, and nothing else changes. */
  predicate IsFolded(value: string, host: string) {
    |host| == |value| && forall i :: 0 <= i < |value| ==> FoldsTo(value[i], host[i])
  }

  predicate FoldsTo(c: char, d: char) {
    if 'A' <= c <= 'Z' then d as int == c as int + 32
    else if c == '\U{212A}' then d == 'k'
    else d == c
  }

  /** The value that an allowlisted key is kept with: cleaned, and matching the pattern of the key in full. */
  ghost predicate IsKept(key: string, value: Json, kept: string) {
    value.Text? &&
    match key
    case "path" => IsCutPath(value.text, kept) && Matches(PATH_PATTERN, kept)
    case "ref" => IsFolded(value.text, kept) && Matches(REFERRER_HOST_PATTERN, kept)
    case "link" => kept == value.text && Matches(LINK_TOKEN_PATTERN, kept)
    case "from" => kept == value.text && Matches(LOCALE_CODE_PATTERN, kept)
    case "to" => kept == value.text && Matches(LOCALE_CODE_PATTERN, kept)
    case _ => false
  }

  lemma StripPathIsCut(value: string, path: string)
    ensures IsCutPath(value, path) <==> path == StripPath(value)
  {
    var cut := StripPath(value);
    StripPathLongest(value, "");
    if |cut| < |value| && value[|cut|] != '?' && value[|cut|] != '#' {
      assert value[..|cut| + 1] == cut + [value[|cut|]];
      StripPathLongest(value, value[..|cut| + 1]);
    }
    if IsCutPath(value, path) {
      StripPathLongest(value, path);
      if |path| < |cut| {
        assert cut[|path|] == value[|path|];
      }
    }
  }

  lemma LowerIsFolded(value: string, host: string)
    ensures IsFolded(value, host) <==> host == Lower(value)
  {
    if IsFolded(value, host) {
      forall i | 0 <= i < |value|
        ensures host[i] == Lower(value)[i]
      {
        assert FoldsTo(value[i], host[i]);
      }
    }
  }

  lemma KeptIsExact(key: string, value: Json, kept: string)
    ensures key in ALLOWLIST && Kept(key, value) == Some(kept) <==> IsKept(key, value, kept)
  {
    Keys(key);
    if value.Text? {
      StripPathIsCut(value.text, kept);
      LowerIsFolded(value.text, kept);
      PathClosedForm(kept);
      HostClosedForm(kept);
      LinkClosedForm(kept);
      LocaleClosedForm(kept);
    }
    hide Matches, IsPath, IsHost, IsLinkToken, IsLocaleCode, IsCutPath, IsFolded;
  }

  lemma Keys(key: string)
    ensures key in ALLOWLIST <==> key == "path" || key == "ref" || key == "link" || key == "from" || key == "to"
  {
    assert ALLOWLIST[0] == "path" && ALLOWLIST[1] == "from" && ALLOWLIST[2] == "to" && ALLOWLIST[3] == "link";
    assert ALLOWLIST[4] == "ref";
  }

  /** Key by key: what is in the result, and with which value. */
  lemma SanitizedIsExact(metadata: map<string, Json>, key: string, kept: string)
    ensures var r := Sanitized(Some(metadata));
            r.Some? && key in r.value && r.value[key] == kept <==> key in metadata && IsKept(key, metadata[key], kept)
  {
    if key in metadata {
      KeptIsExact(key, metadata[key], kept);
      if Survives(metadata, key) && key in ALLOWLIST {
        AllowedHas(metadata, key);
      }
    }
    hide IsKept, Kept;
  }
}
