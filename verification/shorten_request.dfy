/** The constraints on `ShortenRequest.url`: the NotBlank, Size (at most 2048)
    and anchored Pattern constraints
      (https?://)? (www\.)? [a-zA-Z0-9-]+ (\.[a-zA-Z]{2,})+ (/.*)?
    | (https?://)? localhost (:[0-9]+)? (/.*)?
    written as a recognizer, and proved to accept exactly the strings built
    by the grammar `UrlForm` below. */
module RequestValidation {
  import opened Common
  import opened Text

  const MaxUrlLength: nat := 2048

  predicate IsLetter(c: char) { ('a' <= c <= 'z') || ('A' <= c <= 'Z') }

  /** `[a-zA-Z0-9-]` */
  predicate IsLabelChar(c: char) { IsLetter(c) || IsDecimalDigit(c) || c == '-' }

  /** The characters `.` does not match: `\n`, `\r`, U+0085, U+2028, U+2029. */
  predicate IsLineTerminator(c: char) {
    c == '\n' || c == '\r' || c as int == 0x85 || c as int == 0x2028 || c as int == 0x2029
  }

  predicate AllLetters(s: string) { forall i :: 0 <= i < |s| ==> IsLetter(s[i]) }
  predicate AllLabelChars(s: string) { forall i :: 0 <= i < |s| ==> IsLabelChar(s[i]) }
  predicate AllDigits(s: string) { forall i :: 0 <= i < |s| ==> IsDecimalDigit(s[i]) }
  predicate NoLineTerminator(s: string) { forall i :: 0 <= i < |s| ==> !IsLineTerminator(s[i]) }

  /** The position of the first `c` in `s`, or `|s|` when there is none. */
  function IndexOf(s: string, c: char): (i: nat)
    ensures i <= |s|
    ensures i < |s| ==> s[i] == c
    ensures forall j :: 0 <= j < i ==> s[j] != c
  {
    if s == [] || s[0] == c then 0 else 1 + IndexOf(s[1..], c)
  }

  lemma IndexOfAppend(a: string, b: string, c: char)
    requires forall j :: 0 <= j < |a| ==> a[j] != c
    requires b == [] || b[0] == c
    ensures IndexOf(a + b, c) == |a|
  {
    assert forall j :: 0 <= j < |a| ==> (a + b)[j] == a[j];
    assert b != [] ==> (a + b)[|a|] == c;
  }

  // ----- the recognizer -----

  /** The optional `https?://`: the scheme is taken whenever it is there, as
      no host of either form can start with one. */
  function StripScheme(s: string): (r: string)
    ensures |r| <= |s| && r == s[|s| - |r|..]
  {
    if StartsWith(s, "https://") then s[8..]
    else if StartsWith(s, "http://") then s[7..]
    else s
  }

  /** `(\.[a-zA-Z]{2,})+` */
  predicate TopLevels(t: string)
    decreases |t|
  {
    && |t| >= 3 && t[0] == '.'
    && var k := 1 + IndexOf(t[1..], '.');
       && k >= 3 && AllLetters(t[1..k])
       && (k == |t| || TopLevels(t[k..]))
  }

  /** `[a-zA-Z0-9-]+(\.[a-zA-Z]{2,})+`: the label runs to the first dot. */
  predicate DomainCore(h: string) {
    var i := IndexOf(h, '.');
    0 < i < |h| && AllLabelChars(h[..i]) && TopLevels(h[i..])
  }

  /** `(www\.)?[a-zA-Z0-9-]+(\.[a-zA-Z]{2,})+` */
  predicate DomainHost(h: string) {
    DomainCore(h) || (StartsWith(h, "www.") && DomainCore(h[4..]))
  }

  /** `localhost(:[0-9]+)?` */
  predicate LocalhostHost(h: string) {
    StartsWith(h, "localhost") &&
    var port := h[9..];
    port == [] || (port[0] == ':' && |port| >= 2 && AllDigits(port[1..]))
  }

  /** `(/.*)?` up to the end of the input. */
  predicate PathPart(p: string) {
    p == [] || (p[0] == '/' && NoLineTerminator(p))
  }

  /** The whole input matches the pattern. Neither host form contains a
      slash, so the host ends at the first slash after the scheme. */
  predicate MatchesPattern(s: string) {
    var rest := StripScheme(s);
    var i := IndexOf(rest, '/');
    (DomainHost(rest[..i]) || LocalhostHost(rest[..i])) && PathPart(rest[i..])
  }

  datatype Violation = NotBlankViolated | SizeViolated | PatternViolated

  /** The messages of the three constraints. */
  function Message(v: Violation): string {
    match v
    case NotBlankViolated => "URL cannot be blank"
    case SizeViolated => "URL cannot exceed 2048 characters"
    case PatternViolated => "Invalid URL format"
  }

  // ----- the grammar of accepted URLs -----

  datatype Scheme = NoScheme | Http | Https
  datatype Host = Domain(www: bool, name: string, topLevels: seq<string>) | Localhost(port: Option<string>)
  /** A URL of the pattern's language; `path` is what follows the first slash. */
  datatype UrlForm = UrlForm(scheme: Scheme, host: Host, path: Option<string>)

  predicate WellFormedHost(h: Host) {
    match h
    case Domain(_, name, tops) =>
      && |name| >= 1 && AllLabelChars(name)
      && |tops| >= 1 && forall j :: 0 <= j < |tops| ==> |tops[j]| >= 2 && AllLetters(tops[j])
    case Localhost(port) => port.Some? ==> |port.value| >= 1 && AllDigits(port.value)
  }

  predicate WellFormed(f: UrlForm) {
    WellFormedHost(f.host) && (f.path.Some? ==> NoLineTerminator(f.path.value))
  }

  function SchemeText(sc: Scheme): string {
    match sc
    case NoScheme => ""
    case Http => "http://"
    case Https => "https://"
  }

  function TopLevelText(tops: seq<string>): string {
    if tops == [] then "" else "." + tops[0] + TopLevelText(tops[1..])
  }

  function HostText(h: Host): string {
    match h
    case Domain(www, name, tops) =>
      if www then "www." + name + TopLevelText(tops) else name + TopLevelText(tops)
    case Localhost(port) => "localhost" + (if port.Some? then ":" + port.value else "")
  }

  function PathText(p: Option<string>): string {
    if p.Some? then "/" + p.value else ""
  }

  function Render(f: UrlForm): string {
    SchemeText(f.scheme) + HostText(f.host) + PathText(f.path)
  }

  // ----- every rendered form is accepted -----

  lemma {:induction false} TopLevelChars(tops: seq<string>)
    requires forall j :: 0 <= j < |tops| ==> AllLetters(tops[j])
    ensures forall i :: 0 <= i < |TopLevelText(tops)| ==>
      TopLevelText(tops)[i] == '.' || IsLetter(TopLevelText(tops)[i])
  {
    if tops != [] {
      TopLevelChars(tops[1..]);
    }
  }

  /** No character of `s` is `c`. */
  predicate Avoids(s: string, c: char) {
    forall i :: 0 <= i < |s| ==> s[i] != c
  }

  lemma AvoidsAppend(a: string, b: string, c: char)
    requires Avoids(a, c) && Avoids(b, c)
    ensures Avoids(a + b, c)
  {
    forall i | 0 <= i < |a + b|
      ensures (a + b)[i] != c
    {
      if i >= |a| {
        assert (a + b)[i] == b[i - |a|];
      }
    }
  }

  /** A well-formed host has no slash, and a domain host no colon either. */
  lemma HostChars(h: Host)
    requires WellFormedHost(h)
    ensures h.Domain? ==> Avoids(HostText(h), ':')
    ensures Avoids(HostText(h), '/')
  {
    if h.Domain? {
      TopLevelChars(h.topLevels);
      var core := h.name + TopLevelText(h.topLevels);
      AvoidsAppend(h.name, TopLevelText(h.topLevels), '/');
      AvoidsAppend(h.name, TopLevelText(h.topLevels), ':');
      if h.www {
        WwwHostText(h.name, h.topLevels);
        AvoidsAppend("www.", core, '/');
        AvoidsAppend("www.", core, ':');
      }
    } else {
      var p: string := if h.port.Some? then ":" + h.port.value else "";
      assert HostText(h) == "localhost" + p;
      assert Avoids(p, '/') by {
        forall i | 0 < i < |p| ensures p[i] != '/' {
          assert p[i] == h.port.value[i - 1];
        }
      }
      AvoidsAppend("localhost", p, '/');
    }
  }

  lemma {:induction false} TopLevelsAccepted(tops: seq<string>)
    requires |tops| >= 1 && forall j :: 0 <= j < |tops| ==> |tops[j]| >= 2 && AllLetters(tops[j])
    ensures TopLevels(TopLevelText(tops))
  {
    var t := TopLevelText(tops);
    var rest := TopLevelText(tops[1..]);
    assert t == "." + tops[0] + rest;
    assert t[1..] == tops[0] + rest;
    IndexOfAppend(tops[0], rest, '.');
    assert t[1..1 + |tops[0]|] == tops[0];
    if |tops| > 1 {
      assert t[1 + |tops[0]|..] == rest;
      TopLevelsAccepted(tops[1..]);
    }
  }

  lemma DomainCoreAccepted(name: string, tops: seq<string>)
    requires WellFormedHost(Domain(false, name, tops))
    ensures DomainCore(name + TopLevelText(tops))
  {
    var h := name + TopLevelText(tops);
    assert TopLevelText(tops)[0] == '.';
    IndexOfAppend(name, TopLevelText(tops), '.');
    assert h[..|name|] == name;
    assert h[|name|..] == TopLevelText(tops);
    TopLevelsAccepted(tops);
  }

  /** `www.` before an accepted domain core gives an accepted domain host. */
  lemma WwwAccepted(core: string)
    requires DomainCore(core)
    ensures DomainHost("www." + core)
  {
    var t := "www." + core;
    assert t[..4] == "www." && t[4..] == core;
  }

  lemma PlainHostText(name: string, tops: seq<string>)
    ensures HostText(Domain(false, name, tops)) == name + TopLevelText(tops)
  {
  }

  lemma WwwHostText(name: string, tops: seq<string>)
    ensures HostText(Domain(true, name, tops)) == "www." + (name + TopLevelText(tops))
  {
  }

  lemma PlainCoreAccepted(name: string, tops: seq<string>)
    requires WellFormedHost(Domain(false, name, tops))
    ensures DomainHost(name + TopLevelText(tops))
  {
    DomainCoreAccepted(name, tops);
  }

  lemma WwwCoreAccepted(name: string, tops: seq<string>)
    requires WellFormedHost(Domain(false, name, tops))
    ensures DomainHost("www." + (name + TopLevelText(tops)))
  {
    DomainCoreAccepted(name, tops);
    WwwAccepted(name + TopLevelText(tops));
  }

  /** A well-formed domain host, with or without `www.`, is accepted. */
  lemma DomainHostAccepted(www: bool, name: string, tops: seq<string>)
    requires WellFormedHost(Domain(www, name, tops))
    ensures DomainHost(HostText(Domain(www, name, tops)))
  {
    if www {
      WwwCoreAccepted(name, tops);
      WwwHostText(name, tops);
    } else {
      PlainCoreAccepted(name, tops);
      PlainHostText(name, tops);
    }
  }

  lemma LocalhostAccepted(port: Option<string>)
    requires WellFormedHost(Localhost(port))
    ensures LocalhostHost(HostText(Localhost(port)))
  {
    var t := HostText(Localhost(port));
    if port.Some? {
      assert t[9..] == ":" + port.value;
      assert (":" + port.value)[1..] == port.value;
    } else {
      assert t[9..] == "";
    }
  }

  /** Every well-formed host is accepted by one of the two host forms. */
  lemma HostAccepted(h: Host)
    requires WellFormedHost(h)
    ensures DomainHost(HostText(h)) || LocalhostHost(HostText(h))
  {
    match h
    case Domain(www, name, tops) => DomainHostAccepted(www, name, tops);
    case Localhost(port) => LocalhostAccepted(port);
  }

  /** An `http://` prefix puts a colon at position 4, an `https://` prefix
      an `s` there and a colon at position 5. */
  lemma SchemeMarks(s: string)
    ensures StartsWith(s, "http://") ==> |s| >= 7 && s[4] == ':'
    ensures StartsWith(s, "https://") ==> |s| >= 8 && s[4] == 's' && s[5] == ':'
  {
    if StartsWith(s, "http://") {
      assert s[4] == s[..7][4];
    }
    if StartsWith(s, "https://") {
      assert s[4] == s[..8][4] && s[5] == s[..8][5];
    }
  }

  /** A domain host has at least four characters and no colon, so after it
      and its path there is no colon at position 4, nor one at position 5
      after an `s`. */
  lemma DomainMarks(h: Host, p: Option<string>)
    requires WellFormedHost(h) && h.Domain?
    ensures var s := HostText(h) + PathText(p);
      (|s| > 4 ==> s[4] != ':') && (|s| > 5 && s[4] == 's' ==> s[5] != ':')
  {
    var host := HostText(h);
    var s := host + PathText(p);
    HostChars(h);
    assert |TopLevelText(h.topLevels)| >= 3;
    if |host| == 4 {
      if |s| > 4 {
        assert s[4] == PathText(p)[0];
      }
    } else {
      assert s[4] == host[4];
      if |host| == 5 {
        if |s| > 5 {
          assert s[5] == PathText(p)[0];
        }
      } else {
        assert s[5] == host[5];
      }
    }
  }

  /** Without a scheme the text cannot start with one: `localhost` has an
      `l` at position 4, and a domain host no colon where a scheme has one. */
  lemma NoSchemeInHost(h: Host, p: Option<string>)
    requires WellFormedHost(h)
    ensures !StartsWith(HostText(h) + PathText(p), "https://")
    ensures !StartsWith(HostText(h) + PathText(p), "http://")
  {
    var s := HostText(h) + PathText(p);
    SchemeMarks(s);
    if h.Localhost? {
      assert HostText(h)[..9] == "localhost";
      assert s[4] == HostText(h)[..9][4];
    } else {
      DomainMarks(h, p);
    }
  }

  lemma PathAccepted(p: Option<string>)
    requires p.Some? ==> NoLineTerminator(p.value)
    ensures PathPart(PathText(p))
  {
    if p.Some? {
      var t := PathText(p);
      forall i | 0 <= i < |t| ensures !IsLineTerminator(t[i]) {
        if i > 0 {
          assert t[i] == p.value[i - 1];
        }
      }
    }
  }

  /** The scheme a rendered form starts with is the one stripped. */
  lemma StripSchemeOf(sc: Scheme, rest: string)
    requires !StartsWith(rest, "https://") && !StartsWith(rest, "http://")
    ensures StripScheme(SchemeText(sc) + rest) == rest
  {
    var s := SchemeText(sc) + rest;
    match sc
    case Https =>
      assert s[..8] == "https://";
    case Http =>
      assert s[..7] == "http://";
      assert s[4] != 's';
    case NoScheme =>
      assert s == rest;
  }

  /** A host without a slash ends at the first slash of the text. */
  lemma SplitAtSlash(host: string, path: string)
    requires Avoids(host, '/')
    requires path == [] || path[0] == '/'
    ensures IndexOf(host + path, '/') == |host|
    ensures (host + path)[..|host|] == host && (host + path)[|host|..] == path
  {
    IndexOfAppend(host, path, '/');
    assert (host + path)[..|host|] == host;
    assert (host + path)[|host|..] == path;
  }

  /** Completeness: the recognizer accepts every well-formed URL. */
  lemma RenderAccepted(f: UrlForm)
    requires WellFormed(f)
    ensures MatchesPattern(Render(f))
  {
    var host, path := HostText(f.host), PathText(f.path);
    assert Render(f) == SchemeText(f.scheme) + (host + path);
    NoSchemeInHost(f.host, f.path);
    StripSchemeOf(f.scheme, host + path);
    HostChars(f.host);
    SplitAtSlash(host, path);
    HostAccepted(f.host);
    PathAccepted(f.path);
  }

  // ----- every accepted string is a rendered form -----

  function ParseTopLevels(t: string): (tops: seq<string>)
    requires TopLevels(t)
    ensures |tops| >= 1 && forall j :: 0 <= j < |tops| ==> |tops[j]| >= 2 && AllLetters(tops[j])
    ensures TopLevelText(tops) == t
    decreases |t|
  {
    var k := 1 + IndexOf(t[1..], '.');
    var rest := if k == |t| then [] else ParseTopLevels(t[k..]);
    TopLevelCons(t, k, rest);
    [t[1..k]] + rest
  }

  /** One label in front of the parsed rest renders as the whole text. */
  lemma TopLevelCons(t: string, k: nat, rest: seq<string>)
    requires 3 <= k <= |t| && t[0] == '.' && AllLetters(t[1..k])
    requires TopLevelText(rest) == t[k..]
    requires forall j :: 0 <= j < |rest| ==> |rest[j]| >= 2 && AllLetters(rest[j])
    ensures forall j :: 0 <= j < |rest| + 1 ==> |([t[1..k]] + rest)[j]| >= 2 && AllLetters(([t[1..k]] + rest)[j])
    ensures TopLevelText([t[1..k]] + rest) == t
  {
    var tops := [t[1..k]] + rest;
    assert tops[1..] == rest;
    assert t == "." + t[1..k] + t[k..];
  }

  function ParseDomainCore(h: string): (r: Host)
    requires DomainCore(h)
    ensures WellFormedHost(r) && r.Domain? && !r.www
    ensures r.name + TopLevelText(r.topLevels) == h && HostText(r) == h
  {
    var i := IndexOf(h, '.');
    assert h == h[..i] + h[i..];
    Domain(false, h[..i], ParseTopLevels(h[i..]))
  }

  lemma PrefixSplit(s: string, prefix: string)
    requires StartsWith(s, prefix)
    ensures s == prefix + s[|prefix|..]
  {
    assert s == s[..|prefix|] + s[|prefix|..];
  }

  function ParseWww(h: string): (r: Host)
    requires StartsWith(h, "www.") && DomainCore(h[4..])
    ensures WellFormedHost(r) && HostText(r) == h
  {
    var core := ParseDomainCore(h[4..]);
    WwwHostText(core.name, core.topLevels);
    PrefixSplit(h, "www.");
    Domain(true, core.name, core.topLevels)
  }

  function ParseLocalhost(h: string): (r: Host)
    requires LocalhostHost(h)
    ensures WellFormedHost(r) && HostText(r) == h
  {
    assert h == "localhost" + h[9..];
    if |h| == 9 then Localhost(None)
    else
      assert h[9..] == ":" + h[10..];
      Localhost(Some(h[10..]))
  }

  function ParseHost(h: string): (r: Host)
    requires DomainHost(h) || LocalhostHost(h)
    ensures WellFormedHost(r) && HostText(r) == h
  {
    if DomainCore(h) then ParseDomainCore(h)
    else if StartsWith(h, "www.") && DomainCore(h[4..]) then ParseWww(h)
    else ParseLocalhost(h)
  }

  function ParseScheme(s: string): (sc: Scheme)
    ensures s == SchemeText(sc) + StripScheme(s)
  {
    if StartsWith(s, "https://") then
      assert s == s[..8] + s[8..];
      Https
    else if StartsWith(s, "http://") then
      assert s == s[..7] + s[7..];
      Http
    else NoScheme
  }

  function ParsePath(p: string): (r: Option<string>)
    requires PathPart(p)
    ensures PathText(r) == p && (r.Some? ==> NoLineTerminator(r.value))
  {
    if p == [] then None
    else
      assert p == "/" + p[1..];
      assert forall j :: 0 <= j < |p| - 1 ==> p[1..][j] == p[j + 1];
      Some(p[1..])
  }

  /** The parts of an accepted string. */
  function Parse(s: string): (f: UrlForm)
    requires MatchesPattern(s)
    ensures WellFormed(f) && Render(f) == s
  {
    var rest := StripScheme(s);
    var i := IndexOf(rest, '/');
    var scheme, host, path := ParseScheme(s), ParseHost(rest[..i]), ParsePath(rest[i..]);
    RenderOfParts(UrlForm(scheme, host, path), s, rest, i);
    UrlForm(scheme, host, path)
  }

  /** A form renders a text made of its scheme and then its host and path. */
  lemma RenderOfParts(f: UrlForm, s: string, rest: string, i: nat)
    requires i <= |rest| && s == SchemeText(f.scheme) + rest
    requires HostText(f.host) == rest[..i] && PathText(f.path) == rest[i..]
    ensures Render(f) == s
  {
    assert rest == rest[..i] + rest[i..];
  }

  /** The strings the grammar builds. */
  ghost predicate InLanguage(s: string) {
    exists f :: WellFormed(f) && Render(f) == s
  }

  /** The recognizer accepts exactly the strings of the grammar. */
  lemma PatternLanguage(s: string)
    ensures MatchesPattern(s) <==> InLanguage(s)
  {
    if MatchesPattern(s) {
      var f := Parse(s);
    }
    if InLanguage(s) {
      var f :| WellFormed(f) && Render(f) == s;
      RenderAccepted(f);
    }
  }

  /** The set of the constraints flagged as violated. */
  function Collect(blank: bool, tooLong: bool, malformed: bool): (r: set<Violation>)
    ensures NotBlankViolated in r <==> blank
    ensures SizeViolated in r <==> tooLong
    ensures PatternViolated in r <==> malformed
  {
    (if blank then {NotBlankViolated} else {})
      + (if tooLong then {SizeViolated} else {})
      + (if malformed then {PatternViolated} else {})
  }

  /** The Pattern constraint holds: the recognizer's verdict, which is membership in
      the grammar. */
  function Matches(url: string): (b: bool)
    ensures b <==> InLanguage(url)
  {
    PatternLanguage(url);
    MatchesPattern(url)
  }

  /** The constraints `url` violates; the request is valid when there is
      none. Each constraint is checked on its own, as Bean Validation does. */
  function Violations(url: string): (r: set<Violation>)
    ensures NotBlankViolated in r <==> forall i :: 0 <= i < |url| ==> IsTrimmable(url[i])
    ensures SizeViolated in r <==> |url| > MaxUrlLength
    ensures PatternViolated in r <==> !InLanguage(url)
  {
    Collect(IsBlank(url), |url| > MaxUrlLength, !Matches(url))
  }

  /** Every host starts with a character `trim` keeps. */
  lemma HostStart(h: Host)
    requires WellFormedHost(h)
    ensures |HostText(h)| > 0 && !IsTrimmable(HostText(h)[0])
  {
    if h.Domain? && !h.www {
      assert HostText(h)[0] == h.name[0];
    }
  }

  /** A rendered form holds a character `trim` keeps: the first one of its
      host. */
  lemma RenderNotBlank(f: UrlForm)
    requires WellFormed(f)
    ensures !IsBlank(Render(f))
  {
    var k := |SchemeText(f.scheme)|;
    HostStart(f.host);
    assert Render(f)[k] == HostText(f.host)[0];
  }

  /** A string the pattern accepts is not blank. */
  lemma MatchedNotBlank(s: string)
    ensures MatchesPattern(s) ==> !IsBlank(s)
  {
    if MatchesPattern(s) {
      RenderNotBlank(Parse(s));
    }
  }

  /** A blank string fails the pattern as well as the NotBlank constraint. */
  lemma BlankFailsPattern(url: string)
    requires IsBlank(url)
    ensures {NotBlankViolated, PatternViolated} <= Violations(url)
  {
    MatchedNotBlank(url);
  }
}
