/**
 * BrowserDetector.cs: the table of browser rules, the analysis of one window title into a `BrowserInfo`, the
 * sweep over the process list, and the choice of the active browser.
 */
module Detector {
  import opened Wrappers
  import opened Text
  import opened Info
  import opened UrlMatch

  /** `BrowserConfig`: one rule of the table. */
  datatype BrowserConfig = BrowserConfig(
    name: string,
    processNames: seq<string>,
    normalTitles: seq<string>,
    incognitoTitles: seq<string>,
    privateTitles: seq<string>,
    iconKey: string,
    isChromeBased: bool)

  /** The values `BrowserConfig`'s property initialisers give a rule that does not set them. */
  const DefaultConfig := BrowserConfig("Unknown Browser", [], [], [], [], "browser", false)

  const Chrome := DefaultConfig.(
    name := "Google Chrome", processNames := ["chrome"], normalTitles := [" - Google Chrome"],
    incognitoTitles := ["Incognito", "Guest"], iconKey := "chrome", isChromeBased := true)
  const Edge := DefaultConfig.(
    name := "Microsoft Edge", processNames := ["msedge"], normalTitles := [" - Microsoft Edge"],
    incognitoTitles := ["InPrivate", "InPrivate Browsing"], iconKey := "edge", isChromeBased := true)
  const Firefox := DefaultConfig.(
    name := "Mozilla Firefox", processNames := ["firefox"], normalTitles := [" - Mozilla Firefox"],
    privateTitles := ["Private Browsing"], iconKey := "firefox", isChromeBased := false)
  const Opera := DefaultConfig.(
    name := "Opera", processNames := ["opera"], normalTitles := [" - Opera"],
    privateTitles := ["Private Mode"], iconKey := "opera", isChromeBased := true)
  const Brave := DefaultConfig.(
    name := "Brave", processNames := ["brave"], normalTitles := [" - Brave"],
    privateTitles := ["Private Window"], iconKey := "brave", isChromeBased := true)
  const Vivaldi := DefaultConfig.(
    name := "Vivaldi", processNames := ["vivaldi"], normalTitles := [" - Vivaldi"],
    privateTitles := ["Private Window"], iconKey := "vivaldi", isChromeBased := true)

  /** `_browserConfigs`, in the order a `Dictionary` that is only ever added to enumerates it. */
  const BrowserConfigs: seq<(string, BrowserConfig)> := [
    ("chrome", Chrome), ("msedge", Edge), ("firefox", Firefox),
    ("opera", Opera), ("brave", Brave), ("vivaldi", Vivaldi)]

  /** `_browserConfigs.Values`. */
  function Values(table: seq<(string, BrowserConfig)>): seq<BrowserConfig> {
    seq(|table|, i requires 0 <= i < |table| => table[i].1)
  }

  /** What the detector needs of a rule: every title marker is non-empty (`Replace` refuses an empty one). */
  predicate WellFormed(c: BrowserConfig) {
    NonEmptyMarkers(c.normalTitles) && NonEmptyMarkers(c.incognitoTitles) && NonEmptyMarkers(c.privateTitles)
  }

  /**
   * Process-name tokens are non-empty and lower case: they are looked for in a lower-cased process name, so
   * a token with an upper-case letter would never be found.
   */
  predicate LowerCaseTokens(c: BrowserConfig) {
    forall i | 0 <= i < |c.processNames| :: c.processNames[i] != [] && IsLowerCase(c.processNames[i])
  }

  predicate NonEmptyMarkers(markers: seq<string>) {
    forall i | 0 <= i < |markers| :: markers[i] != []
  }

  /** A rule is well formed, has lower-case tokens, and never declares both kinds of markers. */
  predicate Sound(c: BrowserConfig) {
    WellFormed(c) && LowerCaseTokens(c) && (c.incognitoTitles == [] || c.privateTitles == [])
  }

  lemma ChromeSound() ensures Sound(Chrome) {}
  lemma EdgeSound() ensures Sound(Edge) {}
  lemma FirefoxSound() ensures Sound(Firefox) {}
  lemma OperaSound() ensures Sound(Opera) {}
  lemma BraveSound() ensures Sound(Brave) {}
  lemma VivaldiSound() ensures Sound(Vivaldi) {}

  /** Every rule of the table is sound. */
  lemma BrowserConfigsWellFormed()
    ensures var cs := Values(BrowserConfigs); forall i | 0 <= i < |cs| :: Sound(cs[i])
  {
    ChromeSound();
    EdgeSound();
    FirefoxSound();
    OperaSound();
    BraveSound();
    VivaldiSound();
    var cs := Values(BrowserConfigs);
    assert cs == [Chrome, Edge, Firefox, Opera, Brave, Vivaldi];
  }

  /**
   * One entry of `Process.GetProcesses()` as the detector sees it: its name, the title of its main window,
   * whether `AnalyzeBrowserWindow` raises an exception on it (inside the sweep's `try`), and the clock reading
   * (`DateTime.Now`) its analysis takes.
   */
  datatype ProcessEntry = ProcessEntry(processName: string, mainWindowTitle: string, inspectionFails: bool, clock: nat)

  // ---------------------------------------------------------------------------------------------------------
  // Analysing one window (AnalyzeBrowserWindow)

  /** The privacy flags and window type of a window title. */
  datatype WindowKind = WindowKind(isIncognito: bool, isPrivate: bool, windowType: string)

  function Classify(title: string, config: BrowserConfig): WindowKind {
    if ContainsAny(title, config.incognitoTitles) then WindowKind(true, false, "incognito")
    else if ContainsAny(title, config.privateTitles) then WindowKind(false, true, "private")
    else WindowKind(false, false, "normal")
  }

  /** The title after `Replace(m, "")` for each marker of `markers`, in order. */
  function StripAll(s: string, markers: seq<string>): string
    requires NonEmptyMarkers(markers)
    decreases |markers|
  {
    if markers == [] then s
    else DeleteAll(StripAll(s, markers[..|markers| - 1]), markers[|markers| - 1])
  }

  lemma {:induction false} StripAllIsSubsequence(s: string, markers: seq<string>)
    requires NonEmptyMarkers(markers)
    ensures IsSubsequence(StripAll(s, markers), s)
    decreases |markers|
  {
    if markers == [] {
      SliceIsSubsequence(s, 0, |s|);
      assert s[0..|s|] == s;
    } else {
      var rest := StripAll(s, markers[..|markers| - 1]);
      StripAllIsSubsequence(s, markers[..|markers| - 1]);
      DeleteAllIsSubsequence(rest, markers[|markers| - 1]);
      SubsequenceTransitive(StripAll(s, markers), rest, s);
    }
  }

  /** Markers that do not occur in the title leave it unchanged. */
  lemma {:induction false} StripAllAbsent(s: string, markers: seq<string>)
    requires NonEmptyMarkers(markers) && forall i | 0 <= i < |markers| :: !Contains(s, markers[i])
    ensures StripAll(s, markers) == s
    decreases |markers|
  {
    if markers != [] {
      StripAllAbsent(s, markers[..|markers| - 1]);
      DeleteAllAbsent(s, markers[|markers| - 1]);
    }
  }

  /**
   * The tab title: suffixes, then incognito markers, then private markers deleted, then trimmed, with
   * "New Tab" for what is left empty. It only ever deletes characters from the window title.
   */
  function CleanTitle(title: string, config: BrowserConfig): (r: string)
    requires WellFormed(config)
    ensures r != []
    ensures r == NewTab || (IsSubsequence(r, title) && |r| <= |title|)
  {
    var s1 := StripAll(title, config.normalTitles);
    var s2 := StripAll(s1, config.incognitoTitles);
    var s3 := StripAll(s2, config.privateTitles);
    var t := Trim(s3);
    StripAllIsSubsequence(title, config.normalTitles);
    StripAllIsSubsequence(s1, config.incognitoTitles);
    StripAllIsSubsequence(s2, config.privateTitles);
    TrimIsSubsequence(s3);
    SubsequenceTransitive(s2, s1, title);
    SubsequenceTransitive(s3, s2, title);
    SubsequenceTransitive(t, s3, title);
    SubsequenceLength(t, title);
    if t == [] then NewTab else t
  }

  /** The first match of the URL patterns, tried in order, or the empty string. */
  function FirstUrl(patterns: seq<UrlPattern>, title: string): string {
    if patterns == [] then ""
    else match Match(patterns[0], title)
      case Some(v) => v
      case None => FirstUrl(patterns[1..], title)
  }

  /** What `ExtractUrlFromTitle` returns for a window title. */
  function UrlOf(title: string): string {
    FirstUrl(UrlPatterns, title)
  }

  /** What `AnalyzeBrowserWindow` builds for a window title inspected at clock reading `now`. */
  function Analysis(title: string, config: BrowserConfig, now: nat): BrowserInfo
    requires WellFormed(config)
  {
    var kind := Classify(title, config);
    BrowserInfo(Some(config.name), Some(CleanTitle(title, config)), Some(UrlOf(title)), Some(config.iconKey),
      kind.isIncognito, kind.isPrivate, Some(kind.windowType), now)
  }

  /** `ExtractUrlFromTitle`: the patterns are tried in order and the first match is returned. */
  method ExtractUrlFromTitle(windowTitle: string) returns (url: string)
    ensures url == UrlOf(windowTitle)
  {
    var urlPatterns := UrlPatterns;
    for i := 0 to |urlPatterns|
      invariant FirstUrl(urlPatterns[i..], windowTitle) == UrlOf(windowTitle)
    {
      var m := Match(urlPatterns[i], windowTitle);
      if m.Some? {
        return m.value;
      }
      assert urlPatterns[i..][1..] == urlPatterns[i + 1..];
    }
    return "";
  }

  /**
   * `AnalyzeBrowserWindow`: classifies the window, cleans its title marker list by marker list, and extracts
   * a URL. A process on which the analysis raises gives `None` here, which is what the caller's `catch` sees.
   */
  method AnalyzeBrowserWindow(process: ProcessEntry, config: BrowserConfig) returns (info: Option<BrowserInfo>)
    requires WellFormed(config)
    ensures info == if process.inspectionFails then None
                    else Some(Analysis(process.mainWindowTitle, config, process.clock))
  {
    if process.inspectionFails {
      return None;
    }
    var windowTitle := process.mainWindowTitle;

    var isIncognito := false;
    var isPrivate := false;
    var windowType := "normal";
    if ContainsAny(windowTitle, config.incognitoTitles) {
      isIncognito := true;
      windowType := "incognito";
    } else if ContainsAny(windowTitle, config.privateTitles) {
      isPrivate := true;
      windowType := "private";
    }

    var tabTitle := windowTitle;
    for i := 0 to |config.normalTitles|
      invariant tabTitle == StripAll(windowTitle, config.normalTitles[..i])
    {
      assert config.normalTitles[..i + 1][..i] == config.normalTitles[..i];
      tabTitle := DeleteAll(tabTitle, config.normalTitles[i]);
    }
    assert config.normalTitles[..|config.normalTitles|] == config.normalTitles;
    ghost var afterSuffixes := tabTitle;

    for i := 0 to |config.incognitoTitles|
      invariant tabTitle == StripAll(afterSuffixes, config.incognitoTitles[..i])
    {
      assert config.incognitoTitles[..i + 1][..i] == config.incognitoTitles[..i];
      tabTitle := DeleteAll(tabTitle, config.incognitoTitles[i]);
    }
    assert config.incognitoTitles[..|config.incognitoTitles|] == config.incognitoTitles;
    ghost var afterIncognito := tabTitle;

    for i := 0 to |config.privateTitles|
      invariant tabTitle == StripAll(afterIncognito, config.privateTitles[..i])
    {
      assert config.privateTitles[..i + 1][..i] == config.privateTitles[..i];
      tabTitle := DeleteAll(tabTitle, config.privateTitles[i]);
    }
    assert config.privateTitles[..|config.privateTitles|] == config.privateTitles;

    tabTitle := Trim(tabTitle);
    if tabTitle == [] {
      tabTitle := NewTab;
    }

    var url := ExtractUrlFromTitle(windowTitle);

    info := Some(BrowserInfo(Some(config.name), Some(tabTitle), Some(url), Some(config.iconKey),
      isIncognito, isPrivate, Some(windowType), process.clock));
  }

  // ---------------------------------------------------------------------------------------------------------
  // What the analysis promises

  /**
   * Incognito markers are tested before private markers: a window is never both, an incognito marker wins
   * over a private one, and the window type is "normal" exactly when neither flag is set.
   */
  lemma AnalysisPrivacy(title: string, config: BrowserConfig, now: nat)
    requires WellFormed(config)
    ensures var b := Analysis(title, config, now);
      && !(b.isIncognito && b.isPrivate)
      && (b.windowType == Some("normal") <==> !b.isIncognito && !b.isPrivate)
      && (b.isIncognito <==> ContainsAny(title, config.incognitoTitles))
      && (b.isIncognito ==> b.windowType == Some("incognito"))
      && (b.isPrivate <==> !ContainsAny(title, config.incognitoTitles) && ContainsAny(title, config.privateTitles))
      && (b.isPrivate ==> b.windowType == Some("private"))
  {
  }

  /**
   * Edge's second incognito marker, "InPrivate Browsing", begins with its first, "InPrivate": a title holds
   * one of them exactly when it holds "InPrivate", so the longer marker never decides the classification.
   */
  lemma EdgeLongMarkerRedundant(title: string)
    ensures ContainsAny(title, Edge.incognitoTitles) <==> Contains(title, "InPrivate")
  {
    var long := "InPrivate Browsing";
    if Contains(title, long) {
      var i :| 0 <= i <= |title| - |long| && OccursAt(title, long, i);
      assert title[i..i + 9] == title[i..i + |long|][..9];
      assert OccursAt(title, "InPrivate", i);
    }
    assert Edge.incognitoTitles == ["InPrivate", long];
    if ContainsAny(title, Edge.incognitoTitles) {
      var m :| m in Edge.incognitoTitles && Contains(title, m);
      assert m == "InPrivate" || m == long;
    }
  }

  /**
   * A rule with one normal suffix that cannot overlap itself: a trimmed, non-empty base that holds neither
   * the suffix nor any marker of the rule, followed by the suffix, is analysed back to that base, as a
   * normal window.
   */
  lemma {:induction false} SuffixStripped(base: string, config: BrowserConfig, now: nat)
    requires WellFormed(config) && |config.normalTitles| == 1 && NoBorder(config.normalTitles[0])
    requires base != [] && !IsWhiteSpace(base[0]) && !IsWhiteSpace(base[|base| - 1])
    requires !Contains(base, config.normalTitles[0])
    requires forall i | 0 <= i < |config.incognitoTitles| :: !Contains(base, config.incognitoTitles[i])
    requires forall i | 0 <= i < |config.privateTitles| :: !Contains(base, config.privateTitles[i])
    requires forall i | 0 <= i < |config.incognitoTitles| :: !Contains(base + config.normalTitles[0], config.incognitoTitles[i])
    requires forall i | 0 <= i < |config.privateTitles| :: !Contains(base + config.normalTitles[0], config.privateTitles[i])
    ensures var b := Analysis(base + config.normalTitles[0], config, now);
      b.tabTitle == Some(base) && b.windowType == Some("normal") && !b.isIncognito && !b.isPrivate
  {
    var suffix := config.normalTitles[0];
    var title := base + suffix;
    NoOccurrenceStraddles(base, suffix);
    DeleteAllKeepsPrefix(base, suffix, suffix);
    DeleteAllSelf(suffix);
    assert config.normalTitles[..0] == [];
    assert StripAll(title, config.normalTitles) == base;
    StripAllAbsent(base, config.incognitoTitles);
    StripAllAbsent(base, config.privateTitles);
    assert !ContainsAny(title, config.incognitoTitles) by {
      forall m | m in config.incognitoTitles ensures !Contains(title, m) {
        var i :| 0 <= i < |config.incognitoTitles| && config.incognitoTitles[i] == m;
      }
    }
    assert !ContainsAny(title, config.privateTitles) by {
      forall m | m in config.privateTitles ensures !Contains(title, m) {
        var i :| 0 <= i < |config.privateTitles| && config.privateTitles[i] == m;
      }
    }
  }

  /**
   * Chrome: "GitHub - Google Chrome" and every title built like it, from a trimmed base without
   * "Incognito", "Guest" or " - Google Chrome" in it, is analysed to that base as a normal window.
   */
  lemma ChromeTitleStripped(base: string, now: nat)
    requires base != [] && !IsWhiteSpace(base[0]) && !IsWhiteSpace(base[|base| - 1])
    requires !Contains(base, "Incognito") && !Contains(base, "Guest") && !Contains(base, " - Google Chrome")
    ensures var b := Analysis(base + " - Google Chrome", Chrome, now);
      b.tabTitle == Some(base) && b.windowType == Some("normal") && !b.isIncognito && !b.isPrivate
  {
    var suffix := " - Google Chrome";
    NoBorderByFirstPair(suffix);
    CharAbsent(suffix, "Incognito", 0);
    assert forall i | 0 <= i < |suffix| - 1 :: suffix[i] != 'G' || suffix[i + 1] != 'u';
    FirstPairAbsent(suffix, "Guest");
    assert forall t | 0 <= t < 9 :: "Incognito"[t] != ' ';
    assert forall t | 0 <= t < 5 :: "Guest"[t] != ' ';
    NotContainedInConcat(base, suffix, "Incognito");
    NotContainedInConcat(base, suffix, "Guest");
    SuffixStripped(base, Chrome, now);
  }

  /** The patterns are tried in order: the URL is the first match, or empty. */
  lemma UrlOfCases(title: string)
    ensures UrlOf(title) ==
      if Match(Absolute, title).Some? then Match(Absolute, title).value
      else if Match(WwwHost, title).Some? then Match(WwwHost, title).value
      else if Match(HostPath, title).Some? then Match(HostPath, title).value
      else ""
  {
    var ps := UrlPatterns;
    assert ps[0] == Absolute && ps[1..] == [WwwHost, HostPath];
    assert ps[1..][0] == WwwHost && ps[1..][1..] == [HostPath];
    assert ps[1..][1..][0] == HostPath && ps[1..][1..][1..] == [];
    if Match(Absolute, title).None? {
      assert FirstUrl(ps, title) == FirstUrl(ps[1..], title);
      if Match(WwwHost, title).None? {
        assert FirstUrl(ps[1..], title) == FirstUrl(ps[1..][1..], title);
        if Match(HostPath, title).None? {
          assert FirstUrl(ps[1..][1..], title) == FirstUrl(ps[1..][1..][1..], title) == "";
        }
      }
    }
  }

  /** The URL is empty or a non-empty substring of the window title without white space. */
  lemma UrlIsSubstring(title: string)
    ensures var url := UrlOf(title);
      url == [] || (Contains(title, url) && forall k | 0 <= k < |url| :: !IsWhiteSpace(url[k]))
  {
    UrlOfCases(title);
    if Match(Absolute, title).Some? {
      MatchIsRun(Absolute, title);
    } else if Match(WwwHost, title).Some? {
      MatchIsRun(WwwHost, title);
    } else if Match(HostPath, title).Some? {
      MatchIsRun(HostPath, title);
    }
  }

  /**
   * A title holding "http://" or "https://" followed by a non-space character gives as URL the run of
   * non-space characters that starts at the first such place.
   */
  lemma UrlFromFirstHttp(title: string, i: nat)
    requires i <= |title| && HttpAt(title, i)
    requires forall j | 0 <= j < i :: !HttpAt(title, j)
    ensures UrlOf(title) == title[i..RunEnd(title, i)]
  {
    var r := FirstMatchFrom(Absolute, title, 0);
    assert MatchesAt(Absolute, title, i);
    assert r.Some?;
    assert HttpAt(title, r.value);
  }

  /** An absolute URL holds a colon. */
  lemma HttpHasColon(s: string, i: nat)
    ensures HttpAt(s, i) ==> ':' in s
  {
    if OccursAt(s, "https://", i) {
      assert s[i..i + 8][5] == s[i + 5];
    } else if OccursAt(s, "http://", i) {
      assert s[i..i + 7][4] == s[i + 4];
    }
  }

  /** Every pattern needs a dot or a colon, so a title with neither has no URL. */
  lemma NoUrlWithoutDotOrColon(title: string)
    requires '.' !in title && ':' !in title
    ensures UrlOf(title) == ""
  {
    UrlOfCases(title);
    forall p, i | 0 <= i <= |title| ensures !MatchesAt(p, title, i) {
      HttpHasColon(title, i);
    }
  }

  /**
   * Firefox's rule on a trimmed title without "Private Browsing" or the suffix, followed by the suffix: the
   * tab title is the title without the suffix ("PayPal - Mozilla Firefox" gives "PayPal"), and the window
   * is normal.
   */
  lemma FirefoxTitleStripped(base: string, now: nat)
    requires base != [] && !IsWhiteSpace(base[0]) && !IsWhiteSpace(base[|base| - 1])
    requires !Contains(base, "Private Browsing") && !Contains(base, " - Mozilla Firefox")
    ensures var b := Analysis(base + " - Mozilla Firefox", Firefox, now);
      b.tabTitle == Some(base) && b.windowType == Some("normal") && !b.isIncognito && !b.isPrivate
  {
    var suffix := " - Mozilla Firefox";
    var marker := "Private Browsing";
    NoBorderByFirstPair(suffix);
    CharAbsent(suffix, marker, 0);
    assert forall t | 0 <= t < |marker| :: marker[t] != suffix[1];
    NotContainedBeforeSuffix(base, suffix, marker);
    SuffixStripped(base, Firefox, now);
  }

  /**
   * Under Firefox's rule, "Visit https://example.com/page - Mozilla Firefox" has tab title
   * "Visit https://example.com/page": cleaning deletes the suffix and leaves the URL in the tab title.
   */
  lemma FirefoxTitleKeepsUrl(base: string, now: nat)
    requires base == "Visit https://example.com/page"
    ensures var b := Analysis(base + " - Mozilla Firefox", Firefox, now);
      b.tabTitle == Some(base) && b.windowType == Some("normal")
  {
    assert '-' !in base && 'P' !in base;
    CharAbsent(base, " - Mozilla Firefox", 1);
    CharAbsent(base, "Private Browsing", 0);
    FirefoxTitleStripped(base, now);
  }

  /**
   * A title made of plain text without an 'h', an absolute URL, and text that starts with a space: the URL
   * extracted is exactly that URL. "Visit https://example.com/page - Mozilla Firefox" is one such title.
   */
  lemma UrlAfterPlainText(text: string, url: string, rest: string)
    requires 'h' !in text
    requires |url| > 8 && url[..8] == "https://" && forall k | 0 <= k < |url| :: !IsWhiteSpace(url[k])
    requires rest == [] || IsWhiteSpace(rest[0])
    ensures UrlOf(text + url + rest) == url
  {
    var title := text + url + rest;
    var i := |text|;
    assert title[i..i + 8] == url[..8];
    assert title[i + 8] == url[8];
    assert HttpAt(title, i);
    forall j | 0 <= j < i ensures !HttpAt(title, j) {
      assert title[j] == text[j];
      NotHttpAt(title, j);
    }
    forall k | i <= k < i + |url| ensures !IsWhiteSpace(title[k]) {
      assert title[k] == url[k - i];
    }
    RunEndAt(title, i, i + |url|);
    UrlFromFirstHttp(title, i);
    assert title[i..i + |url|] == url;
  }

  /** The URL of "Visit https://example.com/page - Mozilla Firefox" is "https://example.com/page". */
  lemma FirefoxUrl(text: string, url: string, suffix: string)
    requires text == "Visit " && url == "https://example.com/page" && suffix == " - Mozilla Firefox"
    ensures UrlOf(text + url + suffix) == url
  {
    assert 'h' !in text && url[..8] == "https://";
    UrlAfterPlainText(text, url, suffix);
  }

  /** The cleaning steps of Chrome's rule on a title "x Incognito y" where x and y hold no 'I', hyphen or 'u'. */
  lemma ChromeIncognitoStripped(x: string, y: string)
    requires 'I' !in x && 'I' !in y && '-' !in x && '-' !in y && 'u' !in x && 'u' !in y
    ensures StripAll(x + "Incognito" + y, Chrome.normalTitles) == x + "Incognito" + y
    ensures StripAll(x + "Incognito" + y, Chrome.incognitoTitles) == x + y
  {
    var title := x + "Incognito" + y;
    assert '-' !in title;
    CharAbsent(title, " - Google Chrome", 1);
    DeleteAllAbsent(title, " - Google Chrome");
    assert Chrome.normalTitles[..0] == [];
    DeleteBetween(x, "Incognito", y);
    assert Chrome.incognitoTitles[..1][..0] == [] && Chrome.incognitoTitles[..2][..1] == ["Incognito"];
    CharAbsent(x + y, "Guest", 1);
    DeleteAllAbsent(x + y, "Guest");
    assert Chrome.incognitoTitles[..2] == Chrome.incognitoTitles;
  }

  /**
   * A Chrome title made of a marker "Incognito" between two pieces, neither of which holds an 'I', a hyphen
   * or a 'u': the window is incognito and only the marker is deleted from the tab title. The suffix
   * " - Google Chrome" is not there to delete, since it needs a hyphen.
   */
  lemma ChromeIncognitoMarkerDeleted(x: string, y: string, now: nat)
    requires 'I' !in x && 'I' !in y && '-' !in x && '-' !in y && 'u' !in x && 'u' !in y
    requires x != [] && !IsWhiteSpace(x[0]) && y != [] && !IsWhiteSpace(y[|y| - 1])
    ensures var b := Analysis(x + "Incognito" + y, Chrome, now);
      && b.isIncognito && !b.isPrivate && b.windowType == Some("incognito")
      && b.tabTitle == Some(x + y)
  {
    var title := x + "Incognito" + y;
    assert OccursAt(title, "Incognito", |x|) by {
      assert title[|x|..|x| + 9] == "Incognito";
    }
    ChromeIncognitoStripped(x, y);
    assert Chrome.privateTitles == [] && StripAll(x + y, []) == x + y;
    assert (x + y)[0] == x[0] && (x + y)[|x + y| - 1] == y[|y| - 1];
    TabTitleOf(title, Chrome, now, x + y);
    assert Contains(title, Chrome.incognitoTitles[0]);
  }

  /**
   * A Chrome title written with em dashes, "Example Site — Incognito — Google Chrome": the window is
   * incognito, the marker is deleted, and " — Google Chrome" stays in the tab title, since Chrome's suffix
   * is written with a hyphen.
   */
  lemma ChromeEmDashIncognito(x: string, y: string, now: nat)
    requires x == "Example Site — " && y == " — Google Chrome"
    ensures var b := Analysis(x + "Incognito" + y, Chrome, now);
      b.isIncognito && b.windowType == Some("incognito") && b.tabTitle == Some(x + y)
  {
    ChromeIncognitoMarkerDeleted(x, y, now);
  }

  /**
   * `Replace` works in one pass, so deleting a marker can join two pieces into a new occurrence of it:
   * the markers are not guaranteed to be absent from the tab title. Chrome's window "IncogIncognitonito"
   * is incognito and its tab title is "Incognito".
   */
  lemma MarkerCanSurviveCleaning(now: nat)
    ensures DeleteAll("IncogIncognitonito", "Incognito") == "Incognito"
    ensures var b := Analysis("IncogIncognitonito", Chrome, now);
      b.tabTitle == Some("Incognito") && b.isIncognito
  {
    OneReplaceLeavesMarker();
    SurvivingMarkerOccurs();
    SurvivingMarkerChars();
    ChromeMarkerLeft("IncogIncognitonito", "Incognito", now);
  }

  /** "IncogIncognitonito" holds the marker "Incognito", at position 5. */
  lemma SurvivingMarkerOccurs()
    ensures Contains("IncogIncognitonito", "Incognito")
  {
    var s := "IncogIncognitonito";
    assert s[5..14] == "Incognito";
    assert OccursAt(s, "Incognito", 5);
  }

  /** The characters `ChromeMarkerLeft` asks about are absent or are not white space. */
  lemma SurvivingMarkerChars()
    ensures '-' !in "IncogIncognitonito" && 'G' !in "Incognito"
    ensures !IsWhiteSpace('I') && !IsWhiteSpace('o')
  {
  }

  /**
   * A Chrome title without a hyphen whose single `Replace` of "Incognito" leaves a trimmed `u` without a
   * 'G' and which holds the marker: the window is incognito and its tab title is `u`.
   */
  lemma ChromeMarkerLeft(title: string, u: string, now: nat)
    requires '-' !in title && Contains(title, "Incognito") && DeleteAll(title, "Incognito") == u
    requires u != [] && 'G' !in u && !IsWhiteSpace(u[0]) && !IsWhiteSpace(u[|u| - 1])
    ensures var b := Analysis(title, Chrome, now);
      b.tabTitle == Some(u) && b.isIncognito
  {
    ChromeMarkerStrips(title, u);
    assert Chrome.privateTitles == [] && StripAll(u, []) == u;
    TabTitleOf(title, Chrome, now, u);
    assert Contains(title, Chrome.incognitoTitles[0]);
  }

  /** The first two passes of Chrome's rule on such a title: no suffix to delete, then one `Replace` that leaves `u`. */
  lemma ChromeMarkerStrips(title: string, u: string)
    requires '-' !in title && DeleteAll(title, "Incognito") == u && 'G' !in u
    ensures StripAll(title, Chrome.normalTitles) == title && StripAll(title, Chrome.incognitoTitles) == u
  {
    var normal, incognito := Chrome.normalTitles, Chrome.incognitoTitles;
    assert normal == [" - Google Chrome"] && incognito == ["Incognito", "Guest"];
    CharAbsent(title, " - Google Chrome", 1);
    DeleteAllAbsent(title, " - Google Chrome");
    assert normal[..0] == [];
    CharAbsent(u, "Guest", 0);
    DeleteAllAbsent(u, "Guest");
    assert incognito[..1][..0] == [] && incognito[..2][..1] == ["Incognito"] && incognito[..2] == incognito;
  }

  /** When the three passes of deletion leave a non-empty trimmed `u`, `u` is the tab title. */
  lemma TabTitleOf(title: string, config: BrowserConfig, now: nat, u: string)
    requires WellFormed(config) && u != [] && !IsWhiteSpace(u[0]) && !IsWhiteSpace(u[|u| - 1])
    requires StripAll(StripAll(StripAll(title, config.normalTitles), config.incognitoTitles), config.privateTitles) == u
    ensures Analysis(title, config, now).tabTitle == Some(u)
  {
  }

  /** The single `Replace` of "Incognito" in "IncogIncognitonito" leaves "Incognito". */
  lemma OneReplaceLeavesMarker()
    ensures DeleteAll("IncogIncognitonito", "Incognito") == "Incognito"
  {
    var s, x, m, y := "IncogIncognitonito", "Incog", "Incognito", "nito";
    assert s == x + (m + y);
    NoMarkerBefore(s);
    DeleteAllJoins(x, m, y);
    assert x + y == m;
  }

  /** "Incognito" starts nowhere in "IncogIncognitonito" before position 5. */
  lemma NoMarkerBefore(s: string)
    requires s == "IncogIncognitonito"
    ensures forall i | 0 <= i < 5 :: !OccursAt(s, "Incognito", i)
  {
    forall i | 0 <= i < 5 ensures !OccursAt(s, "Incognito", i) {
      if i == 0 {
        assert s[0..9][5] != "Incognito"[5];
      } else {
        assert s[i..i + 9][0] != 'I';
      }
    }
  }

  lemma {:induction false} RunEndAt(s: string, i: nat, j: nat)
    requires i <= j <= |s|
    requires forall k | i <= k < j :: !IsWhiteSpace(s[k])
    requires j == |s| || IsWhiteSpace(s[j])
    ensures RunEnd(s, i) == j
    decreases j - i
  {
    if i < j {
      RunEndAt(s, i + 1, j);
    }
  }

  // ---------------------------------------------------------------------------------------------------------
  // The sweep over the process list (GetActiveBrowsers)

  /**
   * The two `Where` filters: the lower-cased process name contains the rule's token and the main window
   * has a title whose .NET `Length`, counted in UTF-16 code units, is more than one.
   */
  predicate IsCandidate(p: ProcessEntry, token: string) {
    Contains(AsciiLower(p.processName), token) && Utf16Length(p.mainWindowTitle) > 1
  }

  /** The processes that pass both filters for `token`, in their order in the snapshot. */
  function Candidates(processes: seq<ProcessEntry>, token: string): (r: seq<ProcessEntry>)
    ensures |r| <= |processes|
    ensures forall p :: p in r <==> p in processes && IsCandidate(p, token)
  {
    if processes == [] then []
    else
      var last := processes[|processes| - 1];
      assert processes == processes[..|processes| - 1] + [last];
      Candidates(processes[..|processes| - 1], token) + (if IsCandidate(last, token) then [last] else [])
  }

  /** The processes whose analysis does not raise, in order: the others are skipped by `catch { continue; }`. */
  function Inspectable(processes: seq<ProcessEntry>): (r: seq<ProcessEntry>)
    ensures forall p :: p in r <==> p in processes && !p.inspectionFails
  {
    if processes == [] then []
    else
      var last := processes[|processes| - 1];
      assert processes == processes[..|processes| - 1] + [last];
      Inspectable(processes[..|processes| - 1]) + (if last.inspectionFails then [] else [last])
  }

  /** The processes one rule analyses: for each of its tokens in turn, the candidates that can be inspected. */
  function RuleHits(tokens: seq<string>, all: seq<ProcessEntry>): seq<ProcessEntry> {
    if tokens == [] then []
    else RuleHits(tokens[..|tokens| - 1], all) + Inspectable(Candidates(all, tokens[|tokens| - 1]))
  }

  /** `f` applied to each element of `s`, in order. */
  function MapSeq<A, B>(f: A --> B, s: seq<A>): seq<B>
    requires forall i | 0 <= i < |s| :: f.requires(s[i])
  {
    seq(|s|, i requires 0 <= i < |s| => f(s[i]))
  }

  lemma MapSeqAppend<A, B>(f: A --> B, a: seq<A>, b: seq<A>)
    requires forall i | 0 <= i < |a| :: f.requires(a[i])
    requires forall i | 0 <= i < |b| :: f.requires(b[i])
    ensures MapSeq(f, a + b) == MapSeq(f, a) + MapSeq(f, b)
  {
    var r := MapSeq(f, a + b);
    forall i | 0 <= i < |r| ensures r[i] == (MapSeq(f, a) + MapSeq(f, b))[i] {
      if i < |a| {
        assert (a + b)[i] == a[i];
      } else {
        assert (a + b)[i] == b[i - |a|];
      }
    }
  }

  /** The analysis under one rule of a process that can be inspected. */
  function Report(config: BrowserConfig): ProcessEntry --> BrowserInfo {
    (p: ProcessEntry) requires WellFormed(config) => Analysis(p.mainWindowTitle, config, p.clock)
  }

  /** The analysis of each process of `processes` under one rule, position by position. */
  function Reports(config: BrowserConfig, processes: seq<ProcessEntry>): (r: seq<BrowserInfo>)
    requires WellFormed(config)
  {
    MapSeq(Report(config), processes)
  }

  /** What one rule contributes to the list, for the tokens `tokens`. */
  function SweepTokens(config: BrowserConfig, tokens: seq<string>, all: seq<ProcessEntry>): seq<BrowserInfo>
    requires WellFormed(config)
  {
    Reports(config, RuleHits(tokens, all))
  }

  /** The list the sweep builds for the rules `configs` and the process snapshot `all`. */
  function Sweep(configs: seq<BrowserConfig>, all: seq<ProcessEntry>): seq<BrowserInfo>
    requires forall i | 0 <= i < |configs| :: WellFormed(configs[i])
  {
    if configs == [] then []
    else
      var c := configs[|configs| - 1];
      Sweep(configs[..|configs| - 1], all) + SweepTokens(c, c.processNames, all)
  }

  /** What `GetActiveBrowsers` returns for the table of rules and the snapshot `all`. */
  function ActiveBrowsers(all: seq<ProcessEntry>): seq<BrowserInfo> {
    BrowserConfigsWellFormed();
    Sweep(Values(BrowserConfigs), all)
  }

  /** Process `p`, found through `token`, is inspected under `config` and yields `b`. */
  predicate Yields(config: BrowserConfig, token: string, p: ProcessEntry, b: BrowserInfo) {
    WellFormed(config) && IsCandidate(p, token) && !p.inspectionFails
    && b == Analysis(p.mainWindowTitle, config, p.clock)
  }

  lemma ReportsMembers(config: BrowserConfig, processes: seq<ProcessEntry>, b: BrowserInfo)
    requires WellFormed(config)
    ensures b in Reports(config, processes) <==>
      exists p :: p in processes && b == Analysis(p.mainWindowTitle, config, p.clock)
  {
    MapSeqMembers(Report(config), processes, b);
  }

  /** An element of `MapSeq(f, s)` is the image of an element of `s`, and every such image is one. */
  lemma MapSeqMembers<A, B>(f: A --> B, s: seq<A>, y: B)
    requires forall i | 0 <= i < |s| :: f.requires(s[i])
    ensures y in MapSeq(f, s) <==> exists x :: x in s && f.requires(x) && y == f(x)
  {
    var r := MapSeq(f, s);
    if y in r {
      var i :| 0 <= i < |r| && r[i] == y;
      assert s[i] in s;
    }
    if exists x :: x in s && f.requires(x) && y == f(x) {
      var x :| x in s && f.requires(x) && y == f(x);
      var i :| 0 <= i < |s| && s[i] == x;
      assert r[i] == y;
    }
  }

  lemma {:induction false} RuleHitsMembers(tokens: seq<string>, all: seq<ProcessEntry>, p: ProcessEntry)
    ensures p in RuleHits(tokens, all) <==>
      exists t :: t in tokens && p in all && IsCandidate(p, t) && !p.inspectionFails
    decreases |tokens|
  {
    if tokens != [] {
      var init := tokens[..|tokens| - 1];
      var last := tokens[|tokens| - 1];
      assert RuleHits(tokens, all) == RuleHits(init, all) + Inspectable(Candidates(all, last));
      RuleHitsMembers(init, all, p);
      if p in RuleHits(tokens, all) {
        if p in RuleHits(init, all) {
          var t :| t in init && p in all && IsCandidate(p, t) && !p.inspectionFails;
          assert t in tokens;
        } else {
          assert last in tokens && IsCandidate(p, last);
        }
      }
    }
  }

  lemma SweepTokensMembers(config: BrowserConfig, tokens: seq<string>, all: seq<ProcessEntry>, b: BrowserInfo)
    requires WellFormed(config)
    ensures b in SweepTokens(config, tokens, all) <==>
      exists t, p :: t in tokens && p in all && Yields(config, t, p, b)
  {
    var hits := RuleHits(tokens, all);
    ReportsMembers(config, hits, b);
    if b in SweepTokens(config, tokens, all) {
      var p :| p in hits && b == Analysis(p.mainWindowTitle, config, p.clock);
      RuleHitsMembers(tokens, all, p);
      var t :| t in tokens && p in all && IsCandidate(p, t) && !p.inspectionFails;
      assert Yields(config, t, p, b);
    }
    if exists t, p :: t in tokens && p in all && Yields(config, t, p, b) {
      var t, p :| t in tokens && p in all && Yields(config, t, p, b);
      RuleHitsMembers(tokens, all, p);
      assert p in hits;
    }
  }

  /**
   * A browser is reported exactly when some rule has a token that some process of the snapshot passes the
   * filters for, that process's analysis does not raise, and the browser is that process's analysis.
   */
  lemma {:induction false} SweepMembers(configs: seq<BrowserConfig>, all: seq<ProcessEntry>, b: BrowserInfo)
    requires forall i | 0 <= i < |configs| :: WellFormed(configs[i])
    ensures b in Sweep(configs, all) <==>
      exists c, t, p :: c in configs && t in c.processNames && p in all && Yields(c, t, p, b)
    decreases |configs|
  {
    if configs != [] {
      var init := configs[..|configs| - 1];
      var last := configs[|configs| - 1];
      assert Sweep(configs, all) == Sweep(init, all) + SweepTokens(last, last.processNames, all);
      SweepMembers(init, all, b);
      SweepTokensMembers(last, last.processNames, all, b);
      if b in Sweep(configs, all) {
        if b in Sweep(init, all) {
          var c, t, p :| c in init && t in c.processNames && p in all && Yields(c, t, p, b);
          assert c in configs;
        } else {
          var t, p :| t in last.processNames && p in all && Yields(last, t, p, b);
          assert last in configs;
        }
      }
    }
  }

  /** When no process of the snapshot passes the filters for any token of any rule, nothing is reported. */
  lemma NoCandidatesNoBrowsers(configs: seq<BrowserConfig>, all: seq<ProcessEntry>)
    requires forall i | 0 <= i < |configs| :: WellFormed(configs[i])
    requires forall c, t, p | c in configs && t in c.processNames && p in all :: !IsCandidate(p, t)
    ensures Sweep(configs, all) == []
  {
    if Sweep(configs, all) != [] {
      var b := Sweep(configs, all)[0];
      SweepMembers(configs, all, b);
    }
  }

  // One more step of each of the three loops of `GetActiveBrowsers`.

  lemma ReportsAppend(config: BrowserConfig, a: seq<ProcessEntry>, b: seq<ProcessEntry>)
    requires WellFormed(config)
    ensures Reports(config, a + b) == Reports(config, a) + Reports(config, b)
  {
    MapSeqAppend(Report(config), a, b);
  }

  lemma InspectableStep(processes: seq<ProcessEntry>, k: nat)
    requires k < |processes|
    ensures Inspectable(processes[..k + 1]) == Inspectable(processes[..k])
      + (if processes[k].inspectionFails then [] else [processes[k]])
  {
    assert processes[..k + 1][..k] == processes[..k];
  }

  lemma RuleHitsStep(tokens: seq<string>, all: seq<ProcessEntry>, j: nat)
    requires j < |tokens|
    ensures RuleHits(tokens[..j + 1], all) == RuleHits(tokens[..j], all) + Inspectable(Candidates(all, tokens[j]))
  {
    assert tokens[..j + 1][..j] == tokens[..j];
  }

  lemma SweepStep(configs: seq<BrowserConfig>, all: seq<ProcessEntry>, i: nat)
    requires forall i | 0 <= i < |configs| :: WellFormed(configs[i])
    requires i < |configs|
    ensures Sweep(configs[..i + 1], all) == Sweep(configs[..i], all)
      + SweepTokens(configs[i], configs[i].processNames, all)
  {
    assert configs[..i + 1][..i] == configs[..i];
  }

  /**
   * The innermost loop of `GetActiveBrowsers`: each candidate is analysed in order and its `BrowserInfo`
   * added; a candidate whose analysis raises is skipped. Returns what this loop adds to the list.
   */
  method AnalyzeCandidates(config: BrowserConfig, processes: seq<ProcessEntry>) returns (found: seq<BrowserInfo>)
    requires WellFormed(config)
    ensures found == Reports(config, Inspectable(processes))
  {
    found := [];
    for k := 0 to |processes|
      invariant found == Reports(config, Inspectable(processes[..k]))
    {
      var browserInfo := AnalyzeBrowserWindow(processes[k], config);
      InspectableStep(processes, k);
      if browserInfo.Some? {
        ReportsAppend(config, Inspectable(processes[..k]), [processes[k]]);
        found := found + [browserInfo.value];
      }
    }
    assert processes[..|processes|] == processes;
  }

  /** The middle loop of `GetActiveBrowsers`: the candidates of each token of one rule, in turn. */
  method SweepRule(config: BrowserConfig, allProcesses: seq<ProcessEntry>) returns (found: seq<BrowserInfo>)
    requires WellFormed(config)
    ensures found == SweepTokens(config, config.processNames, allProcesses)
  {
    found := [];
    for j := 0 to |config.processNames|
      invariant found == Reports(config, RuleHits(config.processNames[..j], allProcesses))
    {
      var processName := config.processNames[j];
      var processes := Candidates(allProcesses, processName);
      var analysed := AnalyzeCandidates(config, processes);
      RuleHitsStep(config.processNames, allProcesses, j);
      ReportsAppend(config, RuleHits(config.processNames[..j], allProcesses), Inspectable(processes));
      found := found + analysed;
    }
    assert config.processNames[..|config.processNames|] == config.processNames;
  }

  /**
   * `GetActiveBrowsers`: one snapshot of the processes, then for each rule and each of its tokens the
   * candidates are analysed in order. The two inner loops are `SweepRule` and `AnalyzeCandidates`.
   */
  method GetActiveBrowsers(allProcesses: seq<ProcessEntry>) returns (browsers: seq<BrowserInfo>)
    ensures browsers == ActiveBrowsers(allProcesses)
  {
    BrowserConfigsWellFormed();
    var configs := Values(BrowserConfigs);
    browsers := [];
    for i := 0 to |configs|
      invariant browsers == Sweep(configs[..i], allProcesses)
    {
      var found := SweepRule(configs[i], allProcesses);
      SweepStep(configs, allProcesses, i);
      browsers := browsers + found;
    }
    assert configs[..|configs|] == configs;
  }

  // ---------------------------------------------------------------------------------------------------------
  // Choosing the active browser (GetActiveBrowser)

  /**
   * The position `OrderByDescending(b => b.LastUpdated).FirstOrDefault()` picks: the latest stamp, and
   * since that sort is stable, the first browser holding it.
   */
  function LatestIndex(browsers: seq<BrowserInfo>): (k: nat)
    requires browsers != []
    ensures k < |browsers|
    ensures forall j | 0 <= j < |browsers| :: browsers[j].lastUpdated <= browsers[k].lastUpdated
    ensures forall j | 0 <= j < k :: browsers[j].lastUpdated < browsers[k].lastUpdated
    decreases |browsers|
  {
    if |browsers| == 1 then 0
    else
      var k := LatestIndex(browsers[..|browsers| - 1]);
      if browsers[|browsers| - 1].lastUpdated > browsers[k].lastUpdated then |browsers| - 1 else k
  }

  /** The two properties of `LatestIndex` single out one position. */
  lemma LatestIndexUnique(browsers: seq<BrowserInfo>, k: nat)
    requires k < |browsers|
    requires forall j | 0 <= j < |browsers| :: browsers[j].lastUpdated <= browsers[k].lastUpdated
    requires forall j | 0 <= j < k :: browsers[j].lastUpdated < browsers[k].lastUpdated
    ensures k == LatestIndex(browsers)
  {
    var l := LatestIndex(browsers);
    assert browsers[l].lastUpdated <= browsers[k].lastUpdated;
    assert browsers[k].lastUpdated <= browsers[l].lastUpdated;
  }

  /** What `GetActiveBrowser` returns for a list of browsers: null for none, else the latest, first on a tie. */
  function SelectActive(browsers: seq<BrowserInfo>): (r: Option<BrowserInfo>)
    ensures r.None? <==> browsers == []
    ensures r.Some? ==> exists k | 0 <= k < |browsers| ::
      && browsers[k] == r.value
      && (forall j | 0 <= j < |browsers| :: browsers[j].lastUpdated <= r.value.lastUpdated)
      && (forall j | 0 <= j < k :: browsers[j].lastUpdated < r.value.lastUpdated)
  {
    if browsers == [] then None else Some(browsers[LatestIndex(browsers)])
  }

  /**
   * Browsers analysed within one reading of the clock all carry the same stamp, and then the active browser
   * is simply the first one found: the choice does not reflect which window has the focus.
   */
  lemma SameStampSelectsFirst(browsers: seq<BrowserInfo>)
    requires browsers != [] && forall j | 0 <= j < |browsers| :: browsers[j].lastUpdated == browsers[0].lastUpdated
    ensures SelectActive(browsers) == Some(browsers[0])
  {
    LatestIndexUnique(browsers, 0);
  }

  /** `GetActiveBrowser`: the sweep, then the choice among what it found. */
  method GetActiveBrowser(allProcesses: seq<ProcessEntry>) returns (active: Option<BrowserInfo>)
    ensures active == SelectActive(ActiveBrowsers(allProcesses))
  {
    var browsers := GetActiveBrowsers(allProcesses);
    active := if browsers == [] then None else Some(browsers[LatestIndex(browsers)]);
  }
}
