# Discord Browser Presence: the detector and the monitor loop, in Dafny

This project models the core of Discord Browser Presence, a Windows console tool that can run with its console hidden. The tool watches the browser
windows that are open and publishes the active one (browser name, tab title, incognito or private mode) as
Discord Rich Presence. Three parts are modelled:

- **`BrowserInfo`** (`info.dfy`, module `Info`): the record describing one browser window, the defaults its
  constructor sets, and the two texts the presence shows: the status line (`GetStatusText`) and the details
  line (`GetDetails`, cut to 128 characters).
- **`BrowserDetector`** (`detector.dfy`, module `Detector`, with `url_match.dfy` and `text.dfy`):
  - the table of six browser rules;
  - the analysis of one window title, which classifies it as incognito, private or normal, deletes the
    rule's suffixes and markers, trims the result and falls back to "New Tab", then extracts a URL with
    three regular expressions tried in order;
  - the sweep over a snapshot of the process list (`GetActiveBrowsers`), with its filters and its skipping
    of processes whose analysis raises;
  - the choice of the active browser, the one with the latest time stamp (`GetActiveBrowser`).
- **`BrowserMonitorService`** (`monitor.dfy`, module `Monitor`):
  - the poll loop, a state machine over the last browser published and a count of failures;
  - `StartAsync` and `Stop` on a class whose fields are the running flag, the cancellation token source
    and a trace of the calls made on the presence manager.

Each imperative routine is a `method` with loops proved against a specification function:
- `AnalyzeBrowserWindow`'s three `foreach` loops against `Analysis`;
- the three nested loops of `GetActiveBrowsers` against `Sweep`;
- `ExtractUrlFromTitle` against `UrlOf`;
- `MonitorLoop` against `Run`.

The properties are proved about those functions.

Text is modelled as follows:
- A string is a Dafny `string`, a sequence of Unicode scalar values. A .NET string is a sequence of UTF-16
  code units, where a character beyond U+FFFF takes two. The window-title filter's `Length` is therefore
  `Text.Utf16Length`; `GetDetails` is the one place where lengths still count characters (see "## Left out").
- `string.Replace(m, "")` is a leftmost, non-overlapping, single-pass deletion (`Text.DeleteAll`).
- `Trim` and the regular-expression class `\s` share one white-space set, that of `Char.IsWhiteSpace`.
- `Contains` is an ordinal substring test.
- `ToLower` on a process name lowers ASCII letters.

The three regular expressions are written out as matchers (`UrlMatch`):
- For each pattern, the model states when a match starts at an index.
- Each pattern ends in a greedy run of non-space characters, so a match always extends to the end of the
  non-space run it starts in.
- `Regex.Match` returns the leftmost match.

Some consequences of the code are worth stating:
- The failure count of the poll loop is reset only by a tick that publishes (BrowserMonitorService.cs:80),
  not by every tick that succeeds. Clearing and idle ticks leave it as it was (`ResetOnlyOnPublish`).
- A Chrome title written with em dashes, such as "Example Site — Incognito — Google Chrome", keeps
  " — Google Chrome" in its tab title. Chrome's suffix " - Google Chrome" uses a hyphen, so only the marker
  is deleted (`ChromeEmDashIncognito`).
- Cleaning does not guarantee that markers are absent from the tab title. `Replace` works in one pass, so
  deleting a marker can join two pieces into a new occurrence of it (`MarkerCanSurviveCleaning`).
- After the loop gives up on five failures, the service still reports that it is running. Nothing resets
  `_isRunning` there (`MonitorLoop`'s postcondition leaves `isRunning` unchanged).
- Edge's second incognito marker, "InPrivate Browsing", never affects the classification, because it starts
  with the first, "InPrivate" (`EdgeLongMarkerRedundant`).
- When several windows are analysed within one clock reading, the "latest" window is simply the first one
  found (`SameStampSelectsFirst`).

## Model

| member | source | states |
|---|---|---|
| `Info.NewBrowserInfo` | DiscordBrowserPresence/BrowserInfo.cs:16-23 | a new record has name "Unknown", tab title "New Tab", icon "browser", window type "normal", no URL, neither flag, the clock reading given; its details are "New Tab" and its status "Browsing with Unknown" |
| `Info.GetStatusText` | DiscordBrowserPresence/BrowserInfo.cs:25-31 | the status starts with "Browsing privately (" exactly when the window is incognito or private; otherwise it starts with "Browsing with "; the browser name follows the prefix; a private status ends with ")" right after the name, a normal one ends with the name |
| `Info.GetDetails` | DiscordBrowserPresence/BrowserInfo.cs:33-39 | the details are never empty and never longer than 128 characters; a missing or empty title gives "New Tab"; a title of 1 to 128 characters is returned as is; a longer one becomes its first 125 characters followed by "...", 128 characters in all |
| `Detector.BrowserConfigsWellFormed` | DiscordBrowserPresence/BrowserDetector.cs:11-85 | every rule of the table has non-empty suffixes and markers, non-empty lower-case process tokens, and never both kinds of markers |
| `Detector.EdgeLongMarkerRedundant` | DiscordBrowserPresence/BrowserDetector.cs:32 | a title holds one of Edge's incognito markers exactly when it holds "InPrivate": the second marker is redundant |
| `Detector.Classify` | DiscordBrowserPresence/BrowserDetector.cs:137-150 | the classification of a title: incognito markers first, then private markers; no contract of its own, its properties are stated by `Detector.AnalysisPrivacy` |
| `Text.DeleteAll` | DiscordBrowserPresence/BrowserDetector.cs:157 | `Replace(m, "")`: a leftmost, non-overlapping, single-pass deletion; no contract of its own, its properties are stated by `Text.DeleteAllIsSubsequence`, `Text.DeleteAllAbsent` and `Detector.MarkerCanSurviveCleaning` |
| `Text.DeleteAllIsSubsequence` | DiscordBrowserPresence/BrowserDetector.cs:157 | one `Replace(m, "")` only deletes characters: the result is a subsequence of the string |
| `Text.DeleteAllAbsent` | DiscordBrowserPresence/BrowserDetector.cs:157 | `Replace(m, "")` of a marker that does not occur leaves the string unchanged |
| `Text.Trim` | DiscordBrowserPresence/BrowserDetector.cs:177 | the trimmed string is the slice of the input that starts after its leading white space, everything of the input before and after that slice is white space, the slice neither starts nor ends with white space, and a string that already does neither is left as it is |
| `Detector.CleanTitle` | DiscordBrowserPresence/BrowserDetector.cs:151-179 | the tab title is never empty, and it is either "New Tab" or a subsequence of the window title no longer than it: cleaning only deletes |
| `Detector.StripAllIsSubsequence` | DiscordBrowserPresence/BrowserDetector.cs:153-175 | deleting each marker of a list in turn leaves a subsequence of the title |
| `Detector.StripAllAbsent` | DiscordBrowserPresence/BrowserDetector.cs:153-175 | markers that do not occur in the title leave it unchanged |
| `Detector.AnalyzeBrowserWindow` | DiscordBrowserPresence/BrowserDetector.cs:133-194 | a process on which the analysis raises gives no record; otherwise the record is `Analysis` of its window title: rule name and icon, classification, the title after the three deletion loops, trimming and the "New Tab" fallback, the extracted URL and the clock reading |
| `Detector.Analysis` | DiscordBrowserPresence/BrowserDetector.cs:133-194 | the record built for a window title: the specification `AnalyzeBrowserWindow` is proved against; no contract of its own, its properties are stated by `Detector.AnalysisPrivacy`, `Detector.CleanTitle`, `Detector.UrlIsSubstring` and the title lemmas below |
| `Detector.AnalysisPrivacy` | DiscordBrowserPresence/BrowserDetector.cs:137-150 | a window is never both incognito and private; it is incognito exactly when an incognito marker occurs in it (type "incognito"), even if a private marker occurs too; it is private exactly when no incognito marker but a private marker occurs (type "private"); its type is "normal" exactly when neither flag is set |
| `Detector.SuffixStripped` | DiscordBrowserPresence/BrowserDetector.cs:151-179 | for a rule with one suffix that cannot overlap itself: a trimmed, non-empty base holding neither the suffix nor any marker, followed by the suffix, is analysed back to exactly that base, as a normal window |
| `Detector.ChromeTitleStripped` | DiscordBrowserPresence/BrowserDetector.cs:151-179 | under Chrome's rule, any trimmed non-empty base without "Incognito", "Guest" or " - Google Chrome", followed by " - Google Chrome", has tab title equal to the base and type normal ("GitHub - Google Chrome" gives "GitHub") |
| `Detector.FirefoxTitleStripped` | DiscordBrowserPresence/BrowserDetector.cs:151-179 | under Firefox's rule, any trimmed non-empty base without "Private Browsing" and without the suffix, followed by " - Mozilla Firefox", has tab title equal to the base and type normal ("PayPal - Mozilla Firefox" gives "PayPal") |
| `Detector.FirefoxTitleKeepsUrl` | DiscordBrowserPresence/BrowserDetector.cs:151-179 | "Visit https://example.com/page - Mozilla Firefox" has tab title "Visit https://example.com/page": the URL is not deleted from the title |
| `Detector.ChromeIncognitoStripped` | DiscordBrowserPresence/BrowserDetector.cs:155-167 | for a title "x Incognito y" whose pieces hold no 'I', hyphen or 'u', Chrome's suffix loop changes nothing and its marker loop deletes exactly the "Incognito" |
| `Detector.ChromeIncognitoMarkerDeleted` | DiscordBrowserPresence/BrowserDetector.cs:141-179 | such a Chrome title is incognito, not private, of type "incognito", and its tab title is the two pieces joined |
| `Detector.ChromeEmDashIncognito` | DiscordBrowserPresence/BrowserDetector.cs:141-179 | "Example Site — Incognito — Google Chrome" is incognito and its tab title is "Example Site —  — Google Chrome": the em-dash suffix is not Chrome's hyphen suffix |
| `Detector.MarkerCanSurviveCleaning` | DiscordBrowserPresence/BrowserDetector.cs:157-177 | one `Replace` of "Incognito" in "IncogIncognitonito" leaves "Incognito", and Chrome's analysis of that window is incognito with the tab title "Incognito": a marker can remain in the tab title |
| `Text.DeleteAllJoins` | DiscordBrowserPresence/BrowserDetector.cs:165 | when the marker starts nowhere inside `x` and `y` is shorter than it, one `Replace` on `x + marker + y` deletes only that marker and leaves `x + y`, even when `x + y` forms the marker again |
| `UrlMatch.FirstMatchFrom` | DiscordBrowserPresence/BrowserDetector.cs:207 | the leftmost index at which the pattern matches, or none when it matches nowhere |
| `UrlMatch.MatchesAt` | DiscordBrowserPresence/BrowserDetector.cs:198-203 | when each of the three patterns matches at a start index; no contract of its own, used by `UrlMatch.FirstMatchFrom` and stated about by `Detector.UrlFromFirstHttp` and `Detector.NoUrlWithoutDotOrColon` |
| `UrlMatch.Match` | DiscordBrowserPresence/BrowserDetector.cs:207 | `Regex.Match(title, pattern).Value`: the leftmost match extended to the end of its non-space run; no contract of its own, its properties are stated by `UrlMatch.MatchIsRun` |
| `UrlMatch.MatchIsRun` | DiscordBrowserPresence/BrowserDetector.cs:207-210 | a match's value is a non-empty substring of the title without white space |
| `Detector.ExtractUrlFromTitle` | DiscordBrowserPresence/BrowserDetector.cs:196-215 | the method's loop with its early return computes `UrlOf`: the first pattern that matches, in order, gives the URL, and the result is empty if none matches |
| `Detector.UrlOfCases` | DiscordBrowserPresence/BrowserDetector.cs:198-214 | the URL is the absolute-URL match if there is one, else the "www." match, else the host-and-path match, else empty |
| `Detector.UrlIsSubstring` | DiscordBrowserPresence/BrowserDetector.cs:196-215 | the URL is empty or a substring of the window title without white space |
| `Detector.UrlFromFirstHttp` | DiscordBrowserPresence/BrowserDetector.cs:200 | when "http://" or "https://" followed by a non-space character occurs, the URL is the non-space run starting at its first occurrence |
| `Detector.NoUrlWithoutDotOrColon` | DiscordBrowserPresence/BrowserDetector.cs:198-203 | a title with neither a dot nor a colon has an empty URL |
| `Detector.UrlAfterPlainText` | DiscordBrowserPresence/BrowserDetector.cs:200-210 | plain text without an 'h', then an "https://" URL, then text starting with white space (or nothing): the URL extracted is exactly that URL |
| `Detector.FirefoxUrl` | DiscordBrowserPresence/BrowserDetector.cs:196-215 | the URL of "Visit https://example.com/page - Mozilla Firefox" is "https://example.com/page" |
| `Detector.Candidates` | DiscordBrowserPresence/BrowserDetector.cs:107-110 | a process passes the two filters exactly when its lower-cased name contains the token and its title's `Length`, in UTF-16 code units, is more than one (so a single character beyond U+FFFF passes); the filter keeps no more than it was given |
| `Text.AsciiLower` | DiscordBrowserPresence/BrowserDetector.cs:108 | `ToLower` on a process name: same length, no upper-case ASCII letter left, and a name without one is unchanged |
| `Text.Utf16Length` | DiscordBrowserPresence/BrowserDetector.cs:109 | `Length` of a window title: at least the number of characters and at most twice it |
| `Text.Utf16LengthBmp` | DiscordBrowserPresence/BrowserDetector.cs:109 | a title without characters beyond U+FFFF has one code unit per character |
| `Detector.Inspectable` | DiscordBrowserPresence/BrowserDetector.cs:114-125 | the processes kept are exactly those on which `AnalyzeBrowserWindow` does not raise |
| `Detector.ReportsMembers` | DiscordBrowserPresence/BrowserDetector.cs:112-126 | a record is among a rule's analyses of some processes exactly when it is the analysis of one of them |
| `Detector.RuleHitsMembers` | DiscordBrowserPresence/BrowserDetector.cs:105-126 | a process is analysed for a rule exactly when it passes the filters for one of the rule's tokens and does not raise |
| `Detector.SweepTokensMembers` | DiscordBrowserPresence/BrowserDetector.cs:105-127 | a record is contributed by a rule exactly when some token and some process yield it |
| `Detector.SweepMembers` | DiscordBrowserPresence/BrowserDetector.cs:103-130 | a record is in the sweep exactly when some rule, one of its tokens and some process of the snapshot yield it: the process passes the filters, its analysis does not raise, and the record is its analysis; processes whose analysis raises are skipped without losing the others |
| `Detector.NoCandidatesNoBrowsers` | DiscordBrowserPresence/BrowserDetector.cs:103-130 | when no process passes the filters for any token, the sweep is empty |
| `Detector.Sweep` | DiscordBrowserPresence/BrowserDetector.cs:103-130 | the list the sweep builds, rule by rule; no contract of its own, its members are characterised by `Detector.SweepMembers` and `Detector.NoCandidatesNoBrowsers` |
| `Detector.ActiveBrowsers` | DiscordBrowserPresence/BrowserDetector.cs:98-131 | the sweep over the six rules in table order: the specification `GetActiveBrowsers` is proved against; no contract of its own |
| `Detector.AnalyzeCandidates` | DiscordBrowserPresence/BrowserDetector.cs:112-126 | the innermost loop returns the analyses of the candidates that do not raise, in order |
| `Detector.SweepRule` | DiscordBrowserPresence/BrowserDetector.cs:105-127 | the token loop returns what the rule contributes, token by token |
| `Detector.GetActiveBrowsers` | DiscordBrowserPresence/BrowserDetector.cs:98-131 | the nested loops return `ActiveBrowsers`, the sweep over the six rules in table order |
| `Detector.LatestIndex` | DiscordBrowserPresence/BrowserDetector.cs:219 | the position chosen holds the greatest stamp, and every earlier position holds a strictly smaller one |
| `Detector.LatestIndexUnique` | DiscordBrowserPresence/BrowserDetector.cs:219 | any position with the greatest stamp and strictly smaller stamps before it is the position `LatestIndex` chooses |
| `Detector.SelectActive` | DiscordBrowserPresence/BrowserDetector.cs:219 | null exactly when the list is empty; otherwise a record of the list with the greatest stamp, and the first such on a tie |
| `Detector.SameStampSelectsFirst` | DiscordBrowserPresence/BrowserDetector.cs:219 | when all stamps are equal, the first record found is chosen |
| `Detector.GetActiveBrowser` | DiscordBrowserPresence/BrowserDetector.cs:216-220 | the result is `SelectActive` of the sweep's list |
| `Monitor.Run` | DiscordBrowserPresence/BrowserMonitorService.cs:51-105 | the loop over a sequence of polls runs no more ticks than there are polls, never takes the count above the budget of 5, and with no tick leaves the state as it was |
| `Monitor.Step` | DiscordBrowserPresence/BrowserMonitorService.cs:61-100 | one tick, the `try` and its `catch`; no contract of its own, its properties are stated by the tick lemmas below (`Monitor.LastChangesOnlyWithCall` to `Monitor.IgnoredFieldsNotPublished`) |
| `Monitor.LastChangesOnlyWithCall` | DiscordBrowserPresence/BrowserMonitorService.cs:61-100 | the last browser changes only on a tick that calls the presence manager, and only a detector that answers leads to a call |
| `Monitor.Continues` | DiscordBrowserPresence/BrowserMonitorService.cs:57-59 | the loop guard; no contract of its own, its effect is stated by `Monitor.Stopped`, `Monitor.HaltedStaysHalted` and `Monitor.CancelStops` |
| `Monitor.PublishIff` | DiscordBrowserPresence/BrowserMonitorService.cs:65-77 | a tick publishes a record exactly when the detector returns it and it differs from the last one on name, title or incognito flag, or nothing was published; a tick makes at most one call |
| `Monitor.PublishResets` | DiscordBrowserPresence/BrowserMonitorService.cs:79-80 | after a publishing tick that does not raise, the last browser is the one published and the count is 0 |
| `Monitor.ClearIff` | DiscordBrowserPresence/BrowserMonitorService.cs:83-88 | a tick clears exactly when the detector returns nothing and something was published; the last browser is then forgotten and the count changes only if a handler raises |
| `Monitor.QuietTick` | DiscordBrowserPresence/BrowserMonitorService.cs:65-88 | nothing after nothing, or the same browser on the three compared fields, makes no call and leaves the state unchanged |
| `Monitor.FailureCounted` | DiscordBrowserPresence/BrowserMonitorService.cs:90-92 | a tick whose detector raises adds exactly one to the count and changes nothing else |
| `Monitor.ResetOnlyOnPublish` | DiscordBrowserPresence/BrowserMonitorService.cs:61-100 | the count only goes down on a publishing tick, and then to 0; it goes up by at most one, and only when something raises |
| `Monitor.IgnoredFieldsNotPublished` | DiscordBrowserPresence/BrowserMonitorService.cs:67-70 | a record that differs from the last one only in URL, private flag or stamp is not published again |
| `Monitor.Stopped` | DiscordBrowserPresence/BrowserMonitorService.cs:57-59 | when the guard fails (no more polls, cancelled, or the budget used up) no further tick runs |
| `Monitor.FailuresHalt` | DiscordBrowserPresence/BrowserMonitorService.cs:90-99 | failing ticks that bring the count to 5 end the loop there, with no call made and no later poll run |
| `Monitor.HaltedStaysHalted` | DiscordBrowserPresence/BrowserMonitorService.cs:57-59 | with the budget used up, no tick runs, whatever the polls |
| `Monitor.CancelStops` | DiscordBrowserPresence/BrowserMonitorService.cs:57-58 | polls after the first cancelled one have no effect, and no more ticks run than polls before it |
| `Monitor.IdleRun` | DiscordBrowserPresence/BrowserMonitorService.cs:83-88 | polls that find no browser, after nothing was published, make no call and change nothing |
| `Monitor.VanishedClearsOnce` | DiscordBrowserPresence/BrowserMonitorService.cs:83-88 | a published browser that vanishes and stays away is cleared exactly once |
| `Monitor.SteadyRun` | DiscordBrowserPresence/BrowserMonitorService.cs:65-81 | polls that keep finding the published browser on the compared fields make no call |
| `Monitor.SteadyBrowserPublishedOnce` | DiscordBrowserPresence/BrowserMonitorService.cs:65-81 | a browser that appears and stays the same on the compared fields is published once, at the first tick |
| `Monitor.BrowserMonitorService.constructor` | DiscordBrowserPresence/BrowserMonitorService.cs:12-13 | a new service is not running, has no token source, and has made no call |
| `Monitor.BrowserMonitorService.StartAsync` | DiscordBrowserPresence/BrowserMonitorService.cs:28-49 | when running: answers true and changes nothing; otherwise it makes a token source and initialises the presence manager; on failure it answers false, is not running and launches no loop; on success it answers true, is running and launches one loop |
| `Monitor.BrowserMonitorService.Stop` | DiscordBrowserPresence/BrowserMonitorService.cs:107-117 | when not running: changes nothing; otherwise it cancels the token, is no longer running, and clears then disposes the presence manager, so a second `Stop` does nothing |
| `Monitor.BrowserMonitorService.Tick` | DiscordBrowserPresence/BrowserMonitorService.cs:61-100 | one pass through the loop body: the new last browser and count, and the calls appended to the trace, are those of `Step`; a pass adds exactly one to the count exactly when its `catch` runs; no other field changes |
| `Monitor.BrowserMonitorService.MonitorLoop` | DiscordBrowserPresence/BrowserMonitorService.cs:51-105 | the loop, starting with nothing published and a count of 0, ends in the state, after the number of ticks, and with the calls that `Run` gives for the polls it sees; the running flag and the token source are not touched |

## Left out

- Process enumeration (`Process.GetProcesses`, `MainWindowTitle`) is an input: a snapshot of records, each
  with a process name, a window title, whether `AnalyzeBrowserWindow` raises on it, and the clock reading its
  analysis gets.
- `DateTime.Now` is a clock reading passed in as a natural number.
- The .NET regular-expression engine is not modelled. The three patterns are matchers written by hand,
  following the patterns' shapes.
- `ToLower` is ASCII lower-casing; culture-specific case mappings are not modelled.
- An exception from the two `Where` filters or from the snapshot itself would escape `GetActiveBrowsers`
  (they are outside the `try`, and the filter at BrowserDetector.cs:109 is the first to read a window
  title). The model assumes they do not raise; its per-process flag stands for an exception raised inside
  `AnalyzeBrowserWindow`, which the `catch` skips.
- Info.GetDetails: lengths count Unicode scalar values, not the UTF-16 code units that `Length` and
  `Substring` count. A title with characters beyond U+FFFF can be longer than 128 code units yet no longer
  than 128 characters; the source cuts it and the model returns it whole. The source's cut can also split a
  surrogate pair, which a Dafny `char` cannot hold.
- Threads and timing (`Task.Run`, `Task.Delay`, the update interval) are not modelled. The loop is run over
  a finite sequence of polls, each giving the cancellation state the guard reads and what the tick sees.
- Monitor.BrowserMonitorService.MonitorLoop: requires a token source, where the source's guard would instead
  stop at once without one; `StartAsync` always makes one before it launches the loop.
- The presence manager (DiscordPresenceManager.cs) is not part of this model. Its calls are recorded in a
  trace (`Initialize`, `Update`, `Clear`, `Dispose`), and only the answer of `InitializeAsync` is an input.
  It is assumed not to raise; an event handler that raises after a call is a per-tick input.
- The events `OnStatusUpdate` and `OnBrowserChanged` and their messages only feed the console and are not
  modelled. A handler that raises inside the `try` (after `UpdatePresence`, or after a clear) is a per-tick
  input and is counted as a failure.
- Monitor.BrowserMonitorService.MonitorLoop: a handler of `OnStatusUpdate` that raises inside the `catch`
  block (BrowserMonitorService.cs:93 and 97) escapes the loop and ends it with no further count; the model
  does not capture this, and its loop stops only on cancellation, the end of the polls or five failures.
- `Dispose` of the service and of the token source is not modelled.
- ConfigManager.cs, IconManager.cs, DiscordSetupManager.cs and Program.cs are not part of this model. They
  hold file I/O, console prompts, registry access and the choice of the update interval.
- `IsRunning` is the field `isRunning` of `BrowserMonitorService`, read directly.
