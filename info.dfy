/**
 * BrowserInfo.cs: the record the detector produces for one browser window and the two texts the presence
 * shows for it. Every string property of the C# class is nullable, so it is an `Option<string>` here.
 */
module Info {
  import opened Wrappers

  /** Timestamps (`DateTime`) are clock readings supplied from outside. */
  datatype BrowserInfo = BrowserInfo(
    browserName: Option<string>,
    tabTitle: Option<string>,
    url: Option<string>,
    iconKey: Option<string>,
    isIncognito: bool,
    isPrivate: bool,
    windowType: Option<string>,
    lastUpdated: nat)

  const NewTab: string := "New Tab"

  /** The longest details text the presence carries. */
  const MaxDetailsLength: nat := 128

  const PrivatePrefix: string := "Browsing privately ("
  const NormalPrefix: string := "Browsing with "

  /** String interpolation of a nullable string: null becomes the empty text. */
  function Interpolate(s: Option<string>): string {
    match s
    case None => ""
    case Some(v) => v
  }

  /** `new BrowserInfo()` at clock reading `now`: the defaults set by the constructor. */
  function NewBrowserInfo(now: nat): (b: BrowserInfo)
    ensures b.browserName == Some("Unknown") && b.tabTitle == Some(NewTab)
    ensures b.iconKey == Some("browser") && b.windowType == Some("normal")
    ensures b.url == None && !b.isIncognito && !b.isPrivate && b.lastUpdated == now
    ensures GetDetails(b) == NewTab && GetStatusText(b) == NormalPrefix + "Unknown"
  {
    BrowserInfo(Some("Unknown"), Some(NewTab), None, Some("browser"), false, false, Some("normal"), now)
  }

  /** `GetStatusText`: the status line names the browser and says whether the window is private. */
  function GetStatusText(b: BrowserInfo): (r: string)
    ensures b.isIncognito || b.isPrivate <==> |r| >= |PrivatePrefix| && r[..|PrivatePrefix|] == PrivatePrefix
    ensures var name := Interpolate(b.browserName);
      exists k | 0 <= k <= |r| - |name| :: r[k..k + |name|] == name && r[..k] in {PrivatePrefix, NormalPrefix}
    ensures var name := Interpolate(b.browserName);
      |r| == if b.isIncognito || b.isPrivate then |PrivatePrefix| + |name| + 1 else |NormalPrefix| + |name|
    ensures b.isIncognito || b.isPrivate ==> r[|r| - 1] == ')'
  {
    var name := Interpolate(b.browserName);
    if b.isIncognito || b.isPrivate then
      var r := PrivatePrefix + name + ")";
      assert r[|PrivatePrefix|..|PrivatePrefix| + |name|] == name && r[..|PrivatePrefix|] == PrivatePrefix;
      r
    else
      var r := NormalPrefix + name;
      assert r[|NormalPrefix|..|NormalPrefix| + |name|] == name && r[..|NormalPrefix|] == NormalPrefix;
      assert |r| < |PrivatePrefix| || r[..|PrivatePrefix|][9] != PrivatePrefix[9];
      r
  }

  /**
   * `GetDetails`: the tab title shown as the presence details, never empty and never longer than
   * `MaxDetailsLength`.
   */
  function GetDetails(b: BrowserInfo): (r: string)
    ensures 0 < |r| <= MaxDetailsLength
    ensures b.tabTitle.None? || b.tabTitle.value == [] ==> r == NewTab
    ensures b.tabTitle.Some? && 0 < |b.tabTitle.value| <= MaxDetailsLength ==> r == b.tabTitle.value
    ensures b.tabTitle.Some? && |b.tabTitle.value| > MaxDetailsLength ==>
      |r| == MaxDetailsLength && r[..125] == b.tabTitle.value[..125] && r[125..] == "..."
  {
    match b.tabTitle
    case None => NewTab
    case Some(t) =>
      if t == [] || t == NewTab then NewTab
      else if |t| > MaxDetailsLength then t[..125] + "..."
      else t
  }
}
