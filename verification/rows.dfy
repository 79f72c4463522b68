/** The output table of generate_os_versions.py: the header row and the four
    device rows handed to the CSV writer. Only the current-version cells of
    the iPad and MacBook rows come from the heading scan; everything else is
    fixed text. */
module Rows {
  import opened Outcomes
  import opened Scan

  const AppleUrl := "https://developer.apple.com/news/releases/"
  const ChromeUrl := "https://chromeos.dev/en/releases"
  const WindowsUrl := "https://learn.microsoft.com/en-us/windows/release-health/"

  const Header: seq<string> :=
    ["Device Type", "Current OS Version", "Upcoming OS Version", "Upcoming Release Date", "Release Notes URL"]

  const Devices: seq<string> := ["iPad", "MacBook", "Chromebook", "Windows"]

  /** How an f-string renders a version variable: the string itself, or the
      text `None` when the scan found nothing. */
  function Render(o: Option<string>): string {
    match o
    case Some(s) => s
    case None => "None"
  }

  /** The four rows of `os_data`, in the order they are appended. */
  function DeviceRows(v: Versions): (rows: seq<seq<string>>)
    ensures |rows| == |Devices|
    ensures forall i :: 0 <= i < |rows| ==> |rows[i]| == |Header| && rows[i][0] == Devices[i]
  {
    [ ["iPad", "iPadOS " + Render(v.ipad), "iPadOS 27", "2025-11-15", AppleUrl],
      ["MacBook", "macOS " + Render(v.mac), "macOS 27", "2025-10-12", AppleUrl],
      ["Chromebook", "ChromeOS 116", "ChromeOS 117", "2025-10-10", ChromeUrl],
      ["Windows", "Windows 11 23H2", "Windows 11 24H1", "2025-11-01", WindowsUrl] ]
  }

  /** Everything the CSV writer receives: the header, then the device rows. */
  function Table(v: Versions): (t: seq<seq<string>>)
    ensures |t| == 1 + |Devices| && t[0] == Header
    ensures forall i :: 0 <= i < |t| ==> |t[i]| == |Header|
    ensures t[1..] == DeviceRows(v)
  {
    [Header] + DeviceRows(v)
  }

  /** The whole script after the fetch: scan the headings, then build the
      table. An `IndexError` in the scan aborts before any row is built.
      A table comes out exactly when no taken heading is short, and its
      current-version cells carry the second field of the first heading
      mentioning iPadOS and of the first macOS mention the iPadOS branch does
      not take, or `None` when there is no such heading. */
  function Report(hs: seq<Option<string>>): (r: Result<seq<seq<string>>, ScanError>)
    ensures r.Ok? <==>
      !exists j: nat :: (IpadTakes(hs, j) || MacTakes(hs, j)) && |Tokens(hs[j])| < 2
    ensures r.Ok? ==> |r.value| == 1 + |Devices| && r.value[0] == Header
    ensures r.Ok? ==> forall i :: 0 <= i < |r.value| ==> |r.value[i]| == |Header|
    ensures r.Ok? ==> forall i :: 0 <= i < |Devices| ==> r.value[i + 1][0] == Devices[i]
    ensures r.Ok? ==> exists v :: r.value == Table(v)
    ensures r.Ok? && (forall j :: 0 <= j < |hs| ==> !Mentions(hs[j], IpadName)) ==>
      r.value[1][1] == "iPadOS None"
    ensures r.Ok? ==> forall j: nat :: IpadTakes(hs, j) ==>
      |Tokens(hs[j])| >= 2 && r.value[1][1] == "iPadOS " + Tokens(hs[j])[1]
    ensures r.Ok? && (forall j :: 0 <= j < |hs| && Mentions(hs[j], MacName) ==> IpadTakes(hs, j)) ==>
      r.value[2][1] == "macOS None"
    ensures r.Ok? ==> forall j: nat :: MacTakes(hs, j) ==>
      |Tokens(hs[j])| >= 2 && r.value[2][1] == "macOS " + Tokens(hs[j])[1]
  {
    ScanFailsIffTakenHeadingShort(hs);
    IpadIsFirstMention(hs);
    MacIsFirstUnclaimedMention(hs);
    IpadClaimIsTaker(hs);
    MacClaimIsTaker(hs);
    match Run(hs)
    case Ok(v) => Ok(Table(v))
    case Err(e) => Err(e)
  }

  /** The only cells that depend on the scan are the current-version cells
      of the iPad and MacBook rows; every other cell is the same whatever
      was found. */
  lemma OnlyCurrentVersionCellsVary(v: Versions, w: Versions)
    ensures forall i, j :: 0 <= i < |Devices| && 0 <= j < |Header| && !(i < 2 && j == 1) ==>
      DeviceRows(v)[i][j] == DeviceRows(w)[i][j]
  {
  }

  /** The current-version cells hold the system name, a space and the found
      version, or the text `None` after the space when nothing was found. */
  lemma CurrentVersionCells(v: Versions)
    ensures v.ipad.Some? ==> DeviceRows(v)[0][1] == "iPadOS " + v.ipad.value
    ensures v.ipad.None? ==> DeviceRows(v)[0][1] == "iPadOS None"
    ensures v.mac.Some? ==> DeviceRows(v)[1][1] == "macOS " + v.mac.value
    ensures v.mac.None? ==> DeviceRows(v)[1][1] == "macOS None"
  {
  }

  /** A rendered `None` is told apart from every found version except the
      text `None` itself. */
  lemma RenderNoneDistinct(o: Option<string>)
    ensures o != Some("None") ==> (Render(o) == "None" <==> o.None?)
  {
  }

  /** Different scan results give different tables, as long as no version
      found is the literal text `None`. */
  lemma TableDeterminesVersions(v: Versions, w: Versions)
    requires v.ipad != Some("None") && w.ipad != Some("None")
    requires v.mac != Some("None") && w.mac != Some("None")
    requires Table(v) == Table(w)
    ensures v == w
  {
    var a := DeviceRows(v)[0][1];
    var b := DeviceRows(w)[0][1];
    assert Table(v)[1][1] == a && Table(w)[1][1] == b;
    RenderNoneDistinct(v.ipad);
    RenderNoneDistinct(w.ipad);
    assert a[|"iPadOS "|..] == Render(v.ipad) && b[|"iPadOS "|..] == Render(w.ipad);
    assert Render(v.ipad) == Render(w.ipad);
    var c := DeviceRows(v)[1][1];
    var d := DeviceRows(w)[1][1];
    assert Table(v)[2][1] == c && Table(w)[2][1] == d;
    RenderNoneDistinct(v.mac);
    RenderNoneDistinct(w.mac);
    assert c[|"macOS "|..] == Render(v.mac) && d[|"macOS "|..] == Render(w.mac);
    assert Render(v.mac) == Render(w.mac);
  }
}
