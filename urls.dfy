/**
 * The strings the helper builds before it touches the network or starts
 * the TeX Live installer: the download URL (with its optional cache-busting
 * query parameter), the download's output path, and the installer's
 * command line.
 */
module Urls {
  import opened Wrappers
  import opened Text

  const DefaultMirror: string := "https://mirror.ctan.org/systems/texlive/tlnet"
  const DefaultArchiveMirror: string := "ftp://tug.org/historic/systems/texlive"
  const DefaultArchiveName: string := "install-tl-unx.tar.gz"
  const DefaultCacheBuster: string := "0"
  /** The one version token that selects the current release; any other token is a year directory. */
  const Latest: string := "latest"

  /** A cache-buster token is ignored when it is empty or `"0"`. */
  predicate CacheBusterActive(token: string) {
    token != "" && token != "0"
  }

  /**
   * `append_cache_buster`: adds `ts=<token>` as a query parameter, opening
   * the query with `?` or extending an existing one with `&`.
   */
  function AppendCacheBuster(url: string, token: string): (r: string)
    ensures url <= r
    ensures !CacheBusterActive(token) <==> r == url
    ensures CacheBusterActive(token) ==>
      && |r| == |url| + 4 + |token|
      && (r[|url|] == '&' <==> '?' in url)
      && (r[|url|] == '?' <==> '?' !in url)
      && r[|url| + 1..] == "ts=" + token
  {
    if !CacheBusterActive(token) then url
    else url + [if '?' in url then '&' else '?'] + "ts=" + token
  }

  /** A busted URL carries a query, so a second token is always joined with `&`. */
  lemma CacheBusterTwice(url: string, first: string, second: string)
    requires CacheBusterActive(first) && CacheBusterActive(second)
    ensures var once := AppendCacheBuster(url, first);
            AppendCacheBuster(once, second) == once + "&ts=" + second
  {
    var once := AppendCacheBuster(url, first);
    assert once[|url|] in once;
    assert '?' in once by {
      if '?' in url {
        var k :| 0 <= k < |url| && url[k] == '?';
        assert once[k] == '?';
      }
    }
  }

  /** The archive directory of a historic release: `<archive mirror>/<version>/tlnet-final`. */
  function HistoricRepository(archiveMirror: string, version: string): (r: string)
    ensures exists base :: StrippedOf(base, archiveMirror, '/') && r == base + "/" + version + "/tlnet-final"
  {
    RStripChar(archiveMirror, '/') + "/" + version + "/tlnet-final"
  }

  /** The installer URL before the cache buster: rolling mirror for `latest`, archive otherwise. */
  function InstallerUrl(version: string, archiveName: string, mirror: string, archiveMirror: string): (r: string)
    ensures version == Latest ==>
      exists base :: StrippedOf(base, mirror, '/') && r == base + "/" + archiveName
    ensures version != Latest ==> r == HistoricRepository(archiveMirror, version) + "/" + archiveName
  {
    if version == Latest then RStripChar(mirror, '/') + "/" + archiveName
    else HistoricRepository(archiveMirror, version) + "/" + archiveName
  }

  /** What `download_installer` would fetch, and where it would write it. */
  datatype Download = Download(url: string, target: string)

  /** `download_installer` without the transfer: the request URL and the output path. */
  function DownloadRequest(version: string, archiveName: string, mirror: string, archiveMirror: string,
                           cacheBuster: string, output: Option<string>): (d: Download)
    ensures InstallerUrl(version, archiveName, mirror, archiveMirror) <= d.url
    ensures !CacheBusterActive(cacheBuster) ==> d.url == InstallerUrl(version, archiveName, mirror, archiveMirror)
    ensures d.url == AppendCacheBuster(InstallerUrl(version, archiveName, mirror, archiveMirror), cacheBuster)
    ensures d.target == if output.Some? then output.value else archiveName
  {
    var url := InstallerUrl(version, archiveName, mirror, archiveMirror);
    Download(AppendCacheBuster(url, cacheBuster), if output.Some? then output.value else archiveName)
  }

  /** With every option at its default, the helper fetches the current release from the CTAN redirector. */
  lemma DefaultDownload()
    ensures DownloadRequest(Latest, DefaultArchiveName, DefaultMirror, DefaultArchiveMirror, DefaultCacheBuster, None)
            == Download("https://mirror.ctan.org/systems/texlive/tlnet/install-tl-unx.tar.gz", "install-tl-unx.tar.gz")
  {
  }

  /** A historic release by default comes from the TUG archive, still without a cache-busting query. */
  lemma DefaultHistoricDownload(version: string)
    requires version != Latest
    ensures DownloadRequest(version, DefaultArchiveName, DefaultMirror, DefaultArchiveMirror, DefaultCacheBuster, None).url
            == "ftp://tug.org/historic/systems/texlive/" + version + "/tlnet-final/install-tl-unx.tar.gz"
  {
  }

  /** The join between mirror and file name has exactly one `/`, whatever the mirror ends with. */
  lemma LatestUrlSingleSlash(archiveName: string, mirror: string)
    requires exists k :: 0 <= k < |mirror| && mirror[k] != '/'
    ensures var r := InstallerUrl(Latest, archiveName, mirror, "");
            var b := |RStripChar(mirror, '/')|;
            0 < b < |r| && r[b] == '/' && r[b - 1] != '/' && r[b + 1..] == archiveName
  {
    var base := RStripChar(mirror, '/');
    var k :| 0 <= k < |mirror| && mirror[k] != '/';
    assert |base| > k;
  }

  /** The `--location=` value: the mirror with exactly one trailing `/`. */
  function LocationOf(mirror: string): (loc: string)
    ensures |loc| >= 1 && loc[|loc| - 1] == '/'
    ensures |loc| >= 2 ==> loc[|loc| - 2] != '/'
    ensures StrippedOf(loc[..|loc| - 1], mirror, '/')
  {
    RStripChar(mirror, '/') + "/"
  }

  /** The command line `run_install` starts the installer with. */
  function InstallerArgs(installer: string, profile: string, mirror: string, archiveMirror: string,
                         version: string): (args: seq<string>)
    ensures |args| == 5 <==> version != Latest
    ensures |args| == 4 <==> version == Latest
    ensures args[..4] == ["perl", installer, "--profile=" + profile, "--location=" + LocationOf(mirror)]
    ensures version != Latest ==> args[4] == "--repository=" + HistoricRepository(archiveMirror, version)
  {
    var args := ["perl", installer, "--profile=" + profile, "--location=" + LocationOf(mirror)];
    if version != Latest then args + ["--repository=" + HistoricRepository(archiveMirror, version)] else args
  }

  /**
   * The installer is pointed at the directory `download_installer` fetched
   * the archive from: for `latest` the location is the rolling mirror, for an
   * older release the repository is the archived `tlnet-final` tree.
   */
  lemma ArgsAgreeWithDownload(installer: string, profile: string, mirror: string, archiveMirror: string,
                              version: string, archiveName: string)
    ensures var args := InstallerArgs(installer, profile, mirror, archiveMirror, version);
            var url := InstallerUrl(version, archiveName, mirror, archiveMirror);
            && (version == Latest ==> args[3] == "--location=" + url[..|url| - |archiveName|])
            && (version != Latest ==> args[4] == "--repository=" + url[..|url| - |archiveName| - 1])
  {
    var url := InstallerUrl(version, archiveName, mirror, archiveMirror);
    if version == Latest {
      assert url == LocationOf(mirror) + archiveName;
      assert url[..|url| - |archiveName|] == LocationOf(mirror);
    } else {
      var repo := HistoricRepository(archiveMirror, version);
      assert url == repo + "/" + archiveName;
      assert url[..|url| - |archiveName| - 1] == repo;
    }
  }
}
