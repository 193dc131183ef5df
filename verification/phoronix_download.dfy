/**
 * The package downloader of the Unigine Heaven Phoronix profile: the label a
 * package prints as, platform filtering, keeping or discarding a file already
 * on disk, trying the mirror URLs in order with verification of each
 * download, and the progress-bar and copy-loop bookkeeping.
 */
module PhoronixDownload {
  import opened Wrappers
  import opened Exceptions
  import Text
  import opened ProgressDisplay

  type Bytes = seq<bv8>

  /** One entry of `packages.json`. */
  datatype Package = Package(
    filename: string,
    platform: Option<string>,
    urls: seq<string>,
    size: Option<int>,
    md5: Option<string>,
    sha256: Option<string>)

  /** Python truthiness of an optional string: present and non-empty. */
  predicate Truthy(o: Option<string>) {
    o.Some? && o.value != ""
  }

  /** Python truthiness of an optional integer: present and non-zero. */
  predicate NonZero(o: Option<int>) {
    o.Some? && o.value != 0
  }

  // ---------------------------------------------------------------------------
  // How a package is verified
  // ---------------------------------------------------------------------------

  /** The check a download must pass. */
  datatype Method = Md5(digest: string) | Sha256(digest: string) | Size(bytes: int) | NoVerify

  /**
   * `hash = md5 or sha256` with the matching `hash_fn`, else the declared
   * size, else no verification.
   */
  function Choose(p: Package): (m: Method)
    ensures m.Md5? <==> Truthy(p.md5)
    ensures m.Sha256? <==> !Truthy(p.md5) && Truthy(p.sha256)
    ensures m.Size? <==> !Truthy(p.md5) && !Truthy(p.sha256) && NonZero(p.size)
    ensures m.Md5? ==> m.digest == p.md5.value
    ensures m.Sha256? ==> m.digest == p.sha256.value
    ensures m.Size? ==> m.bytes == p.size.value
  {
    if Truthy(p.md5) then Md5(p.md5.value)
    else if Truthy(p.sha256) then Sha256(p.sha256.value)
    else if NonZero(p.size) then Size(p.size.value)
    else NoVerify
  }

  /** The host: its `sys.platform`, the two digest functions, and what fetching each URL does. */
  datatype Host = Host(
    platform: string,
    md5: Bytes -> string,
    sha256: Bytes -> string,
    fetch: string -> Fetch)

  /**
   * A download: complete with the body, raised before the target file was
   * opened, or raised after writing part of the body.
   */
  datatype Fetch = Fetched(body: Bytes) | FailedEarly | FailedWriting(partial: Bytes)

  /** Whether downloaded content passes the chosen check. */
  predicate Passes(h: Host, m: Method, content: Bytes) {
    match m
    case Md5(d) => h.md5(content) == d
    case Sha256(d) => h.sha256(content) == d
    case Size(n) => |content| == n
    case NoVerify => true
  }

  /** Without a hash or a size there is nothing to check, and any content passes. */
  lemma NoMethodAlwaysPasses(h: Host, p: Package, content: Bytes)
    requires !Truthy(p.md5) && !Truthy(p.sha256) && !NonZero(p.size)
    ensures Passes(h, Choose(p), content)
  {
  }

  // ---------------------------------------------------------------------------
  // The printed label
  // ---------------------------------------------------------------------------

  /** `{self.platform}`: the platform name, or `None`. */
  function PlatformText(platform: Option<string>): string {
    if platform.Some? then platform.value else "None"
  }

  /** The verification label and value of `__repr__`, each following its own `or` chain. */
  function VerifyTag(p: Package): (string, string) {
    var name := if Truthy(p.md5) then "md5" else if Truthy(p.sha256) then "sha256"
                else if NonZero(p.size) then "size" else "noverify";
    var value := if Truthy(p.md5) then p.md5.value else if Truthy(p.sha256) then p.sha256.value
                 else if NonZero(p.size) then Text.IntToString(p.size.value) else "1";
    (name, value)
  }

  /** `PhoronixDownloadDefinition.__repr__`. */
  function Repr(p: Package): (r: string)
    ensures Text.StartsWith(r, p.filename + " (platform=")
    ensures Text.EndsWith(r, VerifyTag(p).1 + ")")
  {
    var r := p.filename + " (platform=" + PlatformText(p.platform) + ", " + VerifyTag(p).0 + "=" + VerifyTag(p).1 + ")";
    assert r == (p.filename + " (platform=") + (PlatformText(p.platform) + ", " + VerifyTag(p).0 + "=" + VerifyTag(p).1 + ")");
    assert r == (p.filename + " (platform=" + PlatformText(p.platform) + ", " + VerifyTag(p).0 + "=") + (VerifyTag(p).1 + ")");
    r
  }

  /**
   * The label names the check the downloader applies, with its expected value;
   * "noverify=1" exactly when downloads pass unchecked.
   */
  lemma ReprNamesMethod(p: Package)
    ensures VerifyTag(p) == match Choose(p)
                            case Md5(d) => ("md5", d)
                            case Sha256(d) => ("sha256", d)
                            case Size(n) => ("size", Text.IntToString(n))
                            case NoVerify => ("noverify", "1")
  {
  }

  // ---------------------------------------------------------------------------
  // One package
  // ---------------------------------------------------------------------------

  /** A package whose platform is set and differs from the host's is not needed here. */
  predicate OtherPlatform(h: Host, p: Package) {
    Truthy(p.platform) && p.platform.value != h.platform
  }

  /** A file already on disk is kept when its digest matches or its size equals the declared size. */
  predicate Keep(h: Host, p: Package, content: Bytes) {
    var m := Choose(p);
    ((m.Md5? || m.Sha256?) && Passes(h, m, content)) || p.size == Some(|content|)
  }

  /** Files on disk, by name. */
  type Files = map<string, Bytes>

  /** A URL whose download completes and passes the check. */
  predicate Good(h: Host, m: Method, url: string) {
    h.fetch(url).Fetched? && Passes(h, m, h.fetch(url).body)
  }

  /** Files after a step, and the step's result. */
  datatype Step<T> = Step(files: Files, result: Result<T, Raised>)

  /** Every file other than `target` is as it was. */
  ghost predicate OthersKept(before: Files, after: Files, target: string) {
    forall f :: f != target ==> (f in after <==> f in before) && (f in before ==> after[f] == before[f])
  }

  /** The message raised when no URL gives a verified file. */
  function NoUrlWorked(p: Package): Raised {
    Failure("Could not download " + Repr(p) + " from any of specified URLs")
  }

  /** A result of the loop over the remaining URLs, seen from one URL earlier. */
  function Shift(s: Step<nat>): (r: Step<nat>)
    ensures r.files == s.files
    ensures r.result.Ok? <==> s.result.Ok?
    ensures r.result.Ok? ==> r.result.value == s.result.value + 1
    ensures r.result.Err? ==> r == s
  {
    if s.result.Ok? then Step(s.files, Ok(s.result.value + 1)) else s
  }

  /**
   * The URL loop of `download_packages`: URLs are tried in order; a download
   * that raises moves on to the next; a completed download that fails its
   * check is removed before the next URL; the first that passes ends the
   * loop (its index is returned). When every URL has been tried the package
   * fails.
   */
  function TryUrls(h: Host, p: Package, m: Method, urls: seq<string>, files: Files): (r: Step<nat>)
    ensures r.result.Ok? ==> r.result.value < |urls|
    ensures r.result.Err? ==> r.result.error == NoUrlWorked(p)
    decreases |urls|
  {
    if |urls| == 0 then Step(files, Err(NoUrlWorked(p)))
    else
      var target := p.filename;
      match h.fetch(urls[0])
      case FailedEarly => Shift(TryUrls(h, p, m, urls[1..], files))
      case FailedWriting(partial) => Shift(TryUrls(h, p, m, urls[1..], files[target := partial]))
      case Fetched(body) =>
        if Passes(h, m, body) then Step(files[target := body], Ok(0))
        else Shift(TryUrls(h, p, m, urls[1..], files[target := body] - {target}))
  }

  /** The loop succeeds exactly when some URL is good, and stops at the first good one. */
  lemma {:induction false} TryUrlsFirstGood(h: Host, p: Package, m: Method, urls: seq<string>, files: Files)
    ensures TryUrls(h, p, m, urls, files).result.Ok? <==> exists i :: 0 <= i < |urls| && Good(h, m, urls[i])
    ensures var r := TryUrls(h, p, m, urls, files);
            r.result.Ok? ==> Good(h, m, urls[r.result.value])
                             && forall j :: 0 <= j < r.result.value ==> !Good(h, m, urls[j])
    decreases |urls|
  {
    if |urls| > 0 {
      if Good(h, m, urls[0]) {
        TryUrlsGoodHead(h, p, m, urls, files);
      } else {
        var rest := urls[1..];
        var next := AfterFirst(h, p, urls, files);
        TryUrlsStep(h, p, m, urls, files);
        TryUrlsFirstGood(h, p, m, rest, next);
        assert forall j :: 0 < j < |urls| ==> urls[j] == rest[j - 1];
      }
    }
  }

  /** A good first URL ends the loop at once. */
  lemma TryUrlsGoodHead(h: Host, p: Package, m: Method, urls: seq<string>, files: Files)
    requires |urls| > 0 && Good(h, m, urls[0])
    ensures TryUrls(h, p, m, urls, files) == Step(files[p.filename := h.fetch(urls[0]).body], Ok(0))
  {
  }

  /** A first URL that is not good hands over to the rest of the list. */
  lemma TryUrlsStep(h: Host, p: Package, m: Method, urls: seq<string>, files: Files)
    requires |urls| > 0 && !Good(h, m, urls[0])
    ensures TryUrls(h, p, m, urls, files) == Shift(TryUrls(h, p, m, urls[1..], AfterFirst(h, p, urls, files)))
  {
  }

  /** The file the loop reads from after trying the first URL. */
  function AfterFirst(h: Host, p: Package, urls: seq<string>, files: Files): Files
    requires |urls| > 0
  {
    match h.fetch(urls[0])
    case FailedEarly => files
    case FailedWriting(partial) => files[p.filename := partial]
    case Fetched(body) => files[p.filename := body] - {p.filename}
  }

  /**
   * What the loop leaves on disk: the verified body under the package's file
   * name on success; after a failure, a file that was not there before only
   * when some download raised part way through; every other file untouched.
   */
  lemma TryUrlsFiles(h: Host, p: Package, m: Method, urls: seq<string>, files: Files)
    ensures var r := TryUrls(h, p, m, urls, files);
            r.result.Ok? ==> p.filename in r.files && h.fetch(urls[r.result.value]) == Fetched(r.files[p.filename])
    ensures var r := TryUrls(h, p, m, urls, files);
            r.result.Err? && p.filename in r.files && p.filename !in files ==>
              exists i :: 0 <= i < |urls| && h.fetch(urls[i]).FailedWriting?
    ensures OthersKept(files, TryUrls(h, p, m, urls, files).files, p.filename)
  {
    TryUrlsLanded(h, p, m, urls, files);
    TryUrlsPartial(h, p, m, urls, files);
    TryUrlsOthersKept(h, p, m, urls, files);
  }

  /** On success the file holds the body fetched from the URL that was used. */
  lemma {:induction false} TryUrlsLanded(h: Host, p: Package, m: Method, urls: seq<string>, files: Files)
    ensures var r := TryUrls(h, p, m, urls, files);
            r.result.Ok? ==> p.filename in r.files && h.fetch(urls[r.result.value]) == Fetched(r.files[p.filename])
    decreases |urls|
  {
    if |urls| > 0 && !Good(h, m, urls[0]) {
      var rest := urls[1..];
      TryUrlsLanded(h, p, m, rest, AfterFirst(h, p, urls, files));
      TryUrlsStep(h, p, m, urls, files);
      var r := TryUrls(h, p, m, urls, files);
      if r.result.Ok? {
        assert urls[r.result.value] == rest[r.result.value - 1];
      }
    }
  }

  /** After a failure, a new file under the package's name comes from a download that raised. */
  lemma {:induction false} TryUrlsPartial(h: Host, p: Package, m: Method, urls: seq<string>, files: Files)
    ensures var r := TryUrls(h, p, m, urls, files);
            r.result.Err? && p.filename in r.files && p.filename !in files ==>
              exists i :: 0 <= i < |urls| && h.fetch(urls[i]).FailedWriting?
    decreases |urls|
  {
    if |urls| > 0 && !Good(h, m, urls[0]) {
      var rest := urls[1..];
      var next := AfterFirst(h, p, urls, files);
      TryUrlsPartial(h, p, m, rest, next);
      TryUrlsStep(h, p, m, urls, files);
      var r := TryUrls(h, p, m, urls, files);
      if r.result.Err? && p.filename in r.files && p.filename !in files && !h.fetch(urls[0]).FailedWriting? {
        assert p.filename !in next;
        var i :| 0 <= i < |rest| && h.fetch(rest[i]).FailedWriting?;
        assert urls[i + 1] == rest[i];
      }
    }
  }

  /** The loop writes no file but the package's own. */
  lemma {:induction false} TryUrlsOthersKept(h: Host, p: Package, m: Method, urls: seq<string>, files: Files)
    ensures OthersKept(files, TryUrls(h, p, m, urls, files).files, p.filename)
    decreases |urls|
  {
    if |urls| > 0 {
      if Good(h, m, urls[0]) {
        TryUrlsGoodHead(h, p, m, urls, files);
      } else {
        var next := AfterFirst(h, p, urls, files);
        TryUrlsStep(h, p, m, urls, files);
        TryUrlsOthersKept(h, p, m, urls[1..], next);
        OthersKeptTrans(files, next, TryUrls(h, p, m, urls, files).files, p.filename);
      }
    }
  }

  /** Files other than the target kept over two steps are kept over both. */
  lemma OthersKeptTrans(a: Files, b: Files, c: Files, target: string)
    requires OthersKept(a, b, target) && OthersKept(b, c, target)
    ensures OthersKept(a, c, target)
  {
  }

  /** What happened to one package. */
  datatype Status = Skipped | KeptExisting | Downloaded(url: string)

  /** Some URL of the package downloads and passes the package's check. */
  ghost predicate SomeGood(h: Host, p: Package) {
    exists i :: 0 <= i < |p.urls| && Good(h, Choose(p), p.urls[i])
  }

  /** `url` is the first of the package's URLs that downloads and passes the check. */
  ghost predicate FirstGoodUrl(h: Host, p: Package, url: string) {
    exists k :: 0 <= k < |p.urls| && p.urls[k] == url && Good(h, Choose(p), url)
                && forall j :: 0 <= j < k ==> !Good(h, Choose(p), p.urls[j])
  }

  /** A needed package none of whose URLs works, and the error naming it. */
  ghost predicate FailsWith(h: Host, p: Package, e: Raised) {
    !OtherPlatform(h, p) && !SomeGood(h, p) && e == NoUrlWorked(p)
  }

  /**
   * One iteration of the package loop of `download_packages`: skipped for
   * another platform, kept when a verified file is on disk (an unverified one
   * is deleted first), otherwise downloaded by the URL loop.
   */
  function Process(h: Host, p: Package, files: Files): (r: Step<Status>)
    ensures OtherPlatform(h, p) <==> r.result == Ok(Skipped)
    ensures r.result == Ok(Skipped) ==> r.files == files
    ensures r.result == Ok(KeptExisting) <==>
              !OtherPlatform(h, p) && p.filename in files && Keep(h, p, files[p.filename])
    ensures r.result == Ok(KeptExisting) ==> r.files == files
    ensures r.result.Ok? && r.result.value.Downloaded? ==>
              FirstGoodUrl(h, p, r.result.value.url) && p.filename in r.files && Passes(h, Choose(p), r.files[p.filename])
    ensures r.result.Err? <==>
              !OtherPlatform(h, p) && !(p.filename in files && Keep(h, p, files[p.filename])) && !SomeGood(h, p)
    ensures r.result.Err? ==> r.result.error == NoUrlWorked(p)
    ensures OthersKept(files, r.files, p.filename)
  {
    if OtherPlatform(h, p) then Step(files, Ok(Skipped))
    else if p.filename in files && Keep(h, p, files[p.filename]) then Step(files, Ok(KeptExisting))
    else
      var cleared := if p.filename in files then files - {p.filename} else files;
      var s := TryUrls(h, p, Choose(p), p.urls, cleared);
      TryUrlsFirstGood(h, p, Choose(p), p.urls, cleared);
      TryUrlsFiles(h, p, Choose(p), p.urls, cleared);
      if s.result.Err? then Step(s.files, Err(s.result.error))
      else
        assert FirstGoodUrl(h, p, p.urls[s.result.value]);
        Step(s.files, Ok(Downloaded(p.urls[s.result.value])))
  }

  /**
   * A file on disk that does not verify never survives a package that was
   * not skipped: after a download the file holds the verified body, and after
   * a failure it is gone unless a download that raised left part of a body.
   */
  lemma UnverifiedNotKept(h: Host, p: Package, files: Files)
    requires !OtherPlatform(h, p)
    requires p.filename in files && !Keep(h, p, files[p.filename])
    ensures Process(h, p, files).result.Ok? ==> Passes(h, Choose(p), Process(h, p, files).files[p.filename])
    ensures Process(h, p, files).result.Err? && p.filename in Process(h, p, files).files ==>
              exists i :: 0 <= i < |p.urls| && h.fetch(p.urls[i]).FailedWriting?
  {
    TryUrlsFiles(h, p, Choose(p), p.urls, files - {p.filename});
  }

  /**
   * `download_packages`: nothing happens without `packages.json`; otherwise
   * the packages are processed in order and the first failure is raised.
   */
  function DownloadAll(h: Host, packages: seq<Package>, files: Files): (r: Step<seq<Status>>)
    ensures r.result.Ok? ==> |r.result.value| == |packages|
    ensures r.result.Ok? ==> forall i :: 0 <= i < |packages| ==>
              (r.result.value[i] == Skipped <==> OtherPlatform(h, packages[i]))
    ensures r.result.Ok? ==> forall i :: 0 <= i < |packages| && r.result.value[i].Downloaded? ==>
              FirstGoodUrl(h, packages[i], r.result.value[i].url)
    ensures r.result.Err? ==> exists i :: 0 <= i < |packages| && FailsWith(h, packages[i], r.result.error)
    decreases |packages|
  {
    if |packages| == 0 then Step(files, Ok([]))
    else
      var first := Process(h, packages[0], files);
      if first.result.Err? then Step(first.files, Err(first.result.error))
      else
        var rest := DownloadAll(h, packages[1..], first.files);
        if rest.result.Err? then
          assert exists i :: 0 < i < |packages| && FailsWith(h, packages[i], rest.result.error) by {
            var i :| 0 <= i < |packages[1..]| && FailsWith(h, packages[1..][i], rest.result.error);
            assert packages[i + 1] == packages[1..][i];
          }
          Step(rest.files, Err(rest.result.error))
        else
          var statuses := [first.result.value] + rest.result.value;
          assert forall i :: 0 < i < |packages| ==> statuses[i] == rest.result.value[i - 1] && packages[i] == packages[1..][i - 1];
          Step(rest.files, Ok(statuses))
  }

  /**
   * Package `i` is where a run raises `e` first: the packages before it all
   * succeed, and processing it on the files they leave raises `e`.
   */
  ghost predicate FailsFirstAt(h: Host, packages: seq<Package>, files: Files, i: int, e: Raised) {
    && 0 <= i < |packages|
    && DownloadAll(h, packages[..i], files).result.Ok?
    && Process(h, packages[i], DownloadAll(h, packages[..i], files).files).result == Err(e)
  }

  /** The error a run raises is the first failure, at some package whose predecessors all succeed. */
  lemma {:induction false} DownloadAllFirstFailure(h: Host, packages: seq<Package>, files: Files)
    requires DownloadAll(h, packages, files).result.Err?
    ensures exists i :: FailsFirstAt(h, packages, files, i, DownloadAll(h, packages, files).result.error)
    decreases |packages|
  {
    var e := DownloadAll(h, packages, files).result.error;
    var first := Process(h, packages[0], files);
    if first.result.Err? {
      assert packages[..0] == [];
      assert FailsFirstAt(h, packages, files, 0, e);
    } else {
      DownloadAllFirstFailure(h, packages[1..], first.files);
      var j :| FailsFirstAt(h, packages[1..], first.files, j, e);
      FirstFailureShift(h, packages, files, j, e);
    }
  }

  /** A first failure in the rest of the list, after a first package that succeeds, is a first failure one place later. */
  lemma FirstFailureShift(h: Host, packages: seq<Package>, files: Files, j: int, e: Raised)
    requires |packages| > 0 && Process(h, packages[0], files).result.Ok?
    requires FailsFirstAt(h, packages[1..], Process(h, packages[0], files).files, j, e)
    ensures FailsFirstAt(h, packages, files, j + 1, e)
  {
    var prefix := packages[..j + 1];
    assert prefix[0] == packages[0];
    assert prefix[1..] == packages[1..][..j];
    PrefixStep(h, prefix, files);
    assert packages[1..][j] == packages[j + 1];
  }

  /** A run over a non-empty list whose first package succeeds continues with the rest on the files it left. */
  lemma PrefixStep(h: Host, packages: seq<Package>, files: Files)
    requires |packages| > 0 && Process(h, packages[0], files).result.Ok?
    requires DownloadAll(h, packages[1..], Process(h, packages[0], files).files).result.Ok?
    ensures DownloadAll(h, packages, files).result.Ok?
    ensures DownloadAll(h, packages, files).files
         == DownloadAll(h, packages[1..], Process(h, packages[0], files).files).files
  {
  }

  /** A package run in which every needed package has a URL that works never fails, whatever is on disk. */
  lemma {:induction false} GoodUrlsNeverFail(h: Host, packages: seq<Package>, files: Files)
    requires forall i :: 0 <= i < |packages| ==> OtherPlatform(h, packages[i]) || SomeGood(h, packages[i])
    ensures DownloadAll(h, packages, files).result.Ok?
    decreases |packages|
  {
    if |packages| > 0 {
      var first := Process(h, packages[0], files);
      assert forall i :: 0 <= i < |packages[1..]| ==> packages[1..][i] == packages[i + 1];
      GoodUrlsNeverFail(h, packages[1..], first.files);
    }
  }

  /** Without `packages.json` the downloader returns at once. */
  function DownloadPackages(h: Host, packages: Option<seq<Package>>, files: Files): (r: Step<seq<Status>>)
    ensures packages.None? ==> r == Step(files, Ok([]))
    ensures packages.Some? ==> r == DownloadAll(h, packages.value, files)
  {
    if packages.None? then Step(files, Ok([])) else DownloadAll(h, packages.value, files)
  }

  /** Packages all meant for other platforms never fail and leave the disk untouched. */
  lemma {:induction false} ForeignPackagesUntouched(h: Host, packages: seq<Package>, files: Files)
    requires forall i :: 0 <= i < |packages| ==> OtherPlatform(h, packages[i])
    ensures DownloadAll(h, packages, files).result.Ok?
    ensures DownloadAll(h, packages, files).files == files
    decreases |packages|
  {
    if |packages| > 0 {
      ForeignPackagesUntouched(h, packages[1..], files);
    }
  }

  // ---------------------------------------------------------------------------
  // Progress display and the copy loop
  // ---------------------------------------------------------------------------

  /**
   * `ProgressBar.call`: the amount shown is `block_num * block_size`; with a
   * known total (only a positive one counts as known) the bar finishes once
   * that amount reaches the total.
   */
  function Progress(totalSize: int, blockNum: int, blockSize: int): (r: Display)
    ensures r.Finish? <==> totalSize > 0 && blockNum * blockSize >= totalSize
    ensures r.Update? ==> r.downloaded == blockNum * blockSize
  {
    var downloaded := blockNum * blockSize;
    if totalSize <= 0 then Update(downloaded)
    else if downloaded < totalSize then Update(downloaded)
    else Finish
  }

  /** With a non-negative block size, a finished bar stays finished for every later block. */
  lemma ProgressStaysFinished(totalSize: int, k: int, later: int, blockSize: nat)
    requires k <= later
    requires Progress(totalSize, k, blockSize).Finish?
    ensures Progress(totalSize, later, blockSize).Finish?
  {
    assert k * blockSize <= later * blockSize by {
      assert (later - k) * blockSize >= 0;
    }
  }

  /** `shutil.COPY_BUFSIZE` on non-Windows platforms. */
  const CopyBufSize: nat := 64 * 1024

  /** The chunks read before the first empty one (end of stream). */
  function Taken(received: seq<Bytes>): (r: nat)
    ensures r <= |received|
    ensures forall i :: 0 <= i < r ==> |received[i]| > 0
    ensures r < |received| ==> |received[r]| == 0
  {
    if |received| == 0 || |received[0]| == 0 then 0 else 1 + Taken(received[1..])
  }

  /** The chunks joined in order. */
  function Concat(chunks: seq<Bytes>): Bytes {
    if |chunks| == 0 then [] else chunks[0] + Concat(chunks[1..])
  }

  lemma {:induction false} ConcatSnoc(chunks: seq<Bytes>, c: Bytes)
    ensures Concat(chunks + [c]) == Concat(chunks) + c
    decreases |chunks|
  {
    if |chunks| > 0 {
      assert (chunks + [c])[1..] == chunks[1..] + [c];
      ConcatSnoc(chunks[1..], c);
    }
  }

  /**
   * `mycopyfileobj`: chunks are read until an empty one (the stream running
   * out counts the same), each written in order and followed by one progress
   * callback for block numbers 1, 2, … with block size `length`, or
   * `COPY_BUFSIZE` when `length` is 0.
   */
  method CopyFile(received: seq<Bytes>, length: nat, totalSize: int) returns (written: Bytes, shown: seq<Display>)
    ensures written == Concat(received[..Taken(received)])
    ensures |shown| == Taken(received)
    ensures forall i :: 0 <= i < |shown| ==>
              shown[i] == Progress(totalSize, i + 1, if length == 0 then CopyBufSize else length)
  {
    var size := if length == 0 then CopyBufSize else length;
    written := [];
    shown := [];
    var blockNum := 0;
    while true
      invariant 0 <= blockNum <= Taken(received)
      invariant written == Concat(received[..blockNum])
      invariant |shown| == blockNum
      invariant forall i :: 0 <= i < blockNum ==> shown[i] == Progress(totalSize, i + 1, size)
      decreases |received| - blockNum
    {
      var buf: Bytes := if blockNum < |received| then received[blockNum] else [];
      blockNum := blockNum + 1;
      if |buf| == 0 {
        blockNum := blockNum - 1;
        break;
      }
      assert received[..blockNum] == received[..blockNum - 1] + [buf];
      ConcatSnoc(received[..blockNum - 1], buf);
      written := written + buf;
      shown := shown + [Progress(totalSize, blockNum, size)];
    }
    assert blockNum == Taken(received);
  }
}
