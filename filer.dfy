/** The filer provider: lists a directory as display strings (a directory
    gets a trailing path separator, an icon may be prepended), sorts them,
    and wraps the listing or its error in a response. */
module Filer {
  import opened Wrappers
  import opened Sorting

  /** `std::path::MAIN_SEPARATOR` on Unix-like systems. */
  const MainSeparator: char := '/'

  type Path = string

  /** One entry of a directory: its path, the final component of the path as
      UTF-8 text (`file_name()` then `to_str()`, `None` when either is
      absent), and whether the path is a directory. */
  datatype DirEntry = DirEntry(path: Path, fileName: Option<string>, isDir: bool)

  datatype IoError = IoError(message: string)

  /** A directory as `fs::read_dir` gives it: opening it may fail, and so may
      reading each entry. */
  type Directory = Result<seq<Result<DirEntry, IoError>>, IoError>

  /** `prepend_filer_icon(path, text)`: decorates `text` with an icon chosen
      from `path`. */
  type IconFn = (Path, string) -> string

  /** A path to be displayed, and whether to decorate it with an icon. */
  datatype DisplayPath = DisplayPath(inner: DirEntry, enableIcon: bool) {

    /** The file name, followed by the separator for a directory. */
    function Label(): (s: string)
      requires inner.fileName.Some?
      ensures inner.isDir ==> |s| == |inner.fileName.value| + 1 && s[|s| - 1] == MainSeparator
      ensures |s| >= |inner.fileName.value| && s[..|inner.fileName.value|] == inner.fileName.value
      ensures !inner.isDir ==> s == inner.fileName.value
    {
      if inner.isDir then inner.fileName.value + [MainSeparator] else inner.fileName.value
    }

    /** `DisplayPath::fmt`: the label, decorated by `icon` when icons are
        enabled. */
    function Fmt(icon: IconFn): (s: string)
      requires inner.fileName.Some?
      ensures !enableIcon ==> s == Label()
      ensures enableIcon ==> s == icon(inner.path, Label())
    {
      var pathStr := Label();
      if enableIcon then icon(inner.path, pathStr) else pathStr
    }
  }

  /** Recovers the file name and the directory flag from an undecorated
      label. */
  function ParseLabel(s: string): (nameAndDir: (string, bool))
    ensures nameAndDir.1 <==> |s| > 0 && s[|s| - 1] == MainSeparator
  {
    if |s| > 0 && s[|s| - 1] == MainSeparator then (s[..|s| - 1], true) else (s, false)
  }

  /** A file name never contains the separator, so the undecorated label
      keeps both the name and whether the entry is a directory. */
  lemma ParseLabelInverts(e: DirEntry)
    requires e.fileName.Some? && MainSeparator !in e.fileName.value
    ensures ParseLabel(DisplayPath(e, false).Fmt((p, t) => t)) == (e.fileName.value, e.isDir)
  {
    var name := e.fileName.value;
    var s := DisplayPath(e, false).Label();
    if e.isDir {
      assert s[..|s| - 1] == name;
    } else if |s| > 0 {
      assert s[|s| - 1] in name;
    }
  }

  /** Rust's `Ord` for strings: lexicographic, a proper prefix first. Rust
      compares the UTF-8 bytes, which orders exactly as the code points do. */
  function LexCmp(a: string, b: string): (o: Ordering)
    ensures o == Equal <==> a == b
  {
    if a == [] then (if b == [] then Equal else Less)
    else if b == [] then Greater
    else if a[0] < b[0] then Less
    else if a[0] > b[0] then Greater
    else
      assert a == [a[0]] + a[1..] && b == [b[0]] + b[1..];
      LexCmp(a[1..], b[1..])
  }

  lemma {:induction false} LexCmpAntisymmetric(a: string, b: string)
    ensures LexCmp(a, b) == Greater <==> LexCmp(b, a) == Less
  {
    if a != [] && b != [] && a[0] == b[0] {
      LexCmpAntisymmetric(a[1..], b[1..]);
    }
  }

  lemma {:induction false} LexCmpTransitive(a: string, b: string, c: string)
    requires LexCmp(a, b) != Greater && LexCmp(b, c) != Greater
    ensures LexCmp(a, c) != Greater
  {
    if a != [] && b != [] && c != [] && a[0] == b[0] == c[0] {
      LexCmpTransitive(a[1..], b[1..], c[1..]);
    }
  }

  lemma LexCmpIsTotalOrder()
    ensures IsTotalOrder(LexCmp)
  {
    forall a, b
      ensures LexCmp(a, b) == Greater <==> LexCmp(b, a) == Less
    {
      LexCmpAntisymmetric(a, b);
    }
    forall a, b, c | Precedes(LexCmp, a, b) && Precedes(LexCmp, b, c)
      ensures Precedes(LexCmp, a, c)
    {
      LexCmpTransitive(a, b, c);
    }
  }

  /** The entries `take(max)` lets through: the first `max`, or all. */
  function Consumed(entries: seq<Result<DirEntry, IoError>>, max: Option<nat>): (c: seq<Result<DirEntry, IoError>>)
    ensures max.Some? ==> |c| == if max.value < |entries| then max.value else |entries|
    ensures max.None? ==> |c| == |entries|
    ensures c == entries[..|c|]
  {
    match max
    case None => entries
    case Some(m) => if m < |entries| then entries[..m] else entries
  }

  /** The number of entries a lazy `collect` pulls through the formatting
      `map`: all of them, or those up to and including the first read
      error. */
  function Pulled(entries: seq<Result<DirEntry, IoError>>): (n: nat)
    ensures n <= |entries|
    ensures forall j :: 0 <= j < n && entries[j].Err? ==> j == n - 1
    ensures n < |entries| ==> n > 0 && entries[n - 1].Err?
  {
    if FirstError(entries) < |entries| then FirstError(entries) + 1 else |entries|
  }

  /** Every entry formatted before the first read error has a UTF-8 file
      name. Entries after that error are never formatted. */
  ghost predicate NamesPresent(entries: seq<Result<DirEntry, IoError>>) {
    forall i :: 0 <= i < FirstError(entries) ==> entries[i].value.fileName.Some?
  }

  /** The entries `collect` pulls, each formatted for display, the read
      error that stops it kept in place. */
  function Formatted(entries: seq<Result<DirEntry, IoError>>, enableIcon: bool, icon: IconFn): (f: seq<Result<string, IoError>>)
    requires NamesPresent(entries)
    ensures |f| == Pulled(entries)
    ensures forall i :: 0 <= i < |f| ==>
              match entries[i]
              case Err(e) => f[i] == Err(e)
              case Ok(entry) => entry.fileName.Some? && f[i] == Ok(DisplayPath(entry, enableIcon).Fmt(icon))
  {
    seq(Pulled(entries), i requires 0 <= i < Pulled(entries) =>
      match entries[i]
      case Err(e) => Err(e)
      case Ok(entry) => Ok(DisplayPath(entry, enableIcon).Fmt(icon)))
  }

  /** What `read_dir_entries` returns for `dir`: the error of opening the
      directory, else the first read error among the consumed entries, else
      their display strings in lexicographic order. */
  ghost predicate IsListing(r: Result<seq<string>, IoError>, dir: Directory, enableIcon: bool, max: Option<nat>, icon: IconFn)
    requires dir.Ok? ==> NamesPresent(Consumed(dir.value, max))
  {
    match dir
    case Err(e) => r == Err(e)
    case Ok(entries) =>
      var consumed := Consumed(entries, max);
      match CollectResults(Formatted(consumed, enableIcon, icon))
      case Err(e) => r == Err(e)
      case Ok(names) => r.Ok? && SortedBy(r.value, LexCmp) && multiset(r.value) == multiset(names)
  }

  /** `read_dir_entries`: formats the entries of `dir` (the first `max` of
      them when `max` is given), fails on the first read error among them,
      and sorts the display strings in place. */
  method ReadDirEntries(dir: Directory, enableIcon: bool, max: Option<nat>, icon: IconFn)
    returns (r: Result<seq<string>, IoError>)
    requires dir.Ok? ==> NamesPresent(Consumed(dir.value, max))
    ensures IsListing(r, dir, enableIcon, max, icon)
    ensures r.Ok? && max.Some? ==> |r.value| <= max.value
  {
    if dir.Err? {
      return Err(dir.error);
    }
    var consumed := Consumed(dir.value, max);
    ghost var formatted := Formatted(consumed, enableIcon, icon);
    var names: seq<string> := [];
    var i := 0;
    while i < |consumed|
      invariant 0 <= i <= |consumed|
      invariant |names| == i
      invariant forall k :: 0 <= k < i ==> consumed[k].Ok?
      invariant i <= |formatted|
      invariant forall k :: 0 <= k < i ==> formatted[k] == Ok(names[k])
    {
      match consumed[i]
      case Err(e) =>
        FirstErrorIsCollected(formatted, i);
        return Err(e);
      case Ok(entry) =>
        names := names + [DisplayPath(entry, enableIcon).Fmt(icon)];
      i := i + 1;
    }
    assert CollectResults(formatted).value == names;
    var entries := new string[|names|](k requires 0 <= k < |names| => names[k]);
    assert entries[..] == names;
    LexCmpIsTotalOrder();
    SortBy(entries, LexCmp);
    r := Ok(entries[..]);
    assert |r.value| == |multiset(r.value)| == |multiset(names)| == |consumed|;
  }

  /** The listing is determined by the directory: two results that meet
      `IsListing` for the same input are the same. */
  lemma ListingIsUnique(r1: Result<seq<string>, IoError>, r2: Result<seq<string>, IoError>,
                        dir: Directory, enableIcon: bool, max: Option<nat>, icon: IconFn)
    requires dir.Ok? ==> NamesPresent(Consumed(dir.value, max))
    requires IsListing(r1, dir, enableIcon, max, icon) && IsListing(r2, dir, enableIcon, max, icon)
    ensures r1 == r2
  {
    if r1.Ok? {
      LexCmpIsTotalOrder();
      SortedUnique(r1.value, r2.value, LexCmp);
    }
  }

  /** A successful listing is the one sorted arrangement of the display
      strings of the consumed entries. */
  lemma ListingIsSortedNames(r: Result<seq<string>, IoError>, entries: seq<Result<DirEntry, IoError>>,
                             enableIcon: bool, max: Option<nat>, icon: IconFn, sorted: seq<string>)
    requires NamesPresent(Consumed(entries, max))
    requires IsListing(r, Ok(entries), enableIcon, max, icon)
    requires var names := CollectResults(Formatted(Consumed(entries, max), enableIcon, icon));
             names.Ok? && multiset(names.value) == multiset(sorted)
    requires SortedBy(sorted, LexCmp)
    ensures r == Ok(sorted)
  {
    LexCmpIsTotalOrder();
    SortedUnique(r.value, sorted, LexCmp);
  }

  /** A listing holds one string per consumed entry: at most `max`, and
      exactly `max` when the directory has that many entries. */
  lemma ListingSize(r: Result<seq<string>, IoError>, entries: seq<Result<DirEntry, IoError>>,
                    enableIcon: bool, max: Option<nat>, icon: IconFn)
    requires NamesPresent(Consumed(entries, max))
    requires IsListing(r, Ok(entries), enableIcon, max, icon) && r.Ok?
    ensures max.None? ==> |r.value| == |entries|
    ensures max.Some? ==> |r.value| == if max.value < |entries| then max.value else |entries|
  {
    var names := CollectResults(Formatted(Consumed(entries, max), enableIcon, icon)).value;
    assert |r.value| == |multiset(r.value)| == |multiset(names)| == |names|;
  }

  /** A read error among the consumed entries fails the whole listing, and
      one beyond them does not matter. */
  lemma ListingFailsOnConsumedError(r: Result<seq<string>, IoError>, entries: seq<Result<DirEntry, IoError>>,
                                    enableIcon: bool, max: Option<nat>, icon: IconFn)
    requires NamesPresent(Consumed(entries, max))
    requires IsListing(r, Ok(entries), enableIcon, max, icon)
    ensures r.Err? <==> exists i :: 0 <= i < |Consumed(entries, max)| && entries[i].Err?
  {
    var consumed := Consumed(entries, max);
    var formatted := Formatted(consumed, enableIcon, icon);
    if exists i :: 0 <= i < |consumed| && entries[i].Err? {
      var i :| 0 <= i < |consumed| && entries[i].Err?;
      var n := FirstError(consumed);
      assert consumed[i] == entries[i] && n <= i;
      assert formatted[n].Err?;
    } else {
      assert forall i :: 0 <= i < |consumed| ==> consumed[i] == entries[i] && formatted[i].Ok?;
    }
  }

  /** Removing one entry from a directory without read errors removes the
      matching display string. */
  lemma FormattedRemoveAt(e: seq<Result<DirEntry, IoError>>, k: nat, enableIcon: bool, icon: IconFn)
    requires FirstError(e) == |e| && NamesPresent(e) && k < |e|
    ensures FirstError(RemoveAt(e, k)) == |e| - 1 && NamesPresent(RemoveAt(e, k))
    ensures Formatted(RemoveAt(e, k), enableIcon, icon) == RemoveAt(Formatted(e, enableIcon, icon), k)
  {
    var r := RemoveAt(e, k);
    NoErrorRemoveAt(e, k);
    var f, fr := Formatted(e, enableIcon, icon), Formatted(r, enableIcon, icon);
    assert |f| == |e| && |fr| == |r|;
    var g := RemoveAt(f, k);
    assert fr == g by {
      forall i | 0 <= i < |r|
        ensures fr[i] == g[i]
      {
        RemoveAtIndex(e, k, i);
        RemoveAtIndex(f, k, i);
        FormattedAgree(r, i, e, if i < k then i else i + 1, enableIcon, icon);
      }
    }
  }

  /** Entries that were read alike display alike. */
  lemma FormattedAgree(e1: seq<Result<DirEntry, IoError>>, i: nat, e2: seq<Result<DirEntry, IoError>>, j: nat,
                       enableIcon: bool, icon: IconFn)
    requires NamesPresent(e1) && NamesPresent(e2)
    requires i < |Formatted(e1, enableIcon, icon)| && j < |Formatted(e2, enableIcon, icon)|
    requires e1[i] == e2[j]
    ensures Formatted(e1, enableIcon, icon)[i] == Formatted(e2, enableIcon, icon)[j]
  {
  }

  /** Removing an entry from a directory without read errors leaves one
      without read errors, every name still present. */
  lemma NoErrorRemoveAt(e: seq<Result<DirEntry, IoError>>, k: nat)
    requires FirstError(e) == |e| && NamesPresent(e) && k < |e|
    ensures FirstError(RemoveAt(e, k)) == |e| - 1 && NamesPresent(RemoveAt(e, k))
  {
    var r := RemoveAt(e, k);
    forall i | 0 <= i < |r|
      ensures r[i].Ok? && r[i].value.fileName.Some?
    {
      assert r[i] == e[if i < k then i else i + 1];
    }
    NoErrorPullsAll(r);
  }

  lemma FormattedSplit(e: seq<Result<DirEntry, IoError>>, k: nat, enableIcon: bool, icon: IconFn)
    requires FirstError(e) == |e| && NamesPresent(e) && k < |e|
    ensures FirstError(RemoveAt(e, k)) == |e| - 1 && NamesPresent(RemoveAt(e, k))
    ensures multiset(Formatted(e, enableIcon, icon)) ==
            multiset(Formatted(RemoveAt(e, k), enableIcon, icon)) + multiset{Ok(DisplayPath(e[k].value, enableIcon).Fmt(icon))}
  {
    FormattedRemoveAt(e, k, enableIcon, icon);
  }

  /** Entries without read errors that are a permutation of each other
      display as a permutation of each other. */
  lemma {:induction false} FormattedPermutation(e1: seq<Result<DirEntry, IoError>>, e2: seq<Result<DirEntry, IoError>>,
                                                enableIcon: bool, icon: IconFn)
    requires FirstError(e1) == |e1| && NamesPresent(e1)
    requires FirstError(e2) == |e2| && NamesPresent(e2)
    requires multiset(e1) == multiset(e2)
    ensures multiset(Formatted(e1, enableIcon, icon)) == multiset(Formatted(e2, enableIcon, icon))
  {
    assert |e1| == |multiset(e1)| == |multiset(e2)| == |e2|;
    if e1 != [] {
      var k :| 0 <= k < |e2| && e2[k] == e1[0] by {
        assert e1[0] in multiset(e2);
      }
      FormattedSplit(e1, 0, enableIcon, icon);
      FormattedSplit(e2, k, enableIcon, icon);
      FormattedPermutation(RemoveAt(e1, 0), RemoveAt(e2, k), enableIcon, icon);
    }
  }

  /** `fs::read_dir` promises no order. With no `max` and no read error the
      order does not matter: the listing is the same for every enumeration
      order of the same entries. */
  lemma ListingIgnoresEnumerationOrder(r1: Result<seq<string>, IoError>, r2: Result<seq<string>, IoError>,
                                       e1: seq<Result<DirEntry, IoError>>, e2: seq<Result<DirEntry, IoError>>,
                                       enableIcon: bool, icon: IconFn)
    requires FirstError(e1) == |e1| && NamesPresent(e1) && multiset(e1) == multiset(e2)
    requires NamesPresent(e2)
    requires IsListing(r1, Ok(e1), enableIcon, None, icon) && IsListing(r2, Ok(e2), enableIcon, None, icon)
    ensures r1 == r2
  {
    assert FirstError(e2) == |e2| by {
      NoErrorPullsAll(e1);
      NoErrorPullsAll(e2);
      forall i | 0 <= i < |e2|
        ensures e2[i].Ok?
      {
        assert e2[i] in multiset(e1);
      }
    }
    var f1, f2 := Formatted(e1, enableIcon, icon), Formatted(e2, enableIcon, icon);
    assert multiset(CollectResults(f1).value) == multiset(CollectResults(f2).value) by {
      FormattedPermutation(e1, e2, enableIcon, icon);
      CollectedCounts(f1);
      CollectedCounts(f2);
    }
    LexCmpIsTotalOrder();
    SortedUnique(r1.value, r2.value, LexCmp);
  }

  /** A read error stops `collect` before a later entry is formatted: an
      unreadable entry followed by one without a UTF-8 name lists as that
      read error. */
  lemma ErrorStopsFormatting(r: Result<seq<string>, IoError>, e: IoError, p: Path, enableIcon: bool, icon: IconFn)
    ensures NamesPresent([Err(e), Ok(DirEntry(p, None, false))])
    ensures IsListing(r, Ok([Err(e), Ok(DirEntry(p, None, false))]), enableIcon, None, icon) <==> r == Err(e)
  {
    var entries: seq<Result<DirEntry, IoError>> := [Err(e), Ok(DirEntry(p, None, false))];
    assert FirstError(entries) == 0;
    FirstErrorIsCollected(Formatted(entries, enableIcon, icon), 0);
  }

  /** The test directory, enumerated with `Cargo.toml` first or last. */
  function CargoTomlAndSrc(cargoFirst: bool): (entries: seq<Result<DirEntry, IoError>>)
    ensures NamesPresent(entries)
  {
    var cargo := Ok(DirEntry("stdio_server/Cargo.toml", Some("Cargo.toml"), false));
    var src := Ok(DirEntry("stdio_server/src", Some("src"), true));
    if cargoFirst then [cargo, src] else [src, cargo]
  }

  lemma CargoTomlAndSrcNames(cargoFirst: bool, icon: IconFn)
    ensures CollectResults(Formatted(CargoTomlAndSrc(cargoFirst), false, icon)) ==
            Ok(if cargoFirst then ["Cargo.toml", "src/"] else ["src/", "Cargo.toml"])
  {
    var entries := CargoTomlAndSrc(cargoFirst);
    var formatted := Formatted(entries, false, icon);
    assert DisplayPath(entries[0].value, false).Fmt(icon) == if cargoFirst then "Cargo.toml" else "src/";
    assert DisplayPath(entries[1].value, false).Fmt(icon) == if cargoFirst then "src/" else "Cargo.toml";
    assert formatted[0] == if cargoFirst then Ok("Cargo.toml") else Ok("src/");
    assert formatted[1] == if cargoFirst then Ok("src/") else Ok("Cargo.toml");
    assert CollectResults(formatted).Ok?;
    var names := CollectResults(formatted).value;
    assert |names| == 2;
    assert names[0] == if cargoFirst then "Cargo.toml" else "src/";
    assert names[1] == if cargoFirst then "src/" else "Cargo.toml";
    assert names == if cargoFirst then ["Cargo.toml", "src/"] else ["src/", "Cargo.toml"];
  }

  /** In either enumeration order the display strings of the test
      directory are a permutation of `["Cargo.toml", "src/"]`, which is
      sorted. */
  lemma CargoTomlAndSrcSorted(cargoFirst: bool, icon: IconFn)
    ensures var names := CollectResults(Formatted(Consumed(CargoTomlAndSrc(cargoFirst), None), false, icon));
            names.Ok? && multiset(names.value) == multiset(["Cargo.toml", "src/"])
    ensures SortedBy(["Cargo.toml", "src/"], LexCmp)
  {
    CargoTomlAndSrcNames(cargoFirst, icon);
    assert multiset(["Cargo.toml", "src/"]) == multiset(["src/", "Cargo.toml"]);
    CargoTomlBeforeSrc();
  }

  lemma CargoTomlBeforeSrc()
    ensures SortedBy(["Cargo.toml", "src/"], LexCmp)
  {
    var a, b := "Cargo.toml", "src/";
    assert a[0] == 'C' && b[0] == 's';
    assert LexCmp(a, b) == Less;
  }

  /** A directory holding the file `Cargo.toml` and the directory `src`,
      enumerated in either order, lists as `["Cargo.toml", "src/"]` with
      icons disabled. */
  lemma ListsCargoTomlAndSrc(r: Result<seq<string>, IoError>, cargoFirst: bool, icon: IconFn)
    requires IsListing(r, Ok(CargoTomlAndSrc(cargoFirst)), false, None, icon)
    ensures r == Ok(["Cargo.toml", "src/"])
  {
    CargoTomlAndSrcSorted(cargoFirst, icon);
    ListingIsSortedNames(r, CargoTomlAndSrc(cargoFirst), false, None, icon, ["Cargo.toml", "src/"]);
  }

  /** The protocol message that asks for a listing of `cwd`. */
  datatype Message = Message(id: int, sessionId: int, providerId: string, cwd: Path)

  /** The JSON response: `result` with the listing, or `error`. */
  datatype ResponseBody =
    | ListingResult(entries: seq<string>, dir: Path, total: nat)
    | ErrorResult(message: string, dir: Path)

  datatype Response = Response(id: int, providerId: string, body: ResponseBody)

  /** The response `handle_filer_message` writes for a listing of `cwd`. */
  function FilerResponse(id: int, cwd: Path, listing: Result<seq<string>, IoError>): (resp: Response)
    ensures resp.id == id && resp.providerId == "filer" && resp.body.dir == cwd
    ensures resp.body.ListingResult? <==> listing.Ok?
    ensures resp.body.ListingResult? ==> resp.body.entries == listing.value && resp.body.total == |listing.value|
    ensures resp.body.ErrorResult? ==> resp.body.message == listing.error.message
  {
    match listing
    case Ok(entries) => Response(id, "filer", ListingResult(entries, cwd, |entries|))
    case Err(err) => Response(id, "filer", ErrorResult(err.message, cwd))
  }

  /** `handle_filer_message`: lists the whole directory `msg.cwd` (no
      `max`) and answers with the listing or with the error. `readDir`
      stands for the file system. */
  method HandleFilerMessage(msg: Message, readDir: Path -> Directory, enableIcon: bool, icon: IconFn)
    returns (resp: Response)
    requires readDir(msg.cwd).Ok? ==> NamesPresent(Consumed(readDir(msg.cwd).value, None))
    ensures resp.id == msg.id && resp.providerId == "filer" && resp.body.dir == msg.cwd
    ensures resp.body.ListingResult? ==>
              resp.body.total == |resp.body.entries| &&
              IsListing(Ok(resp.body.entries), readDir(msg.cwd), enableIcon, None, icon)
    ensures resp.body.ErrorResult? ==>
              IsListing(Err(IoError(resp.body.message)), readDir(msg.cwd), enableIcon, None, icon)
  {
    var cwd := msg.cwd;
    var result := ReadDirEntries(readDir(cwd), enableIcon, None, icon);
    resp := FilerResponse(msg.id, cwd, result);
  }

  /** The preview size on a cursor move: the provider's default, or half the
      preview window's height when that is larger. */
  function PreviewSize(providerPreviewSize: nat, previewWinheight: nat): (size: nat)
    ensures size >= providerPreviewSize && size >= previewWinheight / 2
    ensures size == providerPreviewSize || size == previewWinheight / 2
  {
    var half := previewWinheight / 2;
    if providerPreviewSize < half then half else providerPreviewSize
  }
}
