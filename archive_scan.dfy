/**
 * `getAvailableArchives`, shared by both repository tasks: the paths of
 * the `.zip` files (extension compared case-insensitively) in a directory
 * listing, in listing order, skipping "." and "..", and descending into
 * sub-directories only when asked to.
 */
module ArchiveScan {
  import opened Wrappers
  import opened Php
  import opened Environment

  /** `scandir` returned false for this directory. */
  datatype ScanError = ListingFailed(dir: string)

  predicate IsSpecial(name: string) {
    name == "." || name == ".."
  }

  /** `strcasecmp("zip", pathinfo($entry, PATHINFO_EXTENSION)) == 0`. */
  predicate IsZipName(name: string) {
    EqualsIgnoreCase("zip", Extension(name))
  }

  function PathIn(dir: string, name: string): string {
    dir + [Separator] + name
  }

  /**
   * The archives of a listing, accumulated entry by entry: a plain file
   * with a zip extension contributes its path, a sub-directory (when
   * recursive) contributes its own archives, in place.
   */
  function Collect(dir: string, entries: seq<DirEntry>, recursive: bool): (r: Result<seq<string>, ScanError>)
    decreases entries
  {
    if entries == [] then Success([])
    else
      var e := entries[|entries| - 1];
      match Collect(dir, entries[..|entries| - 1], recursive)
      case Failure(err) => Failure(err)
      case Success(prefix) =>
        if IsSpecial(e.name) then Success(prefix)
        else if e.SubDir? then
          if !recursive then Success(prefix)
          else match e.tree
            case Unreadable => Failure(ListingFailed(PathIn(dir, e.name)))
            case Dir(sub) =>
              match Collect(PathIn(dir, e.name), sub, recursive)
              case Failure(err) => Failure(err)
              case Success(found) => Success(prefix + found)
        else if IsZipName(e.name) then Success(prefix + [PathIn(dir, e.name)])
        else Success(prefix)
  }

  /** The archives below a directory whose listing is tree. */
  function Scan(dir: string, tree: DirTree, recursive: bool): (r: Result<seq<string>, ScanError>)
    ensures tree.Unreadable? ==> r == Failure(ListingFailed(dir))
  {
    match tree
    case Unreadable => Failure(ListingFailed(dir))
    case Dir(entries) => Collect(dir, entries, recursive)
  }

  /**
   * What entry i contributes, independently of order: its path when it is
   * a zip file other than "." and "..", or (when recursive) the archives of
   * the sub-directory it names.
   */
  predicate FoundAt(dir: string, entries: seq<DirEntry>, recursive: bool, p: string, i: int) {
    && 0 <= i < |entries|
    && !IsSpecial(entries[i].name)
    && (|| (entries[i].File? && IsZipName(entries[i].name) && p == PathIn(dir, entries[i].name))
        || (&& entries[i].SubDir? && recursive && entries[i].tree.Dir?
            && Collect(PathIn(dir, entries[i].name), entries[i].tree.entries, recursive).Success?
            && p in Collect(PathIn(dir, entries[i].name), entries[i].tree.entries, recursive).value))
  }

  /** One step of the accumulation: the last entry adds exactly what it contributes. */
  lemma CollectStep(dir: string, entries: seq<DirEntry>, recursive: bool, p: string)
    requires entries != [] && Collect(dir, entries, recursive).Success?
    ensures Collect(dir, entries[..|entries| - 1], recursive).Success?
    ensures p in Collect(dir, entries, recursive).value <==>
      || p in Collect(dir, entries[..|entries| - 1], recursive).value
      || FoundAt(dir, entries, recursive, p, |entries| - 1)
  {
    var e := entries[|entries| - 1];
    if !IsSpecial(e.name) && e.SubDir? && recursive && e.tree.Dir? {
      assert Collect(PathIn(dir, e.name), e.tree.entries, recursive).Success?;
    }
  }

  /** A successful scan finds exactly what the entries contribute. */
  lemma {:induction false} CollectExactlyFound(dir: string, entries: seq<DirEntry>, recursive: bool, p: string)
    requires Collect(dir, entries, recursive).Success?
    ensures p in Collect(dir, entries, recursive).value <==> exists i :: FoundAt(dir, entries, recursive, p, i)
    decreases |entries|
  {
    if entries == [] {
      assert Collect(dir, entries, recursive).value == [];
    } else {
      var n := |entries| - 1;
      var pre := entries[..n];
      CollectStep(dir, entries, recursive, p);
      CollectExactlyFound(dir, pre, recursive, p);
      var inPre := p in Collect(dir, pre, recursive).value;
      if inPre {
        var i :| FoundAt(dir, pre, recursive, p, i);
        assert pre[i] == entries[i];
        assert FoundAt(dir, entries, recursive, p, i);
      }
      if exists i :: FoundAt(dir, entries, recursive, p, i) {
        var i :| FoundAt(dir, entries, recursive, p, i);
        if i < n {
          assert pre[i] == entries[i];
          assert FoundAt(dir, pre, recursive, p, i);
        } else {
          assert i == n;
        }
      }
    }
  }

  /** Entry i is a plain zip file, not "." or "..", whose path is p. */
  predicate TopLevelZipAt(dir: string, entries: seq<DirEntry>, p: string, i: int) {
    && 0 <= i < |entries|
    && entries[i].File?
    && !IsSpecial(entries[i].name)
    && IsZipName(entries[i].name)
    && p == PathIn(dir, entries[i].name)
  }

  /** A listing error anywhere in a prefix of the entries is the error of the whole scan. */
  lemma {:induction false} CollectFailurePropagates(dir: string, entries: seq<DirEntry>, recursive: bool, k: nat)
    requires k <= |entries| && Collect(dir, entries[..k], recursive).Failure?
    ensures Collect(dir, entries, recursive) == Collect(dir, entries[..k], recursive)
    decreases |entries|
  {
    if k < |entries| {
      var pre := entries[..|entries| - 1];
      assert pre[..k] == entries[..k];
      CollectFailurePropagates(dir, pre, recursive, k);
    } else {
      assert entries[..k] == entries;
    }
  }

  /** Without recursion only top-level zip files are returned, in listing order, each at most once per entry. */
  lemma {:induction false} NonRecursiveTopLevel(dir: string, entries: seq<DirEntry>)
    ensures Collect(dir, entries, false).Success?
    ensures forall p :: p in Collect(dir, entries, false).value ==> exists i :: TopLevelZipAt(dir, entries, p, i)
    decreases entries
  {
    if entries != [] {
      var pre := entries[..|entries| - 1];
      NonRecursiveTopLevel(dir, pre);
      forall p | p in Collect(dir, entries, false).value
        ensures exists i :: TopLevelZipAt(dir, entries, p, i)
      {
        if p in Collect(dir, pre, false).value {
          var i :| TopLevelZipAt(dir, pre, p, i);
          assert entries[i] == pre[i];
          assert TopLevelZipAt(dir, entries, p, i);
        } else {
          assert TopLevelZipAt(dir, entries, p, |entries| - 1);
        }
      }
    }
  }

  /** Accumulating one more entry, with the sub-directory's archives given by `Scan`. */
  lemma CollectNext(dir: string, entries: seq<DirEntry>, i: nat, recursive: bool, prefix: seq<string>)
    requires i < |entries| && Collect(dir, entries[..i], recursive) == Success(prefix)
    ensures var e := entries[i];
      Collect(dir, entries[..i + 1], recursive) ==
        if IsSpecial(e.name) || (e.SubDir? && !recursive) || (e.File? && !IsZipName(e.name)) then Success(prefix)
        else if e.File? then Success(prefix + [PathIn(dir, e.name)])
        else match Scan(PathIn(dir, e.name), e.tree, recursive)
          case Failure(err) => Failure(err)
          case Success(found) => Success(prefix + found)
  {
    assert entries[..i + 1][..i] == entries[..i];
  }

  /**
   * `getAvailableArchives($searchDir, $recursive)`: walks the listing,
   * pushing zip paths and merging the results of sub-directories.
   */
  method GetAvailableArchives(searchDir: string, tree: DirTree, recursive: bool)
    returns (r: Result<seq<string>, ScanError>)
    ensures r == Scan(searchDir, tree, recursive)
    decreases tree
  {
    if tree.Unreadable? {
      return Failure(ListingFailed(searchDir));
    }
    var fileList := tree.entries;
    var result: seq<string> := [];
    for i := 0 to |fileList|
      invariant Collect(searchDir, fileList[..i], recursive) == Success(result)
    {
      CollectNext(searchDir, fileList, i, recursive, result);
      var fileEntry := fileList[i];
      if IsSpecial(fileEntry.name) {
        continue;
      }
      if fileEntry.SubDir? {
        if recursive {
          var found := GetAvailableArchives(PathIn(searchDir, fileEntry.name), fileEntry.tree, recursive);
          if found.Failure? {
            assert Collect(searchDir, fileList[..i + 1], recursive) == found;
            CollectFailurePropagates(searchDir, fileList, recursive, i + 1);
            return found;
          }
          result := result + found.value;
        }
      } else {
        if !IsZipName(fileEntry.name) {
          continue;
        }
        result := result + [PathIn(searchDir, fileEntry.name)];
      }
    }
    assert fileList[..|fileList|] == fileList;
    r := Success(result);
  }
}
