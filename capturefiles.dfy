/** The capture directory `/app/captures`: a flat set of named files, its `glob('*.jpg')`
    listing newest first, and which paths exist in it. */
module CaptureFiles {
  import opened Common
  import opened Strings
  import opened PurePaths
  import opened Timestamps

  /** `Path('/app/captures')`, already resolved. */
  const CapturesDir: Path := ["app", "captures"]

  /** The directory's files. The operating system refuses to remove the files in
      `readOnly` (a permission error). */
  class Directory {
    var files: map<string, Bytes>
    const readOnly: set<string>

    constructor (files: map<string, Bytes>, readOnly: set<string>)
      ensures this.files == files && this.readOnly == readOnly
    {
      this.files, this.readOnly := files, readOnly;
    }

    /** `os.remove` of the file `name` of this directory. */
    method Remove(name: string) returns (removed: bool)
      modifies this
      ensures removed <==> name in old(files) && name !in readOnly
      ensures files == if removed then old(files) - {name} else old(files)
    {
      removed := name in files && name !in readOnly;
      if removed {
        files := files - {name};
      }
    }
  }

  /** The pattern `*.jpg` of `Path.glob`, which does not skip hidden files. */
  predicate GlobJpg(name: string)
  {
    EndsWith(name, ".jpg")
  }

  /** `sorted(captures_dir.glob('*.jpg'), reverse=True)`, by name. */
  function Listing(files: map<string, Bytes>): (r: seq<string>)
    ensures forall n :: n in r <==> n in files && GlobJpg(n)
    ensures |r| == |set n | n in files && GlobJpg(n)|
    ensures forall i, j :: 0 <= i < j < |r| ==> Below(r[j], r[i])
  {
    SortedDescending(set n | n in files && GlobJpg(n))
  }

  /** `path.exists()` for a path inside the directory: the directory itself, or one of its
      files. The directory holds no sub-directories. */
  predicate Exists(p: Path, files: map<string, Bytes>)
  {
    p == CapturesDir || (|p| == |CapturesDir| + 1 && p[..|CapturesDir|] == CapturesDir && p[|CapturesDir|] in files)
  }

  lemma ExistsFile(name: string, files: map<string, Bytes>)
    ensures Exists(CapturesDir + [name], files) <==> name in files
  {
    assert (CapturesDir + [name])[..|CapturesDir|] == CapturesDir;
  }

  /** The listing shows the newest capture first: of two capture files, the one listed
      earlier was taken later. */
  lemma ListingNewestFirst(files: map<string, Bytes>, i: nat, j: nat, a: DateTime, b: DateTime)
    requires a.Valid() && b.Valid()
    requires i < j < |Listing(files)|
    requires Listing(files)[i] == CaptureName(a) && Listing(files)[j] == CaptureName(b)
    ensures Before(b, a)
  {
    CaptureNameOrder(b, a);
  }
}
