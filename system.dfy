/**
 * Path and file-name helpers of decloud/core/system.py. The file system is a
 * parameter: the list of paths a directory walk produced, or the set of files
 * that exist.
 */
module System {
  import opened PyStr
  import opened Wrappers

  const CompleteSuffix: string := ".complete"

  /** `pathify`: append the posix separator when it is missing. */
  function Pathify(pth: string): (r: string)
    ensures EndsWith(r, "/")
    ensures EndsWith(pth, "/") ==> r == pth
    ensures !EndsWith(pth, "/") ==> r == pth + "/"
  {
    if !EndsWith(pth, "/") then pth + "/" else pth
  }

  /** A path that already ends with "/" is left alone, so `pathify` is idempotent. */
  lemma PathifyIdempotent(pth: string)
    ensures Pathify(Pathify(pth)) == Pathify(pth)
  {
  }

  /** `new_bname`: the slice from the last "/" (inclusive) up to that slice's last ".", then "_" + suffix. */
  function NewBname(filename: string, suffix: string): (r: string)
  {
    var base := From(filename, RFind(filename, '/'));
    Upto(base, RFind(base, '.')) + "_" + suffix
  }

  /** On a path with a directory part and an extension, `new_bname` keeps "/" + stem and drops the extension. */
  lemma NewBnameOfPath(dir: string, stem: string, ext: string, suffix: string)
    requires '/' !in stem && '/' !in ext && '.' !in ext
    ensures NewBname(dir + "/" + stem + "." + ext, suffix) == "/" + stem + "_" + suffix
  {
    LastSlashPart(dir, stem, ext);
    LastDotPrefix(stem, ext);
  }

  /** The slice from the last "/" of dir/stem.ext is "/stem.ext". */
  lemma {:induction false} LastSlashPart(dir: string, stem: string, ext: string)
    requires '/' !in stem && '/' !in ext
    ensures var f := dir + "/" + stem + "." + ext; From(f, RFind(f, '/')) == "/" + stem + "." + ext
  {
    var tail := "/" + stem + "." + ext;
    var f := dir + tail;
    assert dir + "/" + stem + "." + ext == f;
    var k := |dir|;
    assert f[k] == '/';
    assert forall j :: k < j < |f| ==> f[j] != '/' by {
      forall j | k < j < |f| ensures f[j] != '/' {
        assert f[j] == tail[j - k];
        if j <= k + |stem| { assert tail[j - k] == stem[j - k - 1]; }
        else if j > k + |stem| + 1 { assert tail[j - k] == ext[j - k - |stem| - 2]; }
      }
    }
    RFindAt(f, '/', k);
    assert f[k..] == tail;
  }

  /** The slice of "/stem.ext" before its last "." is "/stem". */
  lemma {:induction false} LastDotPrefix(stem: string, ext: string)
    requires '.' !in ext
    ensures var t := "/" + stem + "." + ext; Upto(t, RFind(t, '.')) == "/" + stem
  {
    var t := "/" + stem + "." + ext;
    var k := 1 + |stem|;
    assert t[k] == '.';
    assert forall j :: k < j < |t| ==> t[j] != '.' by {
      forall j | k < j < |t| ensures t[j] != '.' {
        assert t[j] == ext[j - k - 1];
      }
    }
    RFindAt(t, '.', k);
    assert t[..k] == "/" + stem;
  }

  /** Without any "/", Python's `rfind` returns -1 and the slice keeps the final character only. */
  lemma NewBnameNoSlash(filename: string, suffix: string)
    requires |filename| > 0 && '/' !in filename
    ensures var last := filename[|filename| - 1..];
            NewBname(filename, suffix) == Upto(last, RFind(last, '.')) + "_" + suffix
  {
  }

  /** `remove_ext_filename`: the part before the last "?" (the OTB extended file name is dropped). */
  function RemoveExtFilename(filename: string): (r: string)
    ensures '?' !in filename ==> r == filename
    ensures '?' in filename ==>
              |r| < |filename| && r == filename[..|r|] && filename[|r|] == '?' &&
              '?' !in filename[|r| + 1..]
  {
    if '?' in filename then
      var k := RFind(filename, '?');
      var tail := filename[k + 1..];
      assert forall j :: 0 <= j < |tail| ==> tail[j] == filename[k + 1 + j];
      filename[..k]
    else filename
  }

  /** The name of the completion marker of `filename`. */
  function CompleteMarker(filename: string): (r: string)
    ensures EndsWith(r, CompleteSuffix)
  {
    RemoveExtFilename(filename) + CompleteSuffix
  }

  /** `declare_complete`: the marker file now exists. */
  function DeclareComplete(files: set<string>, filename: string): (r: set<string>)
    ensures r == files + {CompleteMarker(filename)}
  {
    files + {CompleteMarker(filename)}
  }

  /** `is_complete`: the marker file exists. */
  predicate IsComplete(files: set<string>, filename: string) {
    CompleteMarker(filename) in files
  }

  /** Declaring a file complete makes it complete, also when it is later named with extended options. */
  lemma {:induction false} DeclareThenIsComplete(files: set<string>, filename: string, options: string)
    requires '?' !in filename && '?' !in options
    ensures IsComplete(DeclareComplete(files, filename), filename)
    ensures IsComplete(DeclareComplete(files, filename), filename + "?" + options)
  {
    var f := filename + "?" + options;
    assert f[|filename|] == '?';
    assert forall j :: |filename| < j < |f| ==> f[j] == options[j - |filename| - 1];
    RFindAt(f, '?', |filename|);
    assert f[..|filename|] == filename;
  }

  /** `to_vsizip`: the GDAL virtual path of `relpth` inside the zip file `zipfn`. */
  function ToVsizip(zipfn: string, relpth: string): (r: string)
    ensures StartsWith(r, "/vsizip/") && |r| == 9 + |zipfn| + |relpth|
    ensures r[8..8 + |zipfn|] == zipfn && r[8 + |zipfn|] == '/' && r[9 + |zipfn|..] == relpth
  {
    "/vsizip/" + zipfn + "/" + relpth
  }

  /** The suffix filter of `get_files`: no (or an empty) `ext` keeps everything. */
  predicate Kept(path: string, ext: Option<string>) {
    ext.None? || ext.value == "" || EndsWith(Lower(path), Lower(ext.value))
  }

  /** The paths of `walked` that `get_files` keeps, in walk order. */
  function Selected(walked: seq<string>, ext: Option<string>): seq<string> {
    if |walked| == 0 then []
    else Selected(walked[..|walked| - 1], ext) + (if Kept(walked[|walked| - 1], ext) then [walked[|walked| - 1]] else [])
  }

  lemma {:induction false} SelectedMembers(walked: seq<string>, ext: Option<string>)
    ensures forall p :: p in Selected(walked, ext) <==> p in walked && Kept(p, ext)
    ensures |Selected(walked, ext)| <= |walked|
  {
    if |walked| > 0 {
      SelectedMembers(walked[..|walked| - 1], ext);
      assert walked == walked[..|walked| - 1] + [walked[|walked| - 1]];
    }
  }

  /** `get_files` over the joined paths a walk of the directory yields. */
  method GetFiles(walked: seq<string>, ext: Option<string>) returns (ret: seq<string>)
    ensures ret == Selected(walked, ext)
    ensures forall p :: p in ret <==> p in walked && Kept(p, ext)
    ensures (ext.None? || ext.value == "") ==> ret == walked
  {
    ret := [];
    var i := 0;
    while i < |walked|
      invariant 0 <= i <= |walked|
      invariant ret == Selected(walked[..i], ext)
      invariant (ext.None? || ext.value == "") ==> ret == walked[..i]
    {
      var filename := walked[i];
      if ext.Some? && ext.value != "" {
        if EndsWith(Lower(filename), Lower(ext.value)) {
          ret := ret + [filename];
        }
      } else {
        ret := ret + [filename];
      }
      assert walked[..i + 1][..i] == walked[..i];
      i := i + 1;
    }
    assert walked[..i] == walked;
    SelectedMembers(walked, ext);
  }
}
