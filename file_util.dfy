/** `FileUtil`: where picture files live and how they are copied. Paths are
    Unix `java.io.File` path strings; the file system is a set of directories
    and a map from file paths to contents, held by a `Disk`. */
module FileUtil {
  import opened Entities

  /** `File.separator` on Unix. */
  const Separator: string := "/"

  /** `FileUtil.IMAGES_DIRECTORY`. */
  const ImagesDirectory: string := "img"

  /** `SavePictureTask.BUFFER_LENGTH`, the size of the copy buffer. */
  const BufferLength: nat := 8192

  type byte = bv8

  // ---------------------------------------------------------------------
  // java.io.File path strings

  /** Drops every '/' that is directly followed by another '/'. */
  function Collapse(s: string): (r: string)
    ensures |r| <= |s|
    ensures |s| > 0 ==> |r| > 0 && r[0] == s[0]
  {
    if |s| <= 1 then s
    else if s[0] == '/' && s[1] == '/' then Collapse(s[1..])
    else [s[0]] + Collapse(s[1..])
  }

  /** `UnixFileSystem.normalize`: no repeated separators and no trailing
      separator, except that "/" stays "/". */
  function Normalize(s: string): string {
    var c := Collapse(s);
    if |c| > 1 && c[|c| - 1] == '/' then c[..|c| - 1] else c
  }

  /** `UnixFileSystem.resolve`: a child path resolved against its parent. */
  function Resolve(parent: string, child: string): (r: string)
    ensures |parent| <= |r| && r[..|parent|] == parent
    ensures |child| <= |r| && r[|r| - |child|..] == child
    ensures parent != "" && child != "" && child[0] != '/' ==> |parent| < |r|
  {
    if child == [] then parent
    else if child[0] == '/' then (if parent == "/" then child else parent + child)
    else if parent == "/" then parent + child
    else parent + "/" + child
  }

  /** The directory `new File(parent)` stands for when a child is resolved
      against it: its normalised path, or "/" for the empty path. */
  function DirectoryPath(parent: string): string {
    var p := Normalize(parent);
    if p == "" then "/" else p
  }

  /** The path of `new File(new File(parent), child)`. */
  function FileOf(parent: string, child: string): string {
    Resolve(DirectoryPath(parent), Normalize(child))
  }

  /** A single path component: not empty and free of separators. */
  predicate SingleName(s: string) {
    s != "" && '/' !in s
  }

  /** No separator in `s` is directly followed by another. */
  predicate SingleSeparators(s: string) {
    forall i :: 0 <= i < |s| - 1 ==> s[i] != '/' || s[i + 1] != '/'
  }

  /** A path with no two separators in a row is unchanged by `Collapse`. */
  lemma {:induction false} CollapseSingleSeparators(s: string)
    requires SingleSeparators(s)
    ensures Collapse(s) == s
    decreases |s|
  {
    if |s| > 1 {
      assert SingleSeparators(s[1..]) by {
        forall i | 0 <= i < |s[1..]| - 1
          ensures s[1..][i] != '/' || s[1..][i + 1] != '/'
        {
          assert s[1..][i] == s[i + 1] && s[1..][i + 1] == s[i + 2];
        }
      }
      CollapseSingleSeparators(s[1..]);
      assert [s[0]] + s[1..] == s;
    }
  }

  /** Appending a single component to a path in normal form that does not
      end in a separator keeps it in normal form. */
  lemma NormalJoin(dir: string, name: string)
    requires dir != "" && dir[|dir| - 1] != '/' && SingleSeparators(dir) && SingleName(name)
    ensures var s := dir + "/" + name; SingleSeparators(s) && s[|s| - 1] != '/' && Normalize(s) == s
  {
    var s := dir + "/" + name;
    assert SingleSeparators(s) by {
      forall i | 0 <= i < |s| - 1
        ensures s[i] != '/' || s[i + 1] != '/'
      {
        if i < |dir| - 1 {
          assert s[i] == dir[i] && s[i + 1] == dir[i + 1];
        } else if i == |dir| - 1 {
          assert s[i] == dir[|dir| - 1];
        } else {
          assert s[i + 1] == name[i - |dir|];
        }
      }
    }
    CollapseSingleSeparators(s);
    assert s[|s| - 1] == name[|name| - 1];
  }

  /** Resolving "dir/name" against a directory is resolving `name` against
      `dir` resolved against that directory. */
  lemma ResolveJoin(base: string, dir: string, name: string)
    requires base != "" && dir != "" && dir[0] != '/' && name != "" && name[0] != '/'
    ensures Resolve(base, dir + "/" + name) == Resolve(Resolve(base, dir), name)
  {
    var child := dir + "/" + name;
    assert child[0] == dir[0];
    if base == "/" {
      assert base + child == (base + dir) + "/" + name;
    } else {
      assert base + "/" + child == (base + "/" + dir) + "/" + name;
    }
  }

  /** Position of the last '/' in `s`, or -1. */
  function LastSeparator(s: string): (r: int)
    ensures -1 <= r < |s|
    ensures r >= 0 ==> s[r] == '/'
    ensures forall j :: r < j < |s| ==> s[j] != '/'
  {
    if s == [] then -1
    else if s[|s| - 1] == '/' then |s| - 1
    else LastSeparator(s[..|s| - 1])
  }

  /** `File.getParent` on Unix: everything before the last separator, the
      root for a path directly under it, and null when there is none. */
  function Parent(p: string): (r: Option<string>)
    ensures r.Some? ==> |r.value| < |p|
  {
    var prefix := if |p| > 0 && p[0] == '/' then 1 else 0;
    var i := LastSeparator(p);
    if i < prefix then (if prefix > 0 && |p| > prefix then Some(p[..prefix]) else None)
    else Some(p[..i])
  }

  /** `File.getName`: the last component of a path. */
  function FileName(p: string): (name: string)
    ensures '/' !in name
    ensures |name| <= |p| && name == p[|p| - |name|..]
  {
    p[LastSeparator(p) + 1..]
  }

  /** `getImageFile`: a stored image path under the working directory. The
      file lies under the working directory and ends with the normalised
      image path. */
  function GetImageFile(workingDir: string, imagePath: string): (f: string)
    ensures var d := DirectoryPath(workingDir); |d| <= |f| && f[..|d|] == d
    ensures var p := Normalize(imagePath); |p| <= |f| && f[|f| - |p|..] == p
  {
    FileOf(workingDir, imagePath)
  }

  /** `getNewImageFile`: "img", the title and the image name, under the
      working directory. For a title and a name that are single components,
      the file is named after the image and sits in the cartoon's image
      directory. */
  function GetNewImageFile(workingDir: string, cartoonTitle: string, imageName: string): (f: string)
    ensures SingleName(cartoonTitle) && SingleName(imageName) ==>
              Parent(f) == Some(CartoonDir(workingDir, cartoonTitle)) && FileName(f) == imageName
  {
    NewImageFileLayout(workingDir, cartoonTitle, imageName);
    FileOf(workingDir, ImagesDirectory + Separator + cartoonTitle + Separator + imageName)
  }

  /** The path `getNewImageFile` builds is the image name resolved against
      the cartoon's image directory. */
  lemma NewImageFileLayout(workingDir: string, cartoonTitle: string, imageName: string)
    ensures SingleName(cartoonTitle) && SingleName(imageName) ==>
              var f := FileOf(workingDir, ImagesDirectory + Separator + cartoonTitle + Separator + imageName);
              Parent(f) == Some(CartoonDir(workingDir, cartoonTitle)) && FileName(f) == imageName
  {
    if SingleName(cartoonTitle) && SingleName(imageName) {
      var dir := ImagesDirectory + Separator + cartoonTitle;
      var rel := dir + Separator + imageName;
      assert SingleSeparators(ImagesDirectory);
      NormalJoin(ImagesDirectory, cartoonTitle);
      NormalJoin(dir, imageName);
      var base := DirectoryPath(workingDir);
      ResolveJoin(base, dir, imageName);
      ParentOfChild(Resolve(base, dir), imageName);
    }
  }

  /** `getNewImagePath`: the path recorded in the database. */
  function GetNewImagePath(cartoonTitle: string, imageName: string): (path: string)
    ensures |path| == |cartoonTitle| + |imageName| + 6
    ensures path[..5] == "/img/"
    ensures path[5..5 + |cartoonTitle|] == cartoonTitle
    ensures path[5 + |cartoonTitle|] == '/'
    ensures path[6 + |cartoonTitle|..] == imageName
  {
    Separator + ImagesDirectory + Separator + cartoonTitle + Separator + imageName
  }

  /** The images directory of the application. */
  function ImagesDir(workingDir: string): string {
    FileOf(workingDir, ImagesDirectory)
  }

  /** The images directory of one cartoon. */
  function CartoonDir(workingDir: string, cartoonTitle: string): string {
    FileOf(workingDir, ImagesDirectory + Separator + cartoonTitle)
  }

  /** A leading separator survives normalisation unchanged. */
  lemma NormalizeUnderRoot(x: string)
    requires x != [] && x[0] != '/'
    ensures Normalize("/" + x) == "/" + Normalize(x)
  {
    var s := "/" + x;
    assert s[1..] == x;
    assert Collapse(s) == "/" + Collapse(x);
  }

  /** The path stored for a new picture locates the file it was copied to:
      `getImageFile(getNewImagePath(t, n))` is `getNewImageFile(t, n)`. */
  lemma StoredPathLocatesNewFile(workingDir: string, cartoonTitle: string, imageName: string)
    ensures GetImageFile(workingDir, GetNewImagePath(cartoonTitle, imageName))
            == GetNewImageFile(workingDir, cartoonTitle, imageName)
  {
    var relative := ImagesDirectory + Separator + cartoonTitle + Separator + imageName;
    assert GetNewImagePath(cartoonTitle, imageName) == "/" + relative;
    NormalizeUnderRoot(relative);
  }

  /** A single-component child's parent is the directory it was resolved
      against. */
  lemma ParentOfChild(parent: string, name: string)
    requires parent != "" && name != "" && '/' !in name
    ensures Parent(Resolve(parent, name)) == Some(parent)
    ensures FileName(Resolve(parent, name)) == name
  {
    var p := Resolve(parent, name);
    if parent == "/" {
      assert p == "/" + name;
      assert p[0] == '/';
      assert LastSeparator(p) == 0 by {
        assert forall j :: 0 < j < |p| ==> p[j] == name[j - 1];
      }
    } else {
      assert p == parent + "/" + name;
      assert p[|parent|] == '/';
      assert LastSeparator(p) == |parent| by {
        assert forall j :: |parent| < j < |p| ==> p[j] == name[j - |parent| - 1];
      }
      assert p[..|parent|] == parent;
      assert p[|parent| + 1..] == name;
    }
  }

  /** The images directory sits directly in the working directory, the
      cartoon's directory is not the working directory, and for a title that
      is a single component the images directory is the parent of the
      cartoon's directory. */
  lemma ImageDirectoriesLayout(workingDir: string, cartoonTitle: string)
    ensures Parent(ImagesDir(workingDir)) == Some(DirectoryPath(workingDir))
    ensures Parent(ImagesDir(workingDir)) != Some(CartoonDir(workingDir, cartoonTitle))
    ensures SingleName(cartoonTitle) ==> Parent(CartoonDir(workingDir, cartoonTitle)) == Some(ImagesDir(workingDir))
  {
    var base := DirectoryPath(workingDir);
    assert Collapse(ImagesDirectory) == ImagesDirectory;
    assert Normalize(ImagesDirectory) == ImagesDirectory;
    ParentOfChild(base, ImagesDirectory);
    var child := Normalize(ImagesDirectory + Separator + cartoonTitle);
    assert child != "" && child[0] == 'i';
    assert |base| < |CartoonDir(workingDir, cartoonTitle)|;
    if SingleName(cartoonTitle) {
      CartoonDirInImagesDir(workingDir, cartoonTitle);
    }
  }

  /** The cartoon's directory is its title resolved against the images
      directory. */
  lemma CartoonDirInImagesDir(workingDir: string, cartoonTitle: string)
    requires SingleName(cartoonTitle)
    ensures CartoonDir(workingDir, cartoonTitle) == Resolve(ImagesDir(workingDir), cartoonTitle)
    ensures Parent(CartoonDir(workingDir, cartoonTitle)) == Some(ImagesDir(workingDir))
  {
    var base := DirectoryPath(workingDir);
    assert SingleSeparators(ImagesDirectory);
    CollapseSingleSeparators(ImagesDirectory);
    NormalJoin(ImagesDirectory, cartoonTitle);
    ResolveJoin(base, ImagesDirectory, cartoonTitle);
    ParentOfChild(ImagesDir(workingDir), cartoonTitle);
  }

  // ---------------------------------------------------------------------
  // The copy loop

  /** A buffer as `new byte[BUFFER_LENGTH]` allocates it. */
  function Zeros(): (b: seq<byte>)
    ensures |b| == BufferLength && forall i :: 0 <= i < |b| ==> b[i] == 0
  {
    seq(BufferLength, _ => 0)
  }

  /** What `copyImage` writes when `s` is still to be read and `buffer`
      holds the previous read: each read fills the front of the buffer and
      the whole buffer is written. */
  function WrittenCopy(s: seq<byte>, buffer: seq<byte>): seq<byte>
    requires |buffer| == BufferLength
    decreases |s|
  {
    if s == [] then []
    else
      var count := if |s| < BufferLength then |s| else BufferLength;
      var filled := s[..count] + buffer[count..];
      filled + WrittenCopy(s[count..], filled)
  }

  /** The output of the copy loop is whole buffers: it starts with the input
      and each byte past the input repeats the byte one buffer earlier, or
      the buffer's initial content in the first buffer. */
  lemma {:induction false} WrittenCopyShape(s: seq<byte>, buffer: seq<byte>)
    requires |buffer| == BufferLength
    ensures var r := WrittenCopy(s, buffer);
            && |r| % BufferLength == 0
            && |s| <= |r| && (s == [] ==> r == []) && (s != [] ==> |r| < |s| + BufferLength)
            && r[..|s|] == s
            && forall i :: |s| <= i < |r| ==> r[i] == (if i >= BufferLength then r[i - BufferLength] else buffer[i])
    decreases |s|
  {
    if s != [] {
      var count := if |s| < BufferLength then |s| else BufferLength;
      var filled := s[..count] + buffer[count..];
      var rest := WrittenCopy(s[count..], filled);
      var r := WrittenCopy(s, buffer);
      assert r == filled + rest;
      if count < BufferLength {
        assert s[count..] == [];
        assert r == filled;
      } else {
        WrittenCopyShape(s[count..], filled);
        assert r[..|s|] == filled + rest[..|s| - BufferLength];
        assert s == s[..count] + s[count..];
        forall i {:trigger r[i]} | |s| <= i < |r|
          ensures i >= BufferLength && r[i] == r[i - BufferLength]
        {
          assert r[i] == rest[i - BufferLength];
        }
      }
    }
  }

  /** What `copyImage` writes for an original with content `s`. */
  function CopyOutput(s: seq<byte>): (r: seq<byte>)
    ensures |r| % BufferLength == 0 && |s| <= |r| && (s != [] ==> |r| < |s| + BufferLength)
    ensures s == [] ==> r == []
    ensures r[..|s|] == s
    ensures forall i :: |s| <= i < |r| ==> r[i] == (if i >= BufferLength then r[i - BufferLength] else 0)
  {
    WrittenCopyShape(s, Zeros());
    WrittenCopy(s, Zeros())
  }

  /** The copy loop of `copyImage` as written: after every read that does
      not report the end of the stream, the whole buffer is written, however
      few bytes the read filled. */
  method CopyBytes(original: seq<byte>) returns (out: seq<byte>)
    ensures out == CopyOutput(original)
  {
    var buffer := new byte[BufferLength](_ => 0);
    out := [];
    var pos := 0;
    while pos < |original|
      invariant 0 <= pos <= |original|
      invariant out + WrittenCopy(original[pos..], buffer[..]) == CopyOutput(original)
      decreases |original| - pos
    {
      var count := if |original| - pos < BufferLength then |original| - pos else BufferLength;
      ghost var previous := buffer[..];
      forall j | 0 <= j < count {
        buffer[j] := original[pos + j];
      }
      assert buffer[..] == original[pos..][..count] + previous[count..];
      assert original[pos..][count..] == original[pos + count..];
      out := out + buffer[..];
      pos := pos + count;
    }
  }

  /** The copy loop writing only the bytes each read returned. */
  method CopyBytesExact(original: seq<byte>) returns (out: seq<byte>)
    ensures out == original
  {
    var buffer := new byte[BufferLength](_ => 0);
    out := [];
    var pos := 0;
    while pos < |original|
      invariant 0 <= pos <= |original|
      invariant out == original[..pos]
      decreases |original| - pos
    {
      var count := if |original| - pos < BufferLength then |original| - pos else BufferLength;
      forall j | 0 <= j < count {
        buffer[j] := original[pos + j];
      }
      out := out + buffer[..count];
      assert original[..pos + count] == original[..pos] + original[pos..pos + count];
      pos := pos + count;
    }
  }

  /** A one-byte picture is written out as a whole buffer: 8192 bytes, one
      of them the picture's. */
  lemma OneBytePictureIsPadded(b: byte)
    ensures |CopyOutput([b])| == BufferLength
    ensures CopyOutput([b]) != [b]
  {
    var r := CopyOutput([b]);
    assert |r| % BufferLength == 0 && 1 <= |r| < 1 + BufferLength;
  }

  /** The exception `copyImage` rethrows. */
  const CopyFailure: string := "An exception occurred while copying the image."

  /** The file system the application works on. */
  class Disk {
    var dirs: set<string>
    var files: map<string, seq<byte>>

    /** No path is both a directory and a file. */
    ghost predicate Valid()
      reads this
    {
      forall p :: p in dirs ==> p !in files
    }

    constructor (dirs: set<string>)
      ensures Valid() && this.dirs == dirs && files == map[]
    {
      this.dirs := dirs;
      files := map[];
    }

    /** `File.exists` and `File.isDirectory` together: `mkdir` is tried
        unless the path is already a directory, and `mkdir` succeeds only
        when nothing is at the path and the parent directory exists. */
    static function MkdirIfMissing(dirs: set<string>, files: map<string, seq<byte>>, p: string): (r: set<string>)
      ensures dirs <= r <= dirs + {p}
      ensures p in r <==> p in dirs || (p !in files && (Parent(p).None? || Parent(p).value in dirs))
    {
      if p !in dirs && p !in files && (Parent(p).None? || Parent(p).value in dirs) then dirs + {p} else dirs
    }

    /** The directories after `createCartoonImageDirectory`. */
    static function WithImageDirectories(dirs: set<string>, files: map<string, seq<byte>>,
                                         workingDir: string, cartoonTitle: string): set<string>
    {
      MkdirIfMissing(MkdirIfMissing(dirs, files, ImagesDir(workingDir)), files, CartoonDir(workingDir, cartoonTitle))
    }

    /** `createCartoonImageDirectory`: "img" and then "img/title" under the
        working directory, each created only if missing. */
    method CreateCartoonImageDirectory(workingDir: string, cartoonTitle: string)
      requires Valid()
      modifies this
      ensures Valid()
      ensures dirs == WithImageDirectories(old(dirs), files, workingDir, cartoonTitle)
      ensures files == old(files)
    {
      var images := ImagesDir(workingDir);
      if images !in dirs {
        if images !in files && (Parent(images).None? || Parent(images).value in dirs) {
          dirs := dirs + {images};
        }
      }
      var cartoon := CartoonDir(workingDir, cartoonTitle);
      if cartoon !in dirs {
        if cartoon !in files && (Parent(cartoon).None? || Parent(cartoon).value in dirs) {
          dirs := dirs + {cartoon};
        }
      }
    }

    /** `File.delete` on a picture file: true when the file was there and
        is now gone. */
    method DeleteImage(path: string) returns (deleted: bool)
      requires Valid()
      modifies this
      ensures Valid()
      ensures deleted <==> path in old(files)
      ensures files == old(files) - {path} && dirs == old(dirs)
    {
      deleted := path in files;
      files := files - {path};
    }

    /** `copyImage`: fails with the fixed message when the original cannot be
        read or the new file cannot be created, and otherwise writes the
        original's bytes to the new file. */
    method CopyImage(original: string, newFile: string) returns (error: Option<string>)
      requires Valid()
      modifies this
      ensures Valid()
      ensures error.None? <==> CanCopy(old(dirs), old(files), original, newFile)
      ensures error.Some? ==> error.value == CopyFailure && files == old(files)
      ensures error.None? ==> files == old(files)[newFile := old(files)[original]]
      ensures dirs == old(dirs)
    {
      if !CanCopy(dirs, files, original, newFile) {
        return Some(CopyFailure);
      }
      var bytes := CopyBytesExact(files[original]);
      files := files[newFile := bytes];
      error := None;
    }
  }

  /** `FileInputStream` opens an existing regular file; `FileOutputStream`
      creates or truncates a path that is not a directory and whose parent
      directory exists. */
  predicate CanCopy(dirs: set<string>, files: map<string, seq<byte>>, original: string, newFile: string) {
    && original in files
    && newFile !in dirs
    && (Parent(newFile).None? || Parent(newFile).value in dirs)
  }

  /** A second `createCartoonImageDirectory` changes nothing. */
  lemma CreateDirectoriesIdempotent(dirs: set<string>, files: map<string, seq<byte>>,
                                    workingDir: string, cartoonTitle: string)
    ensures var once := Disk.WithImageDirectories(dirs, files, workingDir, cartoonTitle);
            Disk.WithImageDirectories(once, files, workingDir, cartoonTitle) == once
  {
    var images := ImagesDir(workingDir);
    var cartoon := CartoonDir(workingDir, cartoonTitle);
    ImageDirectoriesLayout(workingDir, cartoonTitle);
    var d1 := Disk.MkdirIfMissing(dirs, files, images);
    var d2 := Disk.MkdirIfMissing(d1, files, cartoon);
    var d3 := Disk.MkdirIfMissing(d2, files, images);
    assert d3 == d2 by {
      if images !in d2 && images !in files {
        assert Parent(images).value !in dirs;
        assert Parent(images).value !in d2;
      }
    }
  }

  /** In a working directory that exists, with no files in the way, both
      image directories exist afterwards. */
  lemma CreateDirectoriesMakesBoth(dirs: set<string>, files: map<string, seq<byte>>,
                                   workingDir: string, cartoonTitle: string)
    requires DirectoryPath(workingDir) in dirs && SingleName(cartoonTitle)
    requires ImagesDir(workingDir) !in files && CartoonDir(workingDir, cartoonTitle) !in files
    ensures var after := Disk.WithImageDirectories(dirs, files, workingDir, cartoonTitle);
            ImagesDir(workingDir) in after && CartoonDir(workingDir, cartoonTitle) in after
  {
    ImageDirectoriesLayout(workingDir, cartoonTitle);
  }
}
