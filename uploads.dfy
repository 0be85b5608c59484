/**
 * The file-name rules of image upload: the extension allow-list of
 * `allowed_file` and the storage path `<user id>/<date>/<prefix>_<name>`.
 */
module Uploads {
  import opened Text

  /** `ALLOWED_EXTENSIONS`. */
  const EXTENSIONS: set<string> := {"png", "jpg", "jpeg", "gif", "webp"}

  /** `name.rsplit(".", 1)[1]`: the text after the last dot. */
  function AfterLastDot(name: string): (r: string)
    requires '.' in name
    ensures |r| < |name| && name[|name| - |r| - 1] == '.'
    ensures r == name[|name| - |r|..] && '.' !in r
  {
    if name[|name| - 1] == '.' then []
    else
      var init := name[..|name| - 1];
      assert '.' in init by {
        var k :| 0 <= k < |name| && name[k] == '.';
        assert init[k] == '.';
      }
      AfterLastDot(init) + [name[|name| - 1]]
  }

  /** `allowed_file(name)`. */
  predicate AllowedFile(name: string)
  {
    '.' in name && Lower(AfterLastDot(name)) in EXTENSIONS
  }

  /**
   * `allowed_file` read as a statement about the name: there is a dot, and the
   * text after the last dot, lower-cased, is an allowed extension.
   */
  lemma {:induction false} AllowedFileIff(name: string)
    ensures AllowedFile(name) <==>
            exists i :: 0 <= i < |name| && name[i] == '.' && '.' !in name[i + 1..] && Lower(name[i + 1..]) in EXTENSIONS
  {
    if AllowedFile(name) {
      var r := AfterLastDot(name);
      var i := |name| - |r| - 1;
      assert name[i + 1..] == r;
    }
    if exists i :: 0 <= i < |name| && name[i] == '.' && '.' !in name[i + 1..] && Lower(name[i + 1..]) in EXTENSIONS {
      var i :| 0 <= i < |name| && name[i] == '.' && '.' !in name[i + 1..] && Lower(name[i + 1..]) in EXTENSIONS;
      assert '.' in name;
      var r := AfterLastDot(name);
      assert name[i + 1..] == r;
    }
  }

  /** The extension of `stem + "." + ext` is `ext` when `ext` has no dot, whatever the stem holds. */
  lemma {:induction false} AfterLastDotOf(stem: string, ext: string)
    requires '.' !in ext
    ensures '.' in stem + "." + ext
    ensures AfterLastDot(stem + "." + ext) == ext
  {
    var name := stem + "." + ext;
    assert name[|stem|] == '.';
    if ext != [] {
      var init := ext[..|ext| - 1];
      assert name[..|name| - 1] == stem + "." + init;
      AfterLastDotOf(stem, init);
      assert ext == init + [ext[|ext| - 1]];
    }
  }

  /** A name whose last extension, lower-cased, is an allowed one is accepted, whatever the stem holds. */
  lemma AcceptsExtension(stem: string, ext: string)
    requires '.' !in ext && Lower(ext) in EXTENSIONS
    ensures AllowedFile(stem + "." + ext)
  {
    AfterLastDotOf(stem, ext);
  }

  /** A mixed-case image name is accepted. */
  lemma AcceptsMixedCase()
    ensures AllowedFile("photo.PNG")
  {
    assert "photo" + "." + "PNG" == "photo.PNG";
    assert Lower("PNG") == "png";
    AcceptsExtension("photo", "PNG");
  }

  /** A name whose last extension, lower-cased, is not an allowed one is refused, whatever the stem holds. */
  lemma RefusesExtension(stem: string, ext: string)
    requires '.' !in ext && Lower(ext) !in EXTENSIONS
    ensures !AllowedFile(stem + "." + ext)
  {
    AfterLastDotOf(stem, ext);
  }

  /** An executable is refused. */
  lemma RefusesExecutable()
    ensures !AllowedFile("payload.exe")
  {
    assert "payload" + "." + "exe" == "payload.exe";
    assert Lower("exe")[0] == 'e';
    RefusesExtension("payload", "exe");
  }

  /** An image extension followed by another extension is refused: only the last one counts. */
  lemma RefusesDoubleExtension()
    ensures !AllowedFile("a.png.exe")
  {
    assert "a.png" + "." + "exe" == "a.png.exe";
    assert Lower("exe")[0] == 'e';
    RefusesExtension("a.png", "exe");
  }

  /** A name without a dot is refused. */
  lemma RefusesNoExtension()
    ensures !AllowedFile("noext")
  {
    assert forall i :: 0 <= i < |"noext"| ==> "noext"[i] != '.';
  }

  /** The upload loop saves a file when it has a name and `allowed_file` accepts it. */
  predicate Saves(name: string)
  {
    name != "" && AllowedFile(name)
  }

  /** The names of the files the upload loop saves, in order. */
  function Accepted(names: seq<string>): (r: seq<string>)
    ensures |r| <= |names|
    ensures forall k :: 0 <= k < |r| ==> Saves(r[k])
  {
    if names == [] then []
    else
      var init := names[..|names| - 1];
      var last := names[|names| - 1];
      assert names == init + [last];
      Accepted(init) + (if Saves(last) then [last] else [])
  }

  /** The loop keeps a name exactly when it is one of the uploads and the loop saves it. */
  lemma {:induction false} AcceptedMembers(names: seq<string>)
    ensures forall x :: x in Accepted(names) <==> x in names && Saves(x)
  {
    if names != [] {
      var init := names[..|names| - 1];
      assert names == init + [names[|names| - 1]];
      AcceptedMembers(init);
    }
  }

  /** One more upload: it is appended to the saved names exactly when the loop saves it. */
  lemma AcceptedStep(names: seq<string>, i: nat)
    requires i < |names|
    ensures Accepted(names[..i + 1]) == Accepted(names[..i]) + (if Saves(names[i]) then [names[i]] else [])
  {
    assert names[..i + 1][..i] == names[..i];
  }

  /** The directory an upload for `date` by user `uid` goes to: `os.path.join(str(uid), date, "")`. */
  function UserDir(uid: nat, date: string): string
  {
    Decimal(uid) + "/" + date + "/"
  }

  /** `os.path.join(str(uid), date, prefix + "_" + name)`, relative to the upload root. */
  function StoragePath(uid: nat, date: string, prefix: string, name: string): (p: string)
    ensures |p| == |UserDir(uid, date)| + |prefix| + 1 + |name|
    ensures p[..|UserDir(uid, date)|] == UserDir(uid, date)
  {
    UserDir(uid, date) + prefix + "_" + name
  }

  predicate IsHex(t: string)
  {
    forall i :: 0 <= i < |t| ==> IsDigit(t[i]) || 'a' <= t[i] <= 'f'
  }

  function Repeat(c: char, n: nat): (r: string)
    ensures |r| == n && forall i :: 0 <= i < n ==> r[i] == c
  {
    seq(n, _ => c)
  }

  /**
   * Pigeonhole: with more distinct candidate lengths than taken paths, some
   * candidate path is free.
   */
  lemma {:induction false} FreeCandidate(ks: seq<nat>, taken: set<string>, uid: nat, date: string, name: string)
    requires |ks| > |taken|
    requires forall i, j :: 0 <= i < j < |ks| ==> ks[i] != ks[j]
    ensures exists k :: k in ks && StoragePath(uid, date, Repeat('a', k), name) !in taken
    decreases taken
  {
    var p0 := StoragePath(uid, date, Repeat('a', ks[0]), name);
    if p0 in taken {
      FreeCandidate(ks[1..], taken - {p0}, uid, date, name);
      var k :| k in ks[1..] && StoragePath(uid, date, Repeat('a', k), name) !in taken - {p0};
      assert |StoragePath(uid, date, Repeat('a', k), name)| != |p0|;
    }
  }

  /** The candidate prefix of `k` letters 'a' gives a path not stored yet. */
  predicate FreeAt(files: set<string>, uid: nat, date: string, name: string, k: nat)
  {
    StoragePath(uid, date, Repeat('a', k), name) !in files
  }

  /** The shortest free candidate of at least `n` letters, knowing one of at most `|files| + 1` letters is free. */
  function FreeLength(files: set<string>, uid: nat, date: string, name: string, n: nat): (k: nat)
    requires exists j :: n <= j <= |files| + 1 && FreeAt(files, uid, date, name, j)
    ensures n <= k <= |files| + 1 && FreeAt(files, uid, date, name, k)
    decreases |files| + 1 - n
  {
    if FreeAt(files, uid, date, name, n) then n else FreeLength(files, uid, date, name, n + 1)
  }

  /**
   * `secrets.token_hex(8)` stands for a prefix no stored path uses: a hex
   * prefix that makes the new path differ from every stored path.
   */
  function FreshPrefix(files: set<string>, uid: nat, date: string, name: string): (prefix: string)
    ensures IsHex(prefix) && prefix != ""
    ensures StoragePath(uid, date, prefix, name) !in files
  {
    var ks := seq(|files| + 1, i => i + 1);
    FreeCandidate(ks, files, uid, date, name);
    assert exists j :: 1 <= j <= |files| + 1 && FreeAt(files, uid, date, name, j) by {
      var k :| k in ks && StoragePath(uid, date, Repeat('a', k), name) !in files;
      assert FreeAt(files, uid, date, name, k);
    }
    Repeat('a', FreeLength(files, uid, date, name, 1))
  }
}
