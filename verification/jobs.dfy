/** The job folder of an upload and the response of the `/process` endpoint.

    The folder id is the sanitized upload name without its last extension, as
    `os.path.splitext` computes it; the response lists one download URL per stem the
    four-stem separation writes into that folder. */
module Jobs {
  import opened Wrappers
  import opened Text
  import opened Filenames

  /** Which path flavour `os.path` follows: POSIX separates on `/`, Windows on `\` and `/`. */
  datatype Flavor = Posix | Windows

  function Seps(f: Flavor): (r: set<char>)
    ensures '/' in r && '.' !in r
  {
    match f
    case Posix => {'/'}
    case Windows => {'\\', '/'}
  }

  /** From index `lo` on, `p` has a dot that follows a non-dot character. With `lo` just
      past the last separator, this says the last path component has an extension. */
  ghost predicate HasExtAfter(p: string, lo: int) {
    exists j, i :: 0 <= j && lo <= j < i < |p| && p[j] != '.' && p[i] == '.'
  }

  /** A path component has an extension when some dot in it follows a non-dot character. */
  ghost predicate HasExt(c: string) {
    HasExtAfter(c, 0)
  }

  /** Some character of `p[lo..hi]` is not a dot. */
  predicate HasNonDot(p: string, lo: int, hi: int)
    requires 0 <= lo <= hi <= |p|
  {
    exists k :: lo <= k < hi && p[k] != '.'
  }

  /** `os.path.splitext(p)`: split at the last dot of the last component, unless only dots
      precede it in that component; the pair is (root, extension). */
  function SplitExt(p: string, f: Flavor): (r: (string, string))
    ensures r.0 + r.1 == p
    ensures r.1 == [] || r.1[0] == '.'
    ensures forall i :: 1 <= i < |r.1| ==> r.1[i] != '.' && r.1[i] !in Seps(f)
  {
    var sepIndex := LastIndexIn(p, Seps(f));
    var dotIndex := LastIndexIn(p, {'.'});
    if dotIndex > sepIndex && HasNonDot(p, sepIndex + 1, dotIndex) then
      assert p[..dotIndex] + p[dotIndex..] == p;
      (p[..dotIndex], p[dotIndex..])
    else
      assert p + "" == p;
      (p, "")
  }

  /** `splitext` finds an extension exactly when the last path component has one. */
  lemma SplitExtFindsExt(p: string, f: Flavor)
    ensures SplitExt(p, f).1 != [] <==> HasExtAfter(p, LastIndexIn(p, Seps(f)) + 1)
  {
    if SplitExt(p, f).1 != [] {
      FoundExtIsExt(p, f);
    }
    if HasExtAfter(p, LastIndexIn(p, Seps(f)) + 1) {
      ExtIsFound(p, f);
    }
  }

  lemma FoundExtIsExt(p: string, f: Flavor)
    requires SplitExt(p, f).1 != []
    ensures HasExtAfter(p, LastIndexIn(p, Seps(f)) + 1)
  {
    var sepIndex := LastIndexIn(p, Seps(f));
    var dotIndex := LastIndexIn(p, {'.'});
    SplitExtCuts(p, f);
    var k :| sepIndex + 1 <= k < dotIndex && p[k] != '.';
    assert p[dotIndex] == '.';
  }

  lemma ExtIsFound(p: string, f: Flavor)
    requires HasExtAfter(p, LastIndexIn(p, Seps(f)) + 1)
    ensures SplitExt(p, f).1 != []
  {
    var sepIndex := LastIndexIn(p, Seps(f));
    var j, i :| sepIndex + 1 <= j < i < |p| && p[j] != '.' && p[i] == '.';
    LastIndexAtLeast(p, {'.'}, i);
    var dotIndex := LastIndexIn(p, {'.'});
    assert HasNonDot(p, sepIndex + 1, dotIndex);
    SplitExtCuts(p, f);
  }

  /** `splitext` cuts exactly when the last dot follows the last separator and a non-dot
      character of the last component precedes it. */
  lemma SplitExtCuts(p: string, f: Flavor)
    ensures var sepIndex := LastIndexIn(p, Seps(f));
      var dotIndex := LastIndexIn(p, {'.'});
      SplitExt(p, f).1 != [] <==> dotIndex > sepIndex && HasNonDot(p, sepIndex + 1, dotIndex)
  {
  }

  /** Without separators in `p`, both flavours split alike. */
  lemma SplitExtFlavorFree(p: string)
    requires NoneOf(p, Seps(Windows))
    ensures SplitExt(p, Posix) == SplitExt(p, Windows)
  {
  }

  /** The job folder id of an upload: its sanitized name without the last extension. */
  function JobId(word: CharClass, filename: string): string {
    SplitExt(Sanitize(word, filename), Posix).0
  }

  /** On a name without separators, `splitext` cuts off at most a final dot-led extension
      that holds no other dot, and does so exactly when the name has an extension. */
  lemma SplitExtSingleComponent(name: string)
    requires NoneOf(name, Seps(Posix))
    ensures var root := SplitExt(name, Posix).0;
      && root <= name
      && (root == name || (name[|root|] == '.' && forall i :: |root| < i < |name| ==> name[i] != '.'))
      && (root != name <==> HasExt(name))
  {
    var r := SplitExt(name, Posix);
    SplitExtFindsExt(name, Posix);
    assert LastIndexIn(name, Seps(Posix)) == -1;
    assert name[..|r.0|] == r.0;
    if r.1 != [] {
      assert forall i :: |r.0| < i < |name| ==> name[i] == r.1[i - |r.0|];
    }
  }

  /** The id is the sanitized name up to an optional final extension: a dot followed by no
      dot, present exactly when the sanitized name has a dot after a non-dot character. */
  lemma JobIdSpec(word: CharClass, filename: string)
    requires IsWordClass(word)
    ensures var name := Sanitize(word, filename);
      var id := JobId(word, filename);
      && id <= name
      && (id == name || (name[|id|] == '.' && forall i :: |id| < i < |name| ==> name[i] != '.'))
      && (id != name <==> HasExt(name))
  {
    SanitizeNoSeparator(word, filename);
    SplitExtSingleComponent(Sanitize(word, filename));
  }

  /** Cutting off an extension always leaves a non-dot character in the id; so an id made
      only of dots (the empty id among them) is the whole sanitized name. */
  lemma JobIdKeepsNonDot(word: CharClass, filename: string)
    ensures var id := JobId(word, filename);
      id != Sanitize(word, filename) ==> exists i :: 0 <= i < |id| && id[i] != '.'
  {
    var name := Sanitize(word, filename);
    var id := JobId(word, filename);
    if id != name {
      var sepIndex := LastIndexIn(name, Seps(Posix));
      var dotIndex := LastIndexIn(name, {'.'});
      var k :| sepIndex + 1 <= k < dotIndex && name[k] != '.';
      assert id[k] == name[k];
    }
  }

  /** Whichever `os.path` flavour the server runs under, the folder id is the same. */
  lemma JobIdFlavorFree(word: CharClass, filename: string)
    requires IsWordClass(word)
    ensures JobId(word, filename) == SplitExt(Sanitize(word, filename), Windows).0
  {
    SanitizeNoSeparator(word, filename);
    SplitExtFlavorFree(Sanitize(word, filename));
  }

  /** An upload named `root.ext`, both parts made of word characters, is stored in the
      folder `root`. */
  lemma JobIdPlainName(word: CharClass, root: string, ext: string)
    requires IsWordClass(word)
    requires root != [] && '.' !in root && '.' !in ext
    requires forall c :: c in root + ext ==> word(c)
    ensures JobId(word, root + "." + ext) == root
    ensures !Unsavable(root + "." + ext)
  {
    var name := root + "." + ext;
    PlainNameShape(root, ext);
    PlainNameKept(word, root, ext);
    JobIdSpec(word, name);
    LastDotCut(name, JobId(word, name), root);
  }

  lemma PlainNameShape(root: string, ext: string)
    requires root != [] && '.' !in root && '.' !in ext
    ensures var name := root + "." + ext;
      && name[..|root|] == root && name[|root|] == '.' && HasExt(name)
      && (forall i :: |root| < i < |name| ==> name[i] != '.')
      && (forall i :: 0 <= i < |root| ==> name[i] != '.')
      && !Unsavable(name)
  {
    var name := root + "." + ext;
    assert forall i :: |root| < i < |name| ==> name[i] == ext[i - |root| - 1];
    assert forall i :: 0 <= i < |root| ==> name[i] == root[i];
    assert name[0] != '.';
  }

  lemma PlainNameKept(word: CharClass, root: string, ext: string)
    requires forall c :: c in root + ext ==> word(c)
    ensures Sanitize(word, root + "." + ext) == root + "." + ext
  {
    var name := root + "." + ext;
    forall i | 0 <= i < |name|
      ensures Allowed(word, name[i])
    {
      if i < |root| {
        assert name[i] == (root + ext)[i];
      } else if i > |root| {
        assert name[i] == (root + ext)[i - 1];
      }
    }
    SanitizeFixpoint(word, name);
  }

  /** A prefix `id` cut at a dot with no dot after it, in a name whose dot after `root` is
      the first dot and whose tail past it holds none, is `root`. */
  lemma LastDotCut(name: string, id: string, root: string)
    requires root <= name && |root| < |name| && name[|root|] == '.'
    requires forall i :: |root| < i < |name| ==> name[i] != '.'
    requires forall i :: 0 <= i < |root| ==> name[i] != '.'
    requires id <= name && id != name
    requires name[|id|] == '.' && forall i :: |id| < i < |name| ==> name[i] != '.'
    ensures id == root
  {
    assert |id| == |root|;
  }

  /** Leading dots do not start an extension: a name made of dots followed by word
      characters (a hidden file such as `.bashrc`, or `..mp3`) is its own folder id. */
  lemma JobIdLeadingDots(word: CharClass, dots: string, ext: string)
    requires IsWordClass(word)
    requires forall i :: 0 <= i < |dots| ==> dots[i] == '.'
    requires '.' !in ext && forall c :: c in ext ==> word(c)
    ensures JobId(word, dots + ext) == dots + ext
  {
    var name := dots + ext;
    assert forall i :: 0 <= i < |dots| ==> name[i] == '.';
    assert forall i :: |dots| <= i < |name| ==> name[i] == ext[i - |dots|] && name[i] in ext;
    SanitizeFixpoint(word, name);
    JobIdSpec(word, name);
  }

  /** A job folder id never holds `/`. */
  lemma JobIdNoSlash(word: CharClass, filename: string)
    requires IsWordClass(word)
    ensures '/' !in JobId(word, filename)
  {
    var name := Sanitize(word, filename);
    var (root, ext) := SplitExt(name, Posix);
    SanitizeNoSeparator(word, filename);
    PrefixLacks(root, ext, '/');
  }

  /** A name that is one path component below a folder: no separator, and neither empty,
      `.` nor `..`, which would name the folder itself or its parent. */
  predicate OneComponent(name: string) {
    NoneOf(name, {'/', '\\'}) && !Unsavable(name)
  }

  /** The folder id is one component below the output folder exactly when the upload can be
      saved; so the `rmtree` of an older job folder, which runs only after the save
      succeeded, never reaches the output folder itself or anything above it. */
  lemma JobFolderInside(word: CharClass, filename: string)
    requires IsWordClass(word)
    ensures OneComponent(JobId(word, filename)) <==> !Unsavable(filename)
  {
    var name := Sanitize(word, filename);
    var (root, ext) := SplitExt(name, Posix);
    SanitizeNoSeparator(word, filename);
    UnsavableSanitized(word, filename);
    PrefixLacks(root, ext, '/');
    PrefixLacks(root, ext, '\\');
    JobIdKeepsNonDot(word, filename);
    if root != name {
      var k :| 0 <= k < |root| && root[k] != '.';
      assert name[k] == root[k];
      assert !Unsavable(name);
      assert !Unsavable(root);
    }
  }


  /** The four stems the separation preset writes. */
  datatype StemFile = Vocals | Other | Drums | Bass

  function FileName(s: StemFile): string {
    match s
    case Vocals => "vocals.wav"
    case Other => "other.wav"
    case Drums => "drums.wav"
    case Bass => "bass.wav"
  }

  function FileOf(name: string): (r: Option<StemFile>)
    ensures r.Some? ==> FileName(r.value) == name
  {
    if name == "vocals.wav" then Some(Vocals)
    else if name == "other.wav" then Some(Other)
    else if name == "drums.wav" then Some(Drums)
    else if name == "bass.wav" then Some(Bass)
    else None
  }

  const StemsPrefix := "/stems/"

  /** The download URL of one stem of a job folder. */
  function StemUrl(folder: string, s: StemFile): string {
    StemsPrefix + folder + "/" + FileName(s)
  }

  /** Reads a stem URL back into its folder and stem. */
  function ParseStemUrl(url: string): Option<(string, StemFile)> {
    if !(StemsPrefix <= url) then None
    else
      var rest := url[|StemsPrefix|..];
      var k := LastIndexIn(rest, {'/'});
      if k < 0 then None
      else
        match FileOf(rest[k + 1..])
        case None => None
        case Some(s) => Some((rest[..k], s))
  }

  /** The last `c` of `a + [c] + b` is the one after `a` when `b` has none. */
  lemma {:induction false} LastIndexAfter(a: string, c: char, b: string)
    requires c !in b
    ensures LastIndexIn(a + [c] + b, {c}) == |a|
    decreases |b|
  {
    var t := a + [c] + b;
    if b == [] {
      assert t[|t| - 1] == c;
    } else {
      var b' := b[..|b| - 1];
      assert t[|t| - 1] == b[|b| - 1];
      assert t[..|t| - 1] == a + [c] + b';
      LastIndexAfter(a, c, b');
    }
  }

  lemma FileOfName(s: StemFile)
    ensures FileOf(FileName(s)) == Some(s)
  {
  }

  /** A URL built for a folder without `/` reads back to that folder and stem. */
  lemma StemUrlRoundTrip(folder: string, s: StemFile)
    requires '/' !in folder
    ensures ParseStemUrl(StemUrl(folder, s)) == Some((folder, s))
  {
    var name := FileName(s);
    var rest := folder + ['/'] + name;
    NoSlashInFileName(s);
    Regroup(StemsPrefix, folder, "/", name);
    AfterPrefixOf(StemsPrefix, rest);
    LastIndexAfter(folder, '/', name);
    AroundSeparator(folder, '/', name);
    FileOfName(s);
  }

  lemma NoSlashInFileName(s: StemFile)
    ensures '/' !in FileName(s)
  {
  }

  lemma Regroup<T>(p: seq<T>, a: seq<T>, b: seq<T>, c: seq<T>)
    ensures p + a + b + c == p + (a + b + c)
  {
  }


  /** Whatever reads as a stem URL is the URL of the stem it reads as. */
  lemma ParseStemUrlSound(url: string)
    requires ParseStemUrl(url).Some?
    ensures var (folder, s) := ParseStemUrl(url).value; url == StemUrl(folder, s)
  {
    var rest := url[|StemsPrefix|..];
    var k := LastIndexIn(rest, {'/'});
    var folder, name := rest[..k], rest[k + 1..];
    RejoinAt(rest, k);
    PrefixSuffix(url, |StemsPrefix|);
    Regroup(StemsPrefix, folder, "/", name);
  }

  lemma RejoinAt(s: string, k: int)
    requires 0 <= k < |s| && s[k] == '/'
    ensures s == s[..k] + "/" + s[k + 1..]
  {
    SplitAtHead(s[..k], s[k..]);
    assert s == s[..k] + s[k..];
  }


  // ---------------------------------------------------------------- the /process endpoint

  /** The JSON body of a successful `/process` call. */
  datatype StemUrls = StemUrls(
    folder: string,
    vocals: string,
    coros: string,
    drums: string,
    bass: string,
    instrumental: string)

  /** A failed `/process` call: either the handler answered with a status and an `error`
      field, or an exception escaped the handler and the framework answered with its
      generic 500 page. */
  datatype HttpError =
    | JsonError(status: int, message: string)
    | Uncaught

  /** The sanitized names under which `file.save` cannot create a file: the joined path
      names the upload folder itself or its parent, so opening it for writing fails. */
  predicate Unsavable(name: string) {
    name == "" || name == "." || name == ".."
  }

  /** Sanitizing keeps dots and never makes one, so a name is unsavable after sanitizing
      exactly when it was unsavable before. */
  lemma UnsavableSanitized(word: CharClass, filename: string)
    ensures Unsavable(Sanitize(word, filename)) <==> Unsavable(filename)
  {
    var name := Sanitize(word, filename);
    assert forall i :: 0 <= i < |name| ==> (name[i] == '.' <==> filename[i] == '.');
    if Unsavable(name) {
      if |name| == 1 {
        assert filename == [filename[0]];
      } else if |name| == 2 {
        assert filename == [filename[0], filename[1]];
      }
    }
  }

  /** `/process`: `upload` is the uploaded file's name (`None` when the request has no file
      part) and `separation` the outcome of the external separation tool, whose failure
      message becomes the error text. Saving the upload happens before the handler's
      `try`, so a name that cannot be saved escapes as an uncaught exception. */
  function ProcessAudio(word: CharClass, upload: Option<string>, separation: Outcome<string>): (r: Result<StemUrls, HttpError>)
    ensures upload.None? ==> r == Err(JsonError(400, "Falta archivo"))
    ensures upload.Some? && Unsavable(upload.value) ==> r == Err(Uncaught)
    ensures upload.Some? && !Unsavable(upload.value) && separation.Fail? ==>
      r == Err(JsonError(500, separation.error))
    ensures r.Ok? <==> upload.Some? && !Unsavable(upload.value) && separation.Pass?
    ensures r.Ok? ==> r.value == Answer(JobId(word, upload.value))
  {
    match upload
    case None => Err(JsonError(400, "Falta archivo"))
    case Some(filename) =>
      var safeName := Sanitize(word, filename);
      UnsavableSanitized(word, filename);
      if Unsavable(safeName) then Err(Uncaught)
      else
        var folder := JobId(word, filename);
        match separation
        case Fail(e) => Err(JsonError(500, e))
        case Pass => Ok(Answer(folder))
  }

  /** The success body for a job folder: the folder and the URL of each stem, where the
      backing vocals and the instrumental are both `other.wav`. */
  function Answer(folder: string): StemUrls {
    StemUrls(
      folder,
      StemUrl(folder, Vocals),
      StemUrl(folder, Other),
      StemUrl(folder, Drums),
      StemUrl(folder, Bass),
      StemUrl(folder, Other))
  }

  /** Every URL of the success body for a folder without `/` reads back to that folder and
      the stem it names. */
  lemma AnswerUrls(folder: string)
    requires '/' !in folder
    ensures var a := Answer(folder);
      && a.folder == folder
      && ParseStemUrl(a.vocals) == Some((folder, Vocals))
      && ParseStemUrl(a.coros) == Some((folder, Other))
      && ParseStemUrl(a.drums) == Some((folder, Drums))
      && ParseStemUrl(a.bass) == Some((folder, Bass))
      && ParseStemUrl(a.instrumental) == Some((folder, Other))
  {
    StemUrlRoundTrip(folder, Vocals);
    StemUrlRoundTrip(folder, Other);
    StemUrlRoundTrip(folder, Drums);
    StemUrlRoundTrip(folder, Bass);
  }

  /** Every URL of a successful response reads back to the response's folder and to its
      stem; the backing-vocals and instrumental URLs both name `other.wav`. */
  lemma ProcessUrls(word: CharClass, filename: string)
    requires IsWordClass(word)
    ensures var r := ProcessAudio(word, Some(filename), Pass);
      r.Ok? ==>
      && r.value.folder == JobId(word, filename)
      && ParseStemUrl(r.value.vocals) == Some((r.value.folder, Vocals))
      && ParseStemUrl(r.value.coros) == Some((r.value.folder, Other))
      && ParseStemUrl(r.value.drums) == Some((r.value.folder, Drums))
      && ParseStemUrl(r.value.bass) == Some((r.value.folder, Bass))
      && ParseStemUrl(r.value.instrumental) == Some((r.value.folder, Other))
  {
    JobIdNoSlash(word, filename);
    AnswerUrls(JobId(word, filename));
  }

  /** Uploading `root.ext`, both parts made of word characters, succeeds with the folder
      `root`, and every URL of the answer reads back to `root` and its stem. */
  lemma ProcessPlainName(word: CharClass, root: string, ext: string)
    requires IsWordClass(word)
    requires root != [] && '.' !in root && '.' !in ext
    requires forall c :: c in root + ext ==> word(c)
    ensures var r := ProcessAudio(word, Some(root + "." + ext), Pass);
      && r.Ok? && r.value.folder == root
      && ParseStemUrl(r.value.vocals) == Some((root, Vocals))
      && ParseStemUrl(r.value.coros) == Some((root, Other))
      && ParseStemUrl(r.value.drums) == Some((root, Drums))
      && ParseStemUrl(r.value.bass) == Some((root, Bass))
      && ParseStemUrl(r.value.instrumental) == Some((root, Other))
  {
    JobIdPlainName(word, root, ext);
    ProcessUrls(word, root + "." + ext);
  }
}
