/** The pure string rules of the upload handler in app.py: which file names
    are accepted (`allowed_file`), which MIME type is sent to the
    classification service, and the name under which an upload is stored
    (a random token followed by `os.path.splitext(filename)[1]`).
    Python's `str.lower` is modelled on ASCII letters (see README). */
module FileNames {

  /** `ALLOWED_EXTENSIONS` */
  const AllowedExtensions: set<string> := {"png", "jpg", "jpeg"}

  const JpegMime: string := "image/jpeg"
  const PngMime: string := "image/png"

  function LowerChar(c: char): char {
    if 'A' <= c <= 'Z' then (c as int - 'A' as int + 'a' as int) as char else c
  }

  /** `s.lower()` */
  function Lower(s: string): string {
    seq(|s|, i requires 0 <= i < |s| => LowerChar(s[i]))
  }

  /** Python's `s.rfind(c)`: the index of the last occurrence of `c`, or -1. */
  function RFind(s: string, c: char): (r: int)
    ensures -1 <= r < |s|
    ensures r >= 0 ==> s[r] == c
    ensures forall j :: r < j < |s| ==> s[j] != c
  {
    if |s| == 0 then -1
    else if s[|s| - 1] == c then |s| - 1
    else RFind(s[..|s| - 1], c)
  }

  /** `filename.rsplit('.', 1)[1]`: the text after the last dot. */
  function Extension(f: string): string
    requires '.' in f
  {
    f[RFind(f, '.') + 1..]
  }

  /** `allowed_file(filename)` */
  predicate AllowedFile(f: string) {
    '.' in f && Lower(Extension(f)) in AllowedExtensions
  }

  /** `s.endswith(suffix)` */
  predicate EndsWith(s: string, suffix: string) {
    |suffix| <= |s| && s[|s| - |suffix|..] == suffix
  }

  /** The `mimeType` field of the classification request. */
  function MimeType(f: string): (m: string)
    ensures m == JpegMime || m == PngMime
  {
    if EndsWith(Lower(f), ".jpg") || EndsWith(Lower(f), ".jpeg") then JpegMime else PngMime
  }

  /** POSIX `os.path.splitext(p)`: the extension starts at the last dot of the
      last path component, provided that component has a character other than
      a dot before it (leading dots of a dotfile do not start an extension). */
  function SplitExt(p: string): (r: (string, string))
    ensures r.0 + r.1 == p
    ensures r.1 == [] || (r.1[0] == '.' && '.' !in r.1[1..] && '/' !in r.1)
  {
    var sepIndex := RFind(p, '/');
    var dotIndex := RFind(p, '.');
    if dotIndex > sepIndex && exists i :: sepIndex < i < dotIndex && p[i] != '.' then
      (p[..dotIndex], p[dotIndex..])
    else
      (p, [])
  }

  /** The stored name: `str(uuid.uuid4()) + os.path.splitext(file.filename)[1]`,
      with the random token passed in. */
  function StoredName(token: string, f: string): string {
    token + SplitExt(f).1
  }

  /** The part of the last path component before its last dot consists of
      dots only (`.png`, `a/..jpg`, or nothing at all). */
  predicate DotOnlyStem(f: string) {
    forall i :: RFind(f, '/') < i < RFind(f, '.') ==> f[i] == '.'
  }

  // ---------------------------------------------------------------------
  // Properties

  lemma LowerAppend(a: string, b: string)
    ensures Lower(a + b) == Lower(a) + Lower(b)
  {
  }

  lemma LowerSuffix(s: string, k: nat)
    requires k <= |s|
    ensures Lower(s[k..]) == Lower(s)[k..]
  {
  }

  /** Lowering never creates or removes a dot or a slash, so the last dot of a
      name and of its lowered form are at the same place. */
  lemma {:induction false} RFindLower(s: string, c: char)
    requires c == '.' || c == '/'
    ensures RFind(Lower(s), c) == RFind(s, c)
  {
    if |s| > 0 {
      assert Lower(s)[..|s| - 1] == Lower(s[..|s| - 1]);
      RFindLower(s[..|s| - 1], c);
    }
  }

  /** A dot with no dot after it is the last dot. */
  lemma LastDotAt(f: string, i: int)
    requires 0 <= i < |f| && f[i] == '.' && '.' !in f[i + 1..]
    ensures RFind(f, '.') == i
  {
  }

  /** `allowed_file(f)` holds exactly when `f` has a dot and the text after
      the last dot, lowercased, is `png`, `jpg` or `jpeg`. */
  lemma AllowedFileIff(f: string)
    ensures AllowedFile(f) <==>
      exists i :: 0 <= i < |f| && f[i] == '.' && '.' !in f[i + 1..]
        && Lower(f[i + 1..]) in AllowedExtensions
    ensures '.' !in f ==> !AllowedFile(f)
  {
    if AllowedFile(f) {
      var i := RFind(f, '.');
      assert f[i] == '.' && '.' !in f[i + 1..];
    }
    if exists i :: 0 <= i < |f| && f[i] == '.' && '.' !in f[i + 1..]
        && Lower(f[i + 1..]) in AllowedExtensions {
      var i :| 0 <= i < |f| && f[i] == '.' && '.' !in f[i + 1..]
        && Lower(f[i + 1..]) in AllowedExtensions;
      LastDotAt(f, i);
    }
  }

  /** Two names that lowercase to the same text get the same verdict. */
  lemma AllowedFileIgnoresCase(f: string, g: string)
    requires Lower(f) == Lower(g)
    ensures AllowedFile(f) == AllowedFile(g)
  {
    RFindLower(f, '.');
    RFindLower(g, '.');
    var k := RFind(f, '.');
    assert RFind(g, '.') == k;
    if k >= 0 {
      assert '.' in f && '.' in g;
      LowerSuffix(f, k + 1);
      LowerSuffix(g, k + 1);
      assert Lower(Extension(f)) == Lower(Extension(g));
    } else {
      assert '.' !in f && '.' !in g;
    }
  }

  /** Changing only the case of the text after the dot does not change the
      verdict. */
  lemma ExtensionCaseIrrelevant(stem: string, e1: string, e2: string)
    requires Lower(e1) == Lower(e2)
    ensures AllowedFile(stem + "." + e1) == AllowedFile(stem + "." + e2)
  {
    LowerAppend(stem + ".", e1);
    LowerAppend(stem + ".", e2);
    AllowedFileIgnoresCase(stem + "." + e1, stem + "." + e2);
  }

  /** A name ending in `.png` ends in neither `.jpg` nor `.jpeg`. */
  lemma PngSuffixIsNotJpeg(l: string)
    requires EndsWith(l, ".png")
    ensures !EndsWith(l, ".jpg") && !EndsWith(l, ".jpeg")
  {
    assert l[|l| - 4] == '.';
    assert l[|l| - 3] == 'p';
  }

  lemma SameChars(a: string, b: string)
    requires |a| == |b|
    requires forall i :: 0 <= i < |a| ==> a[i] == b[i]
    ensures a == b
  {
  }

  /** The lowercased name ends in a dot and the lowercased extension. */
  lemma LowerEndsWithExtension(f: string)
    requires '.' in f
    ensures EndsWith(Lower(f), "." + Lower(Extension(f)))
  {
  }

  /** For an accepted name the MIME type is `image/jpeg` exactly when the
      extension is `jpg` or `jpeg` (in any case), and `image/png` exactly when
      it is `png`. */
  lemma MimeTypeOfAccepted(f: string)
    requires AllowedFile(f)
    ensures MimeType(f) == JpegMime <==> Lower(Extension(f)) in {"jpg", "jpeg"}
    ensures MimeType(f) == PngMime <==> Lower(Extension(f)) == "png"
  {
    var e := Lower(Extension(f));
    LowerEndsWithExtension(f);
    assert JpegMime != PngMime by { assert JpegMime[6] != PngMime[6]; }
    assert e == "png" || e == "jpg" || e == "jpeg";
    if e == "png" {
      SameChars("." + e, ".png");
      PngSuffixIsNotJpeg(Lower(f));
      assert MimeType(f) == PngMime;
    } else if e == "jpg" {
      SameChars("." + e, ".jpg");
      assert MimeType(f) == JpegMime;
    } else {
      assert e == "jpeg";
      SameChars("." + e, ".jpeg");
      assert MimeType(f) == JpegMime;
    }
  }

  /** An accepted name is stored as the token followed by a dot and the
      original extension with its case unchanged, unless the name's last path
      component is a dotfile such as `.png`, in which case it is stored as the
      bare token. */
  lemma StoredNameOfAccepted(token: string, f: string)
    requires AllowedFile(f)
    ensures !DotOnlyStem(f) ==> StoredName(token, f) == token + "." + Extension(f)
    ensures DotOnlyStem(f) ==> StoredName(token, f) == token
  {
  }

  /** The dotfile case: `.png` passes the extension check yet is stored
      without an extension. */
  lemma DotfileStoredBare(token: string)
    ensures AllowedFile(".png") && StoredName(token, ".png") == token
  {
    var r := RFind(".png", '.');
    assert ".png"[0] == '.';
    assert r == 0;
    assert Extension(".png") == "png";
    assert Lower("png") == "png";
    StoredNameOfAccepted(token, ".png");
  }
}
