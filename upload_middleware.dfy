/** The media upload checks (src/middlewares/uploadMiddleware.ts): the
    file filter, the name a stored file receives, and the size limit.
    Writing the file to disk is not part of this model. */
module UploadMiddleware {
  import opened Common

  // ---------------------------------------------------------------------
  // path.extname (POSIX)
  // ---------------------------------------------------------------------

  /** The path without its trailing slashes. */
  function TrimTrailingSlashes(s: string): (r: string)
    ensures forall c :: c in r ==> c in s
    ensures r == [] || r[|r| - 1] != '/'
    decreases |s|
  {
    if s != [] && s[|s| - 1] == '/' then TrimTrailingSlashes(s[..|s| - 1]) else s
  }

  /** The index of the last occurrence of `c` in `s`. */
  function LastIndexOf(s: string, c: char): (r: Option<nat>)
    ensures r.None? <==> c !in s
    ensures r.Some? ==> r.value < |s| && s[r.value] == c && c !in s[r.value + 1..]
    decreases |s|
  {
    if s == [] then None
    else if s[|s| - 1] == c then Some(|s| - 1)
    else
      var r := LastIndexOf(s[..|s| - 1], c);
      assert s == s[..|s| - 1] + [s[|s| - 1]];
      r
  }

  /** The part of `s` after its last slash. */
  function LastSegment(s: string): (r: string)
    ensures |r| <= |s| && EndsWith(s, r)
    ensures '/' !in r
    ensures forall c :: c in r ==> c in s
  {
    match LastIndexOf(s, '/')
    case None =>
      EndsWithDrop(s, 0);
      s
    case Some(k) =>
      assert forall c :: c in s[k + 1..] ==> c in s;
      EndsWithDrop(s, k + 1);
      s[k + 1..]
  }

  /** `e` is a trailing part of `s`. */
  predicate EndsWith(s: string, e: string)
    decreases |s|
  {
    s == e || (s != [] && EndsWith(s[1..], e))
  }

  /** Whatever follows index `k` is a trailing part. */
  lemma {:induction false} EndsWithDrop(s: string, k: nat)
    requires k <= |s|
    ensures EndsWith(s, s[k..])
    decreases k
  {
    if k > 0 {
      EndsWithDrop(s[1..], k - 1);
      assert s[1..][k - 1..] == s[k..];
    }
  }

  /** A trailing part of a trailing part of `s` is a trailing part of `s`,
      and no longer than `s`. */
  lemma {:induction false} EndsWithTrans(s: string, r: string, e: string)
    requires EndsWith(s, r) && EndsWith(r, e)
    ensures EndsWith(s, e) && |e| <= |r| <= |s|
    decreases |s|
  {
    if s != r {
      EndsWithTrans(s[1..], r, e);
    } else if r != e {
      EndsWithTrans(r[1..], e, e);
    }
  }

  /** The extension of one path segment: from its last dot to its end, or
      the empty string when it has no dot, starts with its only leading dot
      (".profile") or is "..". */
  function SegmentExtension(base: string): (ext: string)
    ensures ext == [] || (ext[0] == '.' && '.' !in ext[1..])
    ensures ext != [] ==> |ext| < |base| && EndsWith(base, ext)
    ensures ext == [] <==> |base| <= 1 || '.' !in base[1..] || base == ".."
    ensures forall c :: c in ext ==> c in base
  {
    match LastIndexOf(base, '.')
    case None => []
    case Some(k) =>
      if k == 0 || base == ".." then
        assert k == 0 ==> '.' !in base[1..];
        []
      else
        assert base[k] in base[1..];
        assert forall c :: c in base[k..] ==> c in base;
        EndsWithDrop(base, k);
        base[k..]
  }

  /** `path.extname(name)`: the extension of the last path segment. */
  function Extname(name: string): (ext: string)
    ensures ext == [] || (ext[0] == '.' && '.' !in ext[1..] && '/' !in ext)
    ensures var trimmed := TrimTrailingSlashes(name);
      ext != [] ==> |ext| < |trimmed| && EndsWith(trimmed, ext)
    ensures var base := LastSegment(TrimTrailingSlashes(name));
      ext == [] <==> |base| <= 1 || '.' !in base[1..] || base == ".."
    ensures '.' !in name ==> ext == []
  {
    var trimmed := TrimTrailingSlashes(name);
    var base := LastSegment(trimmed);
    var ext := SegmentExtension(base);
    assert ext != [] ==> ext[0] in base && ext[0] in trimmed;
    if ext == [] then ext
    else
      EndsWithTrans(trimmed, base, ext);
      ext
  }

  // ---------------------------------------------------------------------
  // The file-type test
  // ---------------------------------------------------------------------

  /** `toLocaleLowerCase` on the ASCII letters. */
  function LowerAscii(s: string): (r: string)
    ensures |r| == |s|
    ensures forall i :: 0 <= i < |s| ==> r[i] == (if 'A' <= s[i] <= 'Z' then (s[i] as int + 32) as char else s[i])
  {
    MapRows(s, (c: char) => if 'A' <= c <= 'Z' then (c as int + 32) as char else c)
  }

  /** `w` occurs in `s` starting at index `i`. */
  predicate OccursAt(s: string, w: string, i: int)
  {
    0 <= i && i + |w| <= |s| && s[i..i + |w|] == w
  }

  /** `w` occurs somewhere in `s`: an unanchored regular-expression match
      of the literal `w`. */
  function Contains(s: string, w: string): (b: bool)
    ensures b <==> exists i :: OccursAt(s, w, i)
    decreases |s|
  {
    if |w| <= |s| && s[..|w|] == w then
      assert OccursAt(s, w, 0);
      true
    else if s == [] then
      false
    else
      var b := Contains(s[1..], w);
      if b then
        var i :| OccursAt(s[1..], w, i);
        assert s[1..][i..i + |w|] == s[i + 1..i + 1 + |w|];
        assert OccursAt(s, w, i + 1);
        true
      else
        assert forall i :: OccursAt(s, w, i) ==> i == 0 || OccursAt(s[1..], w, i - 1) by {
          forall i | OccursAt(s, w, i) && i > 0 ensures OccursAt(s[1..], w, i - 1) {
            assert s[1..][i - 1..i - 1 + |w|] == s[i..i + |w|];
          }
        }
        false
  }

  /** The alternatives of `/jpeg|jpg|png|gif|mp4|mov|avi/`. */
  const MediaTypes: seq<string> := ["jpeg", "jpg", "png", "gif", "mp4", "mov", "avi"]

  /** `/jpeg|jpg|png|gif|mp4|mov|avi/.test(s)`: the pattern has no anchors
      and no global flag, so it holds when any alternative occurs. */
  function MatchesMediaPattern(s: string): (m: bool)
    ensures m <==> exists w, i :: w in MediaTypes && OccursAt(s, w, i)
    ensures m ==> |s| >= 3
  {
    exists w :: w in MediaTypes && Contains(s, w)
  }

  /** What the filter hands to multer's callback: `cb(null, true)` or
      `cb(new Error(message))`. */
  datatype FilterVerdict = Accept | RejectWith(message: string)

  const RejectMessage := "Only images and video files are allowed"

  /** `fileFilter`: the lower-cased extension and the MIME type, as given,
      must both match the pattern. */
  function FileFilter(originalname: string, mimetype: string): (v: FilterVerdict)
    ensures v == Accept <==>
      MatchesMediaPattern(LowerAscii(Extname(originalname))) && MatchesMediaPattern(mimetype)
    ensures v != Accept ==> v == RejectWith(RejectMessage)
  {
    if MatchesMediaPattern(LowerAscii(Extname(originalname))) && MatchesMediaPattern(mimetype)
    then Accept
    else RejectWith(RejectMessage)
  }

  /** A file whose name yields no extension is always rejected, with an
      error, whatever its MIME type. */
  lemma NoExtensionIsRejected(originalname: string, mimetype: string)
    requires Extname(originalname) == []
    ensures FileFilter(originalname, mimetype) == RejectWith(RejectMessage)
  {
    EmptyNameMatchesNothing();
  }

  /** The empty string contains none of the alternatives. */
  lemma EmptyNameMatchesNothing()
    ensures !MatchesMediaPattern(LowerAscii([]))
  {
    forall w | w in MediaTypes ensures !Contains(LowerAscii([]), w) {
      assert forall i :: !OccursAt([], w, i);
    }
  }

  /** In particular a name without any dot, such as "jpg", is rejected. */
  lemma DotlessNameIsRejected(originalname: string, mimetype: string)
    requires '.' !in originalname
    ensures FileFilter(originalname, mimetype).RejectWith?
  {
    NoExtensionIsRejected(originalname, mimetype);
  }

  /** A name whose only dot is its first character, such as ".png", has
      no extension, so it is rejected whatever its MIME type. */
  lemma LeadingDotNameIsRejected(ext: string, mimetype: string)
    requires '.' !in ext && '/' !in ext
    ensures Extname("." + ext) == []
    ensures FileFilter("." + ext, mimetype) == RejectWith(RejectMessage)
  {
    var name := "." + ext;
    assert name[|name| - 1] == '.' || name[|name| - 1] in ext;
    assert TrimTrailingSlashes(name) == name;
    assert '/' !in name;
    LastSegmentOfPlainName(name);
    assert name[1..] == ext;
    NoExtensionIsRejected(name, mimetype);
  }

  /** A segment without slashes is its own last segment. */
  lemma {:induction false} LastSegmentOfPlainName(s: string)
    requires '/' !in s
    ensures LastSegment(s) == s
    decreases |s|
  {
    if s != [] {
      var init, last := s[..|s| - 1], s[|s| - 1];
      assert s == init + [last];
      assert last in s;
      LastSegmentOfPlainName(init);
    }
  }

  /** The last occurrence of `c` in `a + [c] + b`, when `b` lacks `c`,
      is the one between them. */
  lemma {:induction false} LastIndexOfBefore(a: string, c: char, b: string)
    requires c !in b
    ensures LastIndexOf(a + [c] + b, c) == Some(|a|)
    decreases |b|
  {
    var s := a + [c] + b;
    if b != [] {
      var init := b[..|b| - 1];
      assert b[|b| - 1] in b;
      assert s[..|s| - 1] == a + [c] + init;
      assert c !in init by {
        assert forall x :: x in init ==> x in b;
      }
      LastIndexOfBefore(a, c, init);
    }
  }

  /** A plain file name `stem.ext` is its own last path segment. */
  lemma PlainNameIsItsBase(stem: string, ext: string)
    requires ext != [] && '/' !in stem && '/' !in ext
    ensures LastSegment(TrimTrailingSlashes(stem + "." + ext)) == stem + "." + ext
  {
    var name := stem + "." + ext;
    assert name[|name| - 1] == ext[|ext| - 1] && ext[|ext| - 1] in ext;
    assert TrimTrailingSlashes(name) == name;
    assert '/' !in name by {
      assert forall x :: x in name ==> x in stem || x == '.' || x in ext;
    }
    LastSegmentOfPlainName(name);
  }

  /** The extension of a segment `stem.ext`, with a non-empty extension
      part that has no dot, is `.ext`. */
  lemma SegmentExtensionOfPlainName(stem: string, ext: string)
    requires stem != [] && ext != [] && '.' !in ext
    ensures SegmentExtension(stem + "." + ext) == "." + ext
  {
    var name := stem + "." + ext;
    LastIndexOfBefore(stem, '.', ext);
    assert LastIndexOf(name, '.') == Some(|stem|);
    assert |name| >= 3 && name != "..";
    assert name == stem + ("." + ext);
    assert name[|stem|..] == "." + ext;
  }

  /** For a plain file name `stem.ext` the extension is `.ext`: the part
      from the last dot on. */
  lemma ExtnameOfPlainName(stem: string, ext: string)
    requires stem != [] && ext != []
    requires '/' !in stem && '/' !in ext && '.' !in ext
    ensures Extname(stem + "." + ext) == "." + ext
  {
    PlainNameIsItsBase(stem, ext);
    SegmentExtensionOfPlainName(stem, ext);
  }

  /** No alternative of the pattern can occur in a string that lacks its
      first letter. */
  lemma LacksFirstLetter(s: string, w: string)
    requires w != [] && w[0] !in s
    ensures !Contains(s, w)
  {
    forall i | OccursAt(s, w, i) ensures false {
    }
  }

  /** A string without any of the letters j, p, g, m, a never matches. */
  lemma NoMediaLetters(s: string)
    requires forall c :: c in s ==> c !in "jpgma"
    ensures !MatchesMediaPattern(s)
  {
    forall w | w in MediaTypes ensures !Contains(s, w) {
      assert w[0] in "jpgma";
      LacksFirstLetter(s, w);
    }
  }

  /** `w` is one of the alternatives and occurs in `s`: `s` matches. */
  lemma MatchesThrough(s: string, w: string, i: nat)
    requires w in MediaTypes && OccursAt(s, w, i)
    ensures MatchesMediaPattern(s)
  {
  }

  /** A plain file name `stem.ext` passes when an alternative occurs in
      its lower-cased extension and the MIME type matches. */
  lemma PlainNamePasses(stem: string, ext: string, w: string, i: nat, mimetype: string)
    requires stem != [] && ext != [] && '/' !in stem && '/' !in ext && '.' !in ext
    requires w in MediaTypes && OccursAt(LowerAscii("." + ext), w, i)
    requires MatchesMediaPattern(mimetype)
    ensures FileFilter(stem + "." + ext, mimetype) == Accept
  {
    ExtnameOfPlainName(stem, ext);
    MatchesThrough(LowerAscii("." + ext), w, i);
  }

  /** A plain file name `stem.ext` whose lower-cased extension has none of
      the letters the alternatives start with is rejected. */
  lemma PlainNameFails(stem: string, ext: string, mimetype: string)
    requires stem != [] && ext != [] && '/' !in stem && '/' !in ext && '.' !in ext
    requires forall c :: c in LowerAscii("." + ext) ==> c !in "jpgma"
    ensures FileFilter(stem + "." + ext, mimetype) == RejectWith(RejectMessage)
  {
    ExtnameOfPlainName(stem, ext);
    NoMediaLetters(LowerAscii("." + ext));
  }

  /** Lower-casing keeps the length, and keeps out of a string every
      character that is neither in it nor a lower-case letter. */
  lemma LowerAsciiAddsOnlyLowerCase(s: string)
    ensures |LowerAscii(s)| == |s|
    ensures forall c :: c !in s && !('a' <= c <= 'z') ==> c !in LowerAscii(s)
  {
    var r := LowerAscii(s);
    forall c | c in r ensures c in s || 'a' <= c <= 'z' {
      var i :| 0 <= i < |r| && r[i] == c;
      assert s[i] in s;
    }
  }

  /** Lower-casing a dotted extension gives the same result whether or not
      the extension was lower-cased first. */
  lemma LowerAsciiDottedIdempotent(ext: string)
    ensures LowerAscii("." + LowerAscii(ext)) == LowerAscii("." + ext)
  {
    var a := LowerAscii("." + LowerAscii(ext));
    var b := LowerAscii("." + ext);
    assert |a| == |b|;
    forall i | 0 <= i < |a| ensures a[i] == b[i] {
      if i > 0 {
        assert ("." + LowerAscii(ext))[i] == LowerAscii(ext)[i - 1];
        assert ("." + ext)[i] == ext[i - 1];
      }
    }
  }

  /** The extension is lower-cased before it is tested: `stem.ext` gets the
      verdict of `stem.lower(ext)`, so `photo.PNG` is treated like
      `photo.png`. */
  lemma ExtensionCaseIsIgnored(stem: string, ext: string, mimetype: string)
    requires stem != [] && ext != [] && '/' !in stem && '/' !in ext && '.' !in ext
    ensures FileFilter(stem + "." + ext, mimetype) == FileFilter(stem + "." + LowerAscii(ext), mimetype)
  {
    LowerAsciiAddsOnlyLowerCase(ext);
    ExtnameOfPlainName(stem, ext);
    ExtnameOfPlainName(stem, LowerAscii(ext));
    LowerAsciiDottedIdempotent(ext);
  }

  /** The MIME type is not lower-cased: one without lower-case letters,
      such as "IMAGE/PNG", is rejected whatever the file is called. */
  lemma UpperCaseMimeTypeIsRejected(originalname: string, mimetype: string)
    requires forall i :: 0 <= i < |mimetype| ==> !('a' <= mimetype[i] <= 'z')
    ensures FileFilter(originalname, mimetype) == RejectWith(RejectMessage)
  {
    forall c | c in mimetype ensures c !in "jpgma" {
      var i :| 0 <= i < |mimetype| && mimetype[i] == c;
    }
    NoMediaLetters(mimetype);
  }

  /** Only the part after the last dot is tested: `stem.inner.ext` gets the
      verdict of `stem.ext`, so `photo.jpg.exe` is treated like
      `photo.exe`. */
  lemma OnlyLastExtensionCounts(stem: string, inner: string, ext: string, mimetype: string)
    requires stem != [] && ext != [] && '/' !in stem && '/' !in inner && '/' !in ext && '.' !in ext
    ensures FileFilter(stem + "." + inner + "." + ext, mimetype) == FileFilter(stem + "." + ext, mimetype)
  {
    var front := stem + "." + inner;
    assert '/' !in front by {
      assert forall c :: c in front ==> c in stem || c == '.' || c in inner;
    }
    ExtnameOfPlainName(front, ext);
    ExtnameOfPlainName(stem, ext);
  }

  // ---------------------------------------------------------------------
  // The stored file name and the size limit
  // ---------------------------------------------------------------------

  predicate IsDigit(c: char)
  {
    '0' <= c <= '9'
  }

  /** The decimal form of a natural number, as a template literal prints it. */
  function NatToDecimal(n: nat): (s: string)
    ensures |s| >= 1 && forall c :: c in s ==> IsDigit(c)
    decreases n
  {
    if n < 10 then [(48 + n) as char]
    else NatToDecimal(n / 10) + [(48 + n % 10) as char]
  }

  /** The number a string of decimal digits denotes. */
  function DecimalValue(s: string): nat
    requires forall c :: c in s ==> IsDigit(c)
    decreases |s|
  {
    if s == [] then 0
    else
      assert forall c :: c in s[..|s| - 1] ==> c in s;
      assert IsDigit(s[|s| - 1]);
      DecimalValue(s[..|s| - 1]) * 10 + (s[|s| - 1] as int - 48)
  }

  /** Printing a number in decimal loses nothing. */
  lemma {:induction false} DecimalRoundTrip(n: nat)
    ensures DecimalValue(NatToDecimal(n)) == n
    decreases n
  {
    if n >= 10 {
      DecimalRoundTrip(n / 10);
      var s := NatToDecimal(n);
      assert s[..|s| - 1] == NatToDecimal(n / 10);
    }
  }

  /** The name multer's disk storage gives an uploaded file:
      `${Date.now()}-${file.originalname}`. */
  function StoredFilename(now: nat, originalname: string): (f: string)
    ensures |f| > |originalname| + 1
  {
    NatToDecimal(now) + "-" + originalname
  }

  /** The index of the first occurrence of `c` in `s`. */
  function IndexOf(s: string, c: char): (r: Option<nat>)
    ensures r.None? <==> c !in s
    ensures r.Some? ==> r.value < |s| && s[r.value] == c && c !in s[..r.value]
    decreases |s|
  {
    if s == [] then None
    else if s[0] == c then Some(0)
    else
      match IndexOf(s[1..], c)
      case None => None
      case Some(k) =>
        assert s[..k + 1] == [s[0]] + s[1..][..k];
        Some(k + 1)
  }

  /** Reads a stored file name back into the upload time and the
      original name: the digits before the first dash, and the rest. */
  function ParseStoredFilename(f: string): Option<(nat, string)>
  {
    match IndexOf(f, '-')
    case None => None
    case Some(k) =>
      if k > 0 && forall c :: c in f[..k] ==> IsDigit(c)
      then Some((DecimalValue(f[..k]), f[k + 1..]))
      else None
  }

  /** The stored name keeps both the upload time and the original name,
      even when the original name itself contains dashes. */
  lemma StoredFilenameRoundTrip(now: nat, originalname: string)
    ensures ParseStoredFilename(StoredFilename(now, originalname)) == Some((now, originalname))
  {
    var d := NatToDecimal(now);
    var f := StoredFilename(now, originalname);
    assert '-' !in d by {
      forall c | c in d ensures c != '-' {
        assert IsDigit(c);
      }
    }
    assert f[|d|] == '-' && f[..|d|] == d;
    assert IndexOf(f, '-') == Some(|d|);
    assert f[|d| + 1..] == originalname;
    DecimalRoundTrip(now);
  }

  /** `limits.fileSize`: ten mebibytes, although the comment above it
      says 100MB. */
  const MaxFileSize: nat := 10 * 1024 * 1024

  /** The limit in bytes, and that it is a tenth of the 100MB claimed. */
  lemma MaxFileSizeIsTenMebibytes()
    ensures MaxFileSize == 10485760
    ensures MaxFileSize * 10 == 100 * 1024 * 1024
  {
  }
}
