/**
 * The upload route's `fileFilter`: a file is accepted when the pattern
 * `/jpeg|jpg|png/` matches both its lower-cased file-name extension and
 * its (not lower-cased) MIME type. The pattern is not anchored, so it
 * matches anywhere in the string.
 */
module UploadFilter {

  /** `p` occurs in `s` starting at index `i`. */
  ghost predicate OccursAt(s: string, p: string, i: int) {
    0 <= i && i + |p| <= |s| && s[i..i + |p|] == p
  }

  /** Substring search, one start position after the other. */
  function Contains(s: string, p: string): bool
    decreases |s|
  {
    if p <= s then true
    else if s == [] then false
    else Contains(s[1..], p)
  }

  /** `/jpeg|jpg|png/.test(s)`. */
  function MatchesAllowedType(s: string): bool {
    Contains(s, "jpeg") || Contains(s, "jpg") || Contains(s, "png")
  }

  /** `toLowerCase` on the ASCII letters; every other character is kept. */
  function LowerChar(c: char): char {
    if 'A' <= c <= 'Z' then (c as int - 'A' as int + 'a' as int) as char else c
  }

  /** `toLowerCase`: every capital A-Z becomes its small letter, 32 code points up; nothing else changes. */
  function Lower(s: string): (r: string)
    ensures |r| == |s|
    ensures forall i :: 0 <= i < |r| ==> !('A' <= r[i] <= 'Z')
    ensures forall i :: 0 <= i < |s| && 'A' <= s[i] <= 'Z' ==> r[i] as int == s[i] as int + 32
    ensures forall i :: 0 <= i < |s| && !('A' <= s[i] <= 'Z') ==> r[i] == s[i]
  {
    seq(|s|, i requires 0 <= i < |s| => LowerChar(s[i]))
  }

  /** The name without its trailing `/` characters. */
  function TrimTrailingSlashes(s: string): (r: string)
    ensures |r| <= |s|
    ensures r == [] || r[|r| - 1] != '/'
  {
    if s != [] && s[|s| - 1] == '/' then TrimTrailingSlashes(s[..|s| - 1]) else s
  }

  /** The part of `s` after its last `/`. */
  function LastSegment(s: string): (r: string)
    ensures |r| <= |s|
    ensures forall j :: 0 <= j < |r| ==> r[j] != '/'
  {
    if s == [] || s[|s| - 1] == '/' then []
    else LastSegment(s[..|s| - 1]) + [s[|s| - 1]]
  }

  /** The index of the last `.` in `s`, or -1. */
  function LastDot(s: string): (k: int)
    ensures -1 <= k < |s|
    ensures k >= 0 ==> s[k] == '.'
    ensures forall j :: k < j < |s| ==> s[j] != '.'
  {
    if s == [] then -1
    else if s[|s| - 1] == '.' then |s| - 1
    else LastDot(s[..|s| - 1])
  }

  /**
   * Node's POSIX `path.extname`: from the last `.` of the last path segment
   * (trailing slashes ignored) to its end; empty when that segment has no
   * `.`, starts with its only `.`, or is `..`.
   */
  function ExtName(path: string): (ext: string)
    ensures ext == [] || ext[0] == '.'
    ensures forall j :: 0 < j < |ext| ==> ext[j] != '.' && ext[j] != '/'
  {
    var segment := LastSegment(TrimTrailingSlashes(path));
    var dot := LastDot(segment);
    if segment == ".." || dot <= 0 then [] else segment[dot..]
  }

  /** `fileFilter`'s decision: `true` is `cb(null, true)`, `false` the rejecting error. */
  function FileFilter(originalName: string, mimetype: string): bool {
    MatchesAllowedType(Lower(ExtName(originalName))) && MatchesAllowedType(mimetype)
  }

  /** The recursive search finds `p` exactly when `p` occurs somewhere in `s`. */
  lemma {:induction false} ContainsIffOccurs(s: string, p: string)
    ensures Contains(s, p) <==> exists i :: OccursAt(s, p, i)
    decreases |s|
  {
    if p <= s {
      assert OccursAt(s, p, 0);
    } else if s == [] {
      assert forall i :: OccursAt(s, p, i) ==> p <= s;
    } else {
      ContainsIffOccurs(s[1..], p);
      forall i | OccursAt(s[1..], p, i)
        ensures OccursAt(s, p, i + 1)
      {
        assert s[1..][i..i + |p|] == s[i + 1..i + 1 + |p|];
      }
      forall i | OccursAt(s, p, i)
        ensures i >= 1 && OccursAt(s[1..], p, i - 1)
      {
        assert i == 0 ==> p <= s;
        if i >= 1 {
          assert s[1..][i - 1..i - 1 + |p|] == s[i..i + |p|];
        }
      }
    }
  }

  /** The pattern matches exactly when `jpeg`, `jpg` or `png` occurs in the string. */
  lemma MatchesIffOccurs(s: string)
    ensures MatchesAllowedType(s) <==>
              exists i :: OccursAt(s, "jpeg", i) || OccursAt(s, "jpg", i) || OccursAt(s, "png", i)
  {
    ContainsIffOccurs(s, "jpeg");
    ContainsIffOccurs(s, "jpg");
    ContainsIffOccurs(s, "png");
  }

  /**
   * A file is accepted exactly when one of `jpeg`, `jpg`, `png` occurs in its
   * lower-cased extension and one of them occurs in its MIME type.
   */
  lemma FileFilterAccepts(originalName: string, mimetype: string)
    ensures var ext := Lower(ExtName(originalName));
            FileFilter(originalName, mimetype) <==>
              && (exists i :: OccursAt(ext, "jpeg", i) || OccursAt(ext, "jpg", i) || OccursAt(ext, "png", i))
              && (exists i :: OccursAt(mimetype, "jpeg", i) || OccursAt(mimetype, "jpg", i) || OccursAt(mimetype, "png", i))
  {
    MatchesIffOccurs(Lower(ExtName(originalName)));
    MatchesIffOccurs(mimetype);
  }

  /** A pattern whose first character is absent from `s` is not found in it. */
  lemma {:induction false} AbsentFirstChar(s: string, p: string)
    requires p != [] && p[0] !in s
    ensures !Contains(s, p)
    decreases |s|
  {
    if s != [] {
      assert s[0] != p[0];
      assert s[1..] <= s[1..] && forall c :: c in s[1..] ==> c in s;
      AbsentFirstChar(s[1..], p);
    }
  }

  lemma Slice2Lower(s: string, k: nat)
    requires k <= |s|
    ensures Lower(s)[..k] == Lower(s[..k])
  {
  }

  /** Lower-casing keeps `/` and `.` where they are, so trailing slashes are trimmed alike. */
  lemma {:induction false} TrimLower(s: string)
    ensures TrimTrailingSlashes(Lower(s)) == Lower(TrimTrailingSlashes(s))
    decreases |s|
  {
    if s != [] && s[|s| - 1] == '/' {
      Slice2Lower(s, |s| - 1);
      TrimLower(s[..|s| - 1]);
    }
  }

  lemma {:induction false} SegmentLower(s: string)
    ensures LastSegment(Lower(s)) == Lower(LastSegment(s))
    decreases |s|
  {
    if s != [] && s[|s| - 1] != '/' {
      var init := s[..|s| - 1];
      Slice2Lower(s, |s| - 1);
      SegmentLower(init);
      var seg := LastSegment(init);
      assert Lower(seg + [s[|s| - 1]]) == Lower(seg) + [LowerChar(s[|s| - 1])];
    }
  }

  lemma {:induction false} DotLower(s: string)
    ensures LastDot(Lower(s)) == LastDot(s)
    decreases |s|
  {
    if s != [] && s[|s| - 1] != '.' {
      Slice2Lower(s, |s| - 1);
      DotLower(s[..|s| - 1]);
    }
  }

  lemma SliceFromLower(s: string, k: nat)
    requires k <= |s|
    ensures Lower(s)[k..] == Lower(s[k..])
  {
  }

  /** `.` is not a letter, so only `..` lower-cases to `..`. */
  lemma DotDotLower(s: string)
    ensures Lower(s) == ".." <==> s == ".."
  {
    if s == ".." {
      assert Lower(s)[0] == '.' && Lower(s)[1] == '.';
    }
  }

  /** Lower-casing and `path.extname` commute: neither `.` nor `/` is a letter. */
  lemma ExtNameOfLower(path: string)
    ensures ExtName(Lower(path)) == Lower(ExtName(path))
  {
    TrimLower(path);
    var trimmed := TrimTrailingSlashes(path);
    SegmentLower(trimmed);
    var segment := LastSegment(trimmed);
    DotLower(segment);
    DotDotLower(segment);
    var dot := LastDot(segment);
    if segment == ".." || dot <= 0 {
      assert ExtName(path) == [];
      assert Lower([]) == [];
    } else {
      SliceFromLower(segment, dot);
    }
  }

  /** Lower-casing twice is lower-casing once. */
  lemma LowerIdempotent(s: string)
    ensures Lower(Lower(s)) == Lower(s)
  {
  }

  /** Trimming keeps a prefix and removes only `/` characters. */
  lemma {:induction false} TrimmedPrefix(s: string)
    ensures var r := TrimTrailingSlashes(s);
            && r == s[..|r|]
            && forall j :: |r| <= j < |s| ==> s[j] == '/'
    decreases |s|
  {
    if s != [] && s[|s| - 1] == '/' {
      TrimmedPrefix(s[..|s| - 1]);
    }
  }

  /** The last segment is a suffix, and it is the whole string or follows a `/`. */
  lemma {:induction false} SegmentSuffix(s: string)
    ensures var r := LastSegment(s);
            && r == s[|s| - |r|..]
            && (|r| < |s| ==> s[|s| - |r| - 1] == '/')
    decreases |s|
  {
    if s != [] && s[|s| - 1] != '/' {
      var init := s[..|s| - 1];
      SegmentSuffix(init);
      var r := LastSegment(init);
      assert s[|s| - |r| - 1..] == init[|init| - |r|..] + [s[|s| - 1]];
    }
  }

  /**
   * When `path.extname` is empty: with `segment` the last segment of the path
   * once trailing slashes are gone, exactly when `segment` is `..` or has no
   * `.` after its first character.
   */
  lemma ExtNameEmpty(path: string)
    ensures var segment := LastSegment(TrimTrailingSlashes(path));
            ExtName(path) == [] <==> segment == ".." || forall j :: 0 < j < |segment| ==> segment[j] != '.'
  {
    var segment := LastSegment(TrimTrailingSlashes(path));
    var dot := LastDot(segment);
    if dot > 0 && segment != ".." {
      assert segment[dot] == '.';
      assert |segment[dot..]| > 0;
    }
  }

  /**
   * Otherwise the extension runs from the last `.` of that segment to the
   * segment's end, and the `.` is not the segment's first character.
   */
  lemma ExtNameFromLastDot(path: string)
    requires ExtName(path) != []
    ensures var segment := LastSegment(TrimTrailingSlashes(path));
            ExtName(path) == segment[LastDot(segment)..] && |ExtName(path)| < |segment|
  {
  }

  /** A non-empty extension is a proper suffix of the path with its trailing slashes removed. */
  lemma ExtNameIsSuffix(path: string)
    requires ExtName(path) != []
    ensures |ExtName(path)| < |TrimTrailingSlashes(path)|
    ensures EndsWith(TrimTrailingSlashes(path), ExtName(path))
  {
    var trimmed := TrimTrailingSlashes(path);
    var segment := LastSegment(trimmed);
    SegmentSuffix(trimmed);
    ExtNameFromLastDot(path);
    TailOfSuffix(trimmed, segment, LastDot(segment));
  }

  /** `s` ends with `tail`. */
  ghost predicate EndsWith(s: string, tail: string) {
    |tail| <= |s| && s[|s| - |tail|..] == tail
  }

  lemma TailOfSuffix(t: string, suffix: string, k: nat)
    requires EndsWith(t, suffix)
    requires k <= |suffix|
    ensures EndsWith(t, suffix[k..])
  {
    assert forall j :: 0 <= j < |suffix| - k ==> suffix[k..][j] == t[|t| - |suffix| + k + j];
  }

  /** A name without any `.` has no extension. */
  lemma NoDotNoExtension(name: string)
    requires '.' !in name
    ensures ExtName(name) == []
  {
    var trimmed := TrimTrailingSlashes(name);
    var segment := LastSegment(trimmed);
    TrimmedPrefix(name);
    SegmentSuffix(trimmed);
    forall j | 0 <= j < |segment|
      ensures segment[j] != '.'
    {
      assert segment[j] == trimmed[|trimmed| - |segment| + j] == name[|trimmed| - |segment| + j];
    }
    assert LastDot(segment) == -1;
  }

  /** A name without any `.` is rejected, whatever its MIME type. */
  lemma NoDotRejected(name: string, mimetype: string)
    requires '.' !in name
    ensures !FileFilter(name, mimetype)
  {
    NoDotNoExtension(name);
    var ext := Lower(ExtName(name));
    assert ext == [];
    AbsentFirstChar(ext, "jpeg");
    AbsentFirstChar(ext, "jpg");
    AbsentFirstChar(ext, "png");
  }

  /** Only the last path segment counts: a directory part in front of a plain name changes nothing. */
  lemma DirectoryIgnored(front: string, stem: string, suffix: string)
    requires front != [] && front[|front| - 1] == '/'
    requires stem != [] && '/' !in stem && '/' !in suffix && '.' !in suffix
    requires stem + "." + suffix != ".."
    ensures ExtName(front + (stem + "." + suffix)) == "." + suffix
  {
    var name := stem + "." + suffix;
    assert '/' !in name by {
      assert forall j :: 0 <= j < |name| ==> name[j] != '/';
    }
    SuffixSegment(front, name);
    SegmentWithoutSlash(name);
    assert TrimTrailingSlashes(name) == name;
    assert ExtName(front + name) == ExtName(name);
    ExtNameOfFileName(stem, suffix);
  }

  /** Names that lower-case alike are treated alike; only the name's letter case is ignored. */
  lemma NameCaseIgnored(name1: string, name2: string, mimetype: string)
    requires Lower(name1) == Lower(name2)
    ensures FileFilter(name1, mimetype) == FileFilter(name2, mimetype)
  {
    ExtNameOfLower(name1);
    ExtNameOfLower(name2);
  }

  lemma {:induction false} SegmentWithoutSlash(s: string)
    requires '/' !in s
    ensures LastSegment(s) == s
    decreases |s|
  {
    if s != [] {
      assert '/' !in s[..|s| - 1] by { assert forall c :: c in s[..|s| - 1] ==> c in s; }
      SegmentWithoutSlash(s[..|s| - 1]);
    }
  }

  lemma {:induction false} DotBeforeSuffix(stem: string, suffix: string)
    requires '.' !in suffix
    ensures LastDot(stem + "." + suffix) == |stem|
    decreases |suffix|
  {
    var name := stem + "." + suffix;
    if suffix != [] {
      var shorter := suffix[..|suffix| - 1];
      assert name[..|name| - 1] == stem + "." + shorter;
      assert '.' !in shorter by { assert forall c :: c in shorter ==> c in suffix; }
      DotBeforeSuffix(stem, shorter);
    }
  }

  /** A non-empty name without `/` after a `/` is the whole last segment. */
  lemma {:induction false} SuffixSegment(front: string, name: string)
    requires front != [] && front[|front| - 1] == '/'
    requires name != [] && '/' !in name
    ensures TrimTrailingSlashes(front + name) == front + name
    ensures LastSegment(front + name) == name
    decreases |name|
  {
    var path := front + name;
    assert path[|path| - 1] == name[|name| - 1];
    var init := name[..|name| - 1];
    assert path[..|path| - 1] == front + init;
    assert '/' !in init by { assert forall c :: c in init ==> c in name; }
    if init == [] {
      assert front + init == front;
    } else {
      SuffixSegment(front, init);
    }
    assert init + [name[|name| - 1]] == name;
  }

  /** A plain file name `stem.suffix` (no `/`, no `.` in the suffix) has the extension `.suffix`. */
  lemma ExtNameOfFileName(stem: string, suffix: string)
    requires stem != [] && '/' !in stem && '/' !in suffix && '.' !in suffix
    requires stem + "." + suffix != ".."
    ensures ExtName(stem + "." + suffix) == "." + suffix
  {
    var name := stem + "." + suffix;
    assert name[|name| - 1] != '/';
    assert '/' !in name;
    SegmentWithoutSlash(name);
    DotBeforeSuffix(stem, suffix);
    assert name[|stem|..] == "." + suffix;
  }

  /** The extension is lower-cased: any plain name ending in `.JPG` and sent as `image/jpeg` is accepted. */
  lemma UpperCaseExtensionAccepted(stem: string, mimetype: string)
    requires stem != [] && '/' !in stem
    requires mimetype == "image/jpeg"
    ensures FileFilter(stem + ".JPG", mimetype)
  {
    ExtNameOfFileName(stem, "JPG");
    assert stem + ".JPG" == stem + "." + "JPG";
    var ext := Lower(".JPG");
    assert ext[0] == '.' && ext[1] == 'j' && ext[2] == 'p' && ext[3] == 'g';
    assert ext[1..4] == "jpg";
    assert OccursAt(ext, "jpg", 1);
    ContainsIffOccurs(ext, "jpg");
    assert mimetype[6..10] == "jpeg";
    assert OccursAt(mimetype, "jpeg", 6);
    ContainsIffOccurs(mimetype, "jpeg");
  }

  /** The MIME type is not lower-cased: whatever the name, `IMAGE/JPEG` is rejected. */
  lemma UpperCaseMimeTypeRejected(name: string, mimetype: string)
    requires mimetype == "IMAGE/JPEG"
    ensures !FileFilter(name, mimetype)
  {
    assert 'j' !in mimetype && 'p' !in mimetype;
    AbsentFirstChar(mimetype, "jpeg");
    AbsentFirstChar(mimetype, "jpg");
    AbsentFirstChar(mimetype, "png");
  }
}
