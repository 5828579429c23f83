/** The path and offset arithmetic of utils/image_optimizer.py: where the
    optimised copy of a cover image lives, which URL `get_optimized_url`
    hands out, and where the resized image is pasted on its canvas.  The
    MD5 digest, the file system and the image library are inputs. */
module ImageOptimizer {
  import opened Wrappers
  import opened TextOps

  /** `SIZES`: the target box of each size name. */
  const Sizes: map<string, (int, int)> :=
    map["thumbnail" := (150, 150), "medium" := (300, 300), "large" := (600, 600)]

  const DefaultSize: string := "medium"

  /** The extensions kept as they are; any other becomes `.jpg`. */
  const AllowedExtensions: seq<string> := [".jpg", ".jpeg", ".png", ".webp"]

  const FallbackExtension: string := ".jpg"

  const OptimizedRoot: string := "static/optimized/"

  /** `url` is truthy: present and non-empty. */
  predicate Truthy(url: Option<string>)
  {
    url.Some? && url.value != ""
  }

  /** Some character of `p[lo..hi]` is not a dot. */
  predicate NonDotBetween(p: string, lo: int, hi: int)
    requires 0 <= lo && hi <= |p|
  {
    exists k :: lo <= k < hi && p[k] != '.'
  }

  /** `os.path.splitext` on a POSIX path: the extension runs from the last
      dot of the last path component, unless everything before that dot in
      the component is dots (a leading-dot name like `.bashrc` has none). */
  function SplitExt(p: string): (r: (string, string))
    ensures r.0 + r.1 == p
    ensures r.1 != [] ==> && r.1[0] == '.' && '/' !in r.1 && '.' !in r.1[1..]
                          && NonDotBetween(p, RFind(p, '/') + 1, |r.0|)
    ensures r.1 == [] ==> RFind(p, '.') <= RFind(p, '/') || !NonDotBetween(p, RFind(p, '/') + 1, RFind(p, '.'))
  {
    var sepIndex := RFind(p, '/');
    var dotIndex := RFind(p, '.');
    if dotIndex > sepIndex && NonDotBetween(p, sepIndex + 1, dotIndex) then
      var ext := p[dotIndex..];
      assert forall i :: 1 <= i < |ext| ==> ext[i] == p[dotIndex + i];
      (p[..dotIndex], ext)
    else (p, [])
  }

  /** The extension of the optimised file: the lowered `splitext`
      extension when it is allowed, else `.jpg`. */
  function Extension(url: string): (r: string)
    ensures r in AllowedExtensions
    ensures Lower(SplitExt(url).1) in AllowedExtensions ==> r == Lower(SplitExt(url).1)
    ensures Lower(SplitExt(url).1) !in AllowedExtensions ==> r == FallbackExtension
  {
    var ext := Lower(SplitExt(url).1);
    if ext in AllowedExtensions then ext else FallbackExtension
  }

  /** `get_optimized_path`: `None` for a falsy url, else the file under the
      size's directory named by the url's digest and the extension. */
  function GetOptimizedPath(url: Option<string>, size: string, md5Hex: string -> string): (r: Option<string>)
    ensures r.None? <==> !Truthy(url)
    ensures r.Some? ==> r.value == OptimizedRoot + size + "/" + md5Hex(url.value) + Extension(url.value)
  {
    if !Truthy(url) then None
    else Some(OptimizedRoot + size + "/" + md5Hex(url.value) + Extension(url.value))
  }

  /** `s` ends with `suffix`. */
  predicate EndsWith(s: string, suffix: string)
  {
    |suffix| <= |s| && s[|s| - |suffix|..] == suffix
  }

  /** Every path lies under `static/optimized/<size>/` and ends in one of
      the four allowed extensions. */
  lemma PathShape(url: Option<string>, size: string, md5Hex: string -> string)
    requires Truthy(url)
    ensures var p := GetOptimizedPath(url, size, md5Hex).value;
      && p[..|OptimizedRoot + size + "/"|] == OptimizedRoot + size + "/"
      && exists e :: e in AllowedExtensions && EndsWith(p, e)
  {
    var dir := OptimizedRoot + size + "/";
    var e := Extension(url.value);
    ConcatEnds(dir, md5Hex(url.value), e);
  }

  /** `x + y + z` starts with `x` and ends with `z`. */
  lemma ConcatEnds(x: string, y: string, z: string)
    ensures (x + y + z)[..|x|] == x && EndsWith(x + y + z, z)
  {
    var p := x + y + z;
    assert p[..|x|] == x;
    assert p[|p| - |z|..] == z;
  }

  /** An extension holding a query string is never allowed, so such a url
      gets `.jpg`. */
  lemma QueryStringForcesJpg(url: string, q: int)
    requires 0 <= q < |SplitExt(url).1| && SplitExt(url).1[q] == '?'
    ensures Extension(url) == FallbackExtension
  {
    var low := Lower(SplitExt(url).1);
    assert low[q] == '?';
  }

  /** For example `cover.png?w=1` is stored as a `.jpg`. */
  lemma QueryStringExample()
    ensures Extension("cover.png?w=1") == FallbackExtension
  {
    var p := "cover.png?w=1";
    assert RFind(p, '/') == -1 by {
      assert forall i :: 0 <= i < |p| ==> p[i] != '/';
    }
    assert RFind(p, '.') == 5 by {
      assert p[5] == '.';
      assert forall i :: 5 < i < |p| ==> p[i] != '.';
    }
    assert p[0] != '.';
    assert SplitExt(p).1 == p[5..];
    assert SplitExt(p).1[4] == '?';
    QueryStringForcesJpg(p, 4);
  }

  /** Upper-case extensions are lowered: `COVER.PNG` is stored as a
      `.png`. */
  lemma UpperCaseExample()
    ensures Extension("COVER.PNG") == ".png"
  {
    var p := "COVER.PNG";
    assert RFind(p, '/') == -1 by {
      assert forall i :: 0 <= i < |p| ==> p[i] != '/';
    }
    assert RFind(p, '.') == 5 by {
      assert p[5] == '.';
      assert forall i :: 5 < i < |p| ==> p[i] != '.';
    }
    assert p[0] != '.';
    assert SplitExt(p).1 == ".PNG";
    assert Lower(".PNG") == ".png";
  }

  /** A name that starts with its only dot has no extension. */
  lemma LeadingDotExample()
    ensures SplitExt(".bashrc") == (".bashrc", "")
  {
    var p := ".bashrc";
    assert RFind(p, '/') == -1 by {
      assert forall i :: 0 <= i < |p| ==> p[i] != '/';
    }
    assert RFind(p, '.') == 0 by {
      assert p[0] == '.';
      assert forall i :: 0 < i < |p| ==> p[i] != '.';
    }
  }

  /** Paths of two different sizes never meet: they differ in their size
      directory. */
  lemma SizesKeepPathsApart(url: Option<string>, s1: string, s2: string, md5Hex: string -> string)
    requires Truthy(url) && s1 in Sizes && s2 in Sizes && s1 != s2
    ensures GetOptimizedPath(url, s1, md5Hex) != GetOptimizedPath(url, s2, md5Hex)
  {
    var p1 := GetOptimizedPath(url, s1, md5Hex).value;
    var p2 := GetOptimizedPath(url, s2, md5Hex).value;
    assert |OptimizedRoot| == 17;
    assert p1[17] == s1[0] && p2[17] == s2[0];
  }

  /** The size actually used: `size` when it is one of `SIZES`, else
      `medium`. */
  function EffectiveSize(size: string): (r: string)
    ensures r in Sizes
    ensures size in Sizes ==> r == size
    ensures size !in Sizes ==> r == DefaultSize
  {
    if size in Sizes then size else DefaultSize
  }

  /** `get_optimized_url`.  `cached` is whether the optimised file already
      exists; `created` is whether fetching, optimising and saving it
      succeeded and raised nothing. */
  function GetOptimizedUrl(url: Option<string>, size: string, md5Hex: string -> string,
                           cached: bool, created: bool): (r: Option<string>)
    ensures !Truthy(url) ==> r == url
    ensures Truthy(url) && (cached || created) ==>
      r == Some("/" + GetOptimizedPath(url, EffectiveSize(size), md5Hex).value)
    ensures Truthy(url) && !cached && !created ==> r == url
  {
    if !Truthy(url) then url
    else
      var path := GetOptimizedPath(url, EffectiveSize(size), md5Hex);
      if path.None? then url
      else if cached then Some("/" + path.value)
      else if created then Some("/" + path.value)
      else url
  }

  /** A size outside `SIZES` is served as `medium`. */
  lemma UnknownSizeIsMedium(url: Option<string>, size: string, md5Hex: string -> string, cached: bool, created: bool)
    requires size !in Sizes
    ensures GetOptimizedUrl(url, size, md5Hex, cached, created) == GetOptimizedUrl(url, DefaultSize, md5Hex, cached, created)
  {
    assert DefaultSize in Sizes;
  }

  /** The url handed out is the original one or an absolute path under
      `/static/optimized/` in a directory of a known size. */
  lemma OptimizedUrlShape(url: Option<string>, size: string, md5Hex: string -> string, cached: bool, created: bool)
    ensures var r := GetOptimizedUrl(url, size, md5Hex, cached, created);
      r == url ||
      (Truthy(url) && exists s :: s in Sizes && r == Some("/" + GetOptimizedPath(url, s, md5Hex).value))
  {
    if Truthy(url) && (cached || created) {
      var s := EffectiveSize(size);
      assert s in Sizes;
    }
  }

  /** The paste offset on one axis, `(target - new) // 2`; Python's floor
      division by 2 is Dafny's. */
  function PasteOffset(target: int, newSize: int): (r: int)
    ensures 2 * r <= target - newSize < 2 * r + 2
  {
    (target - newSize) / 2
  }

  /** A resized image no larger than its box is pasted inside it, centred
      to within one pixel. */
  lemma PasteOffsetFits(target: int, newSize: int)
    requires 0 <= newSize <= target
    ensures var off := PasteOffset(target, newSize);
      && 0 <= off <= target - newSize
      && off + newSize <= target
      && 0 <= (target - newSize - off) - off <= 1
  {
  }

  /** `paste_pos` for a size name and the resized dimensions. */
  function PastePosition(size: string, newSize: (int, int)): (r: (int, int))
    requires size in Sizes
    ensures var box := Sizes[size];
      && 2 * r.0 <= box.0 - newSize.0 < 2 * r.0 + 2
      && 2 * r.1 <= box.1 - newSize.1 < 2 * r.1 + 2
  {
    var box := Sizes[size];
    (PasteOffset(box.0, newSize.0), PasteOffset(box.1, newSize.1))
  }

  /** The resized image lies wholly on the white canvas of its box. */
  lemma PastedImageOnCanvas(size: string, newSize: (int, int))
    requires size in Sizes
    requires 0 <= newSize.0 <= Sizes[size].0 && 0 <= newSize.1 <= Sizes[size].1
    ensures var pos := PastePosition(size, newSize); var box := Sizes[size];
      && 0 <= pos.0 && pos.0 + newSize.0 <= box.0
      && 0 <= pos.1 && pos.1 + newSize.1 <= box.1
  {
    PasteOffsetFits(Sizes[size].0, newSize.0);
    PasteOffsetFits(Sizes[size].1, newSize.1);
  }
}
