/** The slash-separated path helpers of Go's path/filepath and strings
    packages that the pipeline relies on, on `string` = `seq<char>`. */
module Paths {

  const Separator: char := '/'

  predicate IsSuffix(suffix: string, s: string) {
    |suffix| <= |s| && s[|s| - |suffix|..] == suffix
  }

  lemma SuffixTransitive(a: string, b: string, c: string)
    requires IsSuffix(a, b) && IsSuffix(b, c)
    ensures IsSuffix(a, c)
  {
    assert c[|c| - |a|..] == c[|c| - |b|..][|b| - |a|..];
  }

  /** filepath.Ext: the suffix of `p` that starts at the final '.' of its
      final element, or "" when that element has no '.'. */
  function Ext(p: string): (e: string)
    ensures |e| <= |p|
    ensures e == [] || e[0] == '.'
  {
    if p == [] || p[|p| - 1] == Separator then []
    else if p[|p| - 1] == '.' then [p[|p| - 1]]
    else
      var e := Ext(p[..|p| - 1]);
      if e == [] then [] else e + [p[|p| - 1]]
  }

  /** Ext returns a suffix of the path that starts with its only dot and
      crosses no separator. */
  lemma {:induction false} ExtIsDotSuffix(p: string)
    ensures var e := Ext(p);
      && IsSuffix(e, p)
      && (e == [] || e[0] == '.')
      && (forall k :: 0 < k < |e| ==> e[k] != '.' && e[k] != Separator)
  {
    if p != [] && p[|p| - 1] != Separator && p[|p| - 1] != '.' {
      var init, c := p[..|p| - 1], p[|p| - 1];
      ExtIsDotSuffix(init);
      var e := Ext(init);
      if e != [] {
        assert p == init + [c];
        assert p[|p| - |e + [c]|..] == init[|init| - |e|..] + [c];
      }
    }
  }

  /** A name that ends in a dot followed by neither dots nor separators
      has exactly that ending as its extension. */
  lemma {:induction false} ExtOfDotted(stem: string, ext: string)
    requires ext != [] && ext[0] == '.'
    requires forall k :: 0 < k < |ext| ==> ext[k] != '.' && ext[k] != Separator
    ensures Ext(stem + ext) == ext
    decreases |ext|
  {
    var p := stem + ext;
    if |ext| > 1 {
      var init := ext[..|ext| - 1];
      assert p[..|p| - 1] == stem + init;
      ExtOfDotted(stem, init);
      assert ext == init + [ext[|ext| - 1]];
    }
  }

  /** `p` without its trailing separators. */
  function TrimTrailingSeparators(p: string): (t: string)
    ensures |t| <= |p| && t == p[..|t|]
    ensures t == [] || t[|t| - 1] != Separator
    ensures forall k :: |t| <= k < |p| ==> p[k] == Separator
  {
    if p != [] && p[|p| - 1] == Separator then TrimTrailingSeparators(p[..|p| - 1]) else p
  }

  /** The final element of a path that has no trailing separator. */
  function LastElement(p: string): (t: string)
    ensures IsSuffix(t, p)
    ensures Separator !in t
    ensures |t| < |p| ==> p[|p| - |t| - 1] == Separator
  {
    if p == [] || p[|p| - 1] == Separator then []
    else LastElement(p[..|p| - 1]) + [p[|p| - 1]]
  }

  /** filepath.Base: the last element of `p`; "." for the empty path and
      "/" for a path made only of separators. */
  function Base(p: string): (b: string)
    ensures b != []
  {
    if p == [] then "."
    else
      var trimmed := TrimTrailingSeparators(p);
      var last := LastElement(trimmed);
      if last == [] then [Separator] else last
  }

  /** strings.TrimSuffix. */
  function TrimSuffix(s: string, suffix: string): string {
    if IsSuffix(suffix, s) then s[..|s| - |suffix|] else s
  }

  /** The file name without its extension, as main.go:270 and main.go:500
      compute it. */
  function Stem(p: string): (s: string)
    ensures |s| <= |Base(p)| && s == Base(p)[..|s|]
  {
    TrimSuffix(Base(p), Ext(p))
  }

  /** filepath.Join of two elements (an empty element is ignored). */
  function Join(dir: string, name: string): (j: string)
    ensures |dir| <= |j| && j[..|dir|] == dir
    ensures IsSuffix(name, j)
  {
    if dir == [] then name else if name == [] then dir else dir + [Separator] + name
  }

  /** filepath.Dir of a path: everything before its final separator, "/"
      when that separator is the first character, "." when there is none. */
  function Dir(p: string): (d: string)
    ensures d == "." || d == [Separator] || (|d| < |p| && d == p[..|d|] && p[|d|] == Separator)
  {
    var last := LastElement(p);
    if |last| == |p| then "."
    else if |last| + 1 == |p| then [Separator]
    else p[..|p| - |last| - 1]
  }

  /** strings.ToLower on one character: the ASCII capitals, and the two
      non-ASCII capitals whose lower case is an ASCII letter (U+0130, the
      dotted capital I, and U+212A, the Kelvin sign). Every other mapping
      of Unicode's table leads from one non-ASCII character to another. */
  function LowerChar(c: char): char {
    if 'A' <= c <= 'Z' then (c as int - 'A' as int + 'a' as int) as char
    else if c == '\U{0130}' then 'i'
    else if c == '\U{212A}' then 'k'
    else c
  }

  /** A lower-cased character is an ASCII lower-case letter exactly when it
      was an ASCII letter or one of the two non-ASCII capitals above. */
  lemma LowerCharToAscii(c: char)
    ensures 'a' <= LowerChar(c) <= 'z' <==>
              ('A' <= c <= 'Z' || 'a' <= c <= 'z' || c == '\U{0130}' || c == '\U{212A}')
  {
  }

  function ToLower(s: string): string {
    seq(|s|, i requires 0 <= i < |s| => LowerChar(s[i]))
  }

  /** The extensions findImageFiles accepts (main.go:157-166). */
  const SupportedExtensions: set<string> :=
    {".jpg", ".jpeg", ".png", ".gif", ".bmp", ".tiff", ".tif", ".webp"}

  /** The filter of main.go:177-178; every supported extension is a dot
      and three or four letters. */
  predicate IsSupportedImage(name: string)
    ensures IsSupportedImage(name) ==> 4 <= |Ext(name)| <= 5
  {
    ToLower(Ext(name)) in SupportedExtensions
  }

  /** isJPEGFile (main.go:292-295); every JPEG file also passes the
      walk's filter. */
  predicate IsJpegFile(p: string)
    ensures IsJpegFile(p) ==> IsSupportedImage(p)
  {
    var ext := ToLower(Ext(p));
    ext == ".jpg" || ext == ".jpeg"
  }

  /** Both predicates ignore the case of the extension. */
  lemma ExtensionCaseIgnored(p: string, q: string)
    requires ToLower(Ext(p)) == ToLower(Ext(q))
    ensures IsJpegFile(p) == IsJpegFile(q) && IsSupportedImage(p) == IsSupportedImage(q)
  {
  }

  lemma JpegExamples()
    ensures IsJpegFile("photos/Cat.JPG") && IsJpegFile("scan.jpeg")
  {
    ExtOfDotted("photos/Cat", ".JPG");
    assert "photos/Cat" + ".JPG" == "photos/Cat.JPG";
    assert ToLower(".JPG") == ".jpg";
    ExtOfDotted("scan", ".jpeg");
    assert "scan" + ".jpeg" == "scan.jpeg";
    assert ToLower(".jpeg") == ".jpeg";
  }

  /** Go lower-cases the dotted capital I to 'i', so a ".T\U{0130}F" file
      is a TIFF to the walk's filter. */
  lemma DottedCapitalIExample()
    ensures IsSupportedImage("x.T\U{0130}F")
  {
    ExtOfDotted("x", ".T\U{0130}F");
    assert "x" + ".T\U{0130}F" == "x.T\U{0130}F";
    assert ToLower(".T\U{0130}F") == ".tif";
  }

  /** Only the final element's extension matters. */
  lemma NotJpegExamples()
    ensures !IsJpegFile("photo.jpg/raw") && !IsSupportedImage("photo.png/")
  {
    assert "photo.jpg/raw"[..12] == "photo.jpg/ra";
    assert "photo.jpg/ra"[..11] == "photo.jpg/r";
    assert "photo.jpg/r"[..10] == "photo.jpg/";
    assert Ext("photo.jpg/raw") == [];
    assert Ext("photo.png/") == [];
    assert ToLower([]) == [];
  }

  /** Dir undoes Join: the scratch directory of a converted file is
      recovered from its path (main.go:322 applied to main.go:507/513/521). */
  lemma {:induction false} DirOfJoin(dir: string, name: string)
    requires dir != [] && dir[|dir| - 1] != Separator
    requires name != [] && Separator !in name
    ensures Dir(Join(dir, name)) == dir
  {
    var p := Join(dir, name);
    LastElementOfJoin(dir, name);
  }

  lemma {:induction false} LastElementOfJoin(dir: string, name: string)
    requires name != [] && Separator !in name
    ensures LastElement(dir + [Separator] + name) == name
    decreases |name|
  {
    var p := dir + [Separator] + name;
    assert p[|p| - 1] == name[|name| - 1];
    assert p[..|p| - 1] == dir + [Separator] + name[..|name| - 1];
    if |name| == 1 {
      assert p[..|p| - 1] == dir + [Separator];
    } else {
      assert name[|name| - 1] in name;
      LastElementOfJoin(dir, name[..|name| - 1]);
      assert name[..|name| - 1] + [name[|name| - 1]] == name;
    }
  }

  /** A plain file name is its own base name. */
  lemma {:induction false} PlainName(name: string)
    requires name != [] && Separator !in name
    ensures Base(name) == name
  {
    LastElementOfPlain(name);
  }

  /** The stem of a plain name with a dotted extension is the name without
      that extension. */
  lemma {:induction false} StemOfDotted(stem: string, ext: string)
    requires ext != [] && ext[0] == '.'
    requires forall k :: 0 < k < |ext| ==> ext[k] != '.' && ext[k] != Separator
    requires Separator !in stem
    ensures Stem(stem + ext) == stem
  {
    var name := stem + ext;
    assert forall c :: c in name ==> c in stem || c in ext;
    assert Separator !in ext by {
      assert forall k :: 0 <= k < |ext| ==> ext[k] != Separator;
    }
    PlainName(name);
    ExtOfDotted(stem, ext);
    assert IsSuffix(ext, name);
    assert name[..|name| - |ext|] == stem;
  }

  lemma {:induction false} LastElementOfPlain(name: string)
    requires Separator !in name
    ensures LastElement(name) == name
  {
    if name != [] {
      var init := name[..|name| - 1];
      assert forall c :: c in init ==> c in name;
      LastElementOfPlain(init);
      assert init + [name[|name| - 1]] == name;
    }
  }

  /** The stem of a file name never contains a separator. */
  lemma StemHasNoSeparator(p: string)
    requires p != [] && TrimTrailingSeparators(p) != [] && LastElement(TrimTrailingSeparators(p)) != []
    ensures Separator !in Stem(p)
  {
  }
}
