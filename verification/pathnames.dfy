/** The string tests the pipeline applies to file names: Python's `str.lower`,
    `str.endswith` with a tuple of suffixes, `os.path.splitext` and
    `os.path.dirname` on POSIX paths. */
module PathNames {

  /** The two document suffixes accepted for a job and for a drop. */
  const DocumentSuffixes: seq<string> := [".docx", ".doc"]

  /** The suffixes that make a media entry a candidate image. */
  const ImageSuffixes: seq<string> := [".png", ".jpg", ".jpeg", ".bmp"]

  /** `str.lower` on the ASCII letters; every other character is kept. */
  function LowerChar(c: char): char {
    if 'A' <= c <= 'Z' then (c as int + 32) as char else c
  }

  /** `s.lower()`, character by character. */
  function Lower(s: string): (r: string)
    ensures |r| == |s|
  {
    seq(|s|, i requires 0 <= i < |s| => LowerChar(s[i]))
  }

  /** `s.endswith(suffix)`. */
  predicate EndsWith(s: string, suffix: string) {
    |suffix| <= |s| && s[|s| - |suffix|..] == suffix
  }

  /** A string ends with a suffix exactly when it is some stem followed by
      that suffix. */
  lemma EndsWithSplit(s: string, suffix: string)
    ensures EndsWith(s, suffix) <==> exists stem :: s == stem + suffix
  {
    if EndsWith(s, suffix) {
      assert s == s[..|s| - |suffix|] + suffix;
    }
    if stem :| s == stem + suffix {
      assert s[|s| - |suffix|..] == suffix;
    }
  }

  /** `s.endswith(suffixes)` for a tuple of suffixes. */
  predicate EndsWithAny(s: string, suffixes: seq<string>): (b: bool)
    ensures b <==> exists suffix :: suffix in suffixes && EndsWith(s, suffix)
  {
    exists k :: 0 <= k < |suffixes| && EndsWith(s, suffixes[k])
  }

  /** `path.lower().endswith(('.docx', '.doc'))`: the test both the job and the
      drop handler apply. */
  predicate IsWordDocument(path: string): (b: bool)
    ensures b <==> EndsWith(Lower(path), ".docx") || EndsWith(Lower(path), ".doc")
  {
    assert DocumentSuffixes[0] == ".docx" && DocumentSuffixes[1] == ".doc";
    EndsWithAny(Lower(path), DocumentSuffixes)
  }

  /** `f.lower().endswith(('.png', '.jpg', '.jpeg', '.bmp'))`. */
  predicate IsCandidateImage(name: string): (b: bool)
    ensures b <==> || EndsWith(Lower(name), ".png") || EndsWith(Lower(name), ".jpg")
                   || EndsWith(Lower(name), ".jpeg") || EndsWith(Lower(name), ".bmp")
  {
    assert ImageSuffixes[0] == ".png" && ImageSuffixes[1] == ".jpg";
    assert ImageSuffixes[2] == ".jpeg" && ImageSuffixes[3] == ".bmp";
    EndsWithAny(Lower(name), ImageSuffixes)
  }

  /** A path ending in `.docx` or `.doc` written in any case is a Word
      document. */
  lemma WordDocumentAnyCase(path: string, suffix: string)
    requires EndsWith(path, suffix) && (Lower(suffix) == ".docx" || Lower(suffix) == ".doc")
    ensures IsWordDocument(path)
  {
    assert Lower(path)[|path| - |suffix|..] == Lower(suffix);
  }

  /** A name ending in one of the image suffixes written in any case is a
      candidate image. */
  lemma CandidateImageAnyCase(name: string, suffix: string)
    requires EndsWith(name, suffix)
    requires Lower(suffix) in [".png", ".jpg", ".jpeg", ".bmp"]
    ensures IsCandidateImage(name)
  {
    assert Lower(name)[|name| - |suffix|..] == Lower(suffix);
  }

  /** Lowering twice is lowering once, so the suffix tests do not depend on the
      case the path is written in. */
  lemma LowerIdempotent(s: string)
    ensures Lower(Lower(s)) == Lower(s)
  {
  }

  /** Both suffix tests give the same answer on a path and on its lowered
      form. */
  lemma WordDocumentIgnoresCase(path: string)
    ensures IsWordDocument(path) <==> IsWordDocument(Lower(path))
    ensures IsCandidateImage(path) <==> IsCandidateImage(Lower(path))
  {
    LowerIdempotent(path);
  }

  /** The index of the last occurrence of `c` in `s`, or -1 (`str.rfind`). */
  function LastIndexOf(s: string, c: char): (r: int)
    ensures -1 <= r < |s|
    ensures r >= 0 ==> s[r] == c
    ensures forall k :: r < k < |s| ==> s[k] != c
  {
    if s == [] then -1
    else if s[|s| - 1] == c then |s| - 1
    else LastIndexOf(s[..|s| - 1], c)
  }

  /** The second half of `os.path.splitext(p)`: from the last dot of the last
      path component to the end, unless that component has nothing but dots
      before its last dot (so ".png" and "..png" have no extension). */
  function Extension(p: string): (r: string)
    ensures r == [] || (r[0] == '.' && EndsWith(p, r) && '.' !in r[1..] && '/' !in r)
  {
    var sep := LastIndexOf(p, '/');
    var dot := LastIndexOf(p, '.');
    if dot > sep && exists k :: sep < k < dot && p[k] != '.' then
      p[dot..]
    else []
  }

  /** The last dot of a name ending in a dot-led suffix without further dots
      is the one that starts the suffix. */
  lemma SuffixDot(name: string, suffix: string)
    requires EndsWith(name, suffix) && |suffix| > 0 && suffix[0] == '.'
    requires '.' !in suffix[1..]
    ensures LastIndexOf(name, '.') == |name| - |suffix|
  {
  }

  /** A name that ends in a dot-led suffix without further dots, and has some
      character other than a dot before it, has exactly that suffix as its
      extension. */
  lemma ExtensionOfSuffix(name: string, suffix: string)
    requires '/' !in name
    requires EndsWith(name, suffix) && |suffix| > 0 && suffix[0] == '.'
    requires '.' !in suffix[1..]
    requires exists k :: 0 <= k < |name| - |suffix| && name[k] != '.'
    ensures Extension(name) == suffix
  {
  }

  /** Lowering keeps every dot and slash where it was. */
  lemma LowerKeepsSeparators(s: string)
    ensures forall k :: 0 <= k < |s| ==> (Lower(s)[k] == '.' <==> s[k] == '.')
    ensures forall k :: 0 <= k < |s| ==> (Lower(s)[k] == '/' <==> s[k] == '/')
  {
  }

  /** The last dot or slash (`rfind`) is found at the same index before and
      after lowering. */
  lemma {:induction false} LastIndexOfLower(s: string, c: char)
    requires c == '.' || c == '/'
    ensures LastIndexOf(Lower(s), c) == LastIndexOf(s, c)
  {
    if s != [] {
      assert Lower(s)[..|s| - 1] == Lower(s[..|s| - 1]);
      LastIndexOfLower(s[..|s| - 1], c);
    }
  }

  /** `splitext(f)[1].lower()` equals the extension of the lowered name, so the
      extension dispatch sees the same suffix the candidate test saw. */
  lemma ExtensionOfLower(s: string)
    ensures Lower(Extension(s)) == Extension(Lower(s))
  {
    LastIndexOfLower(s, '.');
    LastIndexOfLower(s, '/');
    var sep := LastIndexOf(s, '/');
    var dot := LastIndexOf(s, '.');
    if dot > sep {
      assert forall k :: 0 <= k < |s| ==> (Lower(s)[k] == '.' <==> s[k] == '.');
      assert Lower(s[dot..]) == Lower(s)[dot..];
    }
  }

  /** `str.rstrip('/')`. */
  function StripTrailingSlashes(s: string): (r: string)
    ensures r <= s
    ensures r == [] || r[|r| - 1] != '/'
    ensures forall k :: |r| <= k < |s| ==> s[k] == '/'
  {
    if s != [] && s[|s| - 1] == '/' then StripTrailingSlashes(s[..|s| - 1]) else s
  }

  /** `os.path.dirname(p)`: everything before the last slash, with the trailing
      slashes removed unless it consists of slashes only. It is empty exactly
      when the path has no slash at all. */
  function Dirname(p: string): (r: string)
    ensures r <= p
    ensures r == [] <==> '/' !in p
    ensures var last := LastIndexOf(p, '/');
            (exists k :: 0 <= k < last && p[k] != '/') ==>
              && r != [] && r[|r| - 1] != '/' && |r| <= last
              && forall k :: |r| <= k <= last ==> p[k] == '/'
    ensures var last := LastIndexOf(p, '/');
            (forall k :: 0 <= k <= last ==> p[k] == '/') ==> r == p[..last + 1]
  {
    var head := p[..LastIndexOf(p, '/') + 1];
    if exists k :: 0 <= k < |head| && head[k] != '/' then
      var r := StripTrailingSlashes(head);
      assert r != [] by {
        var k :| 0 <= k < |head| && head[k] != '/';
        StrippedKeeps(head, k);
      }
      r
    else head
  }

  /** A character other than a slash survives stripping the trailing slashes. */
  lemma {:induction false} StrippedKeeps(s: string, k: nat)
    requires k < |s| && s[k] != '/'
    ensures k < |StripTrailingSlashes(s)|
  {
    if s[|s| - 1] == '/' {
      StrippedKeeps(s[..|s| - 1], k);
    }
  }
}
