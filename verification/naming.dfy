/**
 Which directory entries the batch picks up, and what the re-encoded file is
 called. A name is picked up when it ends in `.png` or `.PNG` exactly; the
 output name is the name's root, as `os.path.splitext` computes it, followed
 by `.webp`.

 Names come from a directory listing, so they never contain a path
 separator; the root is therefore computed on a bare file name.
 */
module Naming {

  /** True when `suffix` is a suffix of `s`. */
  predicate EndsWith(s: string, suffix: string) {
    |suffix| <= |s| && s[|s| - |suffix|..] == suffix
  }

  /** The input filter (line 27): only the two exact casings count. */
  predicate IsPng(name: string) {
    EndsWith(name, ".png") || EndsWith(name, ".PNG")
  }

  /** Every character of `s` is a dot (vacuously so for the empty string). */
  predicate AllDots(s: string) {
    forall k :: 0 <= k < |s| ==> s[k] == '.'
  }

  /** `s` contains no dot at all. */
  predicate NoDot(s: string) {
    forall k :: 0 <= k < |s| ==> s[k] != '.'
  }

  /** Index of the last dot in `s`, or -1 when there is none. */
  function LastDot(s: string): (i: int)
    ensures -1 <= i < |s|
    ensures i >= 0 ==> s[i] == '.'
    ensures forall k :: i < k < |s| ==> s[k] != '.'
    decreases |s|
  {
    if |s| == 0 then -1
    else if s[|s| - 1] == '.' then |s| - 1
    else LastDot(s[..|s| - 1])
  }

  /**
   Root and extension of a file name, as `os.path.splitext` splits it: the
   extension runs from the last dot to the end, but only when some non-dot
   character comes before that dot; otherwise the extension is empty.
   */
  function SplitExt(name: string): (string, string) {
    var d := LastDot(name);
    if d > 0 && !AllDots(name[..d]) then (name[..d], name[d..]) else (name, "")
  }

  /** The root part, `os.path.splitext(name)[0]`. */
  function Stem(name: string): string {
    SplitExt(name).0
  }

  /** The name of the re-encoded file (line 48). */
  function OutputName(name: string): string {
    Stem(name) + ".webp"
  }

  /**
   What a correct split looks like, without searching for the last dot: the
   two parts concatenate back to the name; a non-empty extension starts with
   its only dot and follows a root that is not all dots; an empty extension
   means every dot in the name is preceded by dots only.
   */
  ghost predicate IsSplit(name: string, root: string, ext: string) {
    && root + ext == name
    && (ext != "" ==> ext[0] == '.' && NoDot(ext[1..]) && !AllDots(root))
    && (ext == "" ==> forall k :: 0 <= k < |name| && name[k] == '.' ==> AllDots(name[..k]))
  }

  /** A prefix of an all-dots string is all dots. */
  lemma AllDotsPrefix(s: string, j: nat)
    requires AllDots(s) && j <= |s|
    ensures AllDots(s[..j])
  {
  }

  /** `SplitExt` meets the description, and nothing else does: the split is unique. */
  lemma {:induction false} SplitExtIsSplit(name: string, root: string, ext: string)
    ensures IsSplit(name, root, ext) <==> (root, ext) == SplitExt(name)
  {
    var d := LastDot(name);
    var (r, e) := SplitExt(name);
    // SplitExt satisfies the description.
    if d > 0 && !AllDots(name[..d]) {
      assert r + e == name;
    } else {
      assert e == "";
      forall k | 0 <= k < |name| && name[k] == '.'
        ensures AllDots(name[..k])
      {
        assert k <= d;
        if d >= 0 {
          assert d == 0 || AllDots(name[..d]);
          AllDotsPrefix(name[..d], k);
          assert name[..d][..k] == name[..k];
        }
      }
    }
    assert IsSplit(name, r, e);
    // Any split meeting the description is this one.
    if IsSplit(name, root, ext) {
      if ext != "" {
        var j := |root|;
        assert name[j] == ext[0] == '.';
        assert name[..j] == root;
        forall k | j < k < |name|
          ensures name[k] != '.'
        {
          assert name[k] == ext[k - j] == ext[1..][k - j - 1];
        }
        assert d == j;
        assert name[..d] == root && name[d..] == ext;
      } else {
        assert root == name;
        if d > 0 {
          assert AllDots(name[..d]);
        }
      }
    }
  }

  /**
   The output name of a selected file: the `.png`/`.PNG` suffix is replaced by
   `.webp`, except when everything before that suffix is dots (or nothing),
   where no extension is recognised and `.webp` is appended to the whole name.
   */
  lemma OutputNameOfPng(name: string)
    requires IsPng(name)
    ensures var base := name[..|name| - 4];
            OutputName(name) == (if AllDots(base) then name else base) + ".webp"
  {
    var base := name[..|name| - 4];
    var d := LastDot(name);
    assert name[|name| - 4] == '.';
    assert name[|name| - 3..] == name[|name| - 4..][1..];
    assert NoDot(name[|name| - 3..]);
    assert d == |name| - 4;
  }

  /** Only the exact casings `.png` and `.PNG` are selected; `.Png`, `.pNg` and the rest are not. */
  lemma ExactCasingsOnly(base: string, ext: string)
    requires |ext| == 3
    ensures IsPng(base + "." + ext) <==> ext == "png" || ext == "PNG"
  {
    var name := base + "." + ext;
    assert name[|name| - 4..] == "." + ext;
    assert ("." + ext)[1..] == ext;
  }

  /** The re-encoded name never passes the input filter, since it ends in `.webp`. */
  lemma OutputNeverSelected(name: string)
    ensures !IsPng(OutputName(name))
  {
    var out := OutputName(name);
    assert out[|out| - 4..] == "webp";
  }

  /** Only the last extension is removed: `a.b.png` becomes `a.b.webp`. */
  lemma OutputNameInnerDot()
    ensures OutputName("a.b.png") == "a.b.webp"
  {
    OutputNameOfPng("a.b.png");
    assert "a.b.png"[..3] == "a.b";
    assert "a.b"[0] != '.';
  }

  /** A leading dot never starts an extension: `..png` becomes `..png.webp`. */
  lemma OutputNameLeadingDots()
    ensures OutputName("..png") == "..png.webp"
  {
    OutputNameOfPng("..png");
    assert "..png"[..1] == ".";
  }

  /** A dot-free base followed by `.png` or `.PNG` is selected and becomes the base plus `.webp`. */
  lemma OutputNameOfPlainBase(base: string, ext: string)
    requires base != [] && NoDot(base) && (ext == ".png" || ext == ".PNG")
    ensures IsPng(base + ext)
    ensures OutputName(base + ext) == base + ".webp"
  {
    var name := base + ext;
    assert name[|name| - 4..] == ext;
    assert name[..|name| - 4] == base;
    OutputNameOfPng(name);
    assert base[0] != '.';
  }

  /** `a.png` and `a.PNG` compete for the same output `a.webp`. */
  lemma OutputNameCasings()
    ensures IsPng("a.png") && IsPng("a.PNG")
    ensures OutputName("a.png") == "a.webp" && OutputName("a.PNG") == "a.webp"
  {
    assert NoDot("a");
    assert "a" + ".webp" == "a.webp";
    OutputNameOfPlainBase("a", ".png");
    assert "a" + ".png" == "a.png";
    OutputNameOfPlainBase("a", ".PNG");
    assert "a" + ".PNG" == "a.PNG";
  }

  /** Mixed casing is not picked up: `a.Png` is skipped. */
  lemma MixedCaseSkipped()
    ensures !IsPng("a.Png")
  {
    ExactCasingsOnly("a", "Png");
    assert "a" + "." + "Png" == "a.Png";
  }

  /** The names of the worked photo-and-icon example. */
  lemma OutputNamePhotoIcon()
    ensures IsPng("photo.png") && OutputName("photo.png") == "photo.webp"
    ensures IsPng("icon.PNG") && OutputName("icon.PNG") == "icon.webp"
    ensures "photo.webp" != "icon.webp"
  {
    assert NoDot("photo") && NoDot("icon");
    OutputNameOfPlainBase("photo", ".png");
    assert "photo" + ".png" == "photo.png" && "photo" + ".webp" == "photo.webp";
    OutputNameOfPlainBase("icon", ".PNG");
    assert "icon" + ".PNG" == "icon.PNG" && "icon" + ".webp" == "icon.webp";
    assert "photo.webp"[0] != "icon.webp"[0];
  }
}
