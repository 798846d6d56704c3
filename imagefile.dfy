/**
 * The file-name side of golobal.go: `GetExtension` (`filepath.Ext` of the
 * path, lower-cased) and the choice of image decoder that `GetImage` makes
 * from it.
 *
 * Paths use '/' as their only separator, as `filepath` does on Unix.
 * Lower-casing is modelled on ASCII letters.
 */
module ImageFile {

  /** The extension constants of golobal.go. */
  const GifExt: string := ".gif"
  const JpegExt: string := ".jpeg"
  const JpgExt: string := ".jpg"
  const PngExt: string := ".png"
  const TiffExt: string := ".tiff"
  const BmpExt: string := ".bmp"

  predicate IsUpper(c: char)
  {
    'A' <= c <= 'Z'
  }

  function LowerChar(c: char): (l: char)
    ensures !IsUpper(l)
    ensures !IsUpper(c) ==> l == c
    ensures IsUpper(c) ==> l as int == c as int + 32
  {
    if IsUpper(c) then (c as int + 32) as char else c
  }

  /** `strings.ToLower` on ASCII letters: every upper-case letter becomes lower-case, nothing else changes. */
  function ToLower(s: string): (l: string)
    ensures |l| == |s|
    ensures forall i :: 0 <= i < |s| ==>
      if IsUpper(s[i]) then l[i] as int == s[i] as int + 32 else l[i] == s[i]
  {
    seq(|s|, i requires 0 <= i < |s| => LowerChar(s[i]))
  }

  /** Lower-casing twice is lower-casing once. */
  lemma ToLowerIdempotent(s: string)
    ensures ToLower(ToLower(s)) == ToLower(s)
  {
  }

  /** True when a '/' follows position i, i.e. position i is not in the final path element. */
  predicate SlashAfter(s: string, i: nat)
  {
    exists j :: i < j < |s| && s[j] == '/'
  }

  /**
   * `filepath.Ext`: the suffix of the path from the last '.' of its final
   * element on, or "" when the final element has no '.'.
   */
  function Ext(path: string): (ext: string)
    ensures ext == [] || ext[0] == '.'
    decreases |path|
  {
    if |path| == 0 || path[|path| - 1] == '/' then []
    else if path[|path| - 1] == '.' then path[|path| - 1..]
    else
      var ext := Ext(path[..|path| - 1]);
      if ext == [] then [] else ext + [path[|path| - 1]]
  }

  /**
   * Ext is a suffix of the path that is empty or starts with its only '.',
   * and holds no '/'.
   */
  lemma {:induction false} ExtShape(path: string)
    ensures var ext := Ext(path);
      && |ext| <= |path| && ext == path[|path| - |ext|..]
      && (ext == [] || ext[0] == '.')
      && (forall i :: 0 <= i < |ext| ==> ext[i] != '/')
      && (forall i :: 1 <= i < |ext| ==> ext[i] != '.')
    decreases |path|
  {
    if |path| > 0 && path[|path| - 1] != '/' && path[|path| - 1] != '.' {
      var n := |path| - 1;
      ExtShape(path[..n]);
      var ext := Ext(path[..n]);
      if ext != [] {
        assert path[..n][n - |ext|..] + [path[n]] == path[|path| - |ext| - 1..];
      }
    }
  }

  /**
   * Ext is empty exactly when no '.' lies in the final path element, that
   * is, every '.' of the path has a '/' somewhere after it.
   */
  lemma {:induction false} ExtEmpty(path: string)
    ensures Ext(path) == [] <==> forall i :: 0 <= i < |path| && path[i] == '.' ==> SlashAfter(path, i)
    decreases |path|
  {
    if |path| > 0 {
      var n := |path| - 1;
      var init := path[..n];
      if path[n] == '/' {
        forall i | 0 <= i < |path| && path[i] == '.' ensures SlashAfter(path, i) {
          assert i < n && path[n] == '/';
        }
      } else if path[n] != '.' {
        ExtEmpty(init);
        forall i | 0 <= i < n ensures SlashAfter(init, i) <==> SlashAfter(path, i) {
          if SlashAfter(path, i) {
            var j :| i < j < |path| && path[j] == '/';
            assert j < n && init[j] == '/';
          }
          if SlashAfter(init, i) {
            var j :| i < j < n && init[j] == '/';
            assert path[j] == '/';
          }
        }
      } else {
        assert !SlashAfter(path, n);
      }
    }
  }

  /** A directory part does not change the extension: only the final element counts. */
  lemma {:induction false} ExtOfFinalElement(dir: string, name: string)
    ensures Ext(dir + "/" + name) == Ext(name)
    decreases |name|
  {
    var path := dir + "/" + name;
    if |name| == 0 {
      assert path[|path| - 1] == '/';
    } else {
      var n := |name| - 1;
      assert path[..|path| - 1] == dir + "/" + name[..n];
      assert path[|path| - 1] == name[n];
      ExtOfFinalElement(dir, name[..n]);
    }
  }

  /** Lower-casing commutes with Ext, since it leaves '.' and '/' alone. */
  lemma {:induction false} ExtToLower(path: string)
    ensures Ext(ToLower(path)) == ToLower(Ext(path))
    decreases |path|
  {
    if |path| > 0 {
      var n := |path| - 1;
      var lower := ToLower(path);
      assert lower[n] == LowerChar(path[n]);
      assert lower[..n] == ToLower(path[..n]);
      if path[n] == '/' {
        assert Ext(lower) == [] && Ext(path) == [];
      } else if path[n] == '.' {
        assert Ext(lower) == lower[n..] && Ext(path) == path[n..];
        assert lower[n..] == ToLower(path[n..]);
      } else {
        var ext := Ext(path[..n]);
        ExtToLower(path[..n]);
        assert Ext(lower) == if ToLower(ext) == [] then [] else ToLower(ext) + [lower[n]];
        assert Ext(path) == if ext == [] then [] else ext + [path[n]];
        if ext != [] {
          assert ToLower(ext + [path[n]]) == ToLower(ext) + [lower[n]];
        }
      }
    }
  }

  /** `GetExtension`: the lower-cased `filepath.Ext` of the path. */
  function GetExtension(path: string): (ext: string)
    ensures ext == [] || ext[0] == '.'
    ensures forall i :: 0 <= i < |ext| ==> ext[i] != '/' && !IsUpper(ext[i])
    ensures forall i :: 1 <= i < |ext| ==> ext[i] != '.'
    ensures |ext| <= |path| && ext == ToLower(path)[|path| - |ext|..]
    ensures ext == [] <==> forall i :: 0 <= i < |path| && path[i] == '.' ==> SlashAfter(path, i)
  {
    ExtShape(path);
    LowerExtIsSuffix(path);
    ExtEmpty(path);
    ToLower(Ext(path))
  }

  /** The lower-cased extension is the matching suffix of the lower-cased path. */
  lemma LowerExtIsSuffix(path: string)
    ensures var ext := ToLower(Ext(path));
      |ext| <= |path| && ext == ToLower(path)[|path| - |ext|..]
  {
    ExtToLower(path);
    ExtShape(ToLower(path));
  }

  /** GetExtension ignores letter case in the path. */
  lemma GetExtensionIgnoresCase(path: string)
    ensures GetExtension(ToLower(path)) == GetExtension(path)
  {
    ExtToLower(path);
    ExtToLower(ToLower(path));
    ToLowerIdempotent(path);
    ToLowerIdempotent(Ext(path));
  }

  /** The decoders GetImage can hand the file to. */
  datatype Decoder = Bmp | Tiff | Gif | Png | Jpeg

  /** The switch of GetImage: known extensions pick their decoder; ".jpeg", ".jpg" and all others pick JPEG. */
  function DecoderFor(ext: string): (d: Decoder)
    ensures d == Jpeg <==> ext !in {BmpExt, TiffExt, GifExt, PngExt}
  {
    if ext == BmpExt then Bmp
    else if ext == TiffExt then Tiff
    else if ext == GifExt then Gif
    else if ext == PngExt then Png
    else if ext == JpegExt || ext == JpgExt then Jpeg
    else Jpeg
  }

  /**
   * The decoder GetImage uses for a path: each non-JPEG decoder is chosen for
   * exactly one extension, and JPEG for everything else.
   */
  function SelectDecoder(path: string): (d: Decoder)
    ensures d == Bmp <==> GetExtension(path) == BmpExt
    ensures d == Tiff <==> GetExtension(path) == TiffExt
    ensures d == Gif <==> GetExtension(path) == GifExt
    ensures d == Png <==> GetExtension(path) == PngExt
    ensures GetExtension(path) in {JpegExt, JpgExt} ==> d == Jpeg
  {
    DecoderFor(GetExtension(path))
  }

  /** The decoder choice ignores letter case and any directory part. */
  lemma SelectDecoderInvariance(dir: string, name: string)
    ensures SelectDecoder(ToLower(name)) == SelectDecoder(name)
    ensures SelectDecoder(dir + "/" + name) == SelectDecoder(name)
  {
    GetExtensionIgnoresCase(name);
    ExtOfFinalElement(dir, name);
  }
}
