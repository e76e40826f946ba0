/**
 * frontend/src/utils/imageUtils.js: choosing a TMDB image size for a display
 * width (twice the width, for high-density screens) and building image URLs
 * and `srcSet` strings. Widths are JavaScript numbers, modelled as `real`.
 */
module ImageUtils {
  import opened Wrappers

  const BaseUrl: string := "https://image.tmdb.org/t/p/"

  /** The poster sizes with a pixel width, smallest first; `original` comes after them. */
  const PosterWidths: seq<int> := [92, 154, 185, 342, 500, 780]
  const PosterNames: seq<string> := ["w92", "w154", "w185", "w342", "w500", "w780", "original"]

  const BackdropWidths: seq<int> := [300, 780, 1280]
  const BackdropNames: seq<string> := ["w300", "w780", "w1280", "original"]

  /**
   * The reference ladder: the position of the smallest width that covers `target`,
   * or `|widths|` (the original image) when none does.
   */
  function Tier(widths: seq<int>, target: real): (t: nat)
    ensures t <= |widths|
    ensures t < |widths| ==> target <= widths[t] as real
    ensures forall j :: 0 <= j < t ==> widths[j] as real < target
  {
    if widths == [] then 0
    else if target <= widths[0] as real then 0
    else 1 + Tier(widths[1..], target)
  }

  /** `getOptimalPosterSize`: the smallest listed size at least twice the display width. */
  function PosterSize(displayWidth: real): (r: string)
    ensures r == PosterNames[Tier(PosterWidths, displayWidth * 2.0)]
  {
    var target := displayWidth * 2.0;
    var w := PosterWidths;
    assert w[1..] == [154, 185, 342, 500, 780];
    assert w[1..][1..] == [185, 342, 500, 780];
    assert w[1..][1..][1..] == [342, 500, 780];
    assert w[1..][1..][1..][1..] == [500, 780];
    assert w[1..][1..][1..][1..][1..] == [780];
    assert w[1..][1..][1..][1..][1..][1..] == [];
    assert target > 92.0 ==> Tier(w, target) == 1 + Tier(w[1..], target);
    assert target > 154.0 ==> Tier(w[1..], target) == 1 + Tier(w[1..][1..], target);
    assert target > 185.0 ==> Tier(w[1..][1..], target) == 1 + Tier(w[1..][1..][1..], target);
    assert target > 342.0 ==> Tier(w[1..][1..][1..], target) == 1 + Tier(w[1..][1..][1..][1..], target);
    assert target > 500.0 ==> Tier(w[1..][1..][1..][1..], target) == 1 + Tier(w[1..][1..][1..][1..][1..], target);
    if target <= 92.0 then "w92"
    else if target <= 154.0 then "w154"
    else if target <= 185.0 then "w185"
    else if target <= 342.0 then "w342"
    else if target <= 500.0 then "w500"
    else if target <= 780.0 then "w780"
    else "original"
  }

  /** `getOptimalBackdropSize`: the smallest listed size at least twice the display width. */
  function BackdropSize(displayWidth: real): (r: string)
    ensures r == BackdropNames[Tier(BackdropWidths, displayWidth * 2.0)]
  {
    var target := displayWidth * 2.0;
    var w := BackdropWidths;
    assert w[1..] == [780, 1280];
    assert w[1..][1..] == [1280];
    assert w[1..][1..][1..] == [];
    assert target > 300.0 ==> Tier(w, target) == 1 + Tier(w[1..], target);
    assert target > 780.0 ==> Tier(w[1..], target) == 1 + Tier(w[1..][1..], target);
    if target <= 300.0 then "w300"
    else if target <= 780.0 then "w780"
    else if target <= 1280.0 then "w1280"
    else "original"
  }

  /** A wider target never gets a smaller tier on an ascending ladder. */
  lemma {:induction false} TierMonotone(widths: seq<int>, a: real, b: real)
    requires a <= b
    ensures Tier(widths, a) <= Tier(widths, b)
  {
    if widths != [] && !(b <= widths[0] as real) {
      TierMonotone(widths[1..], a, b);
    }
  }

  /**
   * Monotonicity: `w1` gets the size at position Tier(2 * w1) of the ladder, and any
   * wider `w2` gets that size or a later one.
   */
  lemma PosterSizeMonotone(w1: real, w2: real)
    requires w1 <= w2
    ensures PosterSize(w1) == PosterNames[Tier(PosterWidths, w1 * 2.0)]
    ensures PosterSize(w2) in PosterNames[Tier(PosterWidths, w1 * 2.0)..]
  {
    TierMonotone(PosterWidths, w1 * 2.0, w2 * 2.0);
    var i, j := Tier(PosterWidths, w1 * 2.0), Tier(PosterWidths, w2 * 2.0);
    assert PosterNames[i..][j - i] == PosterNames[j];
  }

  lemma BackdropSizeMonotone(w1: real, w2: real)
    requires w1 <= w2
    ensures BackdropSize(w1) == BackdropNames[Tier(BackdropWidths, w1 * 2.0)]
    ensures BackdropSize(w2) in BackdropNames[Tier(BackdropWidths, w1 * 2.0)..]
  {
    TierMonotone(BackdropWidths, w1 * 2.0, w2 * 2.0);
    var i, j := Tier(BackdropWidths, w1 * 2.0), Tier(BackdropWidths, w2 * 2.0);
    assert BackdropNames[i..][j - i] == BackdropNames[j];
  }

  /** JavaScript truthiness of a path: null, undefined and "" are falsy. */
  predicate Truthy(path: Option<string>) {
    path.Some? && path.value != ""
  }

  /** `getResponsivePosterUrl`; the default display width is 200. */
  function PosterUrl(posterPath: Option<string>, displayWidth: real := 200.0): (r: Option<string>)
    ensures r.None? <==> !Truthy(posterPath)
    ensures r.Some? ==> IsImageUrl(r.value, PosterSize(displayWidth), posterPath.value)
  {
    if !Truthy(posterPath) then None else Some(BaseUrl + PosterSize(displayWidth) + posterPath.value)
  }

  /** `getResponsiveBackdropUrl`; the default display width is 1280. */
  function BackdropUrl(backdropPath: Option<string>, displayWidth: real := 1280.0): (r: Option<string>)
    ensures r.None? <==> !Truthy(backdropPath)
    ensures r.Some? ==> IsImageUrl(r.value, BackdropSize(displayWidth), backdropPath.value)
  {
    if !Truthy(backdropPath) then None else Some(BaseUrl + BackdropSize(displayWidth) + backdropPath.value)
  }

  /** `url` reads as the image base URL, then `size`, then `path`. */
  predicate IsImageUrl(url: string, size: string, path: string) {
    && |url| == |BaseUrl| + |size| + |path|
    && url[..|BaseUrl|] == BaseUrl
    && url[|BaseUrl|..|BaseUrl| + |size|] == size
    && url[|BaseUrl| + |size|..] == path
  }

  /** With the default widths a poster is `w500` and a backdrop the original image. */
  lemma DefaultSizes(path: string)
    requires path != ""
    ensures PosterUrl(Some(path)) == Some(BaseUrl + "w500" + path)
    ensures BackdropUrl(Some(path)) == Some(BaseUrl + "original" + path)
  {
  }

  /** An entry of the `sizes` argument of `generatePosterSrcSet`. */
  datatype SizeOption = SizeOption(size: string, width: nat)

  const DefaultSrcSetSizes: seq<SizeOption> := [SizeOption("w185", 185), SizeOption("w342", 342), SizeOption("w500", 500)]

  predicate IsDigit(c: char) {
    '0' <= c <= '9'
  }

  /** The decimal digits of `n`, as a template string writes a non-negative integer. */
  function NatToString(n: nat): (s: string)
    ensures |s| > 0 && forall i :: 0 <= i < |s| ==> IsDigit(s[i])
    ensures ParseNat(s) == n
    ensures n == 0 ==> s == "0"
    ensures n > 0 ==> s[0] != '0'
  {
    var d := ['0' + (n % 10) as char];
    if n < 10 then d
    else
      var s := NatToString(n / 10) + d;
      ParseNatAppend(NatToString(n / 10), d[0]);
      s
  }

  /** Reading decimal digits back as a number. */
  function ParseNat(s: string): nat
    requires forall i :: 0 <= i < |s| ==> IsDigit(s[i])
  {
    if s == [] then 0
    else
      var c := s[|s| - 1];
      assert IsDigit(c);
      10 * ParseNat(s[..|s| - 1]) + (c as int - '0' as int)
  }

  lemma ParseNatAppend(s: string, c: char)
    requires forall i :: 0 <= i < |s| ==> IsDigit(s[i])
    requires IsDigit(c)
    ensures forall i :: 0 <= i < |s + [c]| ==> IsDigit((s + [c])[i])
    ensures ParseNat(s + [c]) == 10 * ParseNat(s) + (c as int - '0' as int) as nat
  {
    assert (s + [c])[..|s|] == s;
  }

  /** One `srcSet` candidate: the URL of that size and its width descriptor. */
  function SrcSetEntry(path: string, o: SizeOption): (e: string)
    ensures var n := |BaseUrl| + |o.size| + |path|;
            && n + 2 < |e|
            && IsImageUrl(e[..n], o.size, path)
            && e[n] == ' '
            && e[n + 1..|e| - 1] == NatToString(o.width)
            && e[|e| - 1] == 'w'
  {
    var url := BaseUrl + o.size + path;
    var e := url + " " + NatToString(o.width) + "w";
    assert e[..|url|] == url;
    assert e[|url| + 1..|e| - 1] == NatToString(o.width);
    e
  }

  /** `Array.prototype.join(', ')`. */
  function Join(parts: seq<string>): (s: string)
    ensures parts == [] ==> s == ""
    ensures |parts| > 0 ==> parts[0] <= s && |s| == TotalLength(parts) + 2 * (|parts| - 1)
  {
    if parts == [] then ""
    else if |parts| == 1 then parts[0]
    else parts[0] + ", " + Join(parts[1..])
  }

  /** The sum of the lengths of `parts`. */
  ghost function TotalLength(parts: seq<string>): nat {
    if parts == [] then 0 else |parts[0]| + TotalLength(parts[1..])
  }

  /** The candidates of `srcSet`, one per size, in order. */
  function SrcSetEntries(path: string, sizes: seq<SizeOption>): (r: seq<string>)
    ensures |r| == |sizes|
    ensures forall i :: 0 <= i < |sizes| ==> r[i] == SrcSetEntry(path, sizes[i])
  {
    seq(|sizes|, i requires 0 <= i < |sizes| => SrcSetEntry(path, sizes[i]))
  }

  /** `generatePosterSrcSet`: "" for a falsy path, else the candidates joined by ", ". */
  function PosterSrcSet(imagePath: Option<string>, sizes: seq<SizeOption> := DefaultSrcSetSizes): (r: string)
    ensures !Truthy(imagePath) ==> r == ""
  {
    if !Truthy(imagePath) then "" else Join(SrcSetEntries(imagePath.value, sizes))
  }

  /**
   * When neither the path nor a size name holds a comma, the `srcSet` splits at ", "
   * into exactly one candidate per size, in the order of `sizes`.
   */
  lemma PosterSrcSetSplits(path: string, sizes: seq<SizeOption>)
    requires path != "" && |sizes| > 0
    requires NoComma(path) && forall i :: 0 <= i < |sizes| ==> NoComma(sizes[i].size)
    ensures Split(PosterSrcSet(Some(path), sizes)) == SrcSetEntries(path, sizes)
  {
    var entries := SrcSetEntries(path, sizes);
    forall i | 0 <= i < |entries| ensures NoComma(entries[i]) {
      NoCommaConcat(path, sizes[i]);
    }
    SplitJoin(entries);
  }

  predicate NoComma(s: string) {
    forall i :: 0 <= i < |s| ==> s[i] != ','
  }

  lemma NoCommaConcat(path: string, o: SizeOption)
    requires NoComma(path) && NoComma(o.size)
    ensures NoComma(SrcSetEntry(path, o))
  {
    var digits := NatToString(o.width);
    assert NoComma(digits);
    assert NoComma(BaseUrl);
  }

  /** The position of the first ", " in `s`, or `|s|`. */
  function FirstSeparator(s: string): (i: nat)
    ensures i <= |s|
    ensures i < |s| ==> i + 1 < |s| && s[i] == ',' && s[i + 1] == ' '
    ensures forall j :: 0 <= j < i && j + 1 < |s| ==> !(s[j] == ',' && s[j + 1] == ' ')
  {
    if |s| < 2 then |s|
    else if s[0] == ',' && s[1] == ' ' then 0
    else
      var i := FirstSeparator(s[1..]);
      if i == |s| - 1 then |s| else 1 + i
  }

  /** Splitting a string at every ", ", the inverse of Join. */
  function Split(s: string): (r: seq<string>)
    ensures |r| > 0
    decreases |s|
  {
    var i := FirstSeparator(s);
    if i == |s| then [s] else [s[..i]] + Split(s[i + 2..])
  }

  /** Joining parts without commas and splitting the result gives the parts back. */
  lemma {:induction false} SplitJoin(parts: seq<string>)
    requires |parts| > 0
    requires forall i :: 0 <= i < |parts| ==> NoComma(parts[i])
    ensures Split(Join(parts)) == parts
  {
    var p := parts[0];
    if |parts| == 1 {
      assert FirstSeparator(p) == |p|;
    } else {
      var s := Join(parts);
      assert s == p + ", " + Join(parts[1..]);
      assert s[|p|] == ',' && s[|p| + 1] == ' ';
      assert forall j :: 0 <= j < |p| ==> s[j] == p[j];
      assert FirstSeparator(s) == |p|;
      assert s[..|p|] == p;
      assert s[|p| + 2..] == Join(parts[1..]);
      SplitJoin(parts[1..]);
      assert parts == [p] + parts[1..];
    }
  }

  /** The default `sizes` give three candidates: `w185`, `w342` and `w500`. */
  lemma DefaultSrcSet(path: string)
    requires path != "" && NoComma(path)
    ensures Split(PosterSrcSet(Some(path))) ==
              [SrcSetEntry(path, SizeOption("w185", 185)), SrcSetEntry(path, SizeOption("w342", 342)),
               SrcSetEntry(path, SizeOption("w500", 500))]
  {
    PosterSrcSetSplits(path, DefaultSrcSetSizes);
  }

  /** `getPlaceholderUrl`: the same local file whatever the requested size. */
  function PlaceholderUrl(width: int := 200, height: int := 300): (r: string)
    ensures r == "/placeholder-poster.svg"
  {
    "/placeholder-poster.svg"
  }
}
