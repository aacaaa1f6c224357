/**
 * The public_id extraction of `destroyImage` (server/src/utils/uploadImage.ts):
 * the hosting service addresses an asset by a public_id that is recovered
 * from its delivery URL by cutting from the folder name to just before the
 * file extension.
 */
module UploadImage {
  import opened Maybe
  import opened JsText

  /** The folder name the extraction looks for; it is written into the code. */
  const Marker: string := "ocean-species"

  /** The accepted image extensions, in the order the extraction tries them. */
  const ImageExts: seq<string> := ["jpeg", "png", "jpg", "webp"]

  /**
   * The folder uploads are placed in: `CLOUDINARY_FOLDER || "ocean-species"`.
   * JavaScript's `||` falls back on an unset and on an empty variable alike.
   */
  function UploadFolder(env: Option<string>): (folder: string)
    ensures folder != []
    ensures env == None || env == Some([]) ==> folder == Marker
    ensures env.Some? && env.value != [] ==> folder == env.value
  {
    if env.Some? && env.value != [] then env.value else Marker
  }

  /** The index in `ImageExts`, from `i` on, of the first extension the URL includes. */
  function FirstIncludedFrom(url: string, i: nat): (r: Option<nat>)
    requires i <= |ImageExts|
    ensures r.Some? ==> i <= r.value < |ImageExts| && Includes(url, ImageExts[r.value])
    ensures forall k :: i <= k < |ImageExts| && (r.None? || k < r.value) ==> !Includes(url, ImageExts[k])
    decreases |ImageExts| - i
  {
    if i == |ImageExts| then None
    else if Includes(url, ImageExts[i]) then Some(i)
    else FirstIncludedFrom(url, i + 1)
  }

  /**
   * The extension the extraction cuts at: the first one in list order that
   * occurs anywhere in the URL, wherever in the URL the others occur.
   */
  function ChosenExt(url: string): (r: Option<nat>)
    ensures r.None? <==> forall k :: 0 <= k < |ImageExts| ==> !Includes(url, ImageExts[k])
    ensures r.Some? ==> r.value < |ImageExts| && Includes(url, ImageExts[r.value])
                        && forall k :: 0 <= k < r.value ==> !Includes(url, ImageExts[k])
  {
    FirstIncludedFrom(url, 0)
  }

  /** The start of the public_id: the first occurrence of the folder name, or -1. */
  function StartIndex(url: string): int {
    IndexOf(url, Marker)
  }

  /**
   * The end of the public_id: one before the first occurrence of the chosen
   * extension, meant to drop the dot; absent (`undefined`) when the URL
   * includes no listed extension.
   */
  function EndIndex(url: string): Option<int> {
    match ChosenExt(url)
    case None => None
    case Some(k) => Some(IndexOf(url, ImageExts[k]) - 1)
  }

  /** The public_id the extraction derives from `url`: `url.slice(start, end)`. */
  function PublicIdOf(url: string): string {
    Slice(url, StartIndex(url), EndIndex(url))
  }

  /** The start is -1 exactly when the folder name is missing, and otherwise its first occurrence. */
  lemma StartIndexIsFirstMarker(url: string)
    ensures StartIndex(url) == -1 <==> !Includes(url, Marker)
    ensures StartIndex(url) != -1 ==> OccursAt(url, Marker, StartIndex(url))
    ensures forall j :: 0 <= j < StartIndex(url) ==> !OccursAt(url, Marker, j)
  {
  }

  /**
   * The end is absent exactly when no listed extension is included, and
   * otherwise one before the first occurrence of the chosen extension.
   */
  lemma EndIndexBeforeChosenExt(url: string)
    ensures EndIndex(url).None? <==> forall k :: 0 <= k < |ImageExts| ==> !Includes(url, ImageExts[k])
    ensures EndIndex(url).Some? ==>
              && ChosenExt(url).Some?
              && OccursAt(url, ImageExts[ChosenExt(url).value], EndIndex(url).value + 1)
              && forall j :: 0 <= j <= EndIndex(url).value ==> !OccursAt(url, ImageExts[ChosenExt(url).value], j)
  {
  }

  /** When the folder name is found at or before the end, the public_id is exactly the run between them. */
  lemma PublicIdBetweenBounds(url: string)
    requires 0 <= StartIndex(url) && EndIndex(url).Some? && StartIndex(url) <= EndIndex(url).value
    ensures EndIndex(url).value <= |url|
    ensures PublicIdOf(url) == url[StartIndex(url)..EndIndex(url).value]
  {
    EndIndexBeforeChosenExt(url);
    assert SliceFrom(url, StartIndex(url)) == StartIndex(url);
    assert SliceTo(url, EndIndex(url)) == EndIndex(url).value;
  }

  /**
   * The extraction as the source runs it: find the folder name, walk the
   * extension list until one is included and remember where it ends, then slice.
   */
  method ExtractPublicId(url: string) returns (publicId: string)
    ensures publicId == PublicIdOf(url)
  {
    var start := IndexOf(url, Marker);
    var end: Option<int> := None;
    var i := 0;
    while i < |ImageExts|
      invariant i <= |ImageExts|
      invariant end == None
      invariant FirstIncludedFrom(url, i) == ChosenExt(url)
    {
      var ext := ImageExts[i];
      if Includes(url, ext) {
        end := Some(IndexOf(url, ext) - 1);
        break;
      }
      i := i + 1;
    }
    publicId := Slice(url, start, end);
  }

  // ---------------------------------------------------------------------
  // What the extracted public_id is, for every URL

  /** The public_id is one contiguous run of the URL, never longer than it. */
  lemma PublicIdIsSubstring(url: string)
    ensures var r := PublicIdOf(url);
            var from := SliceFrom(url, StartIndex(url));
            |r| <= |url| && from + |r| <= |url| && r == url[from..from + |r|]
  {
    SliceIsSubstring(url, StartIndex(url), EndIndex(url));
  }

  /**
   * When the folder name occurs, the public_id is read from its first
   * occurrence: it begins with the folder name, or, when the end falls
   * inside the folder name, it is a beginning of the folder name.
   */
  lemma PublicIdStartsAtMarker(url: string)
    requires Includes(url, Marker)
    ensures var r := PublicIdOf(url);
            var s := IndexOf(url, Marker);
            s + |r| <= |url| && r == url[s..s + |r|]
    ensures var r := PublicIdOf(url);
            (|r| >= |Marker| ==> r[..|Marker|] == Marker)
            && (|r| < |Marker| ==> r == Marker[..|r|])
  {
    var r := PublicIdOf(url);
    var s := IndexOf(url, Marker);
    PublicIdIsSubstring(url);
    assert SliceFrom(url, s) == s;
    RunFromMarker(url, s, r);
  }

  /** A run of `url` starting where the folder name occurs begins with as much of the folder name as fits. */
  lemma RunFromMarker(url: string, s: nat, r: string)
    requires OccursAt(url, Marker, s)
    requires s + |r| <= |url| && r == url[s..s + |r|]
    ensures |r| >= |Marker| ==> r[..|Marker|] == Marker
    ensures |r| < |Marker| ==> r == Marker[..|r|]
  {
    assert url[s..s + |Marker|] == Marker;
    if |r| >= |Marker| {
      assert r[..|Marker|] == url[s..s + |Marker|];
    } else {
      assert r == url[s..s + |Marker|][..|r|];
    }
  }

  /** Without any listed extension the end stays absent and the public_id runs to the end of the URL. */
  lemma NoExtensionRunsToEnd(url: string)
    requires forall k :: 0 <= k < |ImageExts| ==> !Includes(url, ImageExts[k])
    ensures EndIndex(url) == None
    ensures PublicIdOf(url) == url[SliceFrom(url, StartIndex(url))..]
    ensures Includes(url, Marker) ==> PublicIdOf(url) == url[IndexOf(url, Marker)..]
  {
    PublicIdIsSubstring(url);
  }

  /**
   * Without the folder name the start is -1, which `slice` reads as the last
   * character: the public_id is that character or nothing.
   */
  lemma MarkerAbsentAtMostLastChar(url: string)
    requires !Includes(url, Marker)
    ensures var r := PublicIdOf(url);
            |r| <= 1 && (r != [] ==> r == [url[|url| - 1]])
  {
    assert StartIndex(url) == -1;
    PublicIdIsSubstring(url);
  }

  /**
   * When the chosen extension occurs at a position after 0 but not after the
   * folder name, the end lands before the start and the public_id is empty.
   */
  lemma ExtensionBeforeMarkerGivesEmpty(url: string)
    requires Includes(url, Marker)
    requires ChosenExt(url).Some?
    requires 1 <= IndexOf(url, ImageExts[ChosenExt(url).value]) <= IndexOf(url, Marker)
    ensures PublicIdOf(url) == []
  {
    SliceEmptyWhenEndNotAfterStart(url, StartIndex(url), EndIndex(url));
  }

  /**
   * When the chosen extension opens the URL, the end is -1, which `slice`
   * reads as the last character: the public_id runs from the folder name to
   * just before the last character.
   */
  lemma ExtensionAtZeroDropsLastChar(url: string)
    requires Includes(url, Marker)
    requires ChosenExt(url).Some?
    requires IndexOf(url, ImageExts[ChosenExt(url).value]) == 0
    ensures var s := IndexOf(url, Marker);
            PublicIdOf(url) == if s < |url| - 1 then url[s..|url| - 1] else []
  {
    var s := IndexOf(url, Marker);
    PublicIdIsSubstring(url);
    assert SliceFrom(url, s) == s;
  }

  // ---------------------------------------------------------------------
  // Where occurrences can lie in a concatenation

  lemma OccursInPrefix(a: string, b: string, x: string, j: int)
    requires j + |x| <= |a|
    ensures OccursAt(a + b, x, j) <==> OccursAt(a, x, j)
  {
    if 0 <= j {
      assert (a + b)[j..j + |x|] == a[j..j + |x|];
    }
  }

  lemma OccursInSuffix(a: string, b: string, x: string, j: int)
    requires |a| <= j
    ensures OccursAt(a + b, x, j) <==> OccursAt(b, x, j - |a|)
  {
    if j + |x| <= |a + b| {
      assert (a + b)[j..j + |x|] == b[j - |a|..j - |a| + |x|];
    }
  }

  lemma OccursCovers(s: string, x: string, j: int, p: int)
    requires OccursAt(s, x, j) && j <= p < j + |x|
    ensures s[p] == x[p - j]
  {
    assert s[j..j + |x|][p - j] == s[p];
  }

  /** One mismatching character inside the window rules an occurrence out. */
  lemma MismatchAt(s: string, x: string, j: int, p: int)
    requires 0 <= j <= p < j + |x| && p < |s|
    requires s[p] != x[p - j]
    ensures !OccursAt(s, x, j)
  {
    if OccursAt(s, x, j) {
      OccursCovers(s, x, j, p);
      assert false;
    }
  }

  /** The characters of the extensions that matter for locating them. */
  lemma ExtensionChars(x: string)
    requires x in ImageExts
    ensures |x| >= 3
    ensures forall i :: 0 <= i < |x| ==> x[i] != 'o' && x[i] != '/' && x[i] != '.'
    ensures x[0] == 'j' || x[0] == 'w' || (x[0] == 'p' && x[1] == 'n')
  {
  }

  /** The folder name has its 'o' only at the front, and its one 'p' is followed by 'e'. */
  lemma MarkerChars(d: int)
    requires 0 <= d < |Marker|
    ensures d != 0 ==> Marker[d] != 'o'
    ensures Marker[d] != 'j' && Marker[d] != 'w'
    ensures Marker[d] == 'p' ==> d == 7 && Marker[8] == 'e'
  {
    assert d == 0 || d == 1 || d == 2 || d == 3 || d == 4 || d == 5 || d == 6 || d == 7 || d == 8 || d == 9 || d == 10 || d == 11 || d == 12;
  }

  /** No listed extension occurs inside another one, except each at the start of itself. */
  lemma ExtensionsDoNotOverlap(e: string, x: string, k: int)
    requires e in ImageExts && x in ImageExts
    requires OccursAt(e, x, k)
    ensures x == e && k == 0
  {
    assert e[k..k + |x|] == x;
    assert e[k] == x[0] && e[k + 1] == x[1] && e[k + 2] == x[2];
    assert k == 0 || (k == 1 && |e| == 4 && |x| == 3);
    if k == 0 && |x| == 4 {
      assert e[3] == x[3];
    }
  }

  /** A listed extension cannot cover an 'o', a '/' or a '.'. */
  lemma NoExtensionAcross(s: string, x: string, j: int, p: int)
    requires x in ImageExts
    requires 0 <= j <= p < j + |x| && p < |s|
    requires s[p] == 'o' || s[p] == '/' || s[p] == '.'
    ensures !OccursAt(s, x, j)
  {
    ExtensionChars(x);
    MismatchAt(s, x, j, p);
  }

  /** No listed extension starts inside the folder name. */
  lemma NoExtensionStartsInMarker(a: string, b: string, x: string, j: int)
    requires x in ImageExts
    requires |a| <= j < |a| + |Marker|
    ensures !OccursAt(a + Marker + b, x, j)
  {
    var s := a + Marker + b;
    var d := j - |a|;
    ExtensionChars(x);
    MarkerChars(d);
    if j + |x| <= |s| {
      assert s[j] == Marker[d];
      if d == 7 && x[0] == 'p' {
        assert s[j + 1] == Marker[8];
        MismatchAt(s, x, j, j + 1);
      } else {
        MismatchAt(s, x, j, j);
      }
    }
  }

  /** No listed extension starts inside `p` when `p` includes none and an 'o' follows it. */
  lemma NoExtensionStartsInPrefix(p: string, rest: string, x: string, j: int)
    requires x in ImageExts && !Includes(p, x)
    requires 0 <= j < |p| && rest != [] && rest[0] == 'o'
    ensures !OccursAt(p + rest, x, j)
  {
    if j + |x| <= |p| {
      OccursInPrefix(p, rest, x, j);
      NotIncludes(p, x, j);
    } else if j + |x| <= |p + rest| {
      NoExtensionAcross(p + rest, x, j, |p|);
    }
  }

  /** In `P + "ocean-species" + …`, with no folder name in `P`, the folder name is first found right after `P`. */
  lemma MarkerFoundAfterPrefix(p: string, rest: string)
    requires !Includes(p, Marker)
    ensures IndexOf(p + Marker + rest, Marker) == |p|
  {
    var url := p + Marker + rest;
    assert url[|p|..|p| + |Marker|] == Marker;
    forall j | 0 <= j < |p|
      ensures !OccursAt(url, Marker, j)
    {
      if j + |Marker| <= |p| {
        assert url == p + (Marker + rest);
        OccursInPrefix(p, Marker + rest, Marker, j);
        NotIncludes(p, Marker, j);
      } else {
        MarkerChars(|p| - j);
        MismatchAt(url, Marker, j, |p|);
      }
    }
    IndexOfIs(url, Marker, |p|);
  }

  /** The hosted folder path as it appears in a delivery URL. */
  function FolderPath(): string {
    Marker + "/"
  }

  /**
   * In `P + "ocean-species/" + n + "." + e`, with no listed extension in `P`
   * or `n`, no listed extension starts before `e`.
   */
  lemma NoExtensionBeforeDot(p: string, n: string, e: string, x: string, j: int)
    requires forall y | y in ImageExts :: !Includes(p, y) && !Includes(n, y)
    requires x in ImageExts
    requires 0 <= j < |p| + |FolderPath()| + |n| + 1
    ensures !OccursAt(p + FolderPath() + n + "." + e, x, j)
  {
    var url := p + FolderPath() + n + "." + e;
    var q := |p| + |FolderPath()| + |n| + 1;
    if j < |p| {
      assert url == p + (FolderPath() + n + "." + e);
      NoExtensionStartsInPrefix(p, FolderPath() + n + "." + e, x, j);
    } else if j < |p| + |Marker| {
      assert url == p + Marker + ("/" + n + "." + e);
      NoExtensionStartsInMarker(p, "/" + n + "." + e, x, j);
    } else if j == |p| + |Marker| {
      if j + |x| <= |url| {
        NoExtensionAcross(url, x, j, j);
      }
    } else if j + |x| <= q - 1 {
      assert url == (p + FolderPath()) + (n + "." + e);
      OccursInSuffix(p + FolderPath(), n + "." + e, x, j);
      OccursInPrefix(n, "." + e, x, j - |p| - |FolderPath()|);
      NotIncludes(n, x, j - |p| - |FolderPath()|);
    } else if j + |x| <= |url| {
      NoExtensionAcross(url, x, j, q - 1);
    }
  }

  /**
   * In `P + "ocean-species/" + n + "." + e`, with no listed extension in `P`
   * or `n`, every occurrence of a listed extension lies in `e`.
   */
  lemma ExtensionsOnlyAtEnd(p: string, n: string, e: string, x: string, j: int)
    requires forall y | y in ImageExts :: !Includes(p, y) && !Includes(n, y)
    requires x in ImageExts
    requires OccursAt(p + FolderPath() + n + "." + e, x, j)
    ensures OccursAt(e, x, j - (|p| + |FolderPath()| + |n| + 1))
  {
    var q := |p| + |FolderPath()| + |n| + 1;
    if j < q {
      NoExtensionBeforeDot(p, n, e, x, j);
      assert false;
    }
    OccursInSuffix(p + FolderPath() + n + ".", e, x, j);
  }

  /** In a URL of the expected shape the accepted extension is found right after the dot. */
  lemma ExtensionFoundAfterDot(p: string, n: string, e: string)
    requires e in ImageExts
    requires forall y | y in ImageExts :: !Includes(p, y) && !Includes(n, y)
    ensures IndexOf(p + FolderPath() + n + "." + e, e) == |p| + |FolderPath()| + |n| + 1
  {
    var url := p + FolderPath() + n + "." + e;
    var q := |p| + |FolderPath()| + |n| + 1;
    assert url[q..q + |e|] == e;
    forall j | 0 <= j < q
      ensures !OccursAt(url, e, j)
    {
      NoExtensionBeforeDot(p, n, e, e, j);
    }
    IndexOfIs(url, e, q);
  }

  /**
   * When the only listed extension a URL includes is `e`, the end is one
   * before the first occurrence of `e`.
   */
  lemma EndWhenOnlyExtension(url: string, e: string)
    requires e in ImageExts && Includes(url, e)
    requires forall x | x in ImageExts && Includes(url, x) :: x == e
    ensures EndIndex(url).Some? && EndIndex(url).value == IndexOf(url, e) - 1
  {
    var ie :| 0 <= ie < |ImageExts| && ImageExts[ie] == e;
    assert Includes(url, ImageExts[ie]);
    var chosen := ChosenExt(url);
    assert chosen.Some?;
    assert ImageExts[chosen.value] in ImageExts;
  }

  /** In a URL of the expected shape the end is the position of the dot. */
  lemma EndIsDot(p: string, n: string, e: string, url: string)
    requires e in ImageExts
    requires forall y | y in ImageExts :: !Includes(p, y) && !Includes(n, y)
    requires url == p + FolderPath() + n + "." + e
    ensures EndIndex(url).Some? && EndIndex(url).value == |p| + |FolderPath()| + |n|
  {
    var q := |p| + |FolderPath()| + |n| + 1;
    ExtensionFoundAfterDot(p, n, e);
    OnlyExtensionIsSuffix(p, n, e);
    EndWhenOnlyExtension(url, e);
    assert EndIndex(url).Some? && EndIndex(url).value == q - 1;
  }

  /** A URL of the expected shape includes its own extension and no other listed one. */
  lemma OnlyExtensionIsSuffix(p: string, n: string, e: string)
    requires e in ImageExts
    requires forall y | y in ImageExts :: !Includes(p, y) && !Includes(n, y)
    ensures Includes(p + FolderPath() + n + "." + e, e)
    ensures forall x | x in ImageExts && Includes(p + FolderPath() + n + "." + e, x) :: x == e
  {
    var a := p + FolderPath() + n + ".";
    forall x, j | x in ImageExts && 0 <= j < |a|
      ensures !OccursAt(a + e, x, j)
    {
      NoExtensionBeforeDot(p, n, e, x, j);
    }
    OnlyFinalExtension(a, e);
  }

  /** When no listed extension starts before a final listed extension `e`, `e` is the only one included. */
  lemma OnlyFinalExtension(a: string, e: string)
    requires e in ImageExts
    requires forall x, j | x in ImageExts && 0 <= j < |a| :: !OccursAt(a + e, x, j)
    ensures Includes(a + e, e)
    ensures forall x | x in ImageExts && Includes(a + e, x) :: x == e
  {
    assert (a + e)[|a|..|a| + |e|] == e;
    IncludesWhenOccurs(a + e, e, |a|);
    forall x | x in ImageExts && Includes(a + e, x)
      ensures x == e
    {
      var j := IndexOf(a + e, x);
      OccursInSuffix(a, e, x, j);
      ExtensionsDoNotOverlap(e, x, j - |a|);
    }
  }

  /**
   * A delivery URL of the expected shape, `P + "ocean-species/" + n + "." + e`
   * with `e` an accepted extension, no listed extension in `P` or `n` and no
   * folder name in `P`, yields `"ocean-species/" + n`: the `- 1` drops
   * exactly the dot.
   */
  lemma WellFormedUrlGivesPublicId(p: string, n: string, e: string)
    requires e in ImageExts
    requires !Includes(p, Marker)
    requires forall y | y in ImageExts :: !Includes(p, y) && !Includes(n, y)
    ensures PublicIdOf(p + FolderPath() + n + "." + e) == FolderPath() + n
  {
    var url, end := p + FolderPath() + n + "." + e, |p| + |FolderPath()| + |n|;
    WellFormedUrlBounds(p, n, e, url, end);
    PublicIdBetween(url, |p|, end, FolderPath() + n);
  }

  /** In a URL of the expected shape the start is the folder name and the end is the dot. */
  lemma WellFormedUrlBounds(p: string, n: string, e: string, url: string, end: nat)
    requires e in ImageExts
    requires !Includes(p, Marker)
    requires forall y | y in ImageExts :: !Includes(p, y) && !Includes(n, y)
    requires url == p + FolderPath() + n + "." + e
    requires end == |p| + |FolderPath()| + |n|
    ensures StartIndex(url) == |p|
    ensures EndIndex(url).Some? && EndIndex(url).value == end
    ensures end <= |url| && url[|p|..end] == FolderPath() + n
  {
    MarkerFoundBeforeSlash(p, n, e, url);
    EndIsDot(p, n, e, url);
    FolderAndNameInside(p, n, e, url);
  }

  /** In `P + "ocean-species/" + …`, with no folder name in `P`, the folder name is first found right after `P`. */
  lemma MarkerFoundBeforeSlash(p: string, n: string, e: string, url: string)
    requires !Includes(p, Marker)
    requires url == p + FolderPath() + n + "." + e
    ensures StartIndex(url) == |p|
  {
    assert url == p + Marker + ("/" + n + "." + e);
    MarkerFoundAfterPrefix(p, "/" + n + "." + e);
  }

  /** `P + "ocean-species/" + n + "." + e` holds `"ocean-species/" + n` right after `P`. */
  lemma FolderAndNameInside(p: string, n: string, e: string, url: string)
    requires url == p + FolderPath() + n + "." + e
    ensures |p| + |FolderPath()| + |n| <= |url|
    ensures url[|p|..|p| + |FolderPath()| + |n|] == FolderPath() + n
  {
    assert url == p + (FolderPath() + n) + ("." + e);
  }

  /** With a known start and a known end within the URL, the public_id is the run between them. */
  lemma PublicIdBetween(url: string, start: nat, end: nat, r: string)
    requires StartIndex(url) == start
    requires EndIndex(url).Some? && EndIndex(url).value == end
    requires start <= end <= |url| && url[start..end] == r
    ensures PublicIdOf(url) == r
  {
    PublicIdBetweenBounds(url);
  }

  // ---------------------------------------------------------------------
  // Consequences of the hard-coded folder name and the list order

  /**
   * Uploads go to the configured folder, but the extraction searches for the
   * fixed folder name: under a configured folder that does not contain it,
   * the extracted public_id is at most one character and never the asset's
   * `folder/name`.
   */
  lemma ConfiguredFolderNotSearched(env: Option<string>, p: string, n: string, e: string)
    requires !Includes(p + UploadFolder(env) + "/" + n + "." + e, Marker)
    ensures var url := p + UploadFolder(env) + "/" + n + "." + e;
            |PublicIdOf(url)| <= 1 && PublicIdOf(url) != UploadFolder(env) + "/" + n
  {
    MarkerAbsentAtMostLastChar(p + UploadFolder(env) + "/" + n + "." + e);
  }

  /**
   * When an accepted extension directly follows the folder name, with no
   * listed extension and no folder name before it, the `- 1` removes the
   * folder name's last letter: a non-empty public_id need not begin with
   * the whole folder name.
   */
  lemma AbuttingExtensionCutsFolderName(p: string, e: string)
    requires e in ImageExts
    requires !Includes(p, Marker)
    requires forall y | y in ImageExts :: !Includes(p, y)
    ensures PublicIdOf(p + Marker + e) == Marker[..|Marker| - 1]
  {
    var url, end := p + Marker + e, |p| + |Marker| - 1;
    AbuttingExtensionBounds(p, e, url, end);
    PublicIdBetween(url, |p|, end, Marker[..|Marker| - 1]);
  }

  /** In `P + "ocean-species" + e` the start is the folder name and the end its last letter. */
  lemma AbuttingExtensionBounds(p: string, e: string, url: string, end: nat)
    requires e in ImageExts
    requires !Includes(p, Marker)
    requires forall y | y in ImageExts :: !Includes(p, y)
    requires url == p + Marker + e
    requires end == |p| + |Marker| - 1
    ensures StartIndex(url) == |p|
    ensures EndIndex(url).Some? && EndIndex(url).value == end
    ensures end <= |url| && url[|p|..end] == Marker[..|Marker| - 1]
  {
    MarkerFoundAfterPrefix(p, e);
    EndRightAfterMarker(p, e);
    MarkerInside(p, e);
  }

  /** `P + "ocean-species" + e` holds the folder name right after `P`. */
  lemma MarkerInside(p: string, e: string)
    ensures (p + Marker + e)[|p|..|p| + |Marker|] == Marker
    ensures (p + Marker + e)[|p|..|p| + |Marker| - 1] == Marker[..|Marker| - 1]
  {
    assert (p + Marker + e)[|p|..|p| + |Marker|] == Marker;
  }

  /** In `P + "ocean-species" + e`, with no listed extension in `P`, the end is just before the folder name's last letter. */
  lemma EndRightAfterMarker(p: string, e: string)
    requires e in ImageExts
    requires forall y | y in ImageExts :: !Includes(p, y)
    ensures EndIndex(p + Marker + e).Some? && EndIndex(p + Marker + e).value == |p| + |Marker| - 1
  {
    var url := p + Marker + e;
    ExtensionFoundAfterMarker(p, e);
    OnlyExtensionAfterMarker(p, e);
    EndWhenOnlyExtension(url, e);
  }

  /** `P + "ocean-species" + e`, with no listed extension in `P`, includes `e` and no other listed extension. */
  lemma OnlyExtensionAfterMarker(p: string, e: string)
    requires e in ImageExts
    requires forall y | y in ImageExts :: !Includes(p, y)
    ensures Includes(p + Marker + e, e)
    ensures forall x | x in ImageExts && Includes(p + Marker + e, x) :: x == e
  {
    ExtensionFoundAfterMarker(p, e);
    OnlyFinalExtension(p + Marker, e);
  }

  /** In `P + "ocean-species" + rest`, with no listed extension in `P`, no listed extension starts before `rest`. */
  lemma ExtensionFoundAfterMarker(p: string, rest: string)
    requires forall y | y in ImageExts :: !Includes(p, y)
    ensures forall x, j | x in ImageExts && 0 <= j < |p| + |Marker| :: !OccursAt(p + Marker + rest, x, j)
    ensures rest in ImageExts ==> IndexOf(p + Marker + rest, rest) == |p| + |Marker|
  {
    var url := p + Marker + rest;
    var q := |p| + |Marker|;
    forall x, j | x in ImageExts && 0 <= j < q
      ensures !OccursAt(url, x, j)
    {
      if j < |p| {
        assert url == p + (Marker + rest);
        NoExtensionStartsInPrefix(p, Marker + rest, x, j);
      } else {
        NoExtensionStartsInMarker(p, rest, x, j);
      }
    }
    if rest in ImageExts {
      assert url[q..q + |rest|] == rest;
      IndexOfIs(url, rest, q);
    }
  }

  /** The shortest instance: `"ocean-speciespng"` yields `"ocean-specie"`. */
  lemma AbuttingExtensionExample()
    ensures PublicIdOf("ocean-speciespng") == "ocean-specie"
  {
    EmptyIncludesNothing();
    AbuttingExtensionCutsFolderName([], "png");
    ExampleSpelling();
  }

  /** The empty string includes neither the folder name nor any listed extension. */
  lemma EmptyIncludesNothing()
    ensures !Includes([], Marker)
    ensures forall y | y in ImageExts :: !Includes([], y)
  {
    forall y | y in ImageExts
      ensures !Includes([], y)
    {
      ExtensionChars(y);
    }
  }

  /** How the example URL and its public_id are spelled in terms of the folder name. */
  lemma ExampleSpelling()
    ensures [] + Marker + "png" == "ocean-speciespng"
    ensures Marker[..|Marker| - 1] == "ocean-specie"
  {
    assert [] + Marker + "png" == Marker + "png";
  }

  /** In `P + "ocean-species/" + "png" + …`, "png" is first found right after the slash. */
  lemma PngFoundAfterFolder(p: string, rest: string)
    requires forall y | y in ImageExts :: !Includes(p, y)
    ensures IndexOf(p + FolderPath() + "png" + rest, "png") == |p| + |FolderPath()|
  {
    var url := p + FolderPath() + "png" + rest;
    var q := |p| + |FolderPath()|;
    assert url[q..q + 3] == "png";
    forall j | 0 <= j < q
      ensures !OccursAt(url, "png", j)
    {
      if j < |p| {
        assert url == p + (FolderPath() + "png" + rest);
        NoExtensionStartsInPrefix(p, FolderPath() + "png" + rest, "png", j);
      } else if j < |p| + |Marker| {
        assert url == p + Marker + ("/" + "png" + rest);
        NoExtensionStartsInMarker(p, "/" + "png" + rest, "png", j);
      } else {
        NoExtensionAcross(url, "png", j, j);
      }
    }
    IndexOfIs(url, "png", q);
  }

  /**
   * The list order decides, not the position in the URL: in a URL of the
   * expected shape whose file name begins with "png" and which includes no
   * "jpeg", the cut falls before the "png", whatever the real suffix is.
   */
  lemma ListOrderBeatsSuffix(p: string, m: string, e: string)
    requires !Includes(p, Marker)
    requires forall y | y in ImageExts :: !Includes(p, y)
    requires !Includes(p + FolderPath() + "png" + m + "." + e, "jpeg")
    ensures PublicIdOf(p + FolderPath() + "png" + m + "." + e) == Marker
  {
    var url, end := p + FolderPath() + "png" + m + "." + e, |p| + |Marker|;
    ListOrderBounds(p, m + "." + e, url, end);
    PublicIdBetween(url, |p|, end, Marker);
  }

  /** In `P + "ocean-species/" + "png" + rest` without "jpeg", the start is the folder name and the end the slash. */
  lemma ListOrderBounds(p: string, rest: string, url: string, end: nat)
    requires !Includes(p, Marker)
    requires forall y | y in ImageExts :: !Includes(p, y)
    requires url == p + FolderPath() + "png" + rest
    requires !Includes(url, "jpeg")
    requires end == |p| + |Marker|
    ensures StartIndex(url) == |p|
    ensures EndIndex(url).Some? && EndIndex(url).value == end
    ensures end <= |url| && url[|p|..end] == Marker
  {
    assert url == p + Marker + ("/" + "png" + rest);
    MarkerFoundAfterPrefix(p, "/" + "png" + rest);
    MarkerInside(p, "/" + "png" + rest);
    PngFoundAfterFolder(p, rest);
    IncludesWhenOccurs(url, "png", |p| + |FolderPath()|);
    assert ImageExts[0] == "jpeg" && ImageExts[1] == "png";
    assert ChosenExt(url) == Some(1);
  }
}
