/**
 * The pure parts of daguerre/models.py beyond the Area record (which lives
 * in module Areas): the storage path of an adjusted image, and which stored
 * adjusted images are dropped when an area of their image changes.
 */
module Models {
  import opened Wrappers
  import Text
  import Adjustments

  // ------------------------------------------------------------------ upload path

  /** `DEFAULT_ADJUSTED_IMAGE_PATH`. */
  const DefaultImagePath := "dg"

  /** The longest configured path that is used as it is. */
  const MaxImagePath := 13

  /**
   * The directory prefix: the configured path (`setting` is None when it is
   * not configured), falling back to the default when it is too long.
   */
  function ImagePath(setting: Option<string>): (p: string)
    ensures |p| <= MaxImagePath
    ensures setting.Some? && |setting.value| <= MaxImagePath ==> p == setting.value
    ensures setting.None? || |setting.value| > MaxImagePath ==> p == DefaultImagePath
  {
    if setting.Some? && |setting.value| <= MaxImagePath then setting.value else DefaultImagePath
  }

  /** `s.replace('ad', 'ag')`: non-overlapping occurrences, left to right. */
  function ReplaceAd(s: string): (r: string)
    ensures |r| == |s|
    decreases |s|
  {
    if |s| < 2 then s
    else if s[0] == 'a' && s[1] == 'd' then "ag" + ReplaceAd(s[2..])
    else [s[0]] + ReplaceAd(s[1..])
  }

  /**
   * The replacement changes only a `d` that follows an `a`, into a `g`, and
   * leaves no "ad" behind.
   */
  lemma {:induction false} ReplaceAdFacts(s: string)
    ensures var r := ReplaceAd(s);
      && (forall i | 0 <= i < |s| :: r[i] == s[i] || (s[i] == 'd' && r[i] == 'g' && 0 < i && s[i - 1] == 'a'))
      && !Text.Contains(r, "ad")
      && (|s| > 0 ==> r[0] == s[0])
    decreases |s|
  {
    var r := ReplaceAd(s);
    if |s| >= 2 {
      var rest := if s[0] == 'a' && s[1] == 'd' then s[2..] else s[1..];
      ReplaceAdFacts(rest);
      var rr := ReplaceAd(rest);
      if s[0] == 'a' && s[1] == 'd' {
        assert r == "ag" + rr;
        forall i | 2 <= i < |s|
          ensures r[i] == s[i] || (s[i] == 'd' && r[i] == 'g' && 0 < i && s[i - 1] == 'a')
        {
          assert r[i] == rr[i - 2] && s[i] == rest[i - 2];
          if i - 2 > 0 {
            assert s[i - 1] == rest[i - 3];
          }
        }
        NoAdAfterG(rr);
      } else {
        assert r == [s[0]] + rr;
        forall i | 1 <= i < |s|
          ensures r[i] == s[i] || (s[i] == 'd' && r[i] == 'g' && 0 < i && s[i - 1] == 'a')
        {
          assert r[i] == rr[i - 1] && s[i] == rest[i - 1];
          if i - 1 > 0 {
            assert s[i - 1] == rest[i - 2];
          }
        }
        NoAdAfterChar(s[0], rr, s[1]);
      }
    } else if |s| == 1 {
      assert !Text.OccursAt(r, "ad", 0);
    }
  }

  /** Putting "ag" in front of a string without "ad" creates none. */
  lemma NoAdAfterG(rr: string)
    requires !Text.Contains(rr, "ad")
    ensures !Text.Contains("ag" + rr, "ad")
  {
    var r := "ag" + rr;
    forall i | 0 <= i <= |r|
      ensures !Text.OccursAt(r, "ad", i)
    {
      if Text.OccursAt(r, "ad", i) {
        assert r[i] == 'a' && r[i + 1] == 'd' by {
          assert r[i..i + 2][0] == r[i] && r[i..i + 2][1] == r[i + 1];
        }
        assert r[1] == 'g';
        assert r[i..i + 2] == rr[i - 2..i];
        assert Text.OccursAt(rr, "ad", i - 2);
      }
    }
  }

  /** A character in front of a string without "ad" creates none, unless it is an `a` before a `d`. */
  lemma NoAdAfterChar(c: char, rr: string, next: char)
    requires !Text.Contains(rr, "ad")
    requires |rr| > 0 && rr[0] == next && !(c == 'a' && next == 'd')
    ensures !Text.Contains([c] + rr, "ad")
  {
    var r := [c] + rr;
    forall i | 0 <= i <= |r|
      ensures !Text.OccursAt(r, "ad", i)
    {
      if Text.OccursAt(r, "ad", i) {
        assert r[i] == 'a' && r[i + 1] == 'd' by {
          assert r[i..i + 2][0] == r[i] && r[i..i + 2][1] == r[i + 1];
        }
        assert r[0] == c && r[1] == next;
        assert r[i..i + 2] == rr[i - 1..i + 1];
        assert Text.OccursAt(rr, "ad", i - 1);
      }
    }
  }

  /**
   * `upload_to`: `<path>/<h[0:2]>/<h[2:4]>/<filename>`, where `h` is the
   * hex digest of the file name and time (an input here) with "ad" replaced.
   */
  function UploadTo(setting: Option<string>, digest: string, filename: string): string {
    var h := ReplaceAd(digest);
    Text.Join([ImagePath(setting), Text.Slice(h, 0, 2), Text.Slice(h, 2, 4), filename], '/')
  }

  /**
   * The path splits back into the prefix, two directories of the digest's
   * first four characters (`d` after `a` turned to `g`, so neither holds
   * "ad"), and the file name, when neither the prefix, the digest nor the
   * file name holds a slash.
   */
  lemma UploadToParts(setting: Option<string>, digest: string, filename: string)
    requires '/' !in ImagePath(setting) && '/' !in digest && '/' !in filename
    requires |digest| >= 4
    ensures var parts := Text.Split(UploadTo(setting, digest, filename), '/');
      && |parts| == 4
      && parts[0] == ImagePath(setting) && parts[3] == filename
      && |parts[1]| == 2 && |parts[2]| == 2
      && !Text.Contains(parts[1], "ad") && !Text.Contains(parts[2], "ad")
      && parts[1][0] == digest[0]
      && (forall i | 0 <= i < 2 :: parts[1][i] == digest[i] || (digest[i] == 'd' && parts[1][i] == 'g'))
      && (forall i | 0 <= i < 2 :: parts[2][i] == digest[i + 2] || (digest[i + 2] == 'd' && parts[2][i] == 'g'))
  {
    var h := ReplaceAd(digest);
    ReplaceAdFacts(digest);
    var d1 := Text.Slice(h, 0, 2);
    var d2 := Text.Slice(h, 2, 4);
    assert d1 == h[0..2] && d2 == h[2..4];
    forall c | c in h
      ensures c != '/'
    {
      var i :| 0 <= i < |h| && h[i] == c;
      assert h[i] == digest[i] || h[i] == 'g';
    }
    var parts := [ImagePath(setting), d1, d2, filename];
    assert forall p | p in parts :: '/' !in p;
    Text.SplitJoin(parts, '/');
    NoAdInside(h, 0, 2);
    NoAdInside(h, 2, 4);
  }

  /** A piece of a string without "ad" holds none either. */
  lemma NoAdInside(s: string, i: nat, j: nat)
    requires i <= j <= |s| && !Text.Contains(s, "ad")
    ensures !Text.Contains(s[i..j], "ad")
  {
    PieceOccurrences(s, "ad", i, j);
  }

  /** An occurrence in a piece of a string is an occurrence in the string, shifted by where the piece starts. */
  lemma PieceOccurrences(s: string, sub: string, i: nat, j: nat)
    requires i <= j <= |s|
    ensures forall k | Text.OccursAt(s[i..j], sub, k) :: Text.OccursAt(s, sub, i + k)
  {
    var t := s[i..j];
    forall k | Text.OccursAt(t, sub, k)
      ensures Text.OccursAt(s, sub, i + k)
    {
      var inPiece, inWhole := t[k..k + |sub|], s[i + k..i + k + |sub|];
      assert forall m | 0 <= m < |sub| :: inPiece[m] == inWhole[m];
      assert inPiece == inWhole;
    }
  }

  // ------------------------------------------------------------------ stale adjusted images

  /** Every registered class, in no particular order. */
  const Registered: seq<Adjustments.Kind> := [
    Adjustments.FitKind, Adjustments.CropKind, Adjustments.RatioCropKind,
    Adjustments.NamedCropKind, Adjustments.FillKind]

  /** The slugs of the listed classes whose `adjust` may read areas, in order. */
  function AreaSlugs(kinds: seq<Adjustments.Kind>): (slugs: seq<string>)
    ensures forall k | k in kinds :: Adjustments.AdjustUsesAreas(k) ==> Adjustments.Slug(k) in slugs
  {
    if kinds == [] then []
    else
      var rest := AreaSlugs(kinds[1..]);
      if Adjustments.AdjustUsesAreas(kinds[0]) then [Adjustments.Slug(kinds[0])] + rest else rest
  }

  /** Only the slugs of listed classes whose `adjust` may read areas are selected. */
  lemma {:induction false} AreaSlugsOnly(kinds: seq<Adjustments.Kind>)
    ensures forall s | s in AreaSlugs(kinds) ::
      exists k | k in kinds :: Adjustments.AdjustUsesAreas(k) && Adjustments.Slug(k) == s
    decreases |kinds|
  {
    if kinds != [] {
      AreaSlugsOnly(kinds[1..]);
      forall s | s in AreaSlugs(kinds)
        ensures exists k | k in kinds :: Adjustments.AdjustUsesAreas(k) && Adjustments.Slug(k) == s
      {
        if s !in AreaSlugs(kinds[1..]) {
          assert Adjustments.AdjustUsesAreas(kinds[0]) && Adjustments.Slug(kinds[0]) == s;
        } else {
          var k :| k in kinds[1..] && Adjustments.AdjustUsesAreas(k) && Adjustments.Slug(k) == s;
          assert k in kinds;
        }
      }
    }
  }

  /** Over the registry the selected slugs are all but `fit`. */
  lemma AreaSlugsOfRegistry()
    ensures forall k: Adjustments.Kind :: Adjustments.Slug(k) in AreaSlugs(Registered) <==> k != Adjustments.FitKind
  {
    var slugs := AreaSlugs(Registered);
    AreaSlugsOnly(Registered);
    forall k: Adjustments.Kind
      ensures Adjustments.Slug(k) in slugs <==> k != Adjustments.FitKind
    {
      match k
      case FitKind =>
      case CropKind => assert k == Registered[1];
      case RatioCropKind => assert k == Registered[2];
      case NamedCropKind => assert k == Registered[3];
      case FillKind => assert k == Registered[4];
    }
  }

  /** A stored adjusted image: its source's storage path and its request string. */
  datatype AdjustedImage = AdjustedImage(storagePath: string, requested: string)

  /**
   * `delete_adjusted_images`: an adjusted image of the changed image is
   * dropped when its request string mentions one of `slugs` (all of them
   * are dropped if there are no slugs).
   */
  predicate Stale(storagePath: string, slugs: seq<string>, image: AdjustedImage) {
    && image.storagePath == storagePath
    && (slugs == [] || exists s | s in slugs :: Text.Contains(image.requested, s))
  }

  /**
   * The stored adjusted images that remain after an area of `storagePath` is
   * saved or deleted, with the slugs of the area-reading classes.
   */
  function Survivors(storagePath: string, slugs: seq<string>, images: seq<AdjustedImage>): (kept: seq<AdjustedImage>)
    ensures forall im | im in kept :: im in images && !Stale(storagePath, slugs, im)
    ensures forall im | im in images && !Stale(storagePath, slugs, im) :: im in kept
    ensures |kept| <= |images|
  {
    if images == [] then []
    else
      var rest := Survivors(storagePath, slugs, images[1..]);
      if Stale(storagePath, slugs, images[0]) then rest else [images[0]] + rest
  }

  /** A string holding `sub` holds each of its characters. */
  lemma MissingChar(s: string, sub: string, c: char)
    requires c in sub && c !in s
    ensures !Text.Contains(s, sub)
  {
    forall i | 0 <= i <= |s| ensures !Text.OccursAt(s, sub, i) {
      var j :| 0 <= j < |sub| && sub[j] == c;
      if i <= |s| - |sub| {
        assert s[i..i + |sub|][j] == s[i + j];
      }
    }
  }

  lemma FitRequestNotStale(storagePath: string)
    ensures !Stale(storagePath, AreaSlugs(Registered), AdjustedImage(storagePath, "fit|50|50"))
  {
    var slugs := AreaSlugs(Registered);
    AreaSlugsOnly(Registered);
    assert Registered[1] == Adjustments.CropKind;
    assert slugs != [];
    forall s | s in slugs ensures !Text.Contains("fit|50|50", s) {
      var k :| k in Registered && Adjustments.AdjustUsesAreas(k) && Adjustments.Slug(k) == s;
      FitMissesSlug(k);
    }
  }

  /** `fit|50|50` holds the slug of no class that reads areas. */
  lemma FitMissesSlug(k: Adjustments.Kind)
    requires Adjustments.AdjustUsesAreas(k)
    ensures !Text.Contains("fit|50|50", Adjustments.Slug(k))
  {
    match k
    case CropKind => FitMissesCropSlugs();
    case RatioCropKind => FitMissesCropSlugs();
    case NamedCropKind => FitMissesCropSlugs();
    case FillKind => FitMissesFill();
  }

  /** `fit|50|50` has no `c`, so it holds none of the crop slugs. */
  lemma FitMissesCropSlugs()
    ensures !Text.Contains("fit|50|50", "crop")
    ensures !Text.Contains("fit|50|50", "ratiocrop")
    ensures !Text.Contains("fit|50|50", "namedcrop")
  {
    var requested := "fit|50|50";
    assert 'c' !in requested;
    assert "crop"[0] == 'c' && "ratiocrop"[5] == 'c' && "namedcrop"[5] == 'c';
    MissingChar(requested, "crop", 'c');
    MissingChar(requested, "ratiocrop", 'c');
    MissingChar(requested, "namedcrop", 'c');
  }

  /** `fit|50|50` has no `l`, so it does not hold `fill`. */
  lemma FitMissesFill()
    ensures !Text.Contains("fit|50|50", "fill")
  {
    assert 'l' !in "fit|50|50";
    assert "fill"[2] == 'l';
    MissingChar("fit|50|50", "fill", 'l');
  }

  lemma CropRequestStale(storagePath: string)
    ensures Stale(storagePath, AreaSlugs(Registered), AdjustedImage(storagePath, "crop|50|50"))
  {
    AreaSlugsOfRegistry();
    assert Adjustments.Slug(Adjustments.CropKind) in AreaSlugs(Registered);
    assert Text.OccursAt("crop|50|50", "crop", 0);
  }

  /**
   * Saving an area drops a stored `crop|50|50` of its image and keeps a
   * stored `fit|50|50`.
   */
  lemma CropDroppedFitKept(storagePath: string)
    ensures var fit := AdjustedImage(storagePath, "fit|50|50");
      var crop := AdjustedImage(storagePath, "crop|50|50");
      Survivors(storagePath, AreaSlugs(Registered), [fit, crop]) == [fit]
  {
    var fit := AdjustedImage(storagePath, "fit|50|50");
    var crop := AdjustedImage(storagePath, "crop|50|50");
    var slugs := AreaSlugs(Registered);
    FitRequestNotStale(storagePath);
    CropRequestStale(storagePath);
    assert [fit, crop][1..] == [crop];
    assert [crop][1..] == [];
  }
}
