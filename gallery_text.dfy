/**
 * The two text helpers of the image gallery (components/image-gallery.tsx):
 * the prompt shown in the detail panel, and the name a downloaded image is
 * saved under.
 */
module GalleryText {
  import opened Options
  import opened JsString

  /** Marks where a stored prompt's English translation starts. */
  const EnglishMarker: string := "English Prompt:"

  /**
   * The prompt as the detail panel shows it. A stored prompt that holds the
   * marker shows the trimmed text between the first marker and the next one
   * (or the end); any other prompt is shown as it is.
   */
  function DisplayPrompt(p: string): (r: string)
    ensures !Includes(p, EnglishMarker) ==> r == p
    ensures Includes(p, EnglishMarker) ==>
      && r == Trim(SecondPiece(p, EnglishMarker), Whitespace)
      && !Includes(r, EnglishMarker)
      && Trimmed(r, Whitespace)
      && |r| + |EnglishMarker| <= |p|
  {
    if Includes(p, EnglishMarker) then
      var piece := SecondPiece(p, EnglishMarker);
      TrimAvoids(piece, EnglishMarker, Whitespace);
      Trim(piece, Whitespace)
    else p
  }

  /**
   * Showing a prompt is idempotent: what is shown holds no marker, so showing
   * it again changes nothing.
   */
  lemma DisplayPromptIdempotent(p: string)
    ensures DisplayPrompt(DisplayPrompt(p)) == DisplayPrompt(p)
  {
  }

  /**
   * A prompt stored as a text, the marker and its translation, where neither
   * part holds the marker, is shown as its trimmed translation.
   */
  lemma DisplayOfTranslation(k: string, e: string)
    requires !Includes(k, EnglishMarker) && !Includes(e, EnglishMarker)
    ensures DisplayPrompt(k + EnglishMarker + e) == Trim(e, Whitespace)
  {
    var p := k + EnglishMarker + e;
    var m := EnglishMarker;
    assert OccursAt(p, m, |k|) by { assert p[|k|..|k| + |m|] == m; }
    forall i: nat | i < |k| ensures !OccursAt(p, m, i) {
      NoMarkerBefore(k, e, i);
    }
    IncludesIff(p, m, |k|);
    assert IndexOf(p, m) == Some(|k|);
    var piece := SecondPiece(p, m);
    var start := |k| + |m|;
    NoMarkerAfter(k, e, |piece|);
    assert p[start..] == e;
    assert piece == p[start..start + |piece|] == e;
  }

  /** The marker does not occur in `k + EnglishMarker + e` before the marker that follows `k`. */
  lemma NoMarkerBefore(k: string, e: string, i: nat)
    requires !Includes(k, EnglishMarker) && i < |k|
    ensures !OccursAt(k + EnglishMarker + e, EnglishMarker, i)
  {
    var p := k + EnglishMarker + e;
    var m := EnglishMarker;
    if i + |m| <= |k| {
      assert p[i..i + |m|] == k[i..i + |m|];
      IncludesIff(k, m, i);
    } else {
      // The marker's only ':' is its last character; here that position falls
      // inside the marker that follows `k`, where it holds another character.
      var t := i + |m| - 1 - |k|;
      assert p[i + |m| - 1] == m[t];
      assert m[t] != ':';
      assert p[i..i + |m|][|m| - 1] != m[|m| - 1];
    }
  }

  /** Nor does it occur anywhere inside `e`. */
  lemma NoMarkerAfter(k: string, e: string, i: nat)
    requires !Includes(e, EnglishMarker)
    ensures !OccursAt(k + EnglishMarker + e, EnglishMarker, |k| + |EnglishMarker| + i)
  {
    var p := k + EnglishMarker + e;
    var m := EnglishMarker;
    var start := |k| + |m|;
    if start + i + |m| <= |p| {
      assert p[start + i..start + i + |m|] == e[i..i + |m|];
      IncludesIff(e, m, i);
    }
  }

  /**
   * A prompt with the marker is shown differently from how it is stored; the
   * copy button copies the stored prompt, so what it copies is not what is
   * shown.
   */
  lemma DisplayDiffersFromStored(p: string)
    requires Includes(p, EnglishMarker)
    ensures DisplayPrompt(p) != p
  {
  }

  // ---------------------------------------------------------------------------
  // Download file name
  // ---------------------------------------------------------------------------

  /** How many characters of the prompt go into a file name. */
  const SlugLength: nat := 20

  /** The prompt part of a file name: its first characters, whitespace runs as dashes. */
  function Slug(prompt: string): (r: string)
    ensures r == DashRuns(Prefix(prompt, SlugLength), Whitespace)
    ensures NoneIn(r, Whitespace) && |r| <= SlugLength
    ensures Letters(r, Whitespace) == Letters(Prefix(prompt, SlugLength), Whitespace)
  {
    var head := Prefix(prompt, SlugLength);
    DashRunsKeepsLetters(head, Whitespace);
    DashRuns(head, Whitespace)
  }

  /**
   * The name a downloaded image is saved under, for the download started at
   * `now` milliseconds: `flux-`, the slug, a dash, the time in decimal, `.png`.
   * It holds no whitespace, and the time can be read back from it.
   */
  function DownloadFileName(prompt: string, now: nat): (r: string)
    ensures |r| == 5 + |Slug(prompt)| + 1 + |DecimalString(now)| + 4
    ensures OccursAt(r, "flux-", 0) && OccursAt(r, ".png", |r| - 4)
    ensures r[5..5 + |Slug(prompt)|] == Slug(prompt) && r[5 + |Slug(prompt)|] == '-'
    ensures NoneIn(r, Whitespace)
    ensures var stamp := r[5 + |Slug(prompt)| + 1..|r| - 4];
      (forall i :: 0 <= i < |stamp| ==> IsDigit(stamp[i])) && ParseDecimal(stamp) == now
  {
    var slug := Slug(prompt);
    var stamp := DecimalString(now);
    var r := "flux-" + slug + "-" + stamp + ".png";
    FileNameParts(slug, stamp);
    DecimalRoundTrip(now);
    r
  }

  /** Where the parts of a file name sit, and that the fixed parts hold no whitespace. */
  lemma FileNameParts(slug: string, stamp: string)
    requires NoneIn(slug, Whitespace)
    requires forall i :: 0 <= i < |stamp| ==> IsDigit(stamp[i])
    ensures var r := "flux-" + slug + "-" + stamp + ".png";
      && OccursAt(r, "flux-", 0) && OccursAt(r, ".png", |r| - 4)
      && r[5..5 + |slug|] == slug && r[5 + |slug|] == '-'
      && r[5 + |slug| + 1..|r| - 4] == stamp
      && NoneIn(r, Whitespace)
  {
    var r := "flux-" + slug + "-" + stamp + ".png";
    assert r[..5] == "flux-";
    assert r[|r| - 4..] == ".png";
    assert r[5..5 + |slug|] == slug;
    assert r[5 + |slug| + 1..|r| - 4] == stamp;
    forall i | 0 <= i < |r|
      ensures r[i] !in Whitespace
    {
      if i < 5 {
        assert r[i] in "flux-";
      } else if i < 5 + |slug| {
        assert r[i] == slug[i - 5];
      } else if i == 5 + |slug| {
        assert r[i] == '-';
      } else if i < |r| - 4 {
        assert r[i] == stamp[i - 5 - |slug| - 1];
      } else {
        assert r[i] in ".png";
      }
    }
  }
}
