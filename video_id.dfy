/**
 * Extracting the video identifier from a YouTube URL (`extract_youtube_video_id`,
 * main.py:21-30): the text after the first `v=` up to the first `&`, or else the
 * text after the first `youtu.be/`; any other URL is rejected.
 */
module VideoId {
  import opened Wrappers
  import opened PyStrings

  /** The `ValueError("Invalid YouTube URL")` that `extract_youtube_video_id` raises. */
  datatype UrlError = InvalidYouTubeUrl

  /** `extract_youtube_video_id`: fails exactly when neither marker occurs. */
  function ExtractVideoId(url: string): (r: Result<string, UrlError>)
    ensures r.Err? <==> !Contains(url, "v=") && !Contains(url, "youtu.be/")
  {
    if Contains(url, "v=") then
      SplitCount(url, "v=");
      Ok(Split(Split(url, "v=")[1], "&")[0])
    else if Contains(url, "youtu.be/") then
      SplitCount(url, "youtu.be/");
      Ok(Split(url, "youtu.be/")[1])
    else Err(InvalidYouTubeUrl)
  }

  /**
   * The second piece of `s.split(sep)` when `sep` first occurs at `i`: the text
   * after that occurrence, up to the next occurrence or the end of `s`.
   */
  lemma SecondPiece(s: string, sep: string, i: nat)
    requires sep != [] && FirstAt(s, sep, i)
    ensures |Split(s, sep)| >= 2
    ensures Split(s, sep)[1] == Split(s[i + |sep|..], sep)[0]
  {
    SplitAt(s, sep, i);
  }

  /** The first piece of the split of `s[start..]`, located in `s`. */
  lemma SuffixHead(s: string, sep: string, start: nat)
    requires sep != [] && start <= |s|
    ensures var piece := Split(s[start..], sep)[0];
      start + |piece| <= |s| && s[start..start + |piece|] == piece &&
      !Contains(piece, sep) &&
      (start + |piece| == |s| || OccursAt(s, sep, start + |piece|))
  {
    SplitHead(s[start..], sep);
    ShiftedWindow(s, sep, start, |Split(s[start..], sep)[0]|);
  }

  /** A window of `s[start..]` is the window of `s` shifted by `start`, occurrences included. */
  lemma ShiftedWindow(s: string, sep: string, start: nat, n: nat)
    requires start + n <= |s|
    ensures s[start..start + n] == s[start..][..n]
    ensures OccursAt(s[start..], sep, n) ==> OccursAt(s, sep, start + n)
  {
    if OccursAt(s[start..], sep, n) {
      assert s[start + n..start + n + |sep|] == s[start..][n..n + |sep|];
    }
  }

  /** Where an identifier read after `v=` may stop: the end of the URL, a `&` or another `v=`. */
  predicate WatchIdStops(url: string, k: nat)
  {
    k == |url| || (k < |url| && url[k] == '&') || OccursAt(url, "v=", k)
  }

  /** `id` is the text of `url` from `start` on, free of `&` and `v=`, up to a stop. */
  predicate IsWatchId(url: string, start: nat, id: string)
  {
    start + |id| <= |url| && url[start..start + |id|] == id &&
    !Contains(id, "&") && !Contains(id, "v=") && WatchIdStops(url, start + |id|)
  }

  /**
   * A URL whose first `v=` is at `i` yields the text right after it, which holds
   * no `&` and no `v=` and stops where the URL ends, at a `&` or at the next `v=`.
   * Nothing is assumed about `youtu.be/`: the `v=` rule takes priority.
   */
  lemma ExtractWatchUrl(url: string, i: nat)
    requires FirstAt(url, "v=", i)
    ensures ExtractVideoId(url).Ok? && IsWatchId(url, i + 2, ExtractVideoId(url).value)
  {
    WatchBranch(url, i);
    var start := i + 2;
    var piece := Split(url[start..], "v=")[0];
    var id := Split(piece, "&")[0];
    assert start + |piece| <= |url| && url[start..start + |piece|] == piece &&
      !Contains(piece, "v=") && (start + |piece| == |url| || OccursAt(url, "v=", start + |piece|)) by {
      SuffixHead(url, "v=", start);
    }
    assert |id| <= |piece| && piece[..|id|] == id && !Contains(id, "&") &&
      (|id| == |piece| || FirstAt(piece, "&", |id|)) by {
      SplitHead(piece, "&");
    }
    WatchIdOfPiece(url, start, piece, id);
  }

  /** With the first `v=` at `i`, extraction reads the first `&`-piece of the first `v=`-piece after it. */
  lemma WatchBranch(url: string, i: nat)
    requires FirstAt(url, "v=", i)
    ensures i + 2 <= |url|
    ensures ExtractVideoId(url) == Ok(Split(Split(url[i + 2..], "v=")[0], "&")[0])
  {
    assert i <= |url| && OccursAt(url, "v=", i);
    SecondPiece(url, "v=", i);
  }

  /**
   * The text read after `v=` (free of `v=`, ending at the end or at the next
   * `v=`) cut at its first `&` is an identifier.
   */
  lemma WatchIdOfPiece(url: string, start: nat, piece: string, id: string)
    requires start + |piece| <= |url| && url[start..start + |piece|] == piece
    requires !Contains(piece, "v=") && (start + |piece| == |url| || OccursAt(url, "v=", start + |piece|))
    requires |id| <= |piece| && piece[..|id|] == id && !Contains(id, "&")
    requires |id| == |piece| || FirstAt(piece, "&", |id|)
    ensures IsWatchId(url, start, id)
  {
    PrefixOfFree(piece, "v=", |id|);
    assert url[start..start + |id|] == piece[..|id|];
    if |id| < |piece| {
      assert piece[|id|..|id| + 1] == "&";
      assert url[start..start + |piece|][|id|] == url[start + |id|];
    }
  }

  /** An identifier does not stop before its own end. */
  lemma NoEarlierStop(url: string, start: nat, id: string)
    requires IsWatchId(url, start, id)
    ensures forall p: nat :: start <= p < start + |id| ==> !WatchIdStops(url, p)
  {
    forall p: nat | start <= p < start + |id|
      ensures !WatchIdStops(url, p)
    {
      var k := p - start;
      assert url[p] == id[k];
      assert id[k..k + 1] == [id[k]];
      assert k <= |id| && !OccursAt(id, "&", k);
      if k + 1 < |id| {
        assert url[p + 1] == id[k + 1];
        assert url[p..p + 2] == id[k..k + 2];
        assert !OccursAt(id, "v=", k);
      } else {
        var e := start + |id|;
        assert WatchIdStops(url, e);
        assert e < |url| ==> url[e] == '&' || url[e] == 'v' by {
          if e < |url| && OccursAt(url, "v=", e) {
            assert url[e..e + 2] == "v=";
            assert url[e..e + 2][0] == url[e];
            assert "v="[0] == 'v';
          }
        }
        if p + 2 <= |url| {
          assert url[p..p + 2][1] == url[e];
          assert "v="[1] == '=';
        }
      }
      assert p != |url|;
      assert url[p] != '&';
      assert !OccursAt(url, "v=", p);
    }
  }

  /** At most one text is an identifier read from a given position. */
  lemma WatchIdUnique(url: string, start: nat, a: string, b: string)
    requires IsWatchId(url, start, a) && IsWatchId(url, start, b)
    ensures a == b
  {
    NoEarlierStop(url, start, a);
    NoEarlierStop(url, start, b);
    assert |a| == |b|;
  }

  /** For a URL whose first `v=` is at `i`, extraction yields `id` exactly when `id` is the identifier there. */
  lemma ExtractWatchUrlIff(url: string, i: nat, id: string)
    requires FirstAt(url, "v=", i)
    ensures ExtractVideoId(url) == Ok(id) <==> IsWatchId(url, i + 2, id)
  {
    ExtractWatchUrl(url, i);
    if IsWatchId(url, i + 2, id) {
      WatchIdUnique(url, i + 2, id, ExtractVideoId(url).value);
    }
  }

  /**
   * A URL without `v=` whose first `youtu.be/` is at `i` yields the text after it,
   * up to the next `youtu.be/` or the end of the URL.
   */
  lemma ExtractShortUrl(url: string, i: nat)
    requires !Contains(url, "v=") && FirstAt(url, "youtu.be/", i)
    ensures ExtractVideoId(url).Ok?
    ensures var id, start := ExtractVideoId(url).value, i + 9;
      start + |id| <= |url| && url[start..start + |id|] == id &&
      !Contains(id, "youtu.be/") &&
      (start + |id| == |url| || OccursAt(url, "youtu.be/", start + |id|))
  {
    ShortBranch(url, i);
    SuffixHead(url, "youtu.be/", i + 9);
  }

  /** With no `v=` and the first `youtu.be/` at `i`, extraction reads the first `youtu.be/`-piece after it. */
  lemma ShortBranch(url: string, i: nat)
    requires !Contains(url, "v=") && FirstAt(url, "youtu.be/", i)
    ensures i + 9 <= |url|
    ensures ExtractVideoId(url) == Ok(Split(url[i + 9..], "youtu.be/")[0])
  {
    assert i <= |url| && OccursAt(url, "youtu.be/", i);
    SecondPiece(url, "youtu.be/", i);
  }

  /**
   * `{page}v={id}&{tail}` yields `id` when neither `page` nor `id` holds a `v`
   * and `id` holds no `&`, whatever `tail` holds.
   */
  lemma WatchUrlOfId(page: string, id: string, tail: string)
    requires forall k :: 0 <= k < |page| ==> page[k] != 'v'
    requires forall k :: 0 <= k < |id| ==> id[k] != 'v' && id[k] != '&'
    ensures ExtractVideoId(page + "v=" + id + "&" + tail) == Ok(id)
  {
    var url := page + "v=" + id + "&" + tail;
    var i := |page|;
    assert url[i..i + 2] == "v=";
    FirstByFirstChar(url, "v=", i);
    MissingFirstChar(id, "&");
    MissingFirstChar(id, "v=");
    assert url[i + 2..i + 2 + |id|] == id;
    assert url[i + 2 + |id|] == '&';
    ExtractWatchUrlIff(url, i, id);
  }

  /** A watch URL with a `t=` parameter after the `&` yields `ABC123`. */
  lemma WatchUrlExample()
    ensures ExtractVideoId("https://www.youtube.com/watch?" + "v=" + "ABC123" + "&" + "t=5") == Ok("ABC123")
  {
    WatchUrlOfId("https://www.youtube.com/watch?", "ABC123", "t=5");
  }

  /** `https://youtu.be/{id}` yields `id` when `id` holds no `v` and no `y`. */
  lemma ShortUrlOfId(id: string)
    requires forall k :: 0 <= k < |id| ==> id[k] != 'v' && id[k] != 'y'
    ensures ExtractVideoId("https://youtu.be/" + id) == Ok(id)
  {
    var url := "https://youtu.be/" + id;
    assert forall k :: 0 <= k < |url| && k != 8 ==> url[k] != 'v' && url[k] != 'y';
    MissingFirstChar(url, "v=");
    assert url[8..17] == "youtu.be/";
    FirstByFirstChar(url, "youtu.be/", 8);
    NoOccurrenceFrom(url, "youtu.be/", 17);
    ExtractShortUrl(url, 8);
    var got := ExtractVideoId(url).value;
    assert got == url[17..];
  }

  /** Past `start`, no character starts `sep`, so `sep` occurs nowhere from there on. */
  lemma NoOccurrenceFrom(s: string, sep: string, start: nat)
    requires sep != []
    requires forall k :: start <= k < |s| ==> s[k] != sep[0]
    ensures forall e: nat :: start <= e ==> !OccursAt(s, sep, e)
  {
    forall e: nat | start <= e
      ensures !OccursAt(s, sep, e)
    {
      if e + |sep| <= |s| {
        assert s[e..e + |sep|][0] == s[e];
      }
    }
  }

  /** A short URL yields the text after `youtu.be/`, `XYZ789`. */
  lemma ShortUrlExample()
    ensures ExtractVideoId("https://youtu.be/XYZ789") == Ok("XYZ789")
  {
    ShortUrlOfId("XYZ789");
    assert "https://youtu.be/" + "XYZ789" == "https://youtu.be/XYZ789";
  }

  /** A short URL that also carries `v=` is read by the `v=` rule. */
  lemma WatchMarkerWinsExample()
    ensures ExtractVideoId("https://youtu.be/XYZ?v=ABC") == Ok("ABC")
  {
    var url := "https://youtu.be/XYZ?v=ABC";
    var id := "ABC";
    assert OccursAt(url, "v=", 21);
    FirstByFirstChar(url, "v=", 21);
    MissingFirstChar(id, "&");
    MissingFirstChar(id, "v=");
    assert url[23..26] == id;
    ExtractWatchUrlIff(url, 21, id);
  }

  /** A URL with neither marker is rejected. */
  lemma InvalidUrlExample()
    ensures ExtractVideoId("https://example.com") == Err(InvalidYouTubeUrl)
  {
    var url := "https://example.com";
    MissingFirstChar(url, "v=");
    MissingFirstChar(url, "youtu.be/");
  }
}
