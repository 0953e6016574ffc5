/**
 * Rewriting a shared cloud-drive link into a direct download link. The
 * regular expression `/d/([a-zA-Z0-9-_]+)` is modelled by an explicit
 * scanner: the leftmost `/d/` followed by at least one id character,
 * and the longest run of id characters after it.
 */
module DriveService {
  import opened Wrappers

  const DriveHost: string := "https://drive.google.com"

  /** What a file id is appended to, to make its direct download link. */
  const DownloadPrefix: string := DriveHost + "/uc?export=download&id="

  /** The characters of the class `[a-zA-Z0-9-_]`. */
  predicate IsIdChar(c: char)
  {
    ('a' <= c <= 'z') || ('A' <= c <= 'Z') || ('0' <= c <= '9') || c == '-' || c == '_'
  }

  predicate AllIdChars(s: string)
  {
    forall i :: 0 <= i < |s| ==> IsIdChar(s[i])
  }

  /** The pattern can start matching at p: `/d/` there, then an id character. */
  predicate MatchesAt(s: string, p: int)
  {
    0 <= p && p + 3 < |s| && s[p] == '/' && s[p + 1] == 'd' && s[p + 2] == '/' && IsIdChar(s[p + 3])
  }

  /** The end of the run of id characters that starts at i. */
  function IdEnd(s: string, i: nat): (e: nat)
    requires i <= |s|
    ensures i <= e <= |s|
    ensures forall j :: i <= j < e ==> IsIdChar(s[j])
    ensures e == |s| || !IsIdChar(s[e])
    decreases |s| - i
  {
    if i < |s| && IsIdChar(s[i]) then IdEnd(s, i + 1) else i
  }

  /** The leftmost position at or after `from` where the pattern matches. */
  function FirstMatch(s: string, from: nat): (r: Option<nat>)
    ensures r.Some? ==> from <= r.value && MatchesAt(s, r.value)
    ensures r.Some? ==> forall p :: from <= p < r.value ==> !MatchesAt(s, p)
    ensures r.None? ==> forall p :: from <= p ==> !MatchesAt(s, p)
    decreases |s| - from
  {
    if from + 3 >= |s| then None
    else if MatchesAt(s, from) then Some(from)
    else FirstMatch(s, from + 1)
  }

  /**
   * `convertToDownloadUrl`: the empty string stays empty; a link with a
   * match becomes the download link for the matched id; any other link is
   * returned as it is.
   */
  function ConvertToDownloadUrl(url: string): (r: string)
    ensures url == [] ==> r == []
  {
    if url == [] then []
    else
      match FirstMatch(url, 0)
      case Some(p) => DownloadPrefix + url[p + 3..IdEnd(url, p + 3)]
      case None => url
  }

  /** `getImageUrl`: the download link for a file id. */
  function GetImageUrl(id: string): (r: string)
    ensures |r| == |DownloadPrefix| + |id|
    ensures r[..|DownloadPrefix|] == DownloadPrefix && r[|DownloadPrefix|..] == id
  {
    DownloadPrefix + id
  }

  // ---------------------------------------------------------------------
  // What the conversion yields

  /** A match with none before it, from `from` on, is the one FirstMatch finds. */
  lemma FirstMatchIs(s: string, from: nat, p: nat)
    requires from <= p && MatchesAt(s, p)
    requires forall q :: from <= q < p ==> !MatchesAt(s, q)
    ensures FirstMatch(s, from) == Some(p)
  {
  }

  /** The run of id characters from i up to IdEnd consists of id characters. */
  lemma IdRun(s: string, i: nat)
    requires i <= |s|
    ensures AllIdChars(s[i..IdEnd(s, i)])
  {
    var e := IdEnd(s, i);
    forall k | 0 <= k < e - i
      ensures IsIdChar(s[i..e][k])
    {
      assert s[i..e][k] == s[i + k];
    }
  }

  /** When FirstMatch finds p, the result is the download link for the run after `/d/`. */
  lemma ConvertFound(url: string, p: nat)
    requires FirstMatch(url, 0) == Some(p)
    ensures p + 3 < IdEnd(url, p + 3) <= |url|
    ensures AllIdChars(url[p + 3..IdEnd(url, p + 3)])
    ensures ConvertToDownloadUrl(url) == GetImageUrl(url[p + 3..IdEnd(url, p + 3)])
  {
    assert MatchesAt(url, p);
    var i := p + 3;
    assert i < |url| && IsIdChar(url[i]);
    assert IdEnd(url, i) == IdEnd(url, i + 1);
    IdRun(url, i);
    assert url != [];
    assert ConvertToDownloadUrl(url) == DownloadPrefix + url[i..IdEnd(url, i)];
  }

  /**
   * When the leftmost match is at p, the result is the download link for the
   * id that follows `/d/`: a non-empty run of id characters that is maximal,
   * followed by a character outside the class or by the end of the link.
   */
  lemma ConvertMatched(url: string, p: nat)
    requires MatchesAt(url, p)
    requires forall q :: 0 <= q < p ==> !MatchesAt(url, q)
    ensures exists e ::
      && p + 3 < e <= |url|
      && AllIdChars(url[p + 3..e])
      && (e == |url| || !IsIdChar(url[e]))
      && ConvertToDownloadUrl(url) == GetImageUrl(url[p + 3..e])
  {
    FirstMatchIs(url, 0, p);
    ConvertFound(url, p);
    var e := IdEnd(url, p + 3);
    assert e == |url| || !IsIdChar(url[e]);
  }

  /** A link in which the pattern matches nowhere comes back unchanged. */
  lemma ConvertUnmatched(url: string)
    requires forall p :: !MatchesAt(url, p)
    ensures ConvertToDownloadUrl(url) == url
  {
    if url != [] {
      assert FirstMatch(url, 0).None?;
    }
  }

  /** A changed link had a match, and became a download link. */
  lemma ConvertChangedOnlyOnMatch(url: string)
    requires ConvertToDownloadUrl(url) != url
    ensures exists p :: MatchesAt(url, p)
    ensures exists id :: |id| > 0 && AllIdChars(id) && ConvertToDownloadUrl(url) == GetImageUrl(id)
  {
    assert url != [];
    var m := FirstMatch(url, 0);
    assert m.Some?;
    var p := m.value;
    assert MatchesAt(url, p);
    ConvertFound(url, p);
    var id := url[p + 3..IdEnd(url, p + 3)];
    assert |id| > 0 && AllIdChars(id) && ConvertToDownloadUrl(url) == GetImageUrl(id);
  }

  // ---------------------------------------------------------------------
  // Idempotence

  /** The only slashes of `DriveHost` are the two after the scheme. */
  lemma HostSlashes(i: int)
    requires 0 <= i < |DriveHost| && DriveHost[i] == '/'
    ensures i == 6 || i == 7
  {
  }

  /** The slashes of `DownloadPrefix` are the two after the scheme and the one before the path. */
  lemma PrefixSlashes(i: int)
    requires 0 <= i < |DownloadPrefix| && DownloadPrefix[i] == '/'
    ensures i == 6 || i == 7 || i == 24
  {
    if i < |DriveHost| {
      assert DownloadPrefix[i] == DriveHost[i];
      HostSlashes(i);
    }
  }

  /** A download link contains no `/d/`, so the pattern matches nowhere in it. */
  lemma DownloadUrlHasNoMatch(id: string)
    requires AllIdChars(id)
    ensures forall p :: !MatchesAt(GetImageUrl(id), p)
  {
    var r := GetImageUrl(id);
    var n := |DownloadPrefix|;
    forall p | 0 <= p && p + 3 < |r|
      ensures !MatchesAt(r, p)
    {
      if p + 2 >= n {
        assert r[p + 2] == id[p + 2 - n];
      } else if r[p + 2] == '/' {
        assert r[p + 2] == DownloadPrefix[p + 2];
        PrefixSlashes(p + 2);
        assert r[p] == DownloadPrefix[p];
      }
    }
  }

  /** Converting a converted link changes nothing. */
  lemma ConvertIdempotent(url: string)
    ensures ConvertToDownloadUrl(ConvertToDownloadUrl(url)) == ConvertToDownloadUrl(url)
  {
    var r := ConvertToDownloadUrl(url);
    if r != url {
      ConvertChangedOnlyOnMatch(url);
      var id :| |id| > 0 && AllIdChars(id) && r == GetImageUrl(id);
      DownloadUrlHasNoMatch(id);
      ConvertUnmatched(r);
    }
  }

  /** The download link for an id is its own conversion. */
  lemma ImageUrlIsConverted(id: string)
    requires AllIdChars(id)
    ensures ConvertToDownloadUrl(GetImageUrl(id)) == GetImageUrl(id)
  {
    DownloadUrlHasNoMatch(id);
    ConvertUnmatched(GetImageUrl(id));
  }

  // ---------------------------------------------------------------------
  // Sharing links

  /**
   * A sharing link `https://drive.google.com/file/d/<id>` followed by
   * anything that does not continue the id (such as `/view`) converts to the
   * download link for that id.
   */
  lemma SharingLinkConverts(id: string, rest: string)
    requires |id| > 0 && AllIdChars(id)
    requires rest == [] || !IsIdChar(rest[0])
    ensures ConvertToDownloadUrl(DriveHost + "/file/d/" + id + rest) == GetImageUrl(id)
  {
    var head := DriveHost + "/file/d/";
    var link := head + id + rest;
    var n := |head|;
    assert n == 32;
    forall q | 0 <= q < 29
      ensures !MatchesAt(link, q)
    {
      if link[q + 2] == '/' {
        assert link[q + 2] == head[q + 2];
        if q + 2 < |DriveHost| {
          assert head[q + 2] == DriveHost[q + 2];
          HostSlashes(q + 2);
          assert link[q] == DriveHost[q];
        } else {
          assert q + 2 == 24 || q + 2 == 29;
          assert link[q] == head[q];
          if q == 22 {
            assert link[22] == DriveHost[22];
          }
        }
      }
    }
    assert link[29] == '/' && link[30] == 'd' && link[31] == '/';
    assert link[32] == id[0];
    FirstMatchIs(link, 0, 29);
    var e := IdEnd(link, 32);
    forall j | 32 <= j < 32 + |id|
      ensures link[j] == id[j - 32]
    {
    }
    if rest != [] {
      assert link[32 + |id|] == rest[0];
    }
    assert e == 32 + |id|;
    assert link[32..e] == id;
  }
}
