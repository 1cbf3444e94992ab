/**
 * How the app chains the two url functions: a url is first validated, and
 * the identifier of an accepted url is then extracted and handed to the
 * caption fetch. The lemmas relate the validator and the extractor.
 */
module Pipeline {
  import opened Text
  import opened Transcript
  import opened Validation

  lemma WatchPrefixHead()
    ensures |WatchPrefix| == 32 && WatchPrefix[..19] == Head(2, true, false)
    ensures NoNewline(WatchPrefix) && WatchPrefix[23] == '/' && WatchPrefix[24] == 'w'
  {
  }

  /** A watch url with a well-formed identifier is accepted, and the extractor recovers that identifier. */
  lemma WatchUrlAcceptedAndExtracted(w: WordClass, id: string)
    requires AsciiAgrees(w) && IsIdShape(w, id)
    ensures ValidateYoutubeUrl(w, WatchPrefix + id)
    ensures VideoId(w, WatchPrefix + id) == Some(id)
  {
    WatchUrlYieldsId(w, id);
    WatchUrlAccepted(w, id);
  }

  lemma WatchUrlAccepted(w: WordClass, id: string)
    requires AsciiAgrees(w)
    ensures LooseShape(w, WatchPrefix + id)
  {
    var s := WatchPrefix + id;
    WatchPrefixHead();
    var h := Head(2, true, false);
    assert s[..19] == WatchPrefix[..19];
    assert StartsWith(s, h);
    var r := s[19..];
    assert r[..5] == WatchPrefix[19..24];
    assert r[4] == '/' && r[5] == 'w';
    assert w('w');
    assert TailAt(w, r, 5);
  }

  /** A short link (optionally with a final line feed) is accepted, and the extractor recovers its identifier. */
  lemma ShortLinkAcceptedAndExtracted(w: WordClass, id: string, tail: string)
    requires AsciiAgrees(w) && IsIdShape(w, id) && (tail == "" || tail == "\n")
    ensures ValidateYoutubeUrl(w, ShortPrefix + id + tail)
    ensures VideoId(w, ShortPrefix + id + tail) == Some(id)
  {
    ShortUrlYieldsId(w, id, tail);
    ExactAccepts(w, id, tail);
    ExactSubsumed(w, ShortPrefix + id + tail);
    LooseCorrect(w, ShortPrefix + id + tail);
  }

  /** Acceptance does not guarantee an identifier: this accepted url yields none. */
  lemma AcceptedWithoutId(w: WordClass)
    requires AsciiAgrees(w)
    ensures ValidateYoutubeUrl(w, "youtube/x")
    ensures VideoId(w, "youtube/x") == None
  {
    assert w('x');
    ShortestAccepted(w, 'x');
    var s := "youtube/x";
    assert "youtube/" + ['x'] == s;
    assert forall p, i: nat :: i <= |s| ==> !MatchAt(w, p, s, i);
  }

  lemma FrontStart(scheme: nat, www: bool)
    requires scheme < |Schemes|
    ensures |Front(scheme, www)| >= 1 && Front(scheme, www)[0] in {'h', 'w', 'y'}
  {
  }

  /** A bare path: `/` and eleven identifier characters, with no host at all. */
  const BarePath: string := "/AAAAAAAAAAA"

  lemma BarePathChars()
    ensures |BarePath| == 12 && BarePath[0] == '/' && BarePath[1..12] == "AAAAAAAAAAA"
    ensures forall k :: 1 <= k < 12 ==> BarePath[k] == 'A'
  {
  }

  /** Rejection does not rule out an identifier either: this rejected url yields one. */
  lemma RejectedWithId(w: WordClass)
    requires AsciiAgrees(w)
    ensures !ValidateYoutubeUrl(w, BarePath)
    ensures VideoId(w, BarePath) == Some("AAAAAAAAAAA")
  {
    BarePathChars();
    forall scheme: nat, www: bool | scheme < |Schemes|
      ensures !StartsWith(BarePath, Front(scheme, www))
    {
      FrontStart(scheme, www);
    }
    RejectsWithoutFront(w, BarePath);
    assert w('A');
    assert MatchAt(w, QueryOrPath, BarePath, 0);
    FirstMatchDecides(w, BarePath, 0);
  }
}
