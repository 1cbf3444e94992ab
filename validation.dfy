/**
 * The URL validator: a url is accepted when either of two patterns matches
 * AT ITS START (`re.match`, anchored at the beginning only).
 *
 *   the loose pattern   `(?:https?:\/\/)?(?:www\.)?youtu\.?be(?:\.com)?\/?.*(?:watch|embed)?(?:.*v=|v\/|\/)([\w\-_]+)\&?`
 *   the exact pattern   `^https:\/\/youtu\.be\/[\w-]{11}$`
 *
 * The loose pattern is characterised by `LooseShape`; `MatchesLoose` is a
 * deterministic procedure proved equal to it. The exact pattern is accepted
 * only when the loose one is, so validation amounts to the loose pattern.
 */
module Validation {
  import opened Text

  /** The class `[\w\-_]` of the loose pattern's group. */
  predicate ParamChar(w: WordClass, c: char) {
    w(c) || c == '-' || c == '_'
  }

  /** The three strings `(?:https?:\/\/)?` can match. */
  const Schemes: seq<string> := ["", "http://", "https://"]

  function Www(present: bool): string {
    if present then "www." else ""
  }

  function Dot(present: bool): string {
    if present then "." else ""
  }

  /** What `(?:https?:\/\/)?(?:www\.)?youtu` matches for one choice of the optional parts. */
  function Front(scheme: nat, www: bool): (r: string)
    requires scheme < |Schemes|
    ensures |r| == |Schemes[scheme]| + |Www(www)| + 5
  {
    Schemes[scheme] + Www(www) + "youtu"
  }

  /** What `(?:https?:\/\/)?(?:www\.)?youtu\.?be` matches for one choice of the optional parts. */
  function Head(scheme: nat, www: bool, dot: bool): (r: string)
    requires scheme < |Schemes|
    ensures 7 <= |r| <= 20
  {
    Front(scheme, www) + Dot(dot) + "be"
  }

  /** `r[..k]` ends with `/` or with `v=`. */
  predicate SepBefore(r: string, k: nat)
    requires k <= |r|
  {
    (k >= 1 && r[k - 1] == '/') || (k >= 2 && r[k - 2] == 'v' && r[k - 1] == '=')
  }

  /**
   * The part after the head, `(?:\.com)?\/?.*(?:watch|embed)?(?:.*v=|v\/|\/)([\w\-_]+)\&?`,
   * matches some prefix of `r` exactly when a line-feed-free prefix of `r`
   * ends with `/` or `v=` and is followed by a character of `[\w\-_]`:
   * everything before the group is optional or `.*` except the final
   * `v=`, `v/` or `/`, and one group character suffices.
   */
  predicate TailAt(w: WordClass, r: string, k: nat)
    ensures TailAt(w, r, k) ==> 0 < k < |r| && (r[k - 1] == '/' || r[k - 1] == '=')
  {
    0 < k < |r| && NoNewline(r[..k]) && SepBefore(r, k) && ParamChar(w, r[k])
  }

  ghost predicate TailShape(w: WordClass, r: string) {
    exists k: nat :: TailAt(w, r, k)
  }

  /** The loose pattern matches at the start of `s`. */
  ghost predicate LooseShape(w: WordClass, s: string)
    ensures LooseShape(w, s) ==> |s| >= 9
  {
    exists scheme: nat, www: bool, dot: bool ::
      scheme < |Schemes| && StartsWith(s, Head(scheme, www, dot))
      && TailShape(w, s[|Head(scheme, www, dot)|..])
  }

  /** The length of the scheme `s` starts with, `https://` tried first. */
  function SchemeLength(s: string): (n: nat)
    ensures n == 0 || n == 7 || n == 8
    ensures n > 0 ==> StartsWith(s, Schemes[n - 6])
  {
    if StartsWith(s, "https://") then 8 else if StartsWith(s, "http://") then 7 else 0
  }

  /** The length of the head `s` starts with, if any; each optional part is taken when present. */
  function HeadLength(s: string): (r: Option<nat>)
    ensures r.Some? ==> 7 <= r.value <= |s| && s[r.value - 2..r.value] == "be"
  {
    var n1 := SchemeLength(s);
    var n2 := n1 + (if StartsWith(s[n1..], "www.") then 4 else 0);
    if !StartsWith(s[n2..], "youtu") then None
    else
      var n3 := n2 + 5 + (if StartsWith(s[n2 + 5..], ".") then 1 else 0);
      if StartsWith(s[n3..], "be") then Some(n3 + 2) else None
  }

  /** Tries every split point from `k` on, stopping at the first line feed. */
  function ScanTail(w: WordClass, r: string, k: nat): (b: bool)
    requires 1 <= k
    decreases |r| - k
    ensures b ==> exists j: nat :: k <= j < |r| && SepBefore(r, j) && ParamChar(w, r[j])
  {
    if k >= |r| || r[k - 1] == '\n' then false
    else (SepBefore(r, k) && ParamChar(w, r[k])) || ScanTail(w, r, k + 1)
  }

  function MatchesLoose(w: WordClass, s: string): (b: bool)
    ensures b ==> exists scheme: nat, www: bool, dot: bool ::
      scheme < |Schemes| && StartsWith(s, Head(scheme, www, dot))
  {
    match HeadLength(s)
    case None => false
    case Some(n) => HeadLengthSound(s); n <= |s| && ScanTail(w, s[n..], 1)
  }

  /** The exact pattern: the short-link prefix, eleven `[\w-]` characters, then the end or a final line feed (`$`). */
  predicate MatchesExact(w: WordClass, s: string)
    ensures MatchesExact(w, s) ==>
      |s| == |ShortPrefix| + 11 || (|s| == |ShortPrefix| + 12 && s[|s| - 1] == '\n')
  {
    StartsWith(s, ShortPrefix) && (|s| == 28 || (|s| == 29 && s[28] == '\n'))
    && IsIdShape(w, s[17..28])
  }

  datatype UrlPattern = Loose | Exact

  /** The validator's pattern list, in its order. */
  const UrlPatterns: seq<UrlPattern> := [Loose, Exact]

  predicate Matches(w: WordClass, p: UrlPattern, s: string) {
    match p
    case Loose => MatchesLoose(w, s)
    case Exact => MatchesExact(w, s)
  }

  /** `any(...)` over a pattern list. */
  function AnyMatches(w: WordClass, ps: seq<UrlPattern>, s: string): (r: bool)
    ensures r <==> exists k :: 0 <= k < |ps| && Matches(w, ps[k], s)
    decreases |ps|
  {
    if |ps| == 0 then false
    else if Matches(w, ps[0], s) then
      assert Matches(w, ps[0], s);
      true
    else
      var r := AnyMatches(w, ps[1..], s);
      assert forall k :: 1 <= k < |ps| ==> ps[k] == ps[1..][k - 1];
      r
  }

  /** The validator: accepted exactly when the loose pattern matches at the start. */
  function ValidateYoutubeUrl(w: WordClass, url: string): (r: bool)
    ensures r <==> LooseShape(w, url)
  {
    AnyMatchesIsLoose(w, url);
    LooseCorrect(w, url);
    AnyMatches(w, UrlPatterns, url)
  }

  /** The exact pattern adds nothing to the loose one. */
  lemma AnyMatchesIsLoose(w: WordClass, url: string)
    ensures AnyMatches(w, UrlPatterns, url) == MatchesLoose(w, url)
  {
    assert UrlPatterns[0] == Loose && UrlPatterns[1] == Exact;
    if MatchesExact(w, url) {
      ExactSubsumed(w, url);
    }
  }

  // ---------------------------------------------------------------------
  // The decision procedure for the loose pattern

  lemma StartsWithSplit(s: string, a: string, b: string)
    ensures StartsWith(s, a + b) <==> StartsWith(s, a) && StartsWith(s[|a|..], b)
  {
    if StartsWith(s, a) && StartsWith(s[|a|..], b) {
      assert s[..|a + b|] == s[..|a|] + s[|a|..][..|b|];
    }
    if StartsWith(s, a + b) {
      assert s[..|a|] == (a + b)[..|a|];
      assert s[|a|..][..|b|] == (a + b)[|a|..];
    }
  }

  lemma ScanTailCorrect(w: WordClass, r: string, k: nat)
    requires 1 <= k <= |r| + 1 && NoNewline(r[..k - 1])
    ensures ScanTail(w, r, k) <==> exists j: nat :: k <= j && TailAt(w, r, j)
    decreases |r| - k
  {
    if k >= |r| {
    } else if r[k - 1] == '\n' {
      forall j: nat | k <= j && j < |r|
        ensures !NoNewline(r[..j])
      {
        assert r[..j][k - 1] == '\n';
      }
    } else {
      assert r[..k] == r[..k - 1] + [r[k - 1]];
      ScanTailCorrect(w, r, k + 1);
      if TailAt(w, r, k) {
      } else {
        assert forall j: nat :: k <= j && TailAt(w, r, j) ==> k + 1 <= j;
      }
    }
  }

  lemma TailShapeScan(w: WordClass, r: string)
    ensures ScanTail(w, r, 1) <==> TailShape(w, r)
  {
    assert r[..0] == [];
    ScanTailCorrect(w, r, 1);
  }

  /** The head `HeadLength` finds is one of the twelve heads. */
  lemma HeadLengthSound(s: string)
    requires HeadLength(s).Some?
    ensures exists scheme: nat, www: bool, dot: bool ::
      scheme < |Schemes| && StartsWith(s, Head(scheme, www, dot))
      && |Head(scheme, www, dot)| == HeadLength(s).value
  {
    var n1 := SchemeLength(s);
    var scheme: nat := if n1 == 8 then 2 else if n1 == 7 then 1 else 0;
    assert |Schemes[scheme]| == n1 && StartsWith(s, Schemes[scheme]);
    var www := StartsWith(s[n1..], "www.");
    var n2 := n1 + |Www(www)|;
    var dot := StartsWith(s[n2 + 5..], ".");
    var n3 := n2 + 5 + |Dot(dot)|;
    assert HeadLength(s) == Some(n3 + 2);
    assert StartsWith(s[n1..], Www(www)) && StartsWith(s[n2..], "youtu");
    assert StartsWith(s[n2 + 5..], Dot(dot)) && StartsWith(s[n3..], "be");
    StartsWithSplit(s, Schemes[scheme], Www(www));
    StartsWithSplit(s, Schemes[scheme] + Www(www), "youtu");
    StartsWithSplit(s, Front(scheme, www), Dot(dot));
    StartsWithSplit(s, Front(scheme, www) + Dot(dot), "be");
    assert StartsWith(s, Head(scheme, www, dot));
  }

  /** Whichever head `s` starts with, `HeadLength` finds one of the same length. */
  lemma HeadLengthComplete(s: string, scheme: nat, www: bool, dot: bool)
    requires scheme < |Schemes| && StartsWith(s, Head(scheme, www, dot))
    ensures HeadLength(s) == Some(|Head(scheme, www, dot)|)
  {
    StartsWithSplit(s, Front(scheme, www) + Dot(dot), "be");
    StartsWithSplit(s, Front(scheme, www), Dot(dot));
    StartsWithSplit(s, Schemes[scheme] + Www(www), "youtu");
    StartsWithSplit(s, Schemes[scheme], Www(www));
    var n1 := |Schemes[scheme]|;
    SchemeLengthOf(s, scheme, www);
    var n2 := n1 + |Www(www)|;
    var n3 := n2 + 5 + |Dot(dot)|;
    assert |Schemes[scheme] + Www(www)| == n2 && |Front(scheme, www) + Dot(dot)| == n3;
    assert StartsWith(s[n1..], Www(www)) && StartsWith(s[n2..], "youtu") && StartsWith(s[n3..], "be");
    if !www {
      assert s[n1..][0] == 'y';
      assert !StartsWith(s[n1..], "www.");
    }
    if !dot {
      assert s[n2 + 5..] == s[n3..];
      assert s[n3..][0] == 'b';
      assert !StartsWith(s[n2 + 5..], ".");
    }
  }

  lemma SchemeLengthOf(s: string, scheme: nat, www: bool)
    requires scheme < |Schemes| && StartsWith(s, Front(scheme, www))
    ensures SchemeLength(s) == |Schemes[scheme]|
  {
    StartsWithSplit(s, Schemes[scheme] + Www(www), "youtu");
    StartsWithSplit(s, Schemes[scheme], Www(www));
    var rest := s[|Schemes[scheme]|..];
    assert rest[0] == (if www then 'w' else 'y');
    if scheme == 0 {
      assert s[0] == rest[0];
      assert !StartsWith(s, "https://") && !StartsWith(s, "http://");
    } else if scheme == 1 {
      assert s[4] == ':';
      assert !StartsWith(s, "https://");
    }
  }

  /** The deterministic procedure decides the loose pattern. */
  lemma LooseCorrect(w: WordClass, s: string)
    ensures MatchesLoose(w, s) <==> LooseShape(w, s)
  {
    if MatchesLoose(w, s) {
      HeadLengthSound(s);
      var n := HeadLength(s).value;
      var scheme: nat, www: bool, dot: bool :| scheme < |Schemes| && StartsWith(s, Head(scheme, www, dot))
        && |Head(scheme, www, dot)| == n;
      TailShapeScan(w, s[n..]);
    }
    if LooseShape(w, s) {
      var scheme: nat, www: bool, dot: bool :| scheme < |Schemes| && StartsWith(s, Head(scheme, www, dot))
        && TailShape(w, s[|Head(scheme, www, dot)|..]);
      HeadLengthComplete(s, scheme, www, dot);
      TailShapeScan(w, s[|Head(scheme, www, dot)|..]);
    }
  }

  // ---------------------------------------------------------------------
  // The exact pattern

  /** The exact pattern accepts the short-link prefix, an identifier and an optional final line feed, and nothing else. */
  lemma ExactIsShortLink(w: WordClass, s: string)
    ensures MatchesExact(w, s) <==>
      (|s| >= 28 && s == ShortPrefix + s[17..28] + s[28..] && IsIdShape(w, s[17..28])
       && (s[28..] == "" || s[28..] == "\n"))
  {
    assert |ShortPrefix| == 17;
    if MatchesExact(w, s) {
      assert s == s[..17] + s[17..28] + s[28..];
    }
  }

  lemma ExactAccepts(w: WordClass, id: string, tail: string)
    requires IsIdShape(w, id) && (tail == "" || tail == "\n")
    ensures MatchesExact(w, ShortPrefix + id + tail)
  {
    var s := ShortPrefix + id + tail;
    assert |ShortPrefix| == 17;
    assert s[..17] == ShortPrefix;
    assert s[17..28] == id;
  }

  lemma ShortPrefixHead()
    ensures ShortPrefix == Head(2, false, true) + "/"
  {
  }

  /** Whatever the exact pattern accepts, the loose one accepts too. */
  lemma ExactSubsumed(w: WordClass, s: string)
    requires MatchesExact(w, s)
    ensures MatchesLoose(w, s)
  {
    ShortPrefixHead();
    var head := Head(2, false, true);
    assert |head| == 16;
    assert s[..16] == head by {
      assert s[..16] == s[..17][..16];
    }
    var r := s[16..];
    assert r[0] == '/' && r[1] == s[17];
    assert IdChar(w, s[17]);
    if s[17] != '-' {
      assert w(r[1]);
    }
    assert TailAt(w, r, 1) by {
      assert r[..1] == "/";
    }
    LooseCorrect(w, s);
  }

  // ---------------------------------------------------------------------
  // Consequences

  /** The order of the two patterns does not matter. */
  lemma OrderIrrelevant(w: WordClass, url: string)
    ensures AnyMatches(w, [Exact, Loose], url) == ValidateYoutubeUrl(w, url)
  {
    var ps := [Exact, Loose];
    assert ps[0] == Exact && ps[1] == Loose;
    assert UrlPatterns[0] == Loose && UrlPatterns[1] == Exact;
  }

  /** A url that does not start with an optional scheme, optional `www.` and `youtu` is rejected. */
  lemma RejectsWithoutFront(w: WordClass, url: string)
    requires forall scheme: nat, www: bool :: scheme < |Schemes| ==> !StartsWith(url, Front(scheme, www))
    ensures !ValidateYoutubeUrl(w, url)
  {
    if LooseShape(w, url) {
      var scheme: nat, www: bool, dot: bool :| scheme < |Schemes| && StartsWith(url, Head(scheme, www, dot))
        && TailShape(w, url[|Head(scheme, www, dot)|..]);
      StartsWithSplit(url, Front(scheme, www) + Dot(dot), "be");
      StartsWithSplit(url, Front(scheme, www), Dot(dot));
    }
  }

  lemma EmptyRejected(w: WordClass)
    ensures !ValidateYoutubeUrl(w, "")
  {
    RejectsWithoutFront(w, "");
  }

  /** The loose pattern is not anchored at the end: whatever follows an accepted url is accepted too. */
  lemma ExtensionAccepted(w: WordClass, url: string, more: string)
    requires ValidateYoutubeUrl(w, url)
    ensures ValidateYoutubeUrl(w, url + more)
  {
    LooseExtension(w, url, more);
  }

  lemma LooseExtension(w: WordClass, url: string, more: string)
    requires LooseShape(w, url)
    ensures LooseShape(w, url + more)
  {
    var scheme: nat, www: bool, dot: bool :| scheme < |Schemes| && StartsWith(url, Head(scheme, www, dot))
      && TailShape(w, url[|Head(scheme, www, dot)|..]);
    var h := Head(scheme, www, dot);
    var s := url + more;
    StartsWithAppend(url, more, h);
    DropAppend(url, more, |h|);
    TailExtension(w, url[|h|..], more);
    assert StartsWith(s, Head(scheme, www, dot)) && TailShape(w, s[|Head(scheme, www, dot)|..]);
  }

  lemma TailExtension(w: WordClass, r: string, more: string)
    requires TailShape(w, r)
    ensures TailShape(w, r + more)
  {
    var k: nat :| TailAt(w, r, k);
    assert (r + more)[..k] == r[..k];
    assert TailAt(w, r + more, k);
  }

  /** The group may be a single character, and no `watch` or `embed` is needed. */
  lemma ShortestAccepted(w: WordClass, c: char)
    requires ParamChar(w, c)
    ensures ValidateYoutubeUrl(w, "youtube/" + [c])
  {
    var s := "youtube/" + [c];
    assert Head(0, false, false) == "youtube";
    assert StartsWith(s, Head(0, false, false));
    var r := s[7..];
    assert r == "/" + [c];
    assert TailAt(w, r, 1);
  }

  /** A line feed right after the head makes the url rejected, whatever follows it. */
  lemma LineFeedAfterHeadRejected(w: WordClass, scheme: nat, www: bool, dot: bool, rest: string)
    requires scheme < |Schemes|
    ensures !ValidateYoutubeUrl(w, Head(scheme, www, dot) + "\n" + rest)
  {
    var h := Head(scheme, www, dot);
    var s := h + "\n" + rest;
    assert StartsWith(s, h);
    HeadLengthComplete(s, scheme, www, dot);
    var r := s[|h|..];
    assert r[0] == '\n';
    forall k: nat | 0 < k < |r|
      ensures !NoNewline(r[..k])
    {
      assert r[..k][0] == '\n';
    }
    TailShapeScan(w, r);
    LooseCorrect(w, s);
  }
}
